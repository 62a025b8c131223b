/**
 * `_coerce_recommendation_response`: sanitize, validate, deduplicate and cap
 * the Google Ads lines, and strip and cap the Google Play suggestions.
 */
module Response {
  import opened Wrappers
  import opened Text
  import opened IntParse
  import opened LineFormat
  import opened Sanitize
  import opened Validate
  import opened RankSort
  import opened Collect
  import opened Payload
  import opened Dedupe

  /** `RecommendationResponse(google_ads=..., google_play=...)`. */
  datatype RecommendationResponse = RecommendationResponse(googleAds: seq<string>, googlePlay: seq<string>)

  /** The cap on Google Play suggestions. */
  const MaxPlay := 3

  /**
   * `str(x)` on the values the function-call schema allows: strings, and the
   * scalars `str` spells out. Arrays and objects are not rendered.
   */
  function StrOf(x: Json): string {
    match x
    case JStr(s) => s
    case JInt(n) => FormatInt(n)
    case JBool(b) => if b then "True" else "False"
    case JNull => "None"
    case _ => ""
  }

  function Strs(xs: seq<Json>): (r: seq<string>)
    ensures |r| == |xs| && forall i :: 0 <= i < |xs| ==> r[i] == StrOf(xs[i])
  {
    if xs == [] then [] else [StrOf(xs[0])] + Strs(xs[1..])
  }

  /** `[str(x) for x in (data.get(key) or [])]`; `None` where the iteration raises. */
  function RawLines(data: map<string, Json>, key: string): Option<seq<string>> {
    match Iterate(GetOr(data, key, JNull))
    case None => None
    case Some(xs) => Some(Strs(xs))
  }

  /** `[_sanitize_line(ln) for ln in raw_ads]`. */
  function SanitizeAll(raw: seq<string>): (r: seq<string>)
    ensures |r| == |raw| && forall i :: 0 <= i < |raw| ==> r[i] == SanitizeLine(raw[i])
  {
    if raw == [] then [] else [SanitizeLine(raw[0])] + SanitizeAll(raw[1..])
  }

  function Validator(ids: set<int>): string -> Option<string> {
    ln => if IsValidLine(ln, ids) then Some(ln) else None
  }

  /** `[ln for ln in ads_sanitized if _is_valid_line(ln, valid_ids)]`. */
  function ValidOnly(lines: seq<string>, ids: set<int>): seq<string> {
    FilterMap(lines, Validator(ids))
  }

  /** One element of `[s.strip() for s in raw_play if s and s.strip()]`. */
  function PlayItem(s: string): Option<string> {
    if s != [] && Strip(s) != [] then Some(Strip(s)) else None
  }

  /** The Google Play list: stripped, blanks dropped, cut to three. */
  function PlayFinal(raw: seq<string>): seq<string> {
    var kept := FilterMap(raw, PlayItem);
    if |kept| > MaxPlay then kept[..MaxPlay] else kept
  }

  /** `_coerce_recommendation_response`; `None` where it raises. */
  function Coerce(data: map<string, Json>, payload: map<string, Json>): Option<RecommendationResponse> {
    match AssetIds(payload)
    case None => None
    case Some(ids) =>
      match RawLines(data, "google_ads")
      case None => None
      case Some(ads) =>
        match RawLines(data, "google_play")
        case None => None
        case Some(play) =>
          Some(RecommendationResponse(Dedupe.Dedupe(ExtractIdAndAction, ValidOnly(SanitizeAll(ads), ids)), PlayFinal(play)))
  }

  /** `_coerce_recommendation_response`, calling the loops of the two helpers. */
  method CoerceRecommendationResponse(data: map<string, Json>, payload: map<string, Json>)
    returns (r: Option<RecommendationResponse>)
    ensures r == Coerce(data, payload)
  {
    var validIds := ValidAssetIdsFromPayload(payload);
    if validIds.None? {
      return None;
    }
    var rawAds := RawLines(data, "google_ads");
    if rawAds.None? {
      return None;
    }
    var rawPlay := RawLines(data, "google_play");
    if rawPlay.None? {
      return None;
    }
    var adsSanitized := SanitizeAll(rawAds.value);
    var adsValid := ValidOnly(adsSanitized, validIds.value);
    var adsFinal := DedupeAndLimit(ExtractIdAndAction, adsValid);
    var playFinal := PlayFinal(rawPlay.value);
    r := Some(RecommendationResponse(adsFinal, playFinal));
  }

  // ----- properties -----

  /** The validated lines are exactly the accepted ones among the input. */
  lemma ValidOnlySpec(lines: seq<string>, ids: set<int>)
    ensures forall ln :: ln in ValidOnly(lines, ids) ==> ln in lines && IsValidLine(ln, ids)
    ensures forall ln :: ln in lines && IsValidLine(ln, ids) ==> ln in ValidOnly(lines, ids)
  {
    FilterMapSpec(lines, Validator(ids));
    forall ln | ln in ValidOnly(lines, ids) ensures ln in lines && IsValidLine(ln, ids) {
      var i :| 0 <= i < |lines| && Validator(ids)(lines[i]) == Some(ln);
    }
    forall ln | ln in lines && IsValidLine(ln, ids) ensures ln in ValidOnly(lines, ids) {
      var i :| 0 <= i < |lines| && lines[i] == ln;
    }
  }

  /**
   * Every Google Ads line of the response is the sanitized form of an input
   * line and passed validation against the payload's id set.
   */
  lemma AdsAreSanitizedAndValid(data: map<string, Json>, payload: map<string, Json>)
    requires Coerce(data, payload).Some?
    ensures AssetIds(payload).Some? && RawLines(data, "google_ads").Some?
    ensures forall g :: g in Coerce(data, payload).value.googleAds ==>
      IsValidLine(g, AssetIds(payload).value)
      && exists i :: 0 <= i < |RawLines(data, "google_ads").value|
                     && g == SanitizeLine(RawLines(data, "google_ads").value[i])
  {
    var ids := AssetIds(payload).value;
    var ads := RawLines(data, "google_ads").value;
    var s := SanitizeAll(ads);
    var v := ValidOnly(s, ids);
    DedupeKept(ExtractIdAndAction, v);
    ValidOnlySpec(s, ids);
    forall g | g in Dedupe.Dedupe(ExtractIdAndAction, v)
      ensures IsValidLine(g, ids) && exists i :: 0 <= i < |ads| && g == SanitizeLine(ads[i])
    {
      var i :| 0 <= i < |s| && s[i] == g;
    }
  }

  /**
   * On a sanitized line, the only kind the pipeline deduplicates, the id
   * `_extract_id_and_action` reads is the id `_is_valid_line` checked.
   */
  lemma SanitizedIdIsLineId(raw: string)
    ensures ExtractIdAndAction(SanitizeLine(raw)).0 == LineId(SanitizeLine(raw))
  {
    var ln := SanitizeLine(raw);
    var f := Split(ln, '|')[0];
    SanitizeLineSpec(raw);
    SplitHead(ln, '|');
    forall i | 0 <= i < |f| ensures !IsSeparator(f[i]) {
      assert f[i] == ln[i];
    }
    ExtractedIdIsLineId(ln);
  }

  /** The Google Ads list: at most fifteen lines, sorted by action rank, no asset id twice. */
  lemma AdsRankedAndDistinct(data: map<string, Json>, payload: map<string, Json>)
    requires Coerce(data, payload).Some?
    ensures |Coerce(data, payload).value.googleAds| <= MaxLines
    ensures Sorted(Coerce(data, payload).value.googleAds, RankKey(ExtractIdAndAction))
    ensures DistinctBy(Coerce(data, payload).value.googleAds, IdKey(ExtractIdAndAction))
  {
    var ids := AssetIds(payload).value;
    var ads := RawLines(data, "google_ads").value;
    var v := ValidOnly(SanitizeAll(ads), ids);
    DedupeLength(ExtractIdAndAction, v);
    DedupeSortedDistinct(ExtractIdAndAction, v);
  }

  /** The Google Play list: at most three stripped, non-blank inputs; `PlayFinalOrder` states their order. */
  lemma PlayFinalSpec(raw: seq<string>)
    ensures |PlayFinal(raw)| <= MaxPlay
    ensures forall t :: t in PlayFinal(raw) ==>
      t != [] && Strip(t) == t && exists i :: 0 <= i < |raw| && t == Strip(raw[i])
    ensures |FilterMap(raw, PlayItem)| <= MaxPlay ==>
      forall i :: 0 <= i < |raw| && Strip(raw[i]) != [] ==> Strip(raw[i]) in PlayFinal(raw)
  {
    PlayFinalItems(raw);
    PlayFinalAll(raw);
  }

  lemma PlayFinalItems(raw: seq<string>)
    ensures forall t :: t in PlayFinal(raw) ==>
      t != [] && Strip(t) == t && exists i :: 0 <= i < |raw| && t == Strip(raw[i])
  {
    FilterMapSpec(raw, PlayItem);
    forall t | t in PlayFinal(raw)
      ensures t != [] && Strip(t) == t && exists i :: 0 <= i < |raw| && t == Strip(raw[i])
    {
      assert t in FilterMap(raw, PlayItem);
      var i :| 0 <= i < |raw| && PlayItem(raw[i]) == Some(t);
      StripIdempotent(raw[i]);
    }
  }

  lemma PlayFinalAll(raw: seq<string>)
    ensures |FilterMap(raw, PlayItem)| <= MaxPlay ==>
      forall i :: 0 <= i < |raw| && Strip(raw[i]) != [] ==> Strip(raw[i]) in PlayFinal(raw)
  {
    FilterMapSpec(raw, PlayItem);
  }

  /**
   * The Google Play list keeps the input order. With `idx` the positions of
   * the non-blank suggestions, in increasing order, the list is the first
   * three of them (all of them when there are fewer), each stripped.
   */
  lemma PlayFinalOrder(raw: seq<string>)
    ensures var idx := Accepted(raw, PlayItem);
      && (forall i :: 0 <= i < |raw| ==> (Strip(raw[i]) != [] <==> i in idx))
      && (forall k, k' :: 0 <= k < k' < |idx| ==> idx[k] < idx[k'])
      && |PlayFinal(raw)| == (if |idx| < MaxPlay then |idx| else MaxPlay)
      && (forall k :: 0 <= k < |PlayFinal(raw)| ==> PlayFinal(raw)[k] == Strip(raw[idx[k]]))
  {
    var idx := Accepted(raw, PlayItem);
    FilterMapIndexed(raw, PlayItem);
    forall i | 0 <= i < |raw| ensures Strip(raw[i]) != [] <==> i in idx {
      if i in idx {
        var k :| 0 <= k < |idx| && idx[k] == i;
      }
    }
  }

  /** A later suggestion never overtakes an earlier one: the list is built front to back. */
  lemma PlayFinalConcat(a: seq<string>, b: seq<string>)
    requires |FilterMap(a, PlayItem)| >= MaxPlay
    ensures PlayFinal(a + b) == PlayFinal(a)
  {
    FilterMapConcat(a, b, PlayItem);
    var ka, kb := FilterMap(a, PlayItem), FilterMap(b, PlayItem);
    assert (ka + kb)[..MaxPlay] == ka[..MaxPlay];
  }

  /**
   * The payload the pipeline builds has no asset time series, so the id check
   * is skipped: the response is the one obtained with no payload at all.
   */
  lemma CompactPayloadSkipsIdCheck(data: map<string, Json>, ads: seq<map<string, Json>>, play: seq<map<string, Json>>)
    ensures Coerce(data, BuildCompactJson(ads, play)) == Coerce(data, map[])
  {
    CompactPayloadHasNoIds(ads, play);
    NoAssetsNoIds(map[]);
  }

  /** With asset ids in the payload, a line whose id is not among them never reaches the response. */
  lemma ForeignIdsRejected(data: map<string, Json>, payload: map<string, Json>, g: string)
    requires Coerce(data, payload).Some? && AssetIds(payload).Some? && AssetIds(payload).value != {}
    requires g in Coerce(data, payload).value.googleAds
    ensures LineId(g).Some? && LineId(g).value in AssetIds(payload).value
  {
    AdsAreSanitizedAndValid(data, payload);
    EmptyIdSetSkipsMembership(g, AssetIds(payload).value);
    AcceptedFields(g, AssetIds(payload).value);
  }
}
