/**
 * The request payload as JSON values, and the set of asset ids that
 * `_valid_asset_ids_from_payload` reads from it.
 */
module Payload {
  import opened Wrappers
  import opened IntParse

  /** A decoded JSON value. Floats are not modelled. */
  datatype Json =
    | JNull
    | JBool(b: bool)
    | JInt(n: int)
    | JStr(s: string)
    | JList(items: seq<Json>)
    | JObj(fields: map<string, Json>)

  /** The key the id set is read from. */
  const AssetsKey := "google_ads_assets_time_series"

  /** Python truthiness, as `v or []` tests it. */
  predicate Truthy(v: Json) {
    match v
    case JNull => false
    case JBool(b) => b
    case JInt(n) => n != 0
    case JStr(s) => s != []
    case JList(items) => items != []
    case JObj(fields) => fields != map[]
  }

  /**
   * The elements `for x in (v or [])` visits; `None` where Python raises
   * `TypeError` because a truthy number or boolean is not iterable. A string
   * yields its characters. An object yields its keys, which the model, with
   * unordered objects, does not list.
   */
  function Iterate(v: Json): (r: Option<seq<Json>>)
    ensures !Truthy(v) ==> r == Some([])
    ensures r.None? <==> Truthy(v) && (v.JInt? || v.JBool?)
  {
    if !Truthy(v) then Some([])
    else
      match v
      case JList(items) => Some(items)
      case JStr(s) => Some(Chars(s))
      case JObj(_) => Some([])
      case _ => None
  }

  /** The one-character strings iterating over `s` yields. */
  function Chars(s: string): (r: seq<Json>)
    ensures |r| == |s| && forall i :: 0 <= i < |s| ==> r[i] == JStr([s[i]])
  {
    if s == [] then [] else [JStr([s[0]])] + Chars(s[1..])
  }

  /** `d.get(k, default)`. */
  function GetOr(d: map<string, Json>, k: string, default: Json): Json {
    if k in d then d[k] else default
  }

  /** `int(v)`; `None` where Python raises (`int(None)`, `int([])`, a malformed string). */
  function IntOf(v: Json): Option<int> {
    match v
    case JInt(n) => Some(n)
    case JBool(b) => Some(if b then 1 else 0)
    case JStr(s) => ParseInt(s)
    case _ => None
  }

  /** `int(item.get("asset_id"))`, `None` where the `try` block raises: only objects have `get`. */
  function AssetIdOf(item: Json): Option<int> {
    match item
    case JObj(fields) => IntOf(GetOr(fields, "asset_id", JNull))
    case _ => None
  }

  /** The ids the loop adds, item by item. */
  function IdSet(items: seq<Json>): set<int> {
    if items == [] then {}
    else
      IdSet(items[..|items| - 1])
      + match AssetIdOf(items[|items| - 1]) case None => {} case Some(n) => {n}
  }

  /** The items the loop visits. */
  function AssetItems(payload: map<string, Json>): Option<seq<Json>> {
    Iterate(GetOr(payload, AssetsKey, JList([])))
  }

  /** `_valid_asset_ids_from_payload`; `None` where the iteration itself raises. */
  function AssetIds(payload: map<string, Json>): Option<set<int>> {
    match AssetItems(payload)
    case None => None
    case Some(items) => Some(IdSet(items))
  }

  /** The id set holds exactly the ids of the items whose id parses. */
  lemma {:induction false} IdSetSpec(items: seq<Json>, n: int)
    ensures n in IdSet(items) <==> exists i :: 0 <= i < |items| && AssetIdOf(items[i]) == Some(n)
  {
    if items != [] {
      var init := items[..|items| - 1];
      IdSetSpec(init, n);
      assert forall i :: 0 <= i < |init| ==> init[i] == items[i];
      if AssetIdOf(items[|items| - 1]) == Some(n) {
        assert n in IdSet(items);
      }
    }
  }

  /** An absent key, or one holding a falsy value, gives the empty set. */
  lemma NoAssetsNoIds(payload: map<string, Json>)
    requires AssetsKey !in payload || !Truthy(payload[AssetsKey])
    ensures AssetIds(payload) == Some({})
  {
  }

  /** `_valid_asset_ids_from_payload` step by step. */
  method ValidAssetIdsFromPayload(payload: map<string, Json>) returns (ids: Option<set<int>>)
    ensures ids == AssetIds(payload)
  {
    var items := AssetItems(payload);
    if items.None? {
      return None;
    }
    var xs := items.value;
    var acc: set<int> := {};
    var i := 0;
    while i < |xs|
      invariant 0 <= i <= |xs|
      invariant acc == IdSet(xs[..i])
    {
      var id := AssetIdOf(xs[i]);
      if id.Some? {
        acc := acc + {id.value};
      }
      assert xs[..i + 1][..i] == xs[..i];
      i := i + 1;
    }
    assert xs[..i] == xs;
    ids := Some(acc);
  }

  /** `build_compact_json`: the export tables, as lists of records. */
  function BuildCompactJson(ads: seq<map<string, Json>>, play: seq<map<string, Json>>): map<string, Json> {
    map[
      "google_ads" := JList(seq(|ads|, i requires 0 <= i < |ads| => JObj(ads[i]))),
      "google_play" := JList(seq(|play|, i requires 0 <= i < |play| => JObj(play[i])))
    ]
  }

  /** The payload the pipeline builds has no asset time series, so its id set is empty. */
  lemma CompactPayloadHasNoIds(ads: seq<map<string, Json>>, play: seq<map<string, Json>>)
    ensures AssetsKey !in BuildCompactJson(ads, play)
    ensures AssetIds(BuildCompactJson(ads, play)) == Some({})
  {
    var p := BuildCompactJson(ads, play);
    assert p.Keys == {"google_ads", "google_play"};
    assert AssetsKey != "google_ads" && AssetsKey != "google_play";
  }
}
