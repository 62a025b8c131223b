/**
 * Structural and semantic validation of one sanitised line against the set of
 * asset ids read from the payload (`_is_valid_line`).
 */
module Validate {
  import opened Wrappers
  import opened Text
  import opened IntParse
  import opened LineFormat

  /**
   * `re.search(r"WHY=[^|]*\|[^A-Z]", s)` matches with `WHY=` at `p` and the
   * pipe at `q`: the first `|` after that `WHY=` is followed by a character
   * that is not an upper-case ASCII letter.
   */
  ghost predicate WhyHazardAt(s: string, p: int, q: int) {
    && At(s, p, "WHY=") && p + 4 <= q && q + 1 < |s|
    && s[q] == '|' && !IsUpper(s[q + 1])
    && forall k :: p + 4 <= k < q ==> s[k] != '|'
  }

  /** `pat` occurs at `p` and a pipe follows it at `q`. */
  ghost predicate PipeAfterAt(s: string, pat: string, p: int, q: int) {
    At(s, p, pat) && p + |pat| <= q < |s| && s[q] == '|'
  }

  /** `re.search(r"SUGGEST=[^|]*\|", s)` matches with `SUGGEST=` at `p` and a pipe at `q`. */
  ghost predicate SuggestHazardAt(s: string, p: int, q: int) {
    PipeAfterAt(s, "SUGGEST=", p, q)
  }

  /** The `WHY=` at `p` fails the guard. */
  predicate WhyHazardHere(s: string, p: nat) {
    match FindChar(s, '|', p + 4)
    case None => false
    case Some(q) => q + 1 < |s| && !IsUpper(s[q + 1])
  }

  /** `re.search(r"WHY=[^|]*\|[^A-Z]", s[from..])` finds a match (tried at each `WHY=` in turn). */
  predicate WhyHazardFrom(s: string, from: nat)
    decreases |s| - from
  {
    match Find(s, "WHY=", from)
    case None => false
    case Some(p) => WhyHazardHere(s, p) || WhyHazardFrom(s, p + 1)
  }

  /** Some occurrence of `pat` at or after `from` is followed, anywhere later, by a pipe (tried at each occurrence in turn). */
  predicate PipeAfterFrom(s: string, pat: string, from: nat)
    decreases |s| - from
  {
    match Find(s, pat, from)
    case None => false
    case Some(p) => FindChar(s, '|', p + |pat|).Some? || PipeAfterFrom(s, pat, p + 1)
  }

  /** `re.search(r"SUGGEST=[^|]*\|", s[from..])` finds a match. */
  predicate SuggestHazardFrom(s: string, from: nat) {
    PipeAfterFrom(s, "SUGGEST=", from)
  }

  /** `_is_valid_line`. */
  predicate IsValidLine(line: string, validIds: set<int>) {
    if line == [] || '|' !in line then false
    else
      var parts := Split(line, '|');
      if |parts| < 5 then false
      else match ParseInt(parts[0])
        case None => false
        case Some(id) =>
          if validIds != {} && id !in validIds then false
          else match ActionGroup(line)
            case None => false
            case Some(a) =>
              if Lower(a) !in AllowedActions then false
              else if !Contains(line, "WHY=") || !Contains(line, "SUGGEST=") then false
              else if WhyHazardFrom(line, 0) then false
              else if SuggestHazardFrom(line, 0) then false
              else true
  }

  // ----- the searches mean what the regular expressions say -----

  lemma WhyHazardHereIff(s: string, p: nat)
    requires At(s, p, "WHY=")
    ensures WhyHazardHere(s, p) <==> exists q :: WhyHazardAt(s, p, q)
  {
    match FindChar(s, '|', p + 4)
    case None =>
    case Some(q) =>
      if WhyHazardHere(s, p) {
        assert WhyHazardAt(s, p, q);
      }
      forall q' | WhyHazardAt(s, p, q') ensures q' == q {
        FirstPipeUnique(s, p + 4, q, q');
      }
  }

  /** Two positions that are each the first pipe at or after `lo` are the same. */
  lemma FirstPipeUnique(s: string, lo: int, a: int, b: int)
    requires 0 <= lo <= a < |s| && lo <= b < |s| && s[a] == '|' && s[b] == '|'
    requires forall k :: lo <= k < a ==> s[k] != '|'
    requires forall k :: lo <= k < b ==> s[k] != '|'
    ensures a == b
  {
  }

  lemma {:induction false} WhyHazardFromIff(s: string, from: nat)
    ensures WhyHazardFrom(s, from) <==> exists p, q :: from <= p && WhyHazardAt(s, p, q)
    decreases |s| - from
  {
    match Find(s, "WHY=", from)
    case None =>
    case Some(p0) =>
      WhyHazardHereIff(s, p0);
      WhyHazardFromIff(s, p0 + 1);
      if WhyHazardHere(s, p0) {
        var q :| WhyHazardAt(s, p0, q);
        assert from <= p0;
      }
      if exists p, q :: from <= p && WhyHazardAt(s, p, q) {
        var p, q :| from <= p && WhyHazardAt(s, p, q);
        assert At(s, p, "WHY=");
        if p == p0 {
          assert WhyHazardHere(s, p0);
        } else {
          assert p0 + 1 <= p;
        }
      }
  }

  lemma SuggestHazardFromIff(s: string, from: nat)
    ensures SuggestHazardFrom(s, from) <==> exists p, q :: from <= p && SuggestHazardAt(s, p, q)
  {
    PipeAfterFromIff(s, "SUGGEST=", from);
    if SuggestHazardFrom(s, from) {
      var p, q :| from <= p && PipeAfterAt(s, "SUGGEST=", p, q);
      assert SuggestHazardAt(s, p, q);
    }
  }

  lemma {:induction false} PipeAfterFromIff(s: string, pat: string, from: nat)
    ensures PipeAfterFrom(s, pat, from) <==> exists p, q :: from <= p && PipeAfterAt(s, pat, p, q)
    decreases |s| - from
  {
    match Find(s, pat, from)
    case None =>
    case Some(p0) =>
      PipeAfterFromIff(s, pat, p0 + 1);
      if FindChar(s, '|', p0 + |pat|).Some? {
        var q := FindChar(s, '|', p0 + |pat|).value;
        assert PipeAfterAt(s, pat, p0, q);
      }
      if exists p, q :: from <= p && PipeAfterAt(s, pat, p, q) {
        var p, q :| from <= p && PipeAfterAt(s, pat, p, q);
        if p == p0 {
          assert FindChar(s, '|', p0 + |pat|).Some?;
        } else {
          assert p0 + 1 <= p;
        }
      }
  }

  // ----- what an accepted line looks like -----

  /**
   * `_is_valid_line` accepts exactly the lines that have at least four pipes
   * (five fields), an integer in field 0 that is in the id set unless that set
   * is empty, an allowed action after the first `ACTION=`, both markers `WHY=`
   * and `SUGGEST=`, no `WHY=` whose next pipe is followed by anything but an
   * upper-case letter, and no pipe anywhere after a `SUGGEST=`.
   */
  lemma IsValidLineIff(line: string, validIds: set<int>)
    ensures IsValidLine(line, validIds) <==>
      && Count(line, '|') >= 4
      && LineId(line).Some?
      && (validIds != {} ==> LineId(line).value in validIds)
      && ActionOf(line).Some? && ActionOf(line).value in AllowedActions
      && (exists p :: At(line, p, "WHY="))
      && (exists p :: At(line, p, "SUGGEST="))
      && !(exists p, q :: 0 <= p && WhyHazardAt(line, p, q))
      && !(exists p, q :: 0 <= p && SuggestHazardAt(line, p, q))
  {
    SplitLength(line, '|');
    ContainsIff(line, "WHY=");
    ContainsIff(line, "SUGGEST=");
    WhyHazardFromIff(line, 0);
    SuggestHazardFromIff(line, 0);
    if Count(line, '|') >= 4 {
      CountedIsPresent(line, '|');
    }
  }

  lemma {:induction false} CountedIsPresent(s: string, c: char)
    requires Count(s, c) > 0
    ensures s != [] && c in s
  {
    if s[0] != c {
      CountedIsPresent(s[1..], c);
      assert c in s[1..];
    }
  }

  /** The id-set check is the only thing the id set decides, and an empty set lets every id through. */
  lemma EmptyIdSetSkipsMembership(line: string, validIds: set<int>)
    ensures IsValidLine(line, validIds) <==>
      IsValidLine(line, {}) && (validIds != {} ==> LineId(line).value in validIds)
  {
  }

  /** An accepted line splits into at least five fields and carries an id and an allowed action. */
  lemma AcceptedFields(line: string, validIds: set<int>)
    requires IsValidLine(line, validIds)
    ensures |Split(line, '|')| >= 5
    ensures LineId(line).Some? && ActionOf(line).Some?
    ensures ActionOf(line).value in AllowedActions
  {
  }

  /** After any `SUGGEST=` of an accepted line there is no pipe at all. */
  lemma AcceptedSuggestPipeFree(line: string, validIds: set<int>, p: nat, q: nat)
    requires IsValidLine(line, validIds)
    requires At(line, p, "SUGGEST=") && p + 8 <= q < |line|
    ensures line[q] != '|'
  {
    IsValidLineIff(line, validIds);
    assert line[q] == '|' ==> SuggestHazardAt(line, p, q);
  }

  /** In an accepted line, the first pipe after any `WHY=` (unless it ends the line) precedes an upper-case letter. */
  lemma AcceptedWhyPipeThenUpper(line: string, validIds: set<int>, p: nat, q: nat)
    requires IsValidLine(line, validIds)
    requires At(line, p, "WHY=") && p + 4 <= q && q + 1 < |line| && line[q] == '|'
    requires forall k :: p + 4 <= k < q ==> line[k] != '|'
    ensures IsUpper(line[q + 1])
  {
    IsValidLineIff(line, validIds);
    assert !IsUpper(line[q + 1]) ==> WhyHazardAt(line, p, q);
  }
}
