/**
 * The pipe-delimited recommendation line
 * `<asset_id>|<campaign_name>|ACTION=<action>|WHY=<reason>|SUGGEST=<next step>`
 * and the two things read out of it: the id in field 0 and the action named
 * by the first `ACTION=` that is followed by a letter or underscore.
 */
module LineFormat {
  import opened Wrappers
  import opened Text
  import opened IntParse

  /** `ALLOWED_ACTIONS`. */
  const AllowedActions: set<string> := {"scale", "pause", "replace", "create_variation"}

  const ActionKey := "ACTION="

  /** The regular expression `ACTION=([a-zA-Z_]+)` matches starting at `p`. */
  predicate ActionMatchAt(s: string, p: int) {
    At(s, p, ActionKey) && p + 7 < |s| && IsWordChar(s[p + 7])
  }

  /** Where `re.search(r"ACTION=([a-zA-Z_]+)", s[from..])` finds its match. */
  function ActionPos(s: string, from: nat): (r: Option<nat>)
    decreases |s| - from
    ensures r.Some? ==> from <= r.value && ActionMatchAt(s, r.value)
    ensures r.Some? ==> forall q :: from <= q < r.value ==> !ActionMatchAt(s, q)
    ensures r.None? ==> forall q :: from <= q ==> !ActionMatchAt(s, q)
  {
    if from + 7 >= |s| then None
    else if ActionMatchAt(s, from) then Some(from)
    else ActionPos(s, from + 1)
  }

  /** Length of the run of `[a-zA-Z_]` characters starting at `i`. */
  function WordRun(s: string, i: nat): (n: nat)
    requires i <= |s|
    decreases |s| - i
    ensures i + n <= |s|
    ensures forall k :: i <= k < i + n ==> IsWordChar(s[k])
    ensures i + n < |s| ==> !IsWordChar(s[i + n])
  {
    if i < |s| && IsWordChar(s[i]) then 1 + WordRun(s, i + 1) else 0
  }

  /** A run of `n` word characters followed by a non-word character has length `n`. */
  lemma {:induction false} WordRunExact(s: string, i: nat, n: nat)
    requires i + n < |s| && !IsWordChar(s[i + n])
    requires forall k :: i <= k < i + n ==> IsWordChar(s[k])
    ensures WordRun(s, i) == n
    decreases n
  {
    if n > 0 {
      WordRunExact(s, i + 1, n - 1);
    }
  }

  /** `m.group(1)` of `re.search(r"ACTION=([a-zA-Z_]+)", s)`, or `None` when there is no match. */
  function ActionGroup(s: string): Option<string> {
    match ActionPos(s, 0)
    case None => None
    case Some(p) => Some(s[p + 7..p + 7 + WordRun(s, p + 7)])
  }

  /**
   * There is a group exactly when some `ACTION=` is followed by a letter or
   * underscore; it is then the whole `[a-zA-Z_]` run after the leftmost such
   * `ACTION=` (the position `ActionPos` finds).
   */
  lemma ActionGroupSpec(s: string)
    ensures ActionGroup(s).None? <==> forall p :: !ActionMatchAt(s, p)
    ensures ActionGroup(s).Some? ==>
      var a, p := ActionGroup(s).value, ActionPos(s, 0).value;
      && a == s[p + 7..p + 7 + |a|] && |a| >= 1
      && (forall k :: 0 <= k < |a| ==> IsWordChar(a[k]))
      && (p + 7 + |a| < |s| ==> !IsWordChar(s[p + 7 + |a|]))
  {
    if ActionGroup(s).Some? {
      ActionGroupRun(s);
    }
  }

  lemma ActionGroupRun(s: string)
    requires ActionGroup(s).Some?
    ensures var a, p := ActionGroup(s).value, ActionPos(s, 0).value;
      && a == s[p + 7..p + 7 + |a|] && |a| >= 1
      && (forall k :: 0 <= k < |a| ==> IsWordChar(a[k]))
      && (p + 7 + |a| < |s| ==> !IsWordChar(s[p + 7 + |a|]))
  {
    var p := ActionPos(s, 0).value;
    var n := WordRun(s, p + 7);
    var a := s[p + 7..p + 7 + n];
    assert ActionGroup(s) == Some(a);
    assert forall k :: 0 <= k < n ==> a[k] == s[p + 7 + k];
    assert IsWordChar(s[p + 7]);
  }

  /** The action of a line, lowercased as `m.group(1).lower()` does. */
  function ActionOf(s: string): Option<string> {
    match ActionGroup(s)
    case None => None
    case Some(a) => Some(Lower(a))
  }

  /** `int(line.split("|")[0])`, the id `_is_valid_line` reads. */
  function LineId(s: string): Option<int> {
    ParseInt(Split(s, '|')[0])
  }

  /** `_extract_id_and_action`. */
  function ExtractIdAndAction(s: string): (Option<int>, Option<string>) {
    (ParseInt(Strip(Split(s, '|')[0])), ActionOf(s))
  }

  /**
   * The id `_extract_id_and_action` reads is the id `_is_valid_line` reads,
   * whenever the latter has one, and always when field 0 holds no U+001C to
   * U+001F.
   */
  lemma ExtractedIdIsLineId(s: string)
    ensures LineId(s).Some? || NoSeparator(Split(s, '|')[0]) ==> ExtractIdAndAction(s).0 == LineId(s)
  {
    var f := Split(s, '|')[0];
    if LineId(s).Some? {
      ParsedIgnoresStrip(f);
    } else if NoSeparator(f) {
      ParseIgnoresSurroundingSpace(f);
    }
  }

  /** The two readings do differ on a leading separator: `"\x1c5|"` has id 5 for one and none for the other. */
  lemma SeparatorIdDiffers()
    ensures ExtractIdAndAction("\U{1C}5|").0 == Some(5)
    ensures LineId("\U{1C}5|") == None
  {
    var s := "\U{1C}5|";
    assert Split(s, '|')[0] == "\U{1C}5" by {
      assert s[1..] == "5|" && s[2..] == "|";
    }
    SeparatorNotSkipped();
  }

  /**
   * A line in the documented template
   * `<asset_id>|<campaign_name>|ACTION=<action>|WHY=<reason>|SUGGEST=<next step>`.
   */
  function FormatLine(id: int, campaign: string, action: string, why: string, suggest: string): string {
    FormatInt(id) + "|" + campaign + "|" + ActionKey + action + "|WHY=" + why + "|SUGGEST=" + suggest
  }

  /**
   * `_extract_id_and_action` reads back the id and the action a template line
   * was written with, provided the campaign name does not itself hold `ACTION=`.
   */
  lemma ExtractFormatLine(id: int, campaign: string, action: string, why: string, suggest: string)
    requires action in AllowedActions && !Contains(campaign, ActionKey)
    ensures ExtractIdAndAction(FormatLine(id, campaign, action, why, suggest)) == (Some(id), Some(action))
  {
    FormatLineId(id, campaign, action, why, suggest);
    FormatLineAction(id, campaign, action, why, suggest);
  }

  lemma FormatLineId(id: int, campaign: string, action: string, why: string, suggest: string)
    ensures ParseInt(Strip(Split(FormatLine(id, campaign, action, why, suggest), '|')[0])) == Some(id)
  {
    var line := FormatLine(id, campaign, action, why, suggest);
    var x := FormatInt(id);
    FormatIntChars(id);
    assert forall k :: 0 <= k < |x| ==> line[k] == x[k];
    SplitFirst(line, |x|, '|');
    assert line[..|x|] == x;
    assert !IsSpace(x[0]) && !IsSpace(x[|x| - 1]);
    StripUnpadded(x);
    ParseFormat(id);
  }

  lemma FormatLineAction(id: int, campaign: string, action: string, why: string, suggest: string)
    requires action in AllowedActions && !Contains(campaign, ActionKey)
    ensures ActionOf(FormatLine(id, campaign, action, why, suggest)) == Some(action)
  {
    var line := FormatLine(id, campaign, action, why, suggest);
    var x := FormatInt(id);
    var p0 := |x| + 1 + |campaign| + 1;
    FormatIntChars(id);
    AllowedWord(action);
    FormatLineLayout(id, campaign, action, why, suggest);
    ContainsIff(campaign, ActionKey);
    forall q | 0 <= q < p0 ensures !ActionMatchAt(line, q) {
      NoActionKeyBefore(line, x, campaign, q);
    }
    ActionOfAt(line, p0, action);
  }

  /** Where the pieces of a template line sit. */
  lemma FormatLineLayout(id: int, campaign: string, action: string, why: string, suggest: string)
    ensures var line, x := FormatLine(id, campaign, action, why, suggest), FormatInt(id);
      var m := |x|;
      var p0 := m + 1 + |campaign| + 1;
      && p0 + 7 + |action| < |line|
      && (forall k :: 0 <= k < m ==> line[k] == x[k])
      && line[m] == '|' && line[p0 - 1] == '|'
      && (forall j :: 0 <= j < |campaign| ==> line[m + 1 + j] == campaign[j])
      && line[p0..p0 + 7] == ActionKey
      && (forall j :: 0 <= j < |action| ==> line[p0 + 7 + j] == action[j])
      && line[p0 + 7 + |action|] == '|'
  {
    var x := FormatInt(id);
    var a := x + "|" + campaign + "|";
    var b := a + ActionKey + action;
    var line := FormatLine(id, campaign, action, why, suggest);
    assert line == b + ("|WHY=" + why + "|SUGGEST=" + suggest);
    assert forall k :: 0 <= k < |b| ==> line[k] == b[k];
    assert forall k :: 0 <= k < |a| ==> b[k] == a[k];
    assert b[|a|..|a| + 7] == ActionKey;
  }

  /** The action of a line whose leftmost `ACTION=` followed by a word character is at `p`, followed by `action` and a pipe. */
  lemma ActionOfAt(line: string, p: nat, action: string)
    requires action != [] && forall k :: 0 <= k < |action| ==> ('a' <= action[k] <= 'z' || action[k] == '_')
    requires p + 7 + |action| < |line| && line[p..p + 7] == ActionKey
    requires forall j :: 0 <= j < |action| ==> line[p + 7 + j] == action[j]
    requires line[p + 7 + |action|] == '|'
    requires forall q :: 0 <= q < p ==> !ActionMatchAt(line, q)
    ensures ActionOf(line) == Some(action)
  {
    assert ActionMatchAt(line, p) by {
      assert line[p + 7] == action[0];
    }
    assert ActionPos(line, 0) == Some(p);
    forall k | p + 7 <= k < p + 7 + |action| ensures IsWordChar(line[k]) {
      assert line[p + 7 + (k - p - 7)] == action[k - p - 7];
    }
    WordRunExact(line, p + 7, |action|);
    assert line[p + 7..p + 7 + |action|] == action;
    LowerOfLower(action);
  }

  /**
   * In a line that starts `x|campaign|`, with `x` written by `str()`, no
   * `ACTION=` starts before the second pipe unless the campaign holds one.
   */
  lemma NoActionKeyBefore(line: string, x: string, campaign: string, q: nat)
    requires forall k :: 0 <= k < |x| ==> x[k] == '-' || IsDigit(x[k])
    requires |x| + 1 + |campaign| < |line|
    requires forall k :: 0 <= k < |x| ==> line[k] == x[k]
    requires line[|x|] == '|' && line[|x| + 1 + |campaign|] == '|'
    requires forall j :: 0 <= j < |campaign| ==> line[|x| + 1 + j] == campaign[j]
    requires forall p :: !At(campaign, p, ActionKey)
    requires q < |x| + 1 + |campaign| + 1
    ensures !At(line, q, ActionKey)
  {
    var m := |x|;
    var e := m + 1 + |campaign|;
    if q + 7 > |line| {
    } else if q <= m < q + 7 {
      assert line[q..q + 7][m - q] == '|';
    } else if q <= e < q + 7 {
      assert line[q..q + 7][e - q] == '|';
    } else if q < m {
      assert line[q..q + 7][0] == x[q];
    } else {
      var p := q - m - 1;
      var u, v := line[q..q + 7], campaign[p..p + 7];
      assert u == v by {
        forall j | 0 <= j < 7 ensures u[j] == v[j] {
          assert line[m + 1 + (p + j)] == campaign[p + j];
        }
      }
      assert !At(campaign, p, ActionKey);
    }
  }

  /** Every allowed action is a non-empty run of lower-case letters and underscores. */
  lemma AllowedWord(a: string)
    requires a in AllowedActions
    ensures a != [] && forall k :: 0 <= k < |a| ==> ('a' <= a[k] <= 'z' || a[k] == '_')
  {
  }

  /** `lower()` leaves a string without upper-case letters as it is. */
  lemma LowerOfLower(a: string)
    requires forall k :: 0 <= k < |a| ==> !('A' <= a[k] <= 'Z')
    ensures Lower(a) == a
  {
  }
}
