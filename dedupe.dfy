/**
 * Deduplication and ranking of validated lines (`_dedupe_and_limit`): one
 * line per asset id, the one with the most decisive action (earliest on a
 * tie), sorted stably by action rank and cut to fifteen lines.
 */
module Dedupe {
  import opened Wrappers
  import opened LineFormat
  import opened RankSort
  import opened Collect

  /** The cap on the number of lines returned. */
  const MaxLines := 15

  /** An entry of the `parsed` list: `(asset_id, action, line)`. */
  datatype Candidate = Candidate(id: int, action: string, line: string)

  /** `action_rank.get(act, 9)`: lower is more decisive. */
  function Rank(action: string): nat {
    if action == "scale" then 0
    else if action == "pause" then 1
    else if action == "create_variation" then 2
    else if action == "replace" then 3
    else 9
  }

  /**
   * What `_extract_id_and_action` returns for a line: its leading asset id and
   * its lower-cased action, each when present. The functions below take it as
   * a parameter; `ExtractIdAndAction` is the one the program uses.
   */
  type Extractor = string -> (Option<int>, Option<string>)

  /** The sort key `action_rank.get(_extract_id_and_action(ln)[1] or "", 9)`. */
  function LineRank(ex: Extractor, ln: string): nat {
    Rank(ex(ln).1.GetOr(""))
  }

  function RankKey(ex: Extractor): string -> nat {
    ln => LineRank(ex, ln)
  }

  /** The asset id a line carries, if any. */
  function IdKey(ex: Extractor): string -> Option<int> {
    ln => ex(ln).0
  }

  /** An entry of `parsed`, for the lines that yield both an id and an action. */
  function Parse(ex: Extractor, ln: string): (r: Option<Candidate>)
    ensures r.None? <==> ex(ln).0.None? || ex(ln).1.None?
    ensures r.Some? ==> r.value.line == ln && ex(ln).0 == Some(r.value.id)
    ensures r.Some? ==> LineRank(ex, ln) == Rank(r.value.action)
  {
    var (id, act) := ex(ln);
    if id.Some? && act.Some? then Some(Candidate(id.value, act.value, ln)) else None
  }

  function Parser(ex: Extractor): string -> Option<Candidate> {
    ln => Parse(ex, ln)
  }

  /** The `parsed` list built by the first loop. */
  function Candidates(ex: Extractor, lines: seq<string>): seq<Candidate> {
    FilterMap(lines, Parser(ex))
  }

  /** The asset ids that occur among the candidates. */
  function Ids(cs: seq<Candidate>): set<int> {
    set c | c in cs :: c.id
  }

  /** The dictionary `best_by_id` (rank and line per id) with its insertion order. */
  datatype Tally = Tally(order: seq<int>, best: map<int, (nat, string)>)

  /** One pass of the second loop: a new id, or a strictly lower rank, replaces the entry. */
  function Step(t: Tally, c: Candidate): Tally {
    var rank := Rank(c.action);
    if c.id !in t.best then Tally(t.order + [c.id], t.best[c.id := (rank, c.line)])
    else if rank < t.best[c.id].0 then Tally(t.order, t.best[c.id := (rank, c.line)])
    else t
  }

  function TallyOf(cs: seq<Candidate>): Tally {
    if cs == [] then Tally([], map[]) else Step(TallyOf(cs[..|cs| - 1]), cs[|cs| - 1])
  }

  predicate Distinct(s: seq<int>) {
    forall i, j :: 0 <= i < j < |s| ==> s[i] != s[j]
  }

  /** The insertion order lists exactly the keys of the dictionary, once each. */
  predicate OrderKeyed(t: Tally) {
    (forall m :: 0 <= m < |t.order| ==> t.order[m] in t.best)
    && (forall k :: k in t.best ==> k in t.order)
    && Distinct(t.order)
  }

  /** `[v[1] for v in best_by_id.values()]`, in insertion order. */
  function Winners(t: Tally): (w: seq<string>)
    requires OrderKeyed(t)
    ensures |w| == |t.order|
    ensures forall m :: 0 <= m < |w| ==> w[m] == t.best[t.order[m]].1
  {
    seq(|t.order|, m requires 0 <= m < |t.order| => t.best[t.order[m]].1)
  }

  /**
   * Candidate `i` is the one kept for its id: every earlier candidate with the
   * same id has a strictly larger rank, every later one a rank not smaller.
   */
  ghost predicate IsBestAt(cs: seq<Candidate>, i: int) {
    0 <= i < |cs|
    && forall j :: 0 <= j < |cs| && cs[j].id == cs[i].id ==>
         (j < i ==> Rank(cs[i].action) < Rank(cs[j].action))
         && (i <= j ==> Rank(cs[i].action) <= Rank(cs[j].action))
  }

  /** Id `a` occurs in `cs` before the first occurrence of id `b`. */
  ghost predicate AppearsBefore(cs: seq<Candidate>, a: int, b: int) {
    exists i :: 0 <= i < |cs| && cs[i].id == a && forall j :: 0 <= j <= i ==> cs[j].id != b
  }

  /** Candidate `i` is kept for its id, and `ln` is its line. */
  ghost predicate KeptBest(cs: seq<Candidate>, ln: string) {
    exists i :: IsBestAt(cs, i) && cs[i].line == ln
  }

  /** `unique_lines` before the sort. */
  function WinnersOf(ex: Extractor, lines: seq<string>): seq<string> {
    TallyKeys(Candidates(ex, lines));
    Winners(TallyOf(Candidates(ex, lines)))
  }

  /** `_dedupe_and_limit`. */
  function Dedupe(ex: Extractor, lines: seq<string>): seq<string> {
    if lines == [] then []
    else
      var u := SortByKey(WinnersOf(ex, lines), RankKey(ex));
      if |u| > MaxLines then u[..MaxLines] else u
  }

  function Min(a: nat, b: nat): nat {
    if a <= b then a else b
  }

  // ----- the tally -----

  lemma IdsSnoc(cs: seq<Candidate>, c: Candidate)
    ensures Ids(cs + [c]) == Ids(cs) + {c.id}
  {
    assert forall x :: x in cs + [c] <==> x in cs || x == c;
  }

  /** The dictionary's keys are the ids seen; the order lists them once each. */
  lemma {:induction false} TallyKeys(cs: seq<Candidate>)
    ensures OrderKeyed(TallyOf(cs))
    ensures TallyOf(cs).best.Keys == Ids(cs)
  {
    if cs != [] {
      var init, c := cs[..|cs| - 1], cs[|cs| - 1];
      TallyKeys(init);
      assert cs == init + [c];
      IdsSnoc(init, c);
      StepKeyed(TallyOf(init), c);
    }
  }

  /** One step keeps the order and the keys in agreement, adding the candidate's id. */
  lemma StepKeyed(t: Tally, c: Candidate)
    requires OrderKeyed(t)
    ensures OrderKeyed(Step(t, c)) && Step(t, c).best.Keys == t.best.Keys + {c.id}
  {
    var t' := Step(t, c);
    if c.id !in t.best {
      var o := t'.order;
      assert o == t.order + [c.id];
      forall m | 0 <= m < |o| ensures o[m] in t'.best {
        if m < |t.order| {
          assert o[m] == t.order[m];
        }
      }
      forall m, m' | 0 <= m < m' < |o| ensures o[m] != o[m'] {
        assert o[m] == t.order[m];
        if m' < |t.order| {
          assert o[m'] == t.order[m'];
        }
      }
      forall k | k in t'.best ensures k in o {
        if k != c.id {
          assert k in t.order;
        }
      }
    }
  }

  lemma BestExtend(init: seq<Candidate>, c: Candidate, i: int)
    requires IsBestAt(init, i)
    requires c.id == init[i].id ==> Rank(init[i].action) <= Rank(c.action)
    ensures IsBestAt(init + [c], i) && (init + [c])[i] == init[i]
  {
    var cs := init + [c];
    assert forall j :: 0 <= j < |init| ==> cs[j] == init[j];
    assert cs[|init|] == c;
  }

  lemma BestNew(init: seq<Candidate>, c: Candidate)
    requires forall j :: 0 <= j < |init| && init[j].id == c.id ==> Rank(c.action) < Rank(init[j].action)
    ensures IsBestAt(init + [c], |init|) && (init + [c])[|init|] == c
  {
    var cs := init + [c];
    assert forall j :: 0 <= j < |init| ==> cs[j] == init[j];
  }

  lemma UnseenId(init: seq<Candidate>, k: int)
    requires k !in TallyOf(init).best
    ensures forall j :: 0 <= j < |init| ==> init[j].id != k
  {
    TallyKeys(init);
    assert forall j :: 0 <= j < |init| ==> init[j].id in Ids(init);
  }

  /** Every entry of the dictionary is the best candidate for its id. */
  lemma {:induction false} TallyBest(cs: seq<Candidate>)
    ensures forall k :: k in TallyOf(cs).best ==>
      exists i :: IsBestAt(cs, i) && cs[i].id == k && TallyOf(cs).best[k] == (Rank(cs[i].action), cs[i].line)
  {
    if cs != [] {
      var init, c := cs[..|cs| - 1], cs[|cs| - 1];
      assert cs == init + [c];
      TallyBest(init);
      var t := TallyOf(init);
      forall k | k in TallyOf(cs).best
        ensures exists i :: IsBestAt(cs, i) && cs[i].id == k && TallyOf(cs).best[k] == (Rank(cs[i].action), cs[i].line)
      {
        if k in t.best {
          var i :| IsBestAt(init, i) && init[i].id == k && t.best[k] == (Rank(init[i].action), init[i].line);
          if k != c.id || Rank(c.action) >= t.best[c.id].0 {
            BestExtend(init, c, i);
          } else {
            assert forall j :: 0 <= j < |init| && init[j].id == k ==> Rank(init[i].action) <= Rank(init[j].action);
            BestNew(init, c);
          }
        } else {
          assert k == c.id;
          UnseenId(init, k);
          BestNew(init, c);
        }
      }
    }
  }

  lemma AppearsBeforeExtend(init: seq<Candidate>, c: Candidate, a: int, b: int)
    requires AppearsBefore(init, a, b)
    ensures AppearsBefore(init + [c], a, b)
  {
    var cs := init + [c];
    var i :| 0 <= i < |init| && init[i].id == a && forall j :: 0 <= j <= i ==> init[j].id != b;
    assert forall j :: 0 <= j < |init| ==> cs[j] == init[j];
  }

  lemma AppearsBeforeNew(init: seq<Candidate>, c: Candidate, a: int)
    requires a in Ids(init) && c.id !in Ids(init)
    ensures AppearsBefore(init + [c], a, c.id)
  {
    var cs := init + [c];
    var x :| x in init && x.id == a;
    var i :| 0 <= i < |init| && init[i] == x;
    assert forall j :: 0 <= j <= i ==> init[j] in init;
    assert forall j :: 0 <= j < |init| ==> cs[j] == init[j];
  }

  /** The order is the order in which the ids first occur. */
  lemma {:induction false} TallyOrder(cs: seq<Candidate>)
    ensures forall m, m' :: 0 <= m < m' < |TallyOf(cs).order| ==>
      AppearsBefore(cs, TallyOf(cs).order[m], TallyOf(cs).order[m'])
  {
    if cs != [] {
      var init, c := cs[..|cs| - 1], cs[|cs| - 1];
      assert cs == init + [c];
      TallyOrder(init);
      TallyKeys(init);
      var t := TallyOf(init);
      var o := TallyOf(cs).order;
      forall m, m' | 0 <= m < m' < |o| ensures AppearsBefore(cs, o[m], o[m']) {
        if m' < |t.order| {
          assert o[m] == t.order[m] && o[m'] == t.order[m'];
          AppearsBeforeExtend(init, c, o[m], o[m']);
        } else {
          assert c.id !in t.best && o[m'] == c.id && o[m] == t.order[m];
          AppearsBeforeNew(init, c, o[m]);
        }
      }
    }
  }

  // ----- candidates -----

  /** The candidates are the input lines that parse. */
  lemma CandidatesSpec(ex: Extractor, lines: seq<string>)
    ensures forall c :: c in Candidates(ex, lines) ==> c.line in lines && Parse(ex, c.line) == Some(c)
    ensures forall i :: 0 <= i < |lines| && Parse(ex, lines[i]).Some? ==> Parse(ex, lines[i]).value in Candidates(ex, lines)
  {
    FilterMapSpec(lines, Parser(ex));
    forall c | c in Candidates(ex, lines) ensures c.line in lines && Parse(ex, c.line) == Some(c) {
      var i :| 0 <= i < |lines| && Parse(ex, lines[i]) == Some(c);
    }
  }

  lemma {:induction false} DistinctCard(s: seq<int>)
    requires Distinct(s)
    ensures |set x | x in s| == |s|
  {
    if s != [] {
      var init, x := s[..|s| - 1], s[|s| - 1];
      assert Distinct(init);
      DistinctCard(init);
      assert s == init + [x];
      assert (set y | y in s) == (set y | y in init) + {x};
      assert x !in (set y | y in init);
    }
  }

  // ----- the winners -----

  /** The winner at position `m` is the best line of the `m`-th id of the insertion order. */
  lemma WinnerAt(ex: Extractor, lines: seq<string>, m: int)
    requires 0 <= m < |WinnersOf(ex, lines)|
    ensures m < |TallyOf(Candidates(ex, lines)).order|
    ensures ex(WinnersOf(ex, lines)[m]).0 == Some(TallyOf(Candidates(ex, lines)).order[m])
    ensures WinnersOf(ex, lines)[m] in lines && Parse(ex, WinnersOf(ex, lines)[m]).Some?
    ensures exists i ::
              IsBestAt(Candidates(ex, lines), i) && Candidates(ex, lines)[i].line == WinnersOf(ex, lines)[m]
              && Candidates(ex, lines)[i].id == TallyOf(Candidates(ex, lines)).order[m]
              && LineRank(ex, WinnersOf(ex, lines)[m]) == Rank(Candidates(ex, lines)[i].action)
  {
    var cs := Candidates(ex, lines);
    TallyKeys(cs);
    TallyBest(cs);
    CandidatesSpec(ex, lines);
    var t := TallyOf(cs);
    var k := t.order[m];
    var i :| IsBestAt(cs, i) && cs[i].id == k && t.best[k] == (Rank(cs[i].action), cs[i].line);
    assert cs[i] in cs;
  }

  /** There is one winner per id seen. */
  lemma WinnersCount(ex: Extractor, lines: seq<string>)
    ensures |WinnersOf(ex, lines)| == |Ids(Candidates(ex, lines))|
  {
    var cs := Candidates(ex, lines);
    TallyKeys(cs);
    var t := TallyOf(cs);
    assert (set x | x in t.order) == Ids(cs);
    DistinctCard(t.order);
  }

  /** No two winners share an asset id. */
  lemma WinnersDistinct(ex: Extractor, lines: seq<string>)
    ensures DistinctBy(WinnersOf(ex, lines), IdKey(ex))
  {
    var cs := Candidates(ex, lines);
    TallyKeys(cs);
    var w := WinnersOf(ex, lines);
    forall m | 0 <= m < |w| ensures ex(w[m]).0 == Some(TallyOf(cs).order[m]) {
      WinnerAt(ex, lines, m);
    }
  }

  /** Every winner is an input line that parses and is the best line for its id. */
  lemma WinnersKept(ex: Extractor, lines: seq<string>)
    ensures forall ln :: ln in WinnersOf(ex, lines) ==>
      ln in lines && Parse(ex, ln).Some? && KeptBest(Candidates(ex, lines), ln)
  {
    var w := WinnersOf(ex, lines);
    forall ln | ln in w ensures ln in lines && Parse(ex, ln).Some? && KeptBest(Candidates(ex, lines), ln) {
      var m :| 0 <= m < |w| && w[m] == ln;
      WinnerAt(ex, lines, m);
    }
  }

  /** Every id seen has a winner whose rank is at most that of any of its candidates. */
  lemma WinnersCover(ex: Extractor, lines: seq<string>)
    ensures forall c :: c in Candidates(ex, lines) ==>
      exists m :: (0 <= m < |WinnersOf(ex, lines)| && ex(WinnersOf(ex, lines)[m]).0 == Some(c.id)
                   && LineRank(ex, WinnersOf(ex, lines)[m]) <= Rank(c.action))
  {
    forall c | c in Candidates(ex, lines)
      ensures exists m :: (0 <= m < |WinnersOf(ex, lines)| && ex(WinnersOf(ex, lines)[m]).0 == Some(c.id)
                           && LineRank(ex, WinnersOf(ex, lines)[m]) <= Rank(c.action))
    {
      var m := WinnerFor(ex, lines, c);
    }
  }

  lemma WinnerFor(ex: Extractor, lines: seq<string>, c: Candidate) returns (m: nat)
    requires c in Candidates(ex, lines)
    ensures m < |WinnersOf(ex, lines)| && ex(WinnersOf(ex, lines)[m]).0 == Some(c.id)
    ensures LineRank(ex, WinnersOf(ex, lines)[m]) <= Rank(c.action)
  {
    var cs := Candidates(ex, lines);
    TallyKeys(cs);
    var t := TallyOf(cs);
    var w := WinnersOf(ex, lines);
    assert c.id in Ids(cs);
    assert c.id in t.order;
    m :| 0 <= m < |t.order| && t.order[m] == c.id;
    WinnerAt(ex, lines, m);
    var i :| IsBestAt(cs, i) && cs[i].line == w[m] && cs[i].id == c.id && LineRank(ex, w[m]) == Rank(cs[i].action);
    var j :| 0 <= j < |cs| && cs[j] == c;
    assert Rank(cs[i].action) <= Rank(cs[j].action);
  }

  /** The winners come in the order in which their ids first occur. */
  lemma WinnersInOrder(ex: Extractor, lines: seq<string>)
    ensures forall m :: 0 <= m < |WinnersOf(ex, lines)| ==> ex(WinnersOf(ex, lines)[m]).0.Some?
    ensures forall m, m' :: 0 <= m < m' < |WinnersOf(ex, lines)| ==>
      AppearsBefore(Candidates(ex, lines), ex(WinnersOf(ex, lines)[m]).0.value, ex(WinnersOf(ex, lines)[m']).0.value)
  {
    var cs := Candidates(ex, lines);
    TallyKeys(cs);
    TallyBest(cs);
    TallyOrder(cs);
    CandidatesSpec(ex, lines);
    var t := TallyOf(cs);
    var w := WinnersOf(ex, lines);
    forall m | 0 <= m < |w| ensures ex(w[m]).0 == Some(t.order[m]) {
      var k := t.order[m];
      var i :| IsBestAt(cs, i) && cs[i].id == k && t.best[k] == (Rank(cs[i].action), cs[i].line);
      assert cs[i] in cs;
    }
  }

  lemma FreshId(init: seq<Candidate>, c: Candidate)
    requires forall i :: 0 <= i < |init| ==> init[i].id != c.id
    ensures c.id !in TallyOf(init).best
  {
    TallyKeys(init);
    assert forall x :: x in init ==> x.id != c.id;
  }

  /** With distinct ids, every candidate is kept, in input order. */
  lemma {:induction false} TallyDistinctIds(cs: seq<Candidate>)
    requires forall i, j :: 0 <= i < j < |cs| ==> cs[i].id != cs[j].id
    ensures |TallyOf(cs).order| == |cs|
    ensures forall i :: 0 <= i < |cs| ==> TallyOf(cs).order[i] == cs[i].id
    ensures forall i :: 0 <= i < |cs| ==> cs[i].id in TallyOf(cs).best && TallyOf(cs).best[cs[i].id].1 == cs[i].line
  {
    if cs != [] {
      var init, c := cs[..|cs| - 1], cs[|cs| - 1];
      assert cs == init + [c];
      assert forall i :: 0 <= i < |init| ==> init[i] == cs[i];
      TallyDistinctIds(init);
      FreshId(init, c);
      var t, t' := TallyOf(init), TallyOf(cs);
      assert t' == Tally(t.order + [c.id], t.best[c.id := (Rank(c.action), c.line)]);
      forall i | 0 <= i < |cs| ensures t'.order[i] == cs[i].id {
        if i < |init| {
          assert t'.order[i] == t.order[i];
        }
      }
      forall i | 0 <= i < |cs| ensures cs[i].id in t'.best && t'.best[cs[i].id].1 == cs[i].line {
        if i < |init| {
          assert cs[i].id != c.id;
          assert t'.best[cs[i].id] == t.best[init[i].id];
        }
      }
    }
  }

  // ----- the result -----

  /** The sorted winners, of which the result is the first fifteen. */
  function Ranked(ex: Extractor, lines: seq<string>): seq<string> {
    SortByKey(WinnersOf(ex, lines), RankKey(ex))
  }

  lemma DedupePrefix(ex: Extractor, lines: seq<string>)
    ensures Dedupe(ex, lines) == Ranked(ex, lines)[..Min(MaxLines, |Ranked(ex, lines)|)]
  {
    if lines == [] {
      assert Candidates(ex, lines) == [];
      assert WinnersOf(ex, lines) == [];
    }
  }

  /** One line per id seen, up to fifteen. */
  lemma DedupeLength(ex: Extractor, lines: seq<string>)
    ensures |Dedupe(ex, lines)| == Min(MaxLines, |Ids(Candidates(ex, lines))|)
  {
    DedupePrefix(ex, lines);
    WinnersCount(ex, lines);
    SortPerm(WinnersOf(ex, lines), RankKey(ex));
    assert |multiset(Ranked(ex, lines))| == |multiset(WinnersOf(ex, lines))|;
  }

  /** The result is sorted by rank and has no two lines with the same id. */
  lemma DedupeSortedDistinct(ex: Extractor, lines: seq<string>)
    ensures Sorted(Dedupe(ex, lines), RankKey(ex))
    ensures DistinctBy(Dedupe(ex, lines), IdKey(ex))
  {
    DedupePrefix(ex, lines);
    WinnersDistinct(ex, lines);
    SortSorted(WinnersOf(ex, lines), RankKey(ex));
    SortDistinct(WinnersOf(ex, lines), RankKey(ex), IdKey(ex));
  }

  /** Every line of the result is an input line that parses and is the best line for its id. */
  lemma DedupeKept(ex: Extractor, lines: seq<string>)
    ensures forall ln :: ln in Dedupe(ex, lines) ==>
      ln in lines && Parse(ex, ln).Some? && KeptBest(Candidates(ex, lines), ln)
  {
    DedupePrefix(ex, lines);
    WinnersKept(ex, lines);
    SortPerm(WinnersOf(ex, lines), RankKey(ex));
    forall ln | ln in Dedupe(ex, lines) ensures ln in WinnersOf(ex, lines) {
      assert ln in Ranked(ex, lines);
      assert ln in multiset(Ranked(ex, lines));
    }
  }

  /**
   * An id seen in the input is missing from the result only when more than
   * fifteen ids were seen, and then every line kept ranks at least as well.
   */
  lemma DedupeKeepsLowest(ex: Extractor, lines: seq<string>)
    ensures forall c :: c in Candidates(ex, lines) && (forall ln :: ln in Dedupe(ex, lines) ==> ex(ln).0 != Some(c.id)) ==>
      |Ids(Candidates(ex, lines))| > MaxLines && |Dedupe(ex, lines)| == MaxLines
      && forall ln :: ln in Dedupe(ex, lines) ==> LineRank(ex, ln) <= Rank(c.action)
  {
    forall c | c in Candidates(ex, lines) && (forall ln :: ln in Dedupe(ex, lines) ==> ex(ln).0 != Some(c.id))
      ensures |Ids(Candidates(ex, lines))| > MaxLines && |Dedupe(ex, lines)| == MaxLines
      ensures forall ln :: ln in Dedupe(ex, lines) ==> LineRank(ex, ln) <= Rank(c.action)
    {
      DroppedRanksLower(ex, lines, c);
    }
  }

  lemma DroppedRanksLower(ex: Extractor, lines: seq<string>, c: Candidate)
    requires c in Candidates(ex, lines)
    requires forall ln :: ln in Dedupe(ex, lines) ==> ex(ln).0 != Some(c.id)
    ensures |Ids(Candidates(ex, lines))| > MaxLines && |Dedupe(ex, lines)| == MaxLines
    ensures forall ln :: ln in Dedupe(ex, lines) ==> LineRank(ex, ln) <= Rank(c.action)
  {
    var w, u, r := WinnersOf(ex, lines), Ranked(ex, lines), Dedupe(ex, lines);
    DedupePrefix(ex, lines);
    WinnersCount(ex, lines);
    var m := WinnerFor(ex, lines, c);
    SortPerm(w, RankKey(ex));
    SortSorted(w, RankKey(ex));
    assert w[m] in multiset(u);
    var p :| 0 <= p < |u| && u[p] == w[m];
    assert u[p] !in r;
    assert forall q :: 0 <= q < |r| ==> r[q] == u[q];
    assert p >= |r|;
    assert |u| == |w| by {
      assert |multiset(u)| == |multiset(w)|;
    }
    forall ln | ln in r ensures LineRank(ex, ln) <= Rank(c.action) {
      var q :| 0 <= q < |r| && r[q] == ln;
      assert LineRank(ex, u[q]) <= LineRank(ex, u[p]);
    }
  }

  /** Within one rank the result keeps the order of the winners, a prefix of them. */
  lemma DedupeStable(ex: Extractor, lines: seq<string>, k: nat)
    ensures Bucket(Dedupe(ex, lines), k, RankKey(ex)) <= Bucket(WinnersOf(ex, lines), k, RankKey(ex))
  {
    DedupePrefix(ex, lines);
    SortStable(WinnersOf(ex, lines), k, RankKey(ex));
    BucketOfPrefix(Ranked(ex, lines), Min(MaxLines, |Ranked(ex, lines)|), k, RankKey(ex));
  }

  /** Lines that all parse, with distinct ids, are their own winners. */
  lemma WinnersOfCanonical(ex: Extractor, r: seq<string>)
    requires forall ln :: ln in r ==> Parse(ex, ln).Some?
    requires DistinctBy(r, IdKey(ex))
    ensures WinnersOf(ex, r) == r
  {
    assert forall i :: 0 <= i < |r| ==> r[i] in r;
    FilterMapAll(r, Parser(ex));
    var cs := Candidates(ex, r);
    assert forall i :: 0 <= i < |r| ==> cs[i].line == r[i] && ex(r[i]).0 == Some(cs[i].id);
    TallyDistinctIds(cs);
    TallyKeys(cs);
  }

  /** Deduplicating a result again leaves it as it is. */
  lemma DedupeIdempotent(ex: Extractor, lines: seq<string>)
    ensures Dedupe(ex, Dedupe(ex, lines)) == Dedupe(ex, lines)
  {
    var r := Dedupe(ex, lines);
    if r != [] {
      DedupeKept(ex, lines);
      DedupeSortedDistinct(ex, lines);
      DedupePrefix(ex, lines);
      WinnersOfCanonical(ex, r);
      SortOfSorted(r, RankKey(ex));
    }
  }

  // ----- the procedure -----

  /** The first loop of `_dedupe_and_limit`: the lines that yield an id and an action. */
  method ParseLines(ex: Extractor, lines: seq<string>) returns (parsed: seq<Candidate>)
    ensures parsed == Candidates(ex, lines)
  {
    parsed := [];
    var i := 0;
    while i < |lines|
      invariant 0 <= i <= |lines|
      invariant parsed == Candidates(ex, lines[..i])
    {
      var ln := lines[i];
      var (aid, act) := ex(ln);
      if aid.Some? && act.Some? {
        parsed := parsed + [Candidate(aid.value, act.value, ln)];
      }
      assert lines[..i + 1] == lines[..i] + [ln];
      FilterMapSnoc(lines[..i], ln, Parser(ex));
      i := i + 1;
    }
    assert lines[..i] == lines;
  }

  /** The second loop: fill `best_by_id`, keeping the first of the lowest ranks per id. */
  method BestById(parsed: seq<Candidate>) returns (order: seq<int>, best: map<int, (nat, string)>)
    ensures Tally(order, best) == TallyOf(parsed)
  {
    order, best := [], map[];
    var j := 0;
    while j < |parsed|
      invariant 0 <= j <= |parsed|
      invariant Tally(order, best) == TallyOf(parsed[..j])
    {
      var c := parsed[j];
      var rank := Rank(c.action);
      if c.id !in best || rank < best[c.id].0 {
        if c.id !in best {
          order := order + [c.id];
        }
        best := best[c.id := (rank, c.line)];
      }
      assert parsed[..j + 1][..j] == parsed[..j];
      j := j + 1;
    }
    assert parsed[..j] == parsed;
  }

  /** `_dedupe_and_limit`, with `ex` for `_extract_id_and_action`. */
  method DedupeAndLimit(ex: Extractor, lines: seq<string>) returns (out: seq<string>)
    ensures out == Dedupe(ex, lines)
  {
    if |lines| == 0 {
      return [];
    }
    var parsed := ParseLines(ex, lines);
    var order, best := BestById(parsed);
    TallyKeys(parsed);
    var unique := seq(|order|, m requires 0 <= m < |order| => best[order[m]].1);
    assert unique == WinnersOf(ex, lines);
    unique := SortByKey(unique, RankKey(ex));
    if |unique| > MaxLines {
      unique := unique[..MaxLines];
    }
    out := unique;
  }
}
