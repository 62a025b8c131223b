/** A list built by a loop that appends the accepted results of a partial map. */
module Collect {
  import opened Wrappers

  function FilterMap<A, B>(s: seq<A>, f: A -> Option<B>): seq<B> {
    if s == [] then []
    else
      var init := FilterMap(s[..|s| - 1], f);
      match f(s[|s| - 1])
      case None => init
      case Some(b) => init + [b]
  }

  /** One more input appends its image, when it has one. */
  lemma FilterMapSnoc<A, B>(s: seq<A>, x: A, f: A -> Option<B>)
    ensures FilterMap(s + [x], f) == FilterMap(s, f) + (if f(x).Some? then [f(x).value] else [])
  {
    assert (s + [x])[..|s|] == s;
  }

  /** Every output is the image of an input; every accepted input has its image in the output. */
  lemma {:induction false} FilterMapSpec<A, B>(s: seq<A>, f: A -> Option<B>)
    ensures forall b :: b in FilterMap(s, f) ==> exists i :: 0 <= i < |s| && f(s[i]) == Some(b)
    ensures forall i :: 0 <= i < |s| && f(s[i]).Some? ==> f(s[i]).value in FilterMap(s, f)
  {
    if s != [] {
      var init := s[..|s| - 1];
      FilterMapSpec(init, f);
      assert forall i :: 0 <= i < |init| ==> init[i] == s[i];
      forall b | b in FilterMap(s, f) ensures exists i :: 0 <= i < |s| && f(s[i]) == Some(b) {
        if b !in FilterMap(init, f) {
          assert f(s[|s| - 1]) == Some(b);
        }
      }
    }
  }

  /** The positions of the accepted inputs, in increasing order, every accepted one listed. */
  function Accepted<A, B>(s: seq<A>, f: A -> Option<B>): (idx: seq<nat>)
    ensures forall k :: 0 <= k < |idx| ==> idx[k] < |s| && f(s[idx[k]]).Some?
    ensures forall k, k' :: 0 <= k < k' < |idx| ==> idx[k] < idx[k']
    ensures forall i :: 0 <= i < |s| && f(s[i]).Some? ==> i in idx
  {
    if s == [] then []
    else
      var init := s[..|s| - 1];
      assert forall i :: 0 <= i < |init| ==> init[i] == s[i];
      var r := Accepted(init, f);
      if f(s[|s| - 1]).Some? then r + [|s| - 1] else r
  }

  /** The k-th output is the image of the k-th accepted input: the comprehension keeps the input order. */
  lemma {:induction false} FilterMapIndexed<A, B>(s: seq<A>, f: A -> Option<B>)
    ensures |FilterMap(s, f)| == |Accepted(s, f)|
    ensures forall k :: 0 <= k < |Accepted(s, f)| ==> Some(FilterMap(s, f)[k]) == f(s[Accepted(s, f)[k]])
  {
    if s != [] {
      var init := s[..|s| - 1];
      FilterMapIndexed(init, f);
      assert forall i :: 0 <= i < |init| ==> init[i] == s[i];
    }
  }

  /** When every input is accepted, the output is the image one for one. */
  lemma {:induction false} FilterMapAll<A, B>(s: seq<A>, f: A -> Option<B>)
    requires forall i :: 0 <= i < |s| ==> f(s[i]).Some?
    ensures |FilterMap(s, f)| == |s|
    ensures forall i :: 0 <= i < |s| ==> FilterMap(s, f)[i] == f(s[i]).value
  {
    if s != [] {
      var init := s[..|s| - 1];
      assert forall i :: 0 <= i < |init| ==> init[i] == s[i];
      FilterMapAll(init, f);
    }
  }

  lemma {:induction false} FilterMapConcat<A, B>(s: seq<A>, t: seq<A>, f: A -> Option<B>)
    ensures FilterMap(s + t, f) == FilterMap(s, f) + FilterMap(t, f)
  {
    if t == [] {
      assert s + t == s;
    } else {
      var init := t[..|t| - 1];
      assert (s + t)[..|s + t| - 1] == s + init;
      FilterMapConcat(s, init, f);
    }
  }
}
