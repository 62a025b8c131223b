/**
 * Character classes and the handful of Python `str` operations the
 * recommendation post-processing is built from: `split("|")`,
 * `replace`, `strip()`, substring search and `in`, counting.
 */
module Text {
  import opened Wrappers

  /** Python's `str.isspace()`: the characters `str.split()` and `str.strip()` treat as whitespace. */
  predicate IsSpace(c: char) {
    || c == ' ' || c == '\t' || c == '\n' || c == '\r'
    || c == '\U{0B}' || c == '\U{0C}'
    || ('\U{1C}' <= c <= '\U{1F}')
    || c == '\U{85}' || c == '\U{A0}' || c == '\U{1680}'
    || ('\U{2000}' <= c <= '\U{200A}')
    || c == '\U{2028}' || c == '\U{2029}' || c == '\U{202F}' || c == '\U{205F}' || c == '\U{3000}'
  }

  predicate IsUpper(c: char) { 'A' <= c <= 'Z' }

  predicate IsDigit(c: char) { '0' <= c <= '9' }

  /** The character class `[a-zA-Z_]`. */
  predicate IsWordChar(c: char) { ('a' <= c <= 'z') || ('A' <= c <= 'Z') || c == '_' }

  /** `str.lower()` restricted to ASCII, which is all a `[a-zA-Z_]+` match can hold. */
  function LowerChar(c: char): char {
    if 'A' <= c <= 'Z' then (c as int - 'A' as int + 'a' as int) as char else c
  }

  function Lower(s: string): (r: string)
    ensures |r| == |s|
    ensures forall i :: 0 <= i < |s| ==> r[i] == LowerChar(s[i])
  {
    if s == [] then [] else [LowerChar(s[0])] + Lower(s[1..])
  }

  /** `s` with every whitespace character removed: the visible content of a string. */
  function NonSpace(s: string): (r: string)
    ensures forall i :: 0 <= i < |r| ==> !IsSpace(r[i])
  {
    if s == [] then [] else (if IsSpace(s[0]) then [] else [s[0]]) + NonSpace(s[1..])
  }

  lemma {:induction false} NonSpaceConcat(a: string, b: string)
    ensures NonSpace(a + b) == NonSpace(a) + NonSpace(b)
  {
    if a == [] {
      assert a + b == b;
    } else {
      assert (a + b)[0] == a[0] && (a + b)[1..] == a[1..] + b;
      NonSpaceConcat(a[1..], b);
    }
  }

  /** A string without whitespace is its own visible content. */
  lemma {:induction false} NonSpaceOfSpaceFree(s: string)
    requires forall i :: 0 <= i < |s| ==> !IsSpace(s[i])
    ensures NonSpace(s) == s
  {
    if s != [] {
      NonSpaceOfSpaceFree(s[1..]);
    }
  }

  /** `s.count(c)` for a single character. */
  function Count(s: string, c: char): nat {
    if s == [] then 0 else (if s[0] == c then 1 else 0) + Count(s[1..], c)
  }

  lemma {:induction false} CountConcat(a: string, b: string, c: char)
    ensures Count(a + b, c) == Count(a, c) + Count(b, c)
  {
    if a == [] {
      assert a + b == b;
    } else {
      assert (a + b)[0] == a[0] && (a + b)[1..] == a[1..] + b;
      CountConcat(a[1..], b, c);
    }
  }

  /** Removing whitespace never changes how often a visible character occurs. */
  lemma {:induction false} CountNonSpace(s: string, c: char)
    requires !IsSpace(c)
    ensures Count(NonSpace(s), c) == Count(s, c)
  {
    if s != [] {
      CountNonSpace(s[1..], c);
      CountConcat(if IsSpace(s[0]) then [] else [s[0]], NonSpace(s[1..]), c);
    }
  }

  /** Python's `s.split(sep)` for a one-character separator: never empty, fields may be empty. */
  function Split(s: string, sep: char): (r: seq<string>)
    ensures |r| >= 1
  {
    if s == [] then [[]]
    else if s[0] == sep then [[]] + Split(s[1..], sep)
    else
      var rest := Split(s[1..], sep);
      [[s[0]] + rest[0]] + rest[1..]
  }

  /** `sep.join(fields)`. */
  function Join(fields: seq<string>, sep: char): string {
    if fields == [] then []
    else if |fields| == 1 then fields[0]
    else fields[0] + [sep] + Join(fields[1..], sep)
  }

  /** Splitting yields one more field than there are separators. */
  lemma {:induction false} SplitLength(s: string, sep: char)
    ensures |Split(s, sep)| == Count(s, sep) + 1
  {
    if s != [] {
      SplitLength(s[1..], sep);
    }
  }

  /** Splitting loses nothing: the fields joined back with the separator give the input. */
  lemma {:induction false} SplitJoin(s: string, sep: char)
    ensures Join(Split(s, sep), sep) == s
  {
    if s != [] {
      var rest := Split(s[1..], sep);
      SplitJoin(s[1..], sep);
      if s[0] == sep {
        assert Split(s, sep) == [[]] + rest;
        assert Join([[]] + rest, sep) == [] + [sep] + Join(rest, sep);
      } else {
        var r := Split(s, sep);
        assert r == [[s[0]] + rest[0]] + rest[1..];
        if |rest| == 1 {
          assert Join(r, sep) == [s[0]] + rest[0];
        } else {
          assert Join(rest, sep) == rest[0] + [sep] + Join(rest[1..], sep);
          assert r[1..] == rest[1..];
          assert Join(r, sep) == [s[0]] + rest[0] + [sep] + Join(rest[1..], sep);
        }
      }
    }
  }

  /** No field of a split contains the separator. */
  lemma {:induction false} SplitFieldsFree(s: string, sep: char)
    ensures forall k, i :: 0 <= k < |Split(s, sep)| && 0 <= i < |Split(s, sep)[k]| ==> Split(s, sep)[k][i] != sep
  {
    if s != [] {
      var rest := Split(s[1..], sep);
      SplitFieldsFree(s[1..], sep);
      var r := Split(s, sep);
      if s[0] != sep {
        forall k, i | 0 <= k < |r| && 0 <= i < |r[k]| ensures r[k][i] != sep {
          if k == 0 {
            if i > 0 { assert r[0][i] == rest[0][i - 1]; }
          } else {
            assert r[k] == rest[k];
          }
        }
      }
    }
  }

  /** The first field of a split is a prefix of the input. */
  lemma {:induction false} SplitHead(s: string, sep: char)
    ensures |Split(s, sep)[0]| <= |s| && Split(s, sep)[0] == s[..|Split(s, sep)[0]|]
  {
    if s != [] && s[0] != sep {
      SplitHead(s[1..], sep);
    }
  }

  /** When the first separator is at `m`, the first field is everything before it. */
  lemma {:induction false} SplitFirst(s: string, m: nat, sep: char)
    requires m < |s| && s[m] == sep
    requires forall k :: 0 <= k < m ==> s[k] != sep
    ensures Split(s, sep)[0] == s[..m]
  {
    if m > 0 {
      SplitFirst(s[1..], m - 1, sep);
      assert s[..m] == [s[0]] + s[1..][..m - 1];
    }
  }

  /** `pat` occurs in `s` starting at index `p`. */
  predicate At(s: string, p: int, pat: string) {
    0 <= p && p + |pat| <= |s| && s[p..p + |pat|] == pat
  }

  /** `s.find(pat, from)`: the leftmost occurrence of `pat` at or after `from`. */
  function Find(s: string, pat: string, from: nat): (r: Option<nat>)
    decreases |s| - from
    ensures r.Some? ==> from <= r.value && At(s, r.value, pat)
    ensures r.Some? ==> forall q :: from <= q < r.value ==> !At(s, q, pat)
    ensures r.None? ==> forall q :: from <= q ==> !At(s, q, pat)
  {
    if from + |pat| > |s| then None
    else if s[from..from + |pat|] == pat then Some(from)
    else Find(s, pat, from + 1)
  }

  /** The first index at or after `from` holding `c`. */
  function FindChar(s: string, c: char, from: nat): (r: Option<nat>)
    decreases |s| - from
    ensures r.Some? ==> from <= r.value < |s| && s[r.value] == c
    ensures r.Some? ==> forall k :: from <= k < r.value ==> s[k] != c
    ensures r.None? ==> forall k :: from <= k < |s| ==> s[k] != c
  {
    if from >= |s| then None
    else if s[from] == c then Some(from)
    else FindChar(s, c, from + 1)
  }

  /** Python's `pat in s`. */
  predicate Contains(s: string, pat: string) {
    Find(s, pat, 0).Some?
  }

  lemma ContainsIff(s: string, pat: string)
    ensures Contains(s, pat) <==> exists p :: At(s, p, pat)
  {
    if Contains(s, pat) {
      assert At(s, Find(s, pat, 0).value, pat);
    }
  }

  /**
   * Python's `s.replace(pat, rep)`: occurrences are replaced left to right
   * and never overlap.
   */
  function Replace(s: string, pat: string, rep: string): string
    requires |pat| > 0
    decreases |s|
  {
    if |s| < |pat| then s
    else if s[..|pat|] == pat then rep + Replace(s[|pat|..], pat, rep)
    else [s[0]] + Replace(s[1..], pat, rep)
  }

  /** How many characters at the start of `s` satisfy `p`. */
  function Lead(s: string, p: char -> bool): (n: nat)
    ensures n <= |s|
    ensures forall k :: 0 <= k < n ==> p(s[k])
    ensures n < |s| ==> !p(s[n])
  {
    if s != [] && p(s[0]) then 1 + Lead(s[1..], p) else 0
  }

  /** How many characters at the end of `s` satisfy `p`. */
  function Trail(s: string, p: char -> bool): (n: nat)
    ensures n <= |s|
    ensures forall k :: |s| - n <= k < |s| ==> p(s[k])
    ensures n < |s| ==> !p(s[|s| - n - 1])
  {
    if s != [] && p(s[|s| - 1]) then 1 + Trail(s[..|s| - 1], p) else 0
  }

  /** `s.lstrip()`. */
  function TrimLeft(s: string): (r: string)
    ensures |r| <= |s| && r == s[|s| - |r|..]
    ensures r != [] ==> !IsSpace(r[0])
    ensures forall i :: 0 <= i < |s| - |r| ==> IsSpace(s[i])
  {
    s[Lead(s, IsSpace)..]
  }

  /** `s.rstrip()`. */
  function TrimRight(s: string): (r: string)
    ensures |r| <= |s| && r == s[..|r|]
    ensures r != [] ==> !IsSpace(r[|r| - 1])
    ensures forall i :: |r| <= i < |s| ==> IsSpace(s[i])
  {
    s[..|s| - Trail(s, IsSpace)]
  }

  /** `s.strip()`. */
  function Strip(s: string): string {
    TrimRight(TrimLeft(s))
  }

  /**
   * What `strip()` returns: the piece `s[i..i + |r|]` of the input that neither
   * starts nor ends with whitespace, everything cut away being whitespace.
   */
  lemma StripShape(s: string)
    ensures var r, i := Strip(s), |s| - |TrimLeft(s)|;
      && (r != [] ==> !IsSpace(r[0]) && !IsSpace(r[|r| - 1]))
      && 0 <= i <= |s| - |r| && r == s[i..i + |r|]
      && (forall k :: 0 <= k < i ==> IsSpace(s[k]))
      && (forall k :: i + |r| <= k < |s| ==> IsSpace(s[k]))
  {
    StripEdges(s);
    StripSlice(s);
  }

  lemma StripEdges(s: string)
    ensures Strip(s) != [] ==> !IsSpace(Strip(s)[0]) && !IsSpace(Strip(s)[|Strip(s)| - 1])
  {
    var l := TrimLeft(s);
    var r := TrimRight(l);
    if r != [] {
      assert r[0] == l[0];
    }
  }

  lemma StripSlice(s: string)
    ensures var r, i := Strip(s), |s| - |TrimLeft(s)|;
      && 0 <= i <= |s| - |r| && r == s[i..i + |r|]
      && (forall k :: i + |r| <= k < |s| ==> IsSpace(s[k]))
  {
    var l := TrimLeft(s);
    var r := TrimRight(l);
    SuffixPrefix(s, l, r, IsSpace);
  }

  /** A prefix `r` of a suffix `l` of `s` is a slice of `s`, and what follows it in `l` follows it in `s`. */
  lemma SuffixPrefix<T>(s: seq<T>, l: seq<T>, r: seq<T>, p: T -> bool)
    requires |l| <= |s| && l == s[|s| - |l|..]
    requires |r| <= |l| && r == l[..|r|]
    requires forall k :: |r| <= k < |l| ==> p(l[k])
    ensures r == s[|s| - |l|..|s| - |l| + |r|]
    ensures forall k :: |s| - |l| + |r| <= k < |s| ==> p(s[k])
  {
    var i := |s| - |l|;
    forall k | i + |r| <= k < |s| ensures p(s[k]) {
      assert s[k] == l[k - i];
    }
  }

  /** `strip()` keeps every visible character. */
  lemma StripNonSpace(s: string)
    ensures NonSpace(Strip(s)) == NonSpace(s)
  {
    var r, i := Strip(s), |s| - |TrimLeft(s)|;
    StripShape(s);
    Pieces(s, i, i + |r|);
    NonSpacePadded(s[..i], r, s[i + |r|..]);
  }

  lemma Pieces<T>(s: seq<T>, i: nat, j: nat)
    requires i <= j <= |s|
    ensures s == s[..i] + s[i..j] + s[j..]
  {
  }

  /** Whitespace around a string adds nothing visible. */
  lemma NonSpacePadded(a: string, m: string, b: string)
    requires forall k :: 0 <= k < |a| ==> IsSpace(a[k])
    requires forall k :: 0 <= k < |b| ==> IsSpace(b[k])
    ensures NonSpace(a + m + b) == NonSpace(m)
  {
    SpacesOnly(a);
    SpacesOnly(b);
    assert a + m + b == a + (m + b);
    NonSpaceConcat(a, m + b);
    NonSpaceConcat(m, b);
  }

  lemma {:induction false} SpacesOnly(s: string)
    requires forall i :: 0 <= i < |s| ==> IsSpace(s[i])
    ensures NonSpace(s) == []
  {
    if s != [] {
      SpacesOnly(s[1..]);
    }
  }

  /** A string that neither starts nor ends with whitespace is left alone by `strip()`. */
  lemma StripUnpadded(s: string)
    requires s != [] ==> !IsSpace(s[0]) && !IsSpace(s[|s| - 1])
    ensures Strip(s) == s
  {
  }

  /** Whatever sits between two whitespace-only ends, and itself starts and ends visibly, is what `strip()` returns. */
  lemma StripPadded(s: string, i: nat, j: nat)
    requires i < j <= |s|
    requires forall k :: 0 <= k < i ==> IsSpace(s[k])
    requires forall k :: j <= k < |s| ==> IsSpace(s[k])
    requires !IsSpace(s[i]) && !IsSpace(s[j - 1])
    ensures Strip(s) == s[i..j]
  {
    var l := s[i..];
    assert TrimLeft(s) == l;
    assert forall k :: j - i <= k < |l| ==> l[k] == s[i + k];
    assert l[|l| - (|s| - j) - 1] == s[j - 1];
    assert Trail(l, IsSpace) == |s| - j;
  }

  /** Stripping twice is stripping once. */
  lemma StripIdempotent(s: string)
    ensures Strip(Strip(s)) == Strip(s)
  {
    var r := Strip(s);
    StripShape(s);
    assert TrimLeft(r) == r;
    assert TrimRight(r) == r;
  }
}
