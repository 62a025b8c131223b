/**
 * Python's `int(...)` applied to text, and its inverse `str(n)`.
 * `int` accepts surrounding whitespace, one optional sign and a run of
 * decimal digits. The whitespace it skips is not quite what `strip()`
 * removes: the ASCII separators U+001C to U+001F count as whitespace for
 * `str.isspace()` and `strip()`, but `int()` rejects them.
 */
module IntParse {
  import opened Wrappers
  import opened Text

  predicate AllDigits(s: string) {
    forall i :: 0 <= i < |s| ==> IsDigit(s[i])
  }

  function DigitValue(c: char): nat
    requires IsDigit(c)
  {
    c as int - '0' as int
  }

  function DigitChar(d: nat): (c: char)
    requires d < 10
    ensures IsDigit(c) && DigitValue(c) == d
  {
    ('0' as int + d) as char
  }

  /** The value of a run of decimal digits, most significant first. */
  function DigitsValue(s: string): nat
    requires AllDigits(s)
  {
    if s == [] then 0 else DigitsValue(s[..|s| - 1]) * 10 + DigitValue(s[|s| - 1])
  }

  /** The ASCII information separators U+001C to U+001F. */
  predicate IsSeparator(c: char) { '\U{1C}' <= c <= '\U{1F}' }

  predicate NoSeparator(s: string) {
    forall i :: 0 <= i < |s| ==> !IsSeparator(s[i])
  }

  /** The whitespace `int()` skips around its digits: `str.isspace()` without the separators. */
  predicate IsIntSpace(c: char) {
    IsSpace(c) && !IsSeparator(c)
  }

  /** `s` without the whitespace `int()` skips at either end. */
  function IntCore(s: string): string {
    var t := s[Lead(s, IsIntSpace)..];
    t[..|t| - Trail(t, IsIntSpace)]
  }

  /** `int(s)` on a `str`; `None` where Python raises `ValueError`. */
  function ParseInt(s: string): Option<int> {
    ParseSigned(IntCore(s))
  }

  /** What `int` accepts once surrounding whitespace is gone: an optional sign and a run of digits. */
  function ParseSigned(t: string): Option<int> {
    if |t| >= 2 && (t[0] == '-' || t[0] == '+') && AllDigits(t[1..]) then
      var v: int := DigitsValue(t[1..]);
      Some(if t[0] == '-' then -v else v)
    else if |t| >= 1 && AllDigits(t) then
      Some(DigitsValue(t))
    else
      None
  }

  /** `str(n)` for a non-negative `n`. */
  function FormatNat(n: nat): (r: string)
    ensures |r| >= 1 && AllDigits(r)
  {
    if n < 10 then [DigitChar(n)] else FormatNat(n / 10) + [DigitChar(n % 10)]
  }

  /** `str(n)`. */
  function FormatInt(n: int): string {
    if n < 0 then "-" + FormatNat(-n) else FormatNat(n)
  }

  /** `str(n)` writes digits, after a minus sign for a negative `n`. */
  lemma FormatIntChars(n: int)
    ensures var r := FormatInt(n);
      && |r| >= 1 && IsDigit(r[|r| - 1])
      && (forall k :: 0 <= k < |r| ==> r[k] == '-' || IsDigit(r[k]))
  {
    if n < 0 {
      var f := FormatNat(-n);
      assert forall k :: 1 <= k < |f| + 1 ==> FormatInt(n)[k] == f[k - 1];
    }
  }

  lemma {:induction false} FormatNatValue(n: nat)
    ensures DigitsValue(FormatNat(n)) == n
  {
    var r := FormatNat(n);
    if n >= 10 {
      FormatNatValue(n / 10);
      assert r[..|r| - 1] == FormatNat(n / 10);
    }
  }

  /** Reading back a formatted integer gives the integer: `int(str(n)) == n`. */
  lemma ParseFormat(n: int)
    ensures ParseInt(FormatInt(n)) == Some(n)
  {
    var m: nat := if n < 0 then -n else n;
    var f := FormatNat(m);
    FormatNatValue(m);
    if n < 0 {
      ParseNegative(f);
    } else {
      ParseDigits(f);
    }
  }

  lemma ParseDigits(f: string)
    requires |f| >= 1 && AllDigits(f)
    ensures ParseInt(f) == Some(DigitsValue(f) as int)
  {
    assert IsDigit(f[0]) && IsDigit(f[|f| - 1]);
    IntCoreUnpadded(f);
  }

  lemma ParseNegative(f: string)
    requires |f| >= 1 && AllDigits(f)
    ensures ParseInt("-" + f) == Some(-(DigitsValue(f) as int))
  {
    var t := "-" + f;
    assert t[0] == '-' && t[|t| - 1] == f[|f| - 1];
    IntCoreUnpadded(t);
    SignedNegative(f);
  }

  lemma SignedNegative(f: string)
    requires |f| >= 1 && AllDigits(f)
    ensures ParseSigned("-" + f) == Some(-(DigitsValue(f) as int))
  {
    var t := "-" + f;
    assert t[0] == '-' && t[1..] == f;
  }

  /** A string that neither starts nor ends with whitespace is read by `int()` as it is. */
  lemma IntCoreUnpadded(s: string)
    requires s != [] ==> !IsIntSpace(s[0]) && !IsIntSpace(s[|s| - 1])
    ensures IntCore(s) == s
  {
  }

  /**
   * What `int()` reads: the piece `s[i..i + |r|]` of the input that neither
   * starts nor ends with the whitespace it skips, everything cut away being
   * such whitespace.
   */
  lemma IntCoreShape(s: string)
    ensures var r, i := IntCore(s), Lead(s, IsIntSpace);
      && (r != [] ==> !IsIntSpace(r[0]) && !IsIntSpace(r[|r| - 1]))
      && i + |r| <= |s| && r == s[i..i + |r|]
      && (forall k :: 0 <= k < i ==> IsIntSpace(s[k]))
      && (forall k :: i + |r| <= k < |s| ==> IsIntSpace(s[k]))
  {
    IntCoreSlice(s);
    IntCoreEnds(s);
  }

  lemma IntCoreSlice(s: string)
    ensures var r, i := IntCore(s), Lead(s, IsIntSpace);
      && i + |r| <= |s| && r == s[i..i + |r|]
      && (forall k :: i + |r| <= k < |s| ==> IsIntSpace(s[k]))
  {
    var t := s[Lead(s, IsIntSpace)..];
    SuffixPrefix(s, t, IntCore(s), IsIntSpace);
  }

  lemma IntCoreEnds(s: string)
    ensures var r := IntCore(s); r != [] ==> !IsIntSpace(r[0]) && !IsIntSpace(r[|r| - 1])
  {
    var t := s[Lead(s, IsIntSpace)..];
    var r := IntCore(s);
    if r != [] {
      assert r[0] == t[0] && r[|r| - 1] == t[|r| - 1];
    }
  }

  /** Without separators, `int()` skips exactly what `strip()` removes. */
  lemma IntCoreIsStrip(s: string)
    requires NoSeparator(s)
    ensures IntCore(s) == Strip(s)
  {
    LeadAgree(s);
    var t := TrimLeft(s);
    assert s[Lead(s, IsIntSpace)..] == t;
    NoSeparatorSuffix(s, |s| - |t|);
    TrailAgree(t);
    assert IntCore(s) == TrimRight(t);
  }

  lemma NoSeparatorSuffix(s: string, k: nat)
    requires k <= |s| && NoSeparator(s)
    ensures NoSeparator(s[k..])
  {
    assert forall i :: 0 <= i < |s| - k ==> s[k..][i] == s[k + i];
  }

  lemma {:induction false} LeadAgree(s: string)
    requires NoSeparator(s)
    ensures Lead(s, IsIntSpace) == Lead(s, IsSpace)
  {
    if s != [] {
      LeadAgree(s[1..]);
    }
  }

  lemma {:induction false} TrailAgree(s: string)
    requires NoSeparator(s)
    ensures Trail(s, IsIntSpace) == Trail(s, IsSpace)
  {
    if s != [] {
      TrailAgree(s[..|s| - 1]);
    }
  }

  /** Whatever `int()` accepts, it reads the same once stripped: `int(s.strip()) == int(s)`. */
  lemma ParsedIgnoresStrip(s: string)
    requires ParseInt(s).Some?
    ensures ParseInt(Strip(s)) == ParseInt(s)
  {
    var r := IntCore(s);
    SignedEdges(r);
    IntCoreStrip(s);
    IntCoreUnpadded(r);
    assert IntCore(Strip(s)) == IntCore(s);
  }

  /** A core with visible ends is what `strip()` returns too. */
  lemma IntCoreStrip(s: string)
    requires IntCore(s) != [] && !IsSpace(IntCore(s)[0]) && !IsSpace(IntCore(s)[|IntCore(s)| - 1])
    ensures Strip(s) == IntCore(s)
  {
    var r, i := IntCore(s), Lead(s, IsIntSpace);
    IntCoreShape(s);
    assert r[0] == s[i] && r[|r| - 1] == s[i + |r| - 1];
    StripPadded(s, i, i + |r|);
  }

  /** Text `int()` accepts once its whitespace is gone starts and ends with a sign or digit. */
  lemma SignedEdges(t: string)
    requires ParseSigned(t).Some?
    ensures t != [] && !IsSpace(t[0]) && !IsSpace(t[|t| - 1])
  {
    assert t[0] == '-' || t[0] == '+' || IsDigit(t[0]);
    assert IsDigit(t[|t| - 1]);
  }

  /**
   * `int` ignores surrounding whitespace, separators apart:
   * `int(s.strip())` and `int(s)` agree on text without U+001C to U+001F.
   */
  lemma ParseIgnoresSurroundingSpace(s: string)
    requires NoSeparator(s)
    ensures ParseInt(Strip(s)) == ParseInt(s)
  {
    var r := Strip(s);
    IntCoreIsStrip(s);
    StripShape(s);
    assert forall k :: 0 <= k < |r| ==> r[k] == s[|s| - |TrimLeft(s)| + k];
    IntCoreIsStrip(r);
    StripIdempotent(s);
  }

  /** The separators cannot be dropped from that: `int("\x1c5")` raises, `int("\x1c5".strip())` is 5. */
  lemma SeparatorNotSkipped()
    ensures ParseInt("\U{1C}5") == None
    ensures ParseInt(Strip("\U{1C}5")) == Some(5)
  {
    SeparatorRejected();
    SeparatorStripped();
  }

  lemma SeparatorRejected()
    ensures ParseInt("\U{1C}5") == None
  {
    var s := "\U{1C}5";
    assert !IsIntSpace(s[0]) && !IsIntSpace(s[1]);
    IntCoreUnpadded(s);
    assert !IsDigit(s[0]);
  }

  lemma SeparatorStripped()
    ensures ParseInt(Strip("\U{1C}5")) == Some(5)
  {
    var s := "\U{1C}5";
    assert IsSpace(s[0]) && !IsSpace(s[1]);
    StripPadded(s, 1, 2);
    assert s[1..2] == "5";
    ParseDigits("5");
    assert DigitsValue("5") == 5;
  }
}
