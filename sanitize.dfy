/**
 * Whitespace normalisation of one recommendation line (`_sanitize_line`):
 * strip, collapse every whitespace run to one space, then remove the spaces
 * that sit next to a `|`.
 */
module Sanitize {
  import opened Text

  /** Length of the leading run of non-whitespace characters. */
  function WordLen(s: string): (n: nat)
    requires s != [] && !IsSpace(s[0])
    ensures 1 <= n <= |s|
    ensures forall i :: 0 <= i < n ==> !IsSpace(s[i])
    ensures n < |s| ==> IsSpace(s[n])
  {
    if |s| == 1 || IsSpace(s[1]) then 1 else 1 + WordLen(s[1..])
  }

  /** Python's `s.split()` without a separator: the maximal runs of non-whitespace. */
  function Words(s: string): seq<string>
    decreases |s|
  {
    if s == [] then []
    else if IsSpace(s[0]) then Words(s[1..])
    else
      var n := WordLen(s);
      [s[..n]] + Words(s[n..])
  }

  predicate IsWord(w: string) {
    w != [] && forall i :: 0 <= i < |w| ==> !IsSpace(w[i])
  }

  function Flatten(ws: seq<string>): string {
    if ws == [] then [] else ws[0] + Flatten(ws[1..])
  }

  /** `" ".join(line.strip().split())`. */
  function Collapse(line: string): string {
    Join(Words(Strip(line)), ' ')
  }

  /** `_sanitize_line`. */
  function SanitizeLine(line: string): string {
    var s := Collapse(line);
    Replace(Replace(Replace(s, " | ", "|"), "| ", "|"), " |", "|")
  }

  /**
   * A reference for the three replacements, read one character at a time:
   * a `' '` is dropped when the character before it or after it (in `s`
   * itself) is `|`; every other character is kept. `pipeBefore` says whether
   * the character before `s` was `|`.
   */
  function DropFrom(pipeBefore: bool, s: string): string
    decreases |s|
  {
    if s == [] then []
    else
      var dropped := s[0] == ' ' && (pipeBefore || (|s| > 1 && s[1] == '|'));
      (if dropped then [] else [s[0]]) + DropFrom(s[0] == '|', s[1..])
  }

  function DropPipeSpaces(s: string): string {
    DropFrom(false, s)
  }

  // ----- shape predicates -----

  /** Every whitespace character is a plain space. */
  predicate PlainSpaces(s: string) {
    forall i :: 0 <= i < |s| && IsSpace(s[i]) ==> s[i] == ' '
  }

  /** No two whitespace characters are adjacent. */
  predicate NoDoubleSpace(s: string) {
    forall i :: 0 <= i < |s| - 1 ==> !(IsSpace(s[i]) && IsSpace(s[i + 1]))
  }

  /** No whitespace at either end, only plain spaces, never two in a row. */
  predicate SingleSpaced(s: string) {
    && (s != [] ==> !IsSpace(s[0]) && !IsSpace(s[|s| - 1]))
    && PlainSpaces(s)
    && NoDoubleSpace(s)
  }

  /** The character `a` is never directly followed by `b`. */
  predicate NoPair(s: string, a: char, b: char) {
    forall i :: 0 <= i < |s| - 1 ==> !(s[i] == a && s[i + 1] == b)
  }

  lemma NoPairCons(c: char, x: string, a: char, b: char)
    ensures NoPair([c] + x, a, b) <==> NoPair(x, a, b) && !(x != [] && c == a && x[0] == b)
  {
    var s := [c] + x;
    if NoPair(x, a, b) && !(x != [] && c == a && x[0] == b) {
      forall i | 0 <= i < |s| - 1 ensures !(s[i] == a && s[i + 1] == b) {
        if i > 0 { assert s[i] == x[i - 1] && s[i + 1] == x[i]; }
      }
    }
    if NoPair(s, a, b) {
      forall i | 0 <= i < |x| - 1 ensures !(x[i] == a && x[i + 1] == b) {
        assert s[i + 1] == x[i] && s[i + 2] == x[i + 1];
      }
      if x != [] { assert s[0] == c && s[1] == x[0]; }
    }
  }

  lemma NoDoubleSpaceCons(c: char, x: string)
    ensures NoDoubleSpace([c] + x) <==> NoDoubleSpace(x) && !(x != [] && IsSpace(c) && IsSpace(x[0]))
  {
    var s := [c] + x;
    if NoDoubleSpace(x) && !(x != [] && IsSpace(c) && IsSpace(x[0])) {
      forall i | 0 <= i < |s| - 1 ensures !(IsSpace(s[i]) && IsSpace(s[i + 1])) {
        if i > 0 { assert s[i] == x[i - 1] && s[i + 1] == x[i]; }
      }
    }
    if NoDoubleSpace(s) {
      forall i | 0 <= i < |x| - 1 ensures !(IsSpace(x[i]) && IsSpace(x[i + 1])) {
        assert s[i + 1] == x[i] && s[i + 2] == x[i + 1];
      }
      if x != [] { assert s[0] == c && s[1] == x[0]; }
    }
  }

  lemma NoDoubleSpaceSuffix(s: string, k: nat)
    requires k <= |s| && NoDoubleSpace(s)
    ensures NoDoubleSpace(s[k..])
  {
    forall i | 0 <= i < |s[k..]| - 1 ensures !(IsSpace(s[k..][i]) && IsSpace(s[k..][i + 1])) {
      assert s[k..][i] == s[k + i] && s[k..][i + 1] == s[k + i + 1];
    }
  }

  lemma NoPairSuffix(s: string, k: nat, a: char, b: char)
    requires k <= |s| && NoPair(s, a, b)
    ensures NoPair(s[k..], a, b)
  {
    forall i | 0 <= i < |s[k..]| - 1 ensures !(s[k..][i] == a && s[k..][i + 1] == b) {
      assert s[k..][i] == s[k + i] && s[k..][i + 1] == s[k + i + 1];
    }
  }

  // ----- words and collapsing -----

  lemma {:induction false} WordsAreWords(s: string)
    ensures forall k :: 0 <= k < |Words(s)| ==> IsWord(Words(s)[k])
    decreases |s|
  {
    if s != [] {
      if IsSpace(s[0]) {
        WordsAreWords(s[1..]);
      } else {
        var n := WordLen(s);
        WordsAreWords(s[n..]);
        assert Words(s) == [s[..n]] + Words(s[n..]);
      }
    }
  }

  /** Splitting into words keeps exactly the visible characters. */
  lemma {:induction false} WordsNonSpace(s: string)
    ensures Flatten(Words(s)) == NonSpace(s)
    decreases |s|
  {
    if s != [] {
      if IsSpace(s[0]) {
        WordsNonSpace(s[1..]);
      } else {
        var n := WordLen(s);
        WordsNonSpace(s[n..]);
        assert s == s[..n] + s[n..];
        NonSpaceConcat(s[..n], s[n..]);
        NonSpaceOfSpaceFree(s[..n]);
        var ws := Words(s);
        assert ws == [s[..n]] + Words(s[n..]);
        assert ws[1..] == Words(s[n..]);
      }
    }
  }

  /** Joining words with single spaces gives a single-spaced string. */
  lemma {:induction false} JoinWords(ws: seq<string>)
    requires forall k :: 0 <= k < |ws| ==> IsWord(ws[k])
    ensures SingleSpaced(Join(ws, ' '))
  {
    if |ws| > 1 {
      var rest := Join(ws[1..], ' ');
      JoinWords(ws[1..]);
      assert IsWord(ws[0]) && IsWord(ws[1]);
      JoinNonEmpty(ws[1..]);
      JoinTwo(ws[0], rest);
    }
  }

  /** Joining words with single spaces adds only whitespace. */
  lemma {:induction false} JoinWordsNonSpace(ws: seq<string>)
    requires forall k :: 0 <= k < |ws| ==> IsWord(ws[k])
    ensures NonSpace(Join(ws, ' ')) == Flatten(ws)
  {
    if |ws| == 1 {
      NonSpaceOfSpaceFree(ws[0]);
      assert Flatten(ws) == ws[0] + Flatten(ws[1..]);
    } else if |ws| > 1 {
      var w, rest := ws[0], Join(ws[1..], ' ');
      JoinWordsNonSpace(ws[1..]);
      assert IsWord(w);
      NonSpaceConcat(w + [' '], rest);
      NonSpaceConcat(w, [' ']);
      NonSpaceOfSpaceFree(w);
      assert NonSpace([' ']) == [];
      assert Flatten(ws) == w + Flatten(ws[1..]);
    }
  }

  lemma JoinTwo(w: string, rest: string)
    requires IsWord(w) && rest != [] && SingleSpaced(rest)
    ensures SingleSpaced(w + [' '] + rest)
  {
    var s := w + [' '] + rest;
    assert forall i :: 0 <= i < |w| ==> s[i] == w[i];
    forall i | 0 <= i < |s| && IsSpace(s[i]) ensures s[i] == ' ' {
      if i > |w| { assert s[i] == rest[i - |w| - 1]; }
    }
    forall i | 0 <= i < |s| - 1 ensures !(IsSpace(s[i]) && IsSpace(s[i + 1])) {
      if i > |w| { assert s[i] == rest[i - |w| - 1] && s[i + 1] == rest[i - |w|]; }
      else if i == |w| { assert s[i + 1] == rest[0]; }
    }
    assert s[|s| - 1] == rest[|rest| - 1];
    assert s[0] == w[0];
  }

  lemma JoinNonEmpty(ws: seq<string>)
    requires |ws| >= 1 && ws[0] != []
    ensures Join(ws, ' ') != []
  {
  }

  /** A string of whitespace only has no words. */
  lemma {:induction false} WordsOfSpaces(b: string)
    requires forall k :: 0 <= k < |b| ==> IsSpace(b[k])
    ensures Words(b) == []
  {
    if b != [] {
      WordsOfSpaces(b[1..]);
    }
  }

  /** Whitespace after a word does not lengthen it. */
  lemma WordLenPad(x: string, b: string)
    requires x != [] && !IsSpace(x[0])
    requires forall k :: 0 <= k < |b| ==> IsSpace(b[k])
    ensures WordLen(x + b) == WordLen(x)
  {
    var s, n, m := x + b, WordLen(x), WordLen(x + b);
    assert forall k :: 0 <= k < |x| ==> s[k] == x[k];
    if n < |s| {
      assert IsSpace(s[n]) by {
        if n == |x| { assert s[n] == b[0]; }
      }
    }
  }

  /** Whitespace after the last word adds no word. */
  lemma {:induction false} WordsPadRight(x: string, b: string)
    requires forall k :: 0 <= k < |b| ==> IsSpace(b[k])
    ensures Words(x + b) == Words(x)
    decreases |x|
  {
    if x == [] {
      assert x + b == b;
      WordsOfSpaces(b);
    } else if IsSpace(x[0]) {
      assert (x + b)[0] == x[0] && (x + b)[1..] == x[1..] + b;
      WordsPadRight(x[1..], b);
    } else {
      var n := WordLen(x);
      WordLenPad(x, b);
      assert (x + b)[0] == x[0];
      assert (x + b)[..n] == x[..n];
      assert (x + b)[n..] == x[n..] + b;
      WordsPadRight(x[n..], b);
    }
  }

  /** Whitespace before the first word adds no word. */
  lemma {:induction false} WordsPadLeft(a: string, x: string)
    requires forall k :: 0 <= k < |a| ==> IsSpace(a[k])
    ensures Words(a + x) == Words(x)
  {
    if a != [] {
      var t := a[1..];
      assert IsSpace(a[0]);
      assert (a + x)[0] == a[0] && (a + x)[1..] == t + x;
      assert Words(a + x) == Words(t + x);
      assert forall k :: 0 <= k < |t| ==> t[k] == a[k + 1];
      WordsPadLeft(t, x);
    } else {
      assert a + x == x;
    }
  }

  /** `line.strip().split() == line.split()`. */
  lemma StripWords(line: string)
    ensures Words(Strip(line)) == Words(line)
  {
    var r, i := Strip(line), |line| - |TrimLeft(line)|;
    StripShape(line);
    var a, b := line[..i], line[i + |r|..];
    Pieces(line, i, i + |r|);
    WordsPadRight(a + r, b);
    WordsPadLeft(a, r);
  }

  /** A word on its own is read back as that one word. */
  lemma WordsOfWord(w: string)
    requires IsWord(w)
    ensures WordLen(w) == |w|
    ensures Words(w) == [w]
  {
    var n := WordLen(w);
    assert n == |w|;
    assert w[..n] == w && w[n..] == [];
    assert Words(w) == [w[..n]] + Words(w[n..]);
  }

  /** Splitting words joined by single spaces gives the words back. */
  lemma {:induction false} WordsOfJoin(ws: seq<string>)
    requires forall k :: 0 <= k < |ws| ==> IsWord(ws[k])
    ensures Words(Join(ws, ' ')) == ws
  {
    if |ws| == 1 {
      WordsOfWord(ws[0]);
    } else if |ws| > 1 {
      var w, rest := ws[0], Join(ws[1..], ' ');
      var s := w + [' '] + rest;
      WordsOfJoin(ws[1..]);
      assert IsWord(w);
      WordLenPad(w, [' ']);
      WordsOfWord(w);
      assert WordLen(s) == |w| by {
        assert s == (w + [' ']) + rest;
        assert forall k :: 0 <= k <= |w| ==> s[k] == (w + [' '])[k];
      }
      assert s[..|w|] == w;
      assert s[|w|..] == [' '] + rest;
      WordsPadLeft([' '], rest);
    }
  }

  /**
   * The collapsed line is single-spaced, has the line's words in the line's
   * order (so every whitespace run between two words became one space), and
   * keeps exactly the line's visible characters.
   */
  lemma CollapseSpec(line: string)
    ensures SingleSpaced(Collapse(line))
    ensures Words(Collapse(line)) == Words(line)
    ensures NonSpace(Collapse(line)) == NonSpace(line)
  {
    var t := Strip(line);
    WordsAreWords(t);
    JoinWords(Words(t));
    WordsOfJoin(Words(t));
    StripWords(line);
    JoinWordsNonSpace(Words(t));
    WordsNonSpace(t);
    StripNonSpace(line);
  }

  // ----- replacing a pattern by a lone pipe -----

  /** The first character of a replacement: the pipe if the pattern starts there, else the input's first. */
  lemma ReplaceHead(s: string, pat: string)
    requires |pat| > 0 && s != []
    ensures Replace(s, pat, "|") != []
    ensures Replace(s, pat, "|")[0] == if At(s, 0, pat) then '|' else s[0]
  {
  }

  lemma {:induction false} ReplaceLast(s: string, pat: string)
    requires |pat| > 0 && s != []
    ensures var r := Replace(s, pat, "|"); r != [] && (r[|r| - 1] == '|' || r[|r| - 1] == s[|s| - 1])
    decreases |s|
  {
    if |s| >= |pat| {
      if s[..|pat|] == pat {
        if |s| > |pat| { ReplaceLast(s[|pat|..], pat); }
      } else if |s| > 1 {
        ReplaceLast(s[1..], pat);
      }
    }
  }

  lemma PlainSpacesCons(c: char, x: string)
    ensures PlainSpaces([c] + x) <==> PlainSpaces(x) && (IsSpace(c) ==> c == ' ')
  {
    var s := [c] + x;
    assert forall i :: 0 <= i < |x| ==> s[i + 1] == x[i];
    if PlainSpaces(x) && (IsSpace(c) ==> c == ' ') {
      forall i | 0 <= i < |s| && IsSpace(s[i]) ensures s[i] == ' ' {
        if i > 0 { assert s[i] == x[i - 1]; }
      }
    }
    if PlainSpaces(s) {
      assert s[0] == c;
      forall i | 0 <= i < |x| && IsSpace(x[i]) ensures x[i] == ' ' {
        assert s[i + 1] == x[i];
      }
    }
  }

  lemma PlainSpacesSuffix(s: string, k: nat)
    requires k <= |s| && PlainSpaces(s)
    ensures PlainSpaces(s[k..])
  {
    assert forall i :: 0 <= i < |s| - k ==> s[k..][i] == s[k + i];
  }

  /** Replacing a pattern by `|` introduces no whitespace of its own. */
  lemma {:induction false} ReplacePlainSpaces(s: string, pat: string)
    requires |pat| > 0 && PlainSpaces(s)
    ensures PlainSpaces(Replace(s, pat, "|"))
    decreases |s|
  {
    if |s| >= |pat| {
      if s[..|pat|] == pat {
        PlainSpacesSuffix(s, |pat|);
        ReplacePlainSpaces(s[|pat|..], pat);
        PlainSpacesCons('|', Replace(s[|pat|..], pat, "|"));
        assert "|" + Replace(s[|pat|..], pat, "|") == ['|'] + Replace(s[|pat|..], pat, "|");
      } else {
        PlainSpacesSuffix(s, 1);
        ReplacePlainSpaces(s[1..], pat);
        PlainSpacesCons(s[0], Replace(s[1..], pat, "|"));
      }
    }
  }

  /** Replacing a pattern whose only visible character is `|` by `|` changes only whitespace. */
  lemma {:induction false} ReplaceNonSpace(s: string, pat: string)
    requires |pat| > 0 && NonSpace(pat) == "|"
    ensures NonSpace(Replace(s, pat, "|")) == NonSpace(s)
    decreases |s|
  {
    if |s| >= |pat| {
      if s[..|pat|] == pat {
        ReplaceNonSpace(s[|pat|..], pat);
        NonSpaceConcat("|", Replace(s[|pat|..], pat, "|"));
        assert s == pat + s[|pat|..];
        NonSpaceConcat(pat, s[|pat|..]);
        assert NonSpace("|") == "|";
      } else {
        ReplaceNonSpace(s[1..], pat);
        NonSpaceConcat([s[0]], Replace(s[1..], pat, "|"));
        assert s == [s[0]] + s[1..];
        NonSpaceConcat([s[0]], s[1..]);
      }
    }
  }

  lemma {:induction false} ReplaceNoDoubleSpace(s: string, pat: string)
    requires |pat| > 0 && NoDoubleSpace(s)
    ensures NoDoubleSpace(Replace(s, pat, "|"))
    decreases |s|
  {
    if |s| >= |pat| {
      if s[..|pat|] == pat {
        NoDoubleSpaceSuffix(s, |pat|);
        ReplaceNoDoubleSpace(s[|pat|..], pat);
        NoDoubleSpaceCons('|', Replace(s[|pat|..], pat, "|"));
        assert "|" + Replace(s[|pat|..], pat, "|") == ['|'] + Replace(s[|pat|..], pat, "|");
      } else {
        var t := s[1..];
        NoDoubleSpaceSuffix(s, 1);
        ReplaceNoDoubleSpace(t, pat);
        NoDoubleSpaceCons(s[0], Replace(t, pat, "|"));
        if t != [] {
          ReplaceHead(t, pat);
          assert s[1] == t[0];
        }
      }
    }
  }

  /** Replacing any pattern by `|` keeps a line single-spaced. */
  lemma ReplaceSingleSpaced(s: string, pat: string)
    requires |pat| > 0 && SingleSpaced(s)
    ensures SingleSpaced(Replace(s, pat, "|"))
  {
    var r := Replace(s, pat, "|");
    ReplaceNoDoubleSpace(s, pat);
    ReplacePlainSpaces(s, pat);
    if s != [] {
      ReplaceHead(s, pat);
      ReplaceLast(s, pat);
    }
  }

  /** Replacing `"| "` by `|` in a string without double spaces leaves no space after a pipe. */
  lemma {:induction false} DropSpaceAfterPipe(s: string)
    requires NoDoubleSpace(s)
    ensures NoPair(Replace(s, "| ", "|"), '|', ' ')
    decreases |s|
  {
    var pat := "| ";
    if |s| >= 2 {
      if s[..2] == pat {
        var t := s[2..];
        NoDoubleSpaceSuffix(s, 2);
        DropSpaceAfterPipe(t);
        NoPairCons('|', Replace(t, pat, "|"), '|', ' ');
        assert "|" + Replace(t, pat, "|") == ['|'] + Replace(t, pat, "|");
        if t != [] {
          ReplaceHead(t, pat);
          assert s[1] == ' ' && s[2] == t[0];
        }
      } else {
        var t := s[1..];
        NoDoubleSpaceSuffix(s, 1);
        DropSpaceAfterPipe(t);
        NoPairCons(s[0], Replace(t, pat, "|"), '|', ' ');
        ReplaceHead(t, pat);
        assert s[1] == t[0];
      }
    }
  }

  /** Replacing `" |"` by `|` leaves no space before a pipe, and creates no space after one. */
  lemma {:induction false} DropSpaceBeforePipe(s: string)
    requires NoDoubleSpace(s) && NoPair(s, '|', ' ')
    ensures NoPair(Replace(s, " |", "|"), ' ', '|')
    ensures NoPair(Replace(s, " |", "|"), '|', ' ')
    decreases |s|
  {
    var pat := " |";
    if |s| >= 2 {
      if s[..2] == pat {
        var t := s[2..];
        NoDoubleSpaceSuffix(s, 2);
        NoPairSuffix(s, 2, '|', ' ');
        DropSpaceBeforePipe(t);
        NoPairCons('|', Replace(t, pat, "|"), ' ', '|');
        NoPairCons('|', Replace(t, pat, "|"), '|', ' ');
        assert "|" + Replace(t, pat, "|") == ['|'] + Replace(t, pat, "|");
        if t != [] {
          ReplaceHead(t, pat);
          assert s[1] == '|' && s[2] == t[0];
        }
      } else {
        var t := s[1..];
        NoDoubleSpaceSuffix(s, 1);
        NoPairSuffix(s, 1, '|', ' ');
        DropSpaceBeforePipe(t);
        NoPairCons(s[0], Replace(t, pat, "|"), ' ', '|');
        NoPairCons(s[0], Replace(t, pat, "|"), '|', ' ');
        ReplaceHead(t, pat);
        assert s[1] == t[0];
        if At(t, 0, pat) { assert t[0] == ' '; }
      }
    }
  }

  // ----- the replacements as one filter -----

  lemma DropCons(p: bool, c: char, x: string)
    ensures DropFrom(p, [c] + x)
      == (if c == ' ' && (p || (x != [] && x[0] == '|')) then [] else [c]) + DropFrom(c == '|', x)
  {
    assert ([c] + x)[1..] == x;
  }

  /** Whether a pipe came before does not matter unless the string starts with a space. */
  lemma DropIgnoresBefore(s: string)
    requires s == [] || s[0] != ' '
    ensures DropFrom(true, s) == DropFrom(false, s)
  {
  }

  lemma DropSpacePipeSpace(p: bool, s: string)
    requires |s| >= 3 && s[..3] == " | " && NoDoubleSpace(s)
    ensures DropFrom(p, s) == ['|'] + DropFrom(true, s[3..])
  {
    var t := s[3..];
    assert s == [' '] + (['|'] + ([' '] + t));
    assert IsSpace(s[2]);
    assert t != [] ==> !IsSpace(s[3]) && s[3] == t[0];
    DropIgnoresBefore(t);
    DropCons(p, ' ', ['|'] + ([' '] + t));
    DropCons(false, '|', [' '] + t);
    DropCons(true, ' ', t);
  }

  lemma DropPipeSpace(p: bool, s: string)
    requires |s| >= 2 && s[..2] == "| " && NoDoubleSpace(s)
    ensures DropFrom(p, s) == ['|'] + DropFrom(true, s[2..])
  {
    var t := s[2..];
    assert s == ['|'] + ([' '] + t);
    assert IsSpace(s[1]);
    assert t != [] ==> !IsSpace(s[2]) && s[2] == t[0];
    DropIgnoresBefore(t);
    DropCons(p, '|', [' '] + t);
    DropCons(true, ' ', t);
  }

  lemma DropSpacePipe(p: bool, s: string)
    requires |s| >= 2 && s[..2] == " |"
    ensures DropFrom(p, s) == ['|'] + DropFrom(true, s[2..])
  {
    var t := s[2..];
    assert s == [' '] + (['|'] + t);
    DropCons(p, ' ', ['|'] + t);
    DropCons(false, '|', t);
  }

  /** A pattern at the head of `s` reads, through the filter, as a single pipe. */
  lemma DropPattern(p: bool, s: string, pat: string)
    requires pat == " | " || pat == "| " || pat == " |"
    requires |s| >= |pat| && s[..|pat|] == pat && NoDoubleSpace(s)
    ensures DropFrom(p, s) == ['|'] + DropFrom(true, s[|pat|..])
  {
    if pat == " | " {
      DropSpacePipeSpace(p, s);
    } else if pat == "| " {
      DropPipeSpace(p, s);
    } else {
      DropSpacePipe(p, s);
    }
  }

  /** Where no pattern starts, the first character meets the filter as it did before. */
  lemma DropKeep(p: bool, s: string, pat: string, rt: string)
    requires pat == " | " || pat == "| " || pat == " |"
    requires s != [] && NoDoubleSpace(s)
    requires s[1..] == [] ==> rt == []
    requires s[1..] != [] ==> rt != [] && rt[0] == if At(s[1..], 0, pat) then '|' else s[1]
    requires DropFrom(s[0] == '|', rt) == DropFrom(s[0] == '|', s[1..])
    ensures DropFrom(p, [s[0]] + rt) == DropFrom(p, s)
  {
    var t := s[1..];
    assert s == [s[0]] + t;
    DropCons(p, s[0], t);
    DropCons(p, s[0], rt);
    if t != [] {
      assert s[1] == t[0];
      assert s[0] == ' ' && At(t, 0, pat) ==> t[0] == '|';
    }
  }

  /**
   * In a string without double spaces, replacing `" | "`, `"| "` or `" |"` by
   * `|` drops only spaces next to a pipe, and leaves every other space with
   * the same neighbours, so the filter sees no difference.
   */
  lemma {:induction false} ReplaceDrop(p: bool, s: string, pat: string)
    requires pat == " | " || pat == "| " || pat == " |"
    requires NoDoubleSpace(s)
    ensures DropFrom(p, Replace(s, pat, "|")) == DropFrom(p, s)
    decreases |s|
  {
    if |s| >= |pat| {
      if s[..|pat|] == pat {
        var rt := Replace(s[|pat|..], pat, "|");
        NoDoubleSpaceSuffix(s, |pat|);
        ReplaceDrop(true, s[|pat|..], pat);
        assert Replace(s, pat, "|") == ['|'] + rt;
        DropCons(p, '|', rt);
        DropPattern(p, s, pat);
      } else {
        var t := s[1..];
        var rt := Replace(t, pat, "|");
        NoDoubleSpaceSuffix(s, 1);
        ReplaceDrop(s[0] == '|', t, pat);
        if t != [] {
          ReplaceHead(t, pat);
        }
        assert Replace(s, pat, "|") == [s[0]] + rt;
        DropKeep(p, s, pat, rt);
      }
    }
  }

  /** A string with no space next to a pipe passes the filter unchanged. */
  lemma {:induction false} DropNoPair(p: bool, s: string)
    requires NoPair(s, '|', ' ') && NoPair(s, ' ', '|')
    requires p ==> s == [] || s[0] != ' '
    ensures DropFrom(p, s) == s
    decreases |s|
  {
    if s != [] {
      var t := s[1..];
      NoPairSuffix(s, 1, '|', ' ');
      NoPairSuffix(s, 1, ' ', '|');
      assert t != [] ==> s[1] == t[0];
      DropNoPair(s[0] == '|', t);
      assert s == [s[0]] + t;
      DropCons(p, s[0], t);
    }
  }

  /** The three replacements together are the filter applied to the collapsed line. */
  lemma SanitizeDrop(line: string)
    ensures SanitizeLine(line) == DropPipeSpaces(Collapse(line))
  {
    var s0 := Collapse(line);
    var s1 := Replace(s0, " | ", "|");
    var s2 := Replace(s1, "| ", "|");
    var s3 := Replace(s2, " |", "|");
    CollapseSpec(line);
    ReplaceNoDoubleSpace(s0, " | ");
    ReplaceNoDoubleSpace(s1, "| ");
    DropSpaceAfterPipe(s1);
    DropSpaceBeforePipe(s2);
    ReplaceDrop(false, s0, " | ");
    ReplaceDrop(false, s1, "| ");
    ReplaceDrop(false, s2, " |");
    DropNoPair(false, s3);
  }

  /**
   * What `_sanitize_line` guarantees: no leading or trailing whitespace, never
   * two whitespace characters in a row (and every one a plain space), no space
   * directly before or after a `|`, and nothing but whitespace removed, so the
   * line keeps its visible characters and its number of `|`.
   */
  lemma SanitizeLineSpec(line: string)
    ensures var r := SanitizeLine(line);
      && SingleSpaced(r)
      && (forall i :: 0 <= i < |r| - 1 ==> !(r[i] == ' ' && r[i + 1] == '|'))
      && (forall i :: 0 <= i < |r| - 1 ==> !(r[i] == '|' && r[i + 1] == ' '))
      && NonSpace(r) == NonSpace(line)
      && Count(r, '|') == Count(line, '|')
      && r == DropPipeSpaces(Collapse(line))
  {
    SanitizeDrop(line);
    var s0 := Collapse(line);
    var s1 := Replace(s0, " | ", "|");
    var s2 := Replace(s1, "| ", "|");
    var s3 := Replace(s2, " |", "|");
    CollapseSpec(line);
    ReplaceSingleSpaced(s0, " | ");
    ReplaceSingleSpaced(s1, "| ");
    ReplaceSingleSpaced(s2, " |");
    DropSpaceAfterPipe(s1);
    DropSpaceBeforePipe(s2);
    assert NonSpace(" | ") == "|" && NonSpace("| ") == "|" && NonSpace(" |") == "|";
    ReplaceNonSpace(s0, " | ");
    ReplaceNonSpace(s1, "| ");
    ReplaceNonSpace(s2, " |");
    CountNonSpace(s3, '|');
    CountNonSpace(line, '|');
  }
}
