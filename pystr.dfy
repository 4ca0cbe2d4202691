/** The Python string built-ins the text normalisation relies on: `str.strip()`,
    `str.splitlines()`, `str.split(sep)`, `str.replace(old, new)`, with Python's own sets of
    whitespace and line-boundary characters. */
module PyStr {
  import opened Seqs

  /** The characters `str.isspace()` accepts, which `str.strip()` with no argument removes. */
  predicate IsWhitespace(c: char)
  {
    || (0x09 <= c as int <= 0x0D) || (0x1C <= c as int <= 0x20)
    || c as int == 0x85 || c as int == 0xA0 || c as int == 0x1680
    || (0x2000 <= c as int <= 0x200A) || c as int == 0x2028 || c as int == 0x2029
    || c as int == 0x202F || c as int == 0x205F || c as int == 0x3000
  }

  /** The line boundaries of `str.splitlines()`: `\n`, `\r`, `\v`, `\f`, `\x1c`, `\x1d`, `\x1e`,
      `\x85`, `\u2028`, `\u2029` (and `\r\n`, read as one boundary). */
  predicate IsLineBreak(c: char)
  {
    || (0x0A <= c as int <= 0x0D) || (0x1C <= c as int <= 0x1E)
    || c as int == 0x85 || c as int == 0x2028 || c as int == 0x2029
  }

  lemma LineBreakIsWhitespace(c: char)
    ensures IsLineBreak(c) ==> IsWhitespace(c)
  {
  }

  predicate NoLineBreak(s: string)
  {
    forall c :: c in s ==> !IsLineBreak(c)
  }

  /** Neither end of `s` is whitespace. */
  predicate IsStripped(s: string)
  {
    s == "" || (!IsWhitespace(s[0]) && !IsWhitespace(s[|s| - 1]))
  }

  // ------------------------------------------------------------ str.strip()

  /** The index of the first character at or after `i` that is not whitespace, or `|s|`. */
  function SkipSpace(s: string, i: nat): (j: nat)
    requires i <= |s|
    ensures i <= j <= |s|
    ensures forall k :: i <= k < j ==> IsWhitespace(s[k])
    ensures j < |s| ==> !IsWhitespace(s[j])
    decreases |s| - i
  {
    if i == |s| || !IsWhitespace(s[i]) then i else SkipSpace(s, i + 1)
  }

  /** The end of the text in `s[lo..hi]` once trailing whitespace is cut off. */
  function SkipSpaceBack(s: string, lo: nat, hi: nat): (j: nat)
    requires lo <= hi <= |s|
    ensures lo <= j <= hi
    ensures forall k :: j <= k < hi ==> IsWhitespace(s[k])
    ensures j > lo ==> !IsWhitespace(s[j - 1])
    decreases hi
  {
    if hi == lo || !IsWhitespace(s[hi - 1]) then hi else SkipSpaceBack(s, lo, hi - 1)
  }

  /** `s.strip()`: the text between the leading and the trailing whitespace. The result is a
      slice of `s` with only whitespace cut off either side, and neither of its ends is whitespace,
      which together pin it down. */
  function Strip(s: string): (r: string)
    ensures IsStripped(r)
    ensures exists lo: nat, hi: nat :: StripsTo(s, lo, hi) && r == s[lo..hi]
    ensures |r| <= |s| && forall c :: c in r ==> c in s
    ensures (forall i :: 0 <= i < |s| ==> IsWhitespace(s[i])) <==> r == ""
  {
    var lo := SkipSpace(s, 0);
    var hi := SkipSpaceBack(s, lo, |s|);
    assert hi > lo ==> s[lo..hi][0] == s[lo];
    assert StripsTo(s, lo, hi);
    s[lo..hi]
  }

  /** `s[..lo]` and `s[hi..]` are whitespace only. */
  predicate StripsTo(s: string, lo: nat, hi: nat)
  {
    && lo <= hi <= |s|
    && (forall k :: 0 <= k < lo ==> IsWhitespace(s[k]))
    && (forall k :: hi <= k < |s| ==> IsWhitespace(s[k]))
  }

  /** `s` with its whitespace removed: the text that whitespace handling must keep. */
  function NonWs(s: string): string
  {
    Without(s, IsWhitespace)
  }

  /** Stripping removes whitespace and nothing else. */
  lemma {:induction false} StripKeepsText(s: string)
    ensures NonWs(Strip(s)) == NonWs(s)
  {
    var r := Strip(s);
    assert exists lo: nat, hi: nat :: StripsTo(s, lo, hi) && r == s[lo..hi];
    var lo: nat, hi: nat :| StripsTo(s, lo, hi) && r == s[lo..hi];
    WithoutTrim(s, lo, hi, IsWhitespace);
  }

  /** Stripping text with neither end whitespace changes nothing. */
  lemma StripStripped(s: string)
    requires IsStripped(s)
    ensures Strip(s) == s
  {
  }

  // ------------------------------------------------------------ str.splitlines()

  /** The index of the first line boundary, or `|s|`. */
  function BreakIndex(s: string): (i: nat)
    ensures i <= |s|
    ensures forall j :: 0 <= j < i ==> !IsLineBreak(s[j])
    ensures i < |s| ==> IsLineBreak(s[i])
    decreases |s|
  {
    if |s| == 0 || IsLineBreak(s[0]) then 0 else 1 + BreakIndex(s[1..])
  }

  /** `s.splitlines()`: the lines between boundaries, `\r\n` counting as one boundary and a
      final boundary not starting an empty line. Read one after another, the lines are `s` with
      its boundary characters taken out. */
  function SplitLines(s: string): (lines: seq<string>)
    ensures forall k :: 0 <= k < |lines| ==> NoLineBreak(lines[k])
    ensures forall k :: 0 <= k < |lines| ==> forall c :: c in lines[k] ==> c in s
    ensures Concat(lines) == Without(s, IsLineBreak)
    decreases |s|
  {
    if |s| == 0 then []
    else
      var i := BreakIndex(s);
      if i == |s| then
        SplitLinesLast(s);
        [s]
      else
        var w := BreakWidth(s, i);
        var rest := SplitLines(s[i + w..]);
        SplitLinesCons(s, i, w, rest);
        [s[..i]] + rest
  }

  /** The width of the boundary at `i`: two for `\r\n`, one otherwise. */
  function BreakWidth(s: string, i: nat): (w: nat)
    requires i < |s| && IsLineBreak(s[i])
    ensures 1 <= w <= 2 && i + w <= |s|
    ensures forall j :: i <= j < i + w ==> IsLineBreak(s[j])
    ensures w == 2 <==> s[i] == '\r' && i + 1 < |s| && s[i + 1] == '\n'
  {
    if s[i] == '\r' && i + 1 < |s| && s[i + 1] == '\n' then 2 else 1
  }

  /** Text without a boundary is one line. */
  lemma {:induction false} SplitLinesLast(s: string)
    requires forall j :: 0 <= j < |s| ==> !IsLineBreak(s[j])
    ensures NoLineBreak(s)
    ensures Concat([s]) == Without(s, IsLineBreak)
  {
    WithoutNone(s, IsLineBreak);
    assert Concat([s]) == Concat([s][..0]) + s;
  }

  /** The first line, its boundary and the lines of the rest together meet the contract. */
  lemma {:induction false} SplitLinesCons(s: string, i: nat, w: nat, rest: seq<string>)
    requires i + w <= |s| && 1 <= w <= 2
    requires forall j :: 0 <= j < i ==> !IsLineBreak(s[j])
    requires forall j :: i <= j < i + w ==> IsLineBreak(s[j])
    requires forall k :: 0 <= k < |rest| ==> NoLineBreak(rest[k])
    requires forall k :: 0 <= k < |rest| ==> forall c :: c in rest[k] ==> c in s[i + w..]
    requires Concat(rest) == Without(s[i + w..], IsLineBreak)
    ensures var lines := [s[..i]] + rest;
      && (forall k :: 0 <= k < |lines| ==> NoLineBreak(lines[k]))
      && (forall k :: 0 <= k < |lines| ==> forall c :: c in lines[k] ==> c in s)
      && Concat(lines) == Without(s, IsLineBreak)
  {
    var line := s[..i];
    var lines := [line] + rest;
    assert forall c :: c in line ==> !IsLineBreak(c);
    assert forall c :: c in line ==> c in s;
    assert forall c :: c in s[i + w..] ==> c in s;
    assert forall k :: 1 <= k < |lines| ==> lines[k] == rest[k - 1];
    SplitLinesStep(s, i, w);
    ConcatCons(line, rest);
  }

  /** The first boundary found is the one at `n` (or there is none when `n == |s|`). */
  lemma BreakIndexAt(s: string, n: nat)
    requires n <= |s| && forall j :: 0 <= j < n ==> !IsLineBreak(s[j])
    requires n == |s| || IsLineBreak(s[n])
    ensures BreakIndex(s) == n
  {
  }

  /** A non-empty text without a boundary is a single line. */
  lemma {:induction false} SplitLinesOneLine(a: string)
    requires NoLineBreak(a) && a != ""
    ensures SplitLines(a) == [a]
  {
    assert forall j :: 0 <= j < |a| ==> a[j] in a;
    BreakIndexAt(a, |a|);
  }

  /** A boundary character ends the line before it; a `\r` followed by `\n` is excluded here, as
      the pair is one boundary (see `SplitLinesAtCrlf`). */
  lemma {:induction false} SplitLinesAtBreak(a: string, b: char, rest: string)
    requires NoLineBreak(a) && IsLineBreak(b)
    requires b != '\r' || rest == "" || rest[0] != '\n'
    ensures SplitLines(a + [b] + rest) == [a] + SplitLines(rest)
  {
    var s := a + [b] + rest;
    assert forall j :: 0 <= j < |a| ==> s[j] == a[j] && a[j] in a;
    BreakIndexAt(s, |a|);
    assert s[..|a|] == a;
    assert s[|a| + 1..] == rest;
  }

  /** A `\r\n` pair ends the line before it and is consumed whole. */
  lemma {:induction false} SplitLinesAtCrlf(a: string, rest: string)
    requires NoLineBreak(a)
    ensures SplitLines(a + "\r\n" + rest) == [a] + SplitLines(rest)
  {
    var s := a + "\r\n" + rest;
    assert forall j :: 0 <= j < |a| ==> s[j] == a[j] && a[j] in a;
    BreakIndexAt(s, |a|);
    assert s[..|a|] == a;
    assert s[|a| + 2..] == rest;
  }

  /** One line and its boundary, filtered. */
  lemma {:induction false} SplitLinesStep(s: string, i: nat, w: nat)
    requires i + w <= |s| && 1 <= w <= 2
    requires forall j :: 0 <= j < i ==> !IsLineBreak(s[j])
    requires forall j :: i <= j < i + w ==> IsLineBreak(s[j])
    ensures Without(s, IsLineBreak) == s[..i] + Without(s[i + w..], IsLineBreak)
  {
    WithoutSkip(s, i, i + w, IsLineBreak);
  }

  // ------------------------------------------------------------ str.split("\n\n")

  const ParagraphSeparator: string := "\n\n"

  /** No two newlines in a row. */
  predicate NoBlankLine(p: string)
  {
    forall i :: 0 <= i < |p| - 1 ==> !(p[i] == '\n' && p[i + 1] == '\n')
  }

  /** `s.split("\n\n")`: the pieces between non-overlapping separators, read left to right. The
      first piece starts the text, and no piece holds a separator: the leftmost one would have
      been taken. */
  function SplitOnBlankLine(s: string): (parts: seq<string>)
    ensures |parts| >= 1
    ensures |parts[0]| <= |s| && parts[0] == s[..|parts[0]|]
    ensures forall k :: 0 <= k < |parts| ==> NoBlankLine(parts[k])
    decreases |s|
  {
    if |s| < 2 then [s]
    else if s[0] == '\n' && s[1] == '\n' then
      var rest := SplitOnBlankLine(s[2..]);
      assert forall k :: 1 <= k < |rest| + 1 ==> ([""] + rest)[k] == rest[k - 1];
      [""] + rest
    else
      var rest := SplitOnBlankLine(s[1..]);
      var first := [s[0]] + rest[0];
      assert first == s[..|first|];
      assert NoBlankLine(first) by {
        forall i | 0 <= i < |first| - 1 ensures !(first[i] == '\n' && first[i + 1] == '\n') {
          if i > 0 {
            assert first[i] == rest[0][i - 1] && first[i + 1] == rest[0][i];
          }
        }
      }
      assert forall k :: 1 <= k < |rest| ==> ([first] + rest[1..])[k] == rest[k];
      [first] + rest[1..]
  }

  lemma {:induction false} SplitOnBlankLineJoin(s: string)
    ensures JoinWith(SplitOnBlankLine(s), ParagraphSeparator) == s
    decreases |s|
  {
    if |s| < 2 {
    } else if s[0] == '\n' && s[1] == '\n' {
      SplitOnBlankLineJoin(s[2..]);
      JoinAfterSeparator(s, SplitOnBlankLine(s[2..]));
    } else {
      SplitOnBlankLineJoin(s[1..]);
      JoinAfterChar(s, SplitOnBlankLine(s[1..]));
    }
  }

  /** The two cases of the split, reassembled. */
  lemma {:induction false} JoinAfterSeparator(s: string, rest: seq<string>)
    requires |s| >= 2 && s[0] == '\n' && s[1] == '\n'
    requires |rest| >= 1 && JoinWith(rest, ParagraphSeparator) == s[2..]
    ensures JoinWith([""] + rest, ParagraphSeparator) == s
  {
    JoinWithCons("", rest, ParagraphSeparator);
    assert s == ParagraphSeparator + s[2..];
  }

  lemma {:induction false} JoinAfterChar(s: string, rest: seq<string>)
    requires |s| >= 1
    requires |rest| >= 1 && JoinWith(rest, ParagraphSeparator) == s[1..]
    ensures JoinWith([[s[0]] + rest[0]] + rest[1..], ParagraphSeparator) == s
  {
    JoinWithExtendFirst([s[0]], rest, ParagraphSeparator);
    assert s == [s[0]] + s[1..];
  }

  // ------------------------------------------------------------ str.replace("\r\n", "\n")

  /** `s.replace([x, y], [z])`: each non-overlapping `x, y`, left to right, becomes `z`. */
  function ReplacePair<T(==)>(s: seq<T>, x: T, y: T, z: T): (r: seq<T>)
    ensures |r| <= |s|
    decreases |s|
  {
    if |s| == 0 then []
    else if |s| >= 2 && s[0] == x && s[1] == y then [z] + ReplacePair(s[2..], x, y, z)
    else [s[0]] + ReplacePair(s[1..], x, y, z)
  }

  /** Without an `x` there is nothing to replace. */
  lemma {:induction false} ReplacePairIdentity<T>(s: seq<T>, x: T, y: T, z: T)
    ensures x !in s ==> ReplacePair(s, x, y, z) == s
    decreases |s|
  {
    if |s| > 0 && x !in s {
      assert x !in s[1..];
      ReplacePairIdentity(s[1..], x, y, z);
      assert s == [s[0]] + s[1..];
    }
  }

  /** `s.replace("\r\n", "\n")` */
  function ReplaceCrlf(s: string): (r: string)
    ensures |r| <= |s|
    ensures '\r' !in s ==> r == s
  {
    ReplacePairIdentity(s, '\r', '\n', '\n');
    ReplacePair(s, '\r', '\n', '\n')
  }

  /** The replacement deletes only `x`: with `x` (and whatever else) filtered out, input and output
      agree, given that `z` is the second element of the pair. */
  lemma {:induction false} ReplacePairDropsOnlyFirst<T>(s: seq<T>, x: T, y: T, drop: T -> bool)
    requires drop(x)
    ensures Without(ReplacePair(s, x, y, y), drop) == Without(s, drop)
    decreases |s|
  {
    if |s| >= 2 && s[0] == x && s[1] == y {
      ReplacePairDropsOnlyFirst(s[2..], x, y, drop);
      assert s == [s[0]] + ([s[1]] + s[2..]);
      WithoutCons(s[0], [s[1]] + s[2..], drop);
      WithoutCons(s[1], s[2..], drop);
      WithoutCons(y, ReplacePair(s[2..], x, y, y), drop);
    } else if |s| > 0 {
      ReplacePairDropsOnlyFirst(s[1..], x, y, drop);
      assert s == [s[0]] + s[1..];
      WithoutCons(s[0], s[1..], drop);
      WithoutCons(s[0], ReplacePair(s[1..], x, y, y), drop);
    }
  }

  /** The replacement works piecewise on a cut that does not fall just after an `x`. */
  lemma {:induction false} ReplacePairAppend<T>(a: seq<T>, b: seq<T>, x: T, y: T, z: T)
    requires a == [] || a[|a| - 1] != x
    ensures ReplacePair(a + b, x, y, z) == ReplacePair(a, x, y, z) + ReplacePair(b, x, y, z)
    decreases |a|
  {
    if a == [] {
      assert a + b == b;
    } else if |a| >= 2 && a[0] == x && a[1] == y {
      ReplacePairAppend(a[2..], b, x, y, z);
      ReplacePairPairStep(a, b, x, y, z);
    } else if a[0] != x {
      ReplacePairAppend(a[1..], b, x, y, z);
      ReplacePairCopyStep(a, b, x, y, z);
    } else {
      ReplacePairAppend(a[1..], b, x, y, z);
      ReplacePairLoneStep(a, b, x, y, z);
    }
  }

  lemma {:induction false} ReplacePairPairStep<T>(a: seq<T>, b: seq<T>, x: T, y: T, z: T)
    requires |a| >= 2 && a[0] == x && a[1] == y
    requires ReplacePair(a[2..] + b, x, y, z) == ReplacePair(a[2..], x, y, z) + ReplacePair(b, x, y, z)
    ensures ReplacePair(a + b, x, y, z) == ReplacePair(a, x, y, z) + ReplacePair(b, x, y, z)
  {
    var h, t := a[..2], a[2..];
    SplitFront(a, b, 2);
    ReplacePairPairHead(h, t + b, x, y, z);
    ReplacePairPairHead(h, t, x, y, z);
    assert [z] + (ReplacePair(t, x, y, z) + ReplacePair(b, x, y, z))
        == ([z] + ReplacePair(t, x, y, z)) + ReplacePair(b, x, y, z);
  }

  lemma {:induction false} ReplacePairCopyStep<T>(a: seq<T>, b: seq<T>, x: T, y: T, z: T)
    requires |a| >= 1 && a[0] != x
    requires ReplacePair(a[1..] + b, x, y, z) == ReplacePair(a[1..], x, y, z) + ReplacePair(b, x, y, z)
    ensures ReplacePair(a + b, x, y, z) == ReplacePair(a, x, y, z) + ReplacePair(b, x, y, z)
  {
    var h, t := a[..1], a[1..];
    SplitFront(a, b, 1);
    ReplacePairHead(h, t + b, x, y, z);
    ReplacePairHead(h, t, x, y, z);
    assert h + (ReplacePair(t, x, y, z) + ReplacePair(b, x, y, z))
        == (h + ReplacePair(t, x, y, z)) + ReplacePair(b, x, y, z);
  }

  lemma {:induction false} ReplacePairLoneStep<T>(a: seq<T>, b: seq<T>, x: T, y: T, z: T)
    requires |a| >= 2 && a[0] == x && a[1] != y
    requires ReplacePair(a[1..] + b, x, y, z) == ReplacePair(a[1..], x, y, z) + ReplacePair(b, x, y, z)
    ensures ReplacePair(a + b, x, y, z) == ReplacePair(a, x, y, z) + ReplacePair(b, x, y, z)
  {
    var h, t := a[..1], a[1..];
    SplitFront(a, b, 1);
    ReplacePairLoneHead(h, t + b, x, y, z);
    ReplacePairLoneHead(h, t, x, y, z);
    assert h + (ReplacePair(t, x, y, z) + ReplacePair(b, x, y, z))
        == (h + ReplacePair(t, x, y, z)) + ReplacePair(b, x, y, z);
  }

  /** A pair `x, y` in front is replaced by `z`. */
  lemma {:induction false} ReplacePairPairHead<T>(h: seq<T>, t: seq<T>, x: T, y: T, z: T)
    requires |h| == 2 && h[0] == x && h[1] == y
    ensures ReplacePair(h + t, x, y, z) == [z] + ReplacePair(t, x, y, z)
  {
    assert (h + t)[2..] == t;
  }

  /** An element other than `x` in front is copied. */
  lemma {:induction false} ReplacePairHead<T>(h: seq<T>, t: seq<T>, x: T, y: T, z: T)
    requires |h| == 1 && h[0] != x
    ensures ReplacePair(h + t, x, y, z) == h + ReplacePair(t, x, y, z)
  {
    assert (h + t)[1..] == t;
  }

  /** An `x` in front that is not followed by `y` is copied. */
  lemma {:induction false} ReplacePairLoneHead<T>(h: seq<T>, t: seq<T>, x: T, y: T, z: T)
    requires |h| == 1 && h[0] == x && (t == [] || t[0] != y)
    ensures ReplacePair(h + t, x, y, z) == h + ReplacePair(t, x, y, z)
  {
    assert (h + t)[1..] == t;
    if t != [] {
      assert (h + t)[1] == t[0];
    }
  }

  /** An `x` not followed by `y` is copied, and the text on either side is replaced on its own. */
  lemma {:induction false} ReplacePairLone<T>(a: seq<T>, b: seq<T>, x: T, y: T, z: T)
    requires a == [] || a[|a| - 1] != x
    requires b == [] || b[0] != y
    ensures ReplacePair(a + ([x] + b), x, y, z) == ReplacePair(a, x, y, z) + ([x] + ReplacePair(b, x, y, z))
  {
    ReplacePairAppend(a, [x] + b, x, y, z);
    ReplacePairLoneHead([x], b, x, y, z);
  }

  /** The replacement deletes only carriage returns: with them (and whatever else) filtered out,
      input and output agree. */
  lemma ReplaceCrlfDropsOnlyCr(s: string, drop: char -> bool)
    requires drop('\r')
    ensures Without(ReplaceCrlf(s), drop) == Without(s, drop)
  {
    ReplacePairDropsOnlyFirst(s, '\r', '\n', drop);
  }

  /** The replacement works piecewise on a cut that does not fall just after a `\r`. */
  lemma ReplaceCrlfAppend(a: string, b: string)
    requires a == "" || a[|a| - 1] != '\r'
    ensures ReplaceCrlf(a + b) == ReplaceCrlf(a) + ReplaceCrlf(b)
  {
    ReplacePairAppend(a, b, '\r', '\n', '\n');
  }

  /** A lone `\r`, not followed by `\n`, survives the replacement (and stays a line boundary
      for `splitlines`). */
  lemma ReplaceCrlfLoneCr(a: string, b: string)
    requires a == "" || a[|a| - 1] != '\r'
    requires b == "" || b[0] != '\n'
    ensures ReplaceCrlf(a + ("\r" + b)) == ReplaceCrlf(a) + ("\r" + ReplaceCrlf(b))
  {
    ReplacePairLone(a, b, '\r', '\n', '\n');
  }

  /** Each `\r\n` not preceded by a `\r` becomes `\n`. */
  lemma ReplaceCrlfAtCrlf(a: string, b: string)
    requires a == "" || a[|a| - 1] != '\r'
    ensures ReplaceCrlf(a + (['\r', '\n'] + b)) == ReplaceCrlf(a) + (['\n'] + ReplaceCrlf(b))
  {
    ReplacePairAppend(a, ['\r', '\n'] + b, '\r', '\n', '\n');
    assert (['\r', '\n'] + b)[2..] == b;
  }
}
