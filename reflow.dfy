/** `reflow_paragraphs` in backend/api/routers/upload.py: unify CRLF line ends, collapse runs of
    blank lines, then flatten each paragraph to one line of space-separated, stripped lines. */
module Reflow {
  import opened Seqs
  import opened PyStr

  // ------------------------------------------------------------ re.sub(r'\n{2,}', '\n\n', text)

  /** `s` without its leading `x`s. */
  function DropLeading<T(==)>(s: seq<T>, x: T): (r: seq<T>)
    ensures |r| <= |s|
    ensures r == [] || r[0] != x
    ensures |s| > 0 && s[0] == x ==> |r| < |s|
    decreases |s|
  {
    if |s| > 0 && s[0] == x then DropLeading(s[1..], x) else s
  }

  /** `DropLeading` keeps a suffix and what it takes off is all `x`. */
  lemma {:induction false} DropLeadingDropped<T>(s: seq<T>, x: T)
    ensures DropLeading(s, x) == s[|s| - |DropLeading(s, x)|..]
    ensures forall i :: 0 <= i < |s| - |DropLeading(s, x)| ==> s[i] == x
    decreases |s|
  {
    if |s| > 0 && s[0] == x {
      DropLeadingDropped(s[1..], x);
      assert s[1..][|s| - 1 - |DropLeading(s, x)|..] == s[|s| - |DropLeading(s, x)|..];
    }
  }

  /** The regex rewrite for one repeated element: a run of two or more `x`, taken whole and
      leftmost first, becomes exactly two. */
  function CollapseRuns<T(==)>(s: seq<T>, x: T): seq<T>
    decreases |s|
  {
    if |s| == 0 then []
    else if |s| >= 2 && s[0] == x && s[1] == x then [x, x] + CollapseRuns(DropLeading(s, x), x)
    else [s[0]] + CollapseRuns(s[1..], x)
  }

  /** `re.sub(r'\n{2,}', '\n\n', s)` */
  function CollapseBlankRuns(s: string): string
  {
    CollapseRuns(s, '\n')
  }

  /** No three `x` in a row. */
  ghost predicate NoTriple<T>(s: seq<T>, x: T)
  {
    forall i :: 0 <= i < |s| - 2 ==> !(s[i] == x && s[i + 1] == x && s[i + 2] == x)
  }

  /** The collapse keeps the first element, and no run of three `x` survives it. */
  lemma {:induction false} CollapseShape<T>(s: seq<T>, x: T)
    ensures var r := CollapseRuns(s, x);
      && (s == [] <==> r == [])
      && (s != [] ==> r[0] == s[0])
      && NoTriple(r, x)
    decreases |s|
  {
    var r := CollapseRuns(s, x);
    if |s| >= 2 && s[0] == x && s[1] == x {
      var t := DropLeading(s, x);
      CollapseShape(t, x);
      CollapseRunsStep(t, CollapseRuns(t, x), x);
    } else if |s| > 0 {
      var t := s[1..];
      CollapseShape(t, x);
      var r' := CollapseRuns(t, x);
      assert r == [s[0]] + r';
      forall i | 0 <= i < |r| - 2
        ensures !(r[i] == x && r[i + 1] == x && r[i + 2] == x)
      {
        if i > 0 {
          assert r[i] == r'[i - 1] && r[i + 1] == r'[i] && r[i + 2] == r'[i + 1];
        } else if s[0] == x {
          assert r'[0] == t[0] == s[1];
        }
      }
    }
  }

  /** Two `x` before collapsed text that does not start with `x`. */
  lemma CollapseRunsStep<T>(t: seq<T>, r': seq<T>, x: T)
    requires t == [] || t[0] != x
    requires (t == [] <==> r' == []) && (t != [] ==> r'[0] == t[0]) && NoTriple(r', x)
    ensures NoTriple([x, x] + r', x)
  {
  }

  /** The collapse only removes `x`: with `x` (and whatever else) filtered out, input and output
      agree. */
  lemma {:induction false} CollapseKeepsText<T>(s: seq<T>, x: T, drop: T -> bool)
    requires drop(x)
    ensures Without(CollapseRuns(s, x), drop) == Without(s, drop)
    decreases |s|
  {
    if |s| >= 2 && s[0] == x && s[1] == x {
      CollapseKeepsText(DropLeading(s, x), x, drop);
      CollapseKeepsRun(s, x, drop);
    } else if |s| > 0 {
      CollapseKeepsText(s[1..], x, drop);
      CollapseKeepsCopy(s, x, drop);
    }
  }

  lemma {:induction false} CollapseKeepsRun<T>(s: seq<T>, x: T, drop: T -> bool)
    requires drop(x) && |s| >= 2 && s[0] == x && s[1] == x
    requires Without(CollapseRuns(DropLeading(s, x), x), drop) == Without(DropLeading(s, x), drop)
    ensures Without(CollapseRuns(s, x), drop) == Without(s, drop)
  {
    var t := DropLeading(s, x);
    DropLeadingDropped(s, x);
    assert s[|s| - |t|..|s|] == t;
    calc {
      Without(CollapseRuns(s, x), drop);
      Without([x, x] + CollapseRuns(t, x), drop);
      { WithoutAppend([x, x], CollapseRuns(t, x), drop); }
      Without([x, x], drop) + Without(CollapseRuns(t, x), drop);
      { WithoutAll([x, x], drop); }
      Without(t, drop);
      { WithoutTrim(s, |s| - |t|, |s|, drop); }
      Without(s, drop);
    }
  }

  lemma {:induction false} CollapseKeepsCopy<T>(s: seq<T>, x: T, drop: T -> bool)
    requires |s| > 0 && !(|s| >= 2 && s[0] == x && s[1] == x)
    requires Without(CollapseRuns(s[1..], x), drop) == Without(s[1..], drop)
    ensures Without(CollapseRuns(s, x), drop) == Without(s, drop)
  {
    assert s == [s[0]] + s[1..];
    CollapseHead(s[0], s[1..], x);
    WithoutCons(s[0], s[1..], drop);
    WithoutCons(s[0], CollapseRuns(s[1..], x), drop);
  }

  /** A cut that does not split a run of `x` lets the leading `x`s be dropped on the left piece
      alone. */
  lemma {:induction false} DropLeadingAppend<T>(a: seq<T>, b: seq<T>, x: T)
    requires a != [] && (a[|a| - 1] != x || b == [] || b[0] != x)
    ensures DropLeading(a + b, x) == DropLeading(a, x) + b
    decreases |a|
  {
    var ab := a + b;
    assert ab[0] == a[0];
    if a[0] == x {
      assert ab[1..] == a[1..] + b;
      if |a| == 1 {
        assert a[1..] + b == b;
      } else {
        DropLeadingAppend(a[1..], b, x);
      }
    }
  }

  /** The collapse works piecewise on a cut that does not split a run of `x`. */
  lemma {:induction false} CollapseAppend<T>(a: seq<T>, b: seq<T>, x: T)
    requires a == [] || a[|a| - 1] != x || b == [] || b[0] != x
    ensures CollapseRuns(a + b, x) == CollapseRuns(a, x) + CollapseRuns(b, x)
    decreases |a|
  {
    if a == [] {
      assert a + b == b;
    } else if |a| >= 2 && a[0] == x && a[1] == x {
      var t := DropLeading(a, x);
      DropLeadingDropped(a, x);
      assert t != [] ==> t[|t| - 1] == a[|a| - 1];
      DropLeadingAppend(a, b, x);
      CollapseAppend(t, b, x);
      CollapseRunStep(a, b, x);
    } else {
      CollapseAppend(a[1..], b, x);
      CollapseCopyStep(a, b, x);
    }
  }

  lemma {:induction false} CollapseRunStep<T>(a: seq<T>, b: seq<T>, x: T)
    requires |a| >= 2 && a[0] == x && a[1] == x
    requires DropLeading(a + b, x) == DropLeading(a, x) + b
    requires CollapseRuns(DropLeading(a, x) + b, x) == CollapseRuns(DropLeading(a, x), x) + CollapseRuns(b, x)
    ensures CollapseRuns(a + b, x) == CollapseRuns(a, x) + CollapseRuns(b, x)
  {
    var ab := a + b;
    assert ab[0] == x && ab[1] == x;
  }

  lemma {:induction false} CollapseCopyStep<T>(a: seq<T>, b: seq<T>, x: T)
    requires |a| >= 1 && !(|a| >= 2 && a[0] == x && a[1] == x)
    requires a[|a| - 1] != x || b == [] || b[0] != x
    requires CollapseRuns(a[1..] + b, x) == CollapseRuns(a[1..], x) + CollapseRuns(b, x)
    ensures CollapseRuns(a + b, x) == CollapseRuns(a, x) + CollapseRuns(b, x)
  {
    var h, t := a[..1], a[1..];
    SplitFront(a, b, 1);
    assert h == [a[0]];
    CollapseHead(a[0], t + b, x);
    CollapseHead(a[0], t, x);
    assert h + (CollapseRuns(t, x) + CollapseRuns(b, x)) == (h + CollapseRuns(t, x)) + CollapseRuns(b, x);
  }

  /** An element in front that does not start a run of `x` is copied. */
  lemma {:induction false} CollapseHead<T>(c: T, t: seq<T>, x: T)
    requires c != x || t == [] || t[0] != x
    ensures CollapseRuns([c] + t, x) == [c] + CollapseRuns(t, x)
  {
    assert ([c] + t)[0] == c && ([c] + t)[1..] == t;
    assert |t| > 0 ==> ([c] + t)[1] == t[0];
  }

  /** `n` copies of `x`. */
  function Repeat<T>(x: T, n: nat): (r: seq<T>)
    ensures |r| == n && forall i :: 0 <= i < n ==> r[i] == x
  {
    seq(n, _ => x)
  }

  /** Between text that does not end in `x` and text that does not start with it, a run of `n`
      copies of `x` is kept when `n` is 0 or 1 and becomes exactly two when `n >= 2`. */
  lemma {:induction false} CollapseRun<T>(a: seq<T>, n: nat, b: seq<T>, x: T)
    requires a == [] || a[|a| - 1] != x
    requires b == [] || b[0] != x
    ensures CollapseRuns(a + (Repeat(x, n) + b), x)
      == CollapseRuns(a, x) + (Repeat(x, if n < 2 then n else 2) + CollapseRuns(b, x))
  {
    CollapseAppend(a, Repeat(x, n) + b, x);
    if n == 0 {
      assert Repeat(x, n) + b == b;
    } else if n == 1 {
      assert Repeat(x, n) + b == [x] + b;
      CollapseHead(x, b, x);
    } else {
      CollapseLongRun(n, b, x);
    }
  }

  lemma {:induction false} CollapseLongRun<T>(n: nat, b: seq<T>, x: T)
    requires n >= 2 && (b == [] || b[0] != x)
    ensures CollapseRuns(Repeat(x, n) + b, x) == Repeat(x, 2) + CollapseRuns(b, x)
  {
    var run := Repeat(x, n) + b;
    DropLeadingAppend(Repeat(x, n), b, x);
    DropLeadingDropped(Repeat(x, n), x);
    assert DropLeading(Repeat(x, n), x) == [];
    assert DropLeading(run, x) == b;
    assert run[0] == x && run[1] == x;
    assert CollapseRuns(run, x) == [x, x] + CollapseRuns(b, x);
    assert Repeat(x, 2) == [x, x];
  }

  // ------------------------------------------------------------ one paragraph

  /** Each line, stripped. */
  function StrippedLines(lines: seq<string>): (r: seq<string>)
    ensures |r| == |lines|
  {
    seq(|lines|, k requires 0 <= k < |lines| => Strip(lines[k]))
  }

  /** Which lines are kept: those that do not strip to the empty string. */
  function NonBlank(lines: seq<string>): (flags: seq<bool>)
    ensures |flags| == |lines|
  {
    seq(|lines|, k requires 0 <= k < |lines| => Strip(lines[k]) != "")
  }

  /** `line.strip() for line in lines if line.strip()` */
  function KeptLines(lines: seq<string>): (kept: seq<string>)
    ensures |kept| <= |lines|
    ensures forall k :: 0 <= k < |kept| ==> kept[k] != "" && IsStripped(kept[k])
    decreases |lines|
  {
    if |lines| == 0 then []
    else
      var p := Strip(lines[|lines| - 1]);
      KeptLines(lines[..|lines| - 1]) + (if p != "" then [p] else [])
  }

  /** The kept lines are the stripped lines selected by `NonBlank`. */
  lemma {:induction false} KeptLinesSelect(lines: seq<string>)
    ensures KeptLines(lines) == Select(StrippedLines(lines), NonBlank(lines))
    decreases |lines|
  {
    if |lines| > 0 {
      var n := |lines| - 1;
      KeptLinesSelect(lines[..n]);
      LinesPrefix(lines, n);
    }
  }

  lemma {:induction false} LinesPrefix(lines: seq<string>, n: nat)
    requires n <= |lines|
    ensures StrippedLines(lines)[..n] == StrippedLines(lines[..n])
    ensures NonBlank(lines)[..n] == NonBlank(lines[..n])
  {
  }

  /** A non-blank line sits, stripped, at its rank among the kept ones, and there is one kept
      line per non-blank line. */
  lemma {:induction false} KeptLinesAt(lines: seq<string>, k: nat)
    requires k < |lines| && Strip(lines[k]) != ""
    ensures |KeptLines(lines)| == CountTrue(NonBlank(lines))
    ensures CountTrue(NonBlank(lines)[..k]) < |KeptLines(lines)|
    ensures KeptLines(lines)[CountTrue(NonBlank(lines)[..k])] == Strip(lines[k])
  {
    KeptLinesSelect(lines);
    SelectAt(StrippedLines(lines), NonBlank(lines), k);
  }

  /** Every kept line is a non-blank line, stripped, found at that line's rank. With
      `KeptLinesAt` and `Seqs.CountTrueRank` this makes the kept lines exactly the stripped
      non-blank lines, in their order. */
  lemma {:induction false} KeptLinesFrom(lines: seq<string>, m: nat)
    requires m < |KeptLines(lines)|
    ensures exists k :: 0 <= k < |lines| && Strip(lines[k]) != "" && CountTrue(NonBlank(lines)[..k]) == m
                        && KeptLines(lines)[m] == Strip(lines[k])
  {
    KeptLinesSelect(lines);
    SelectFrom(StrippedLines(lines), NonBlank(lines), m);
    var k :| 0 <= k < |lines| && NonBlank(lines)[k] && CountTrue(NonBlank(lines)[..k]) == m
             && KeptLines(lines)[m] == StrippedLines(lines)[k];
  }

  /** Only whitespace is lost in keeping lines: blank lines are whitespace, and stripping removes
      whitespace. */
  lemma {:induction false} KeptLinesKeepText(lines: seq<string>)
    ensures NonWs(Concat(KeptLines(lines))) == NonWs(Concat(lines))
    decreases |lines|
  {
    if |lines| > 0 {
      var n := |lines| - 1;
      KeptLinesKeepText(lines[..n]);
      KeptLinesLast(lines);
      StripKeepsText(lines[n]);
      WithoutAppend(Concat(KeptLines(lines[..n])), Strip(lines[n]), IsWhitespace);
      assert Concat(lines) == Concat(lines[..n]) + lines[n];
      WithoutAppend(Concat(lines[..n]), lines[n], IsWhitespace);
    }
  }

  /** The kept lines of `lines` run together are those of all but the last line, then the last
      line stripped (which is empty when that line is dropped). */
  lemma KeptLinesLast(lines: seq<string>)
    requires |lines| > 0
    ensures Concat(KeptLines(lines)) == Concat(KeptLines(lines[..|lines| - 1])) + Strip(lines[|lines| - 1])
  {
    var front := KeptLines(lines[..|lines| - 1]);
    var p := Strip(lines[|lines| - 1]);
    if p != "" {
      assert (front + [p])[..|front|] == front;
      assert Concat(front + [p]) == Concat(front) + p;
    } else {
      assert KeptLines(lines) == front;
      assert p == [];
    }
  }

  /** Every kept line comes from a line by stripping it, so carries no line break. */
  lemma {:induction false} KeptLinesNoLineBreak(lines: seq<string>)
    requires forall k :: 0 <= k < |lines| ==> NoLineBreak(lines[k])
    ensures forall k :: 0 <= k < |KeptLines(lines)| ==> NoLineBreak(KeptLines(lines)[k])
    decreases |lines|
  {
    if |lines| > 0 {
      var n := |lines| - 1;
      KeptLinesNoLineBreak(lines[..n]);
      var p := Strip(lines[n]);
      assert NoLineBreak(p) by {
        forall c | c in p ensures !IsLineBreak(c) { assert c in lines[n]; }
      }
    }
  }

  /** `" ".join(...)` of the kept lines of one paragraph, then `.strip()`. */
  function FlattenParagraph(para: string): string
  {
    Strip(JoinWith(KeptLines(SplitLines(para)), " "))
  }

  /** Two lines of text separated by one line boundary become one line, the boundary replaced by
      a single space. */
  lemma {:induction false} FlattenJoinsLines(a: string, c: char, b: string)
    requires a != "" && IsStripped(a) && NoLineBreak(a)
    requires b != "" && IsStripped(b) && NoLineBreak(b)
    requires IsLineBreak(c)
    ensures FlattenParagraph(a + [c] + b) == a + " " + b
  {
    assert b[0] in b;
    SplitLinesAtBreak(a, c, b);
    SplitLinesOneLine(b);
    assert SplitLines(a + [c] + b) == [a, b];
    StripStripped(a);
    StripStripped(b);
    assert [a, b][..1] == [a];
    assert [a][..0] == [];
    assert KeptLines([a]) == [a];
    assert KeptLines([a, b]) == [a, b];
    assert JoinWith([a, b], " ") == a + " " + b;
    JoinStripped([a, b]);
    StripStripped(a + " " + b);
  }

  /** A paragraph as the output holds it: a single line, neither end whitespace. */
  predicate IsFlat(p: string)
  {
    NoLineBreak(p) && IsStripped(p)
  }

  /** Non-empty stripped pieces joined with single spaces are themselves stripped. */
  lemma {:induction false} JoinStripped(parts: seq<string>)
    requires forall k :: 0 <= k < |parts| ==> parts[k] != "" && IsStripped(parts[k])
    ensures var j := JoinWith(parts, " ");
      && (|parts| > 0 ==> j != "" && j[0] == parts[0][0] && j[|j| - 1] == parts[|parts| - 1][|parts[|parts| - 1]| - 1])
      && IsStripped(j)
    decreases |parts|
  {
    if |parts| > 1 {
      var init := parts[..|parts| - 1];
      JoinStripped(init);
      assert init[0] == parts[0];
    }
  }

  /** A flattened paragraph is one line and is already stripped, so the final `.strip()` of the
      source changes nothing. */
  lemma {:induction false} FlattenParagraphShape(para: string)
    ensures IsFlat(FlattenParagraph(para))
    ensures FlattenParagraph(para) == JoinWith(KeptLines(SplitLines(para)), " ")
  {
    var kept := KeptLines(SplitLines(para));
    KeptJoinNoLineBreak(SplitLines(para));
    JoinStripped(kept);
    StripStripped(JoinWith(kept, " "));
  }

  /** Kept lines of boundary-free lines, joined with spaces, hold no boundary. */
  lemma {:induction false} KeptJoinNoLineBreak(lines: seq<string>)
    requires forall k :: 0 <= k < |lines| ==> NoLineBreak(lines[k])
    ensures NoLineBreak(JoinWith(KeptLines(lines), " "))
  {
    KeptLinesNoLineBreak(lines);
    JoinWithElements(KeptLines(lines), " ", c => !IsLineBreak(c));
  }

  /** A paragraph holding only whitespace flattens to the empty string: it is kept, not dropped. */
  lemma {:induction false} BlankParagraphKept(para: string)
    requires forall i :: 0 <= i < |para| ==> IsWhitespace(para[i])
    ensures FlattenParagraph(para) == ""
  {
    BlankLinesDropped(SplitLines(para), para);
  }

  lemma {:induction false} BlankLinesDropped(lines: seq<string>, para: string)
    requires forall i :: 0 <= i < |para| ==> IsWhitespace(para[i])
    requires forall k :: 0 <= k < |lines| ==> forall c :: c in lines[k] ==> c in para
    ensures KeptLines(lines) == []
    decreases |lines|
  {
    if |lines| > 0 {
      var n := |lines| - 1;
      var l := lines[n];
      forall i | 0 <= i < |l| ensures IsWhitespace(l[i]) {
        assert l[i] in para;
      }
      BlankLinesDropped(lines[..n], para);
    }
  }

  /** A paragraph loses only whitespace in flattening: splitting takes out line boundaries, which
      are whitespace, and the kept lines are joined with spaces. */
  lemma {:induction false} FlattenParagraphKeepsText(para: string)
    ensures NonWs(FlattenParagraph(para)) == NonWs(para)
  {
    var lines := SplitLines(para);
    var kept := KeptLines(lines);
    var j := JoinWith(kept, " ");
    StripKeepsText(j);
    WithoutJoin(kept, " ", IsWhitespace);
    KeptLinesKeepText(lines);
    forall c | IsLineBreak(c) ensures IsWhitespace(c) {
      LineBreakIsWhitespace(c);
    }
    WithoutSubsumed(para, IsLineBreak, IsWhitespace);
  }

  // ------------------------------------------------------------ the whole text

  /** The pieces `text.split("\n\n")` yields after CRLF unification and the collapse. */
  function Parts(text: string): (parts: seq<string>)
    ensures |parts| >= 1
  {
    SplitOnBlankLine(CollapseBlankRuns(ReplaceCrlf(text)))
  }

  /** The flattened paragraphs, one per piece. */
  function Paragraphs(text: string): (paras: seq<string>)
    ensures |paras| == |Parts(text)|
  {
    var parts := Parts(text);
    seq(|parts|, k requires 0 <= k < |parts| => FlattenParagraph(parts[k]))
  }

  /** `reflow_paragraphs(text, maxlen)`. The `maxlen` argument is accepted and not used. */
  method ReflowParagraphs(text: string, maxlen: int) returns (result: string)
    ensures result == JoinWith(Paragraphs(text), ParagraphSeparator)
    ensures NonWs(result) == NonWs(text)
  {
    var t := ReplaceCrlf(text);
    t := CollapseBlankRuns(t);
    var parts := SplitOnBlankLine(t);
    ghost var want := Paragraphs(text);
    assert parts == Parts(text);
    var paragraphs: seq<string> := [];
    var i := 0;
    while i < |parts|
      invariant 0 <= i <= |parts|
      invariant paragraphs == want[..i]
    {
      PrefixExtend(want, i);
      paragraphs := paragraphs + [FlattenParagraph(parts[i])];
      i := i + 1;
    }
    assert paragraphs == want;
    result := JoinWith(paragraphs, ParagraphSeparator);
    ReflowKeepsText(text);
  }

  /** Reflowing loses only whitespace: every other character of the text survives, in order. */
  lemma {:induction false} ReflowKeepsText(text: string)
    ensures NonWs(JoinWith(Paragraphs(text), ParagraphSeparator)) == NonWs(text)
  {
    var parts := Parts(text);
    var paras := Paragraphs(text);
    assert forall i :: 0 <= i < |ParagraphSeparator| ==> IsWhitespace(ParagraphSeparator[i]);
    WithoutJoin(paras, ParagraphSeparator, IsWhitespace);
    forall k | 0 <= k < |paras| ensures Without(paras[k], IsWhitespace) == Without(parts[k], IsWhitespace) {
      FlattenParagraphKeepsText(parts[k]);
    }
    WithoutConcat(paras, parts, IsWhitespace);
    WithoutJoin(parts, ParagraphSeparator, IsWhitespace);
    ReflowPartsCover(text);
    CollapseKeepsText(ReplaceCrlf(text), '\n', IsWhitespace);
    ReplaceCrlfDropsOnlyCr(text, IsWhitespace);
  }

  /** The output shape: as many paragraphs as there were pieces after the collapse, blank ones
      included, each a single stripped line. */
  lemma ReflowShape(text: string)
    ensures |Paragraphs(text)| == |SplitOnBlankLine(CollapseBlankRuns(ReplaceCrlf(text)))|
    ensures forall k :: 0 <= k < |Paragraphs(text)| ==> IsFlat(Paragraphs(text)[k])
  {
    forall k | 0 <= k < |Paragraphs(text)| ensures IsFlat(Paragraphs(text)[k]) {
      FlattenParagraphShape(Parts(text)[k]);
    }
  }

  /** The only line boundary left in the output is the `\n` of the paragraph separators; in
      particular no `\r` survives, alone or in `\r\n`. */
  lemma {:induction false} ReflowLineBreaks(text: string)
    ensures forall c :: c in JoinWith(Paragraphs(text), ParagraphSeparator) ==> c == '\n' || !IsLineBreak(c)
    ensures '\r' !in JoinWith(Paragraphs(text), ParagraphSeparator)
  {
    var paras := Paragraphs(text);
    ReflowShape(text);
    assert forall k :: 0 <= k < |paras| ==> NoLineBreak(paras[k]);
    JoinWithElements(paras, ParagraphSeparator, c => c == '\n' || !IsLineBreak(c));
  }

  /** A whitespace-only piece is kept as an empty paragraph rather than dropped, so between two
      neighbours it leaves two separators, four newlines, in a row in the output. */
  lemma ReflowBlankPartKept(text: string, k: nat)
    requires 0 < k < |Parts(text)| - 1
    requires forall i :: 0 <= i < |Parts(text)[k]| ==> IsWhitespace(Parts(text)[k][i])
    ensures Paragraphs(text)[k] == ""
    ensures var ps := Paragraphs(text);
      JoinWith(ps, ParagraphSeparator)
        == JoinWith(ps[..k], ParagraphSeparator) + ParagraphSeparator + ParagraphSeparator + JoinWith(ps[k + 1..], ParagraphSeparator)
  {
    var ps := Paragraphs(text);
    BlankParagraphKept(Parts(text)[k]);
    JoinWithEmptyPart(ps, k, ParagraphSeparator);
  }

  /** Joining the pieces gives back the collapsed text: the split loses nothing. */
  lemma ReflowPartsCover(text: string)
    ensures JoinWith(Parts(text), ParagraphSeparator) == CollapseBlankRuns(ReplaceCrlf(text))
  {
    SplitOnBlankLineJoin(CollapseBlankRuns(ReplaceCrlf(text)));
  }
}
