/** `dehyphenate_text` in backend/api/routers/upload.py: two `re.sub` rewrites applied in turn.
    Both patterns match exactly three characters, so one scanner models both: `re.sub` looks for
    a match at the current position, replaces it and resumes after it, or else copies one
    character and moves on. */
module Dehyphenation {

  /** `[a-z0-9]` */
  predicate IsLowerOrDigit(c: char) { 'a' <= c <= 'z' || '0' <= c <= '9' }
  /** `[a-z]` */
  predicate IsLower(c: char) { 'a' <= c <= 'z' }

  /** The two substitutions of `dehyphenate_text`. */
  datatype Rule =
    | HyphenBreak   // `-\n([a-z0-9])` replaced by `\1`
    | SoftBreak     // `([a-z0-9])\n([a-z])` replaced by `\1 \2`

  /** Whether the rule's pattern matches the three characters `a b c`. */
  predicate Matches(rule: Rule, a: char, b: char, c: char)
  {
    match rule
    case HyphenBreak => a == '-' && b == '\n' && IsLowerOrDigit(c)
    case SoftBreak => IsLowerOrDigit(a) && b == '\n' && IsLower(c)
  }

  /** What a match of `a b c` is replaced by. */
  function Replacement(rule: Rule, a: char, b: char, c: char): string
  {
    match rule
    case HyphenBreak => [c]
    case SoftBreak => [a, ' ', c]
  }

  /** A match of the rule starts at index `i` of `s`. */
  predicate MatchAt(rule: Rule, s: string, i: nat)
  {
    i + 3 <= |s| && Matches(rule, s[i], s[i + 1], s[i + 2])
  }

  /** One step of the scan: a character copied because no match starts at it, or a match. */
  datatype Piece = Skip(c: char) | Hit(a: char, b: char, c: char)

  function PieceSource(p: Piece): string
  {
    match p
    case Skip(c) => [c]
    case Hit(a, b, c) => [a, b, c]
  }

  /** The input text the pieces were read from. */
  function Source(ps: seq<Piece>): (s: string)
    ensures |s| >= |ps|
    decreases |ps|
  {
    if |ps| == 0 then "" else PieceSource(ps[0]) + Source(ps[1..])
  }

  function PieceOutput(rule: Rule, p: Piece): string
  {
    match p
    case Skip(c) => [c]
    case Hit(a, b, c) => Replacement(rule, a, b, c)
  }

  /** The text the pieces are rewritten to. */
  function Output(rule: Rule, ps: seq<Piece>): string
    decreases |ps|
  {
    if |ps| == 0 then "" else PieceOutput(rule, ps[0]) + Output(rule, ps[1..])
  }

  /** `re.sub`'s left-to-right scan of `s`. */
  function Scan(rule: Rule, s: string): seq<Piece>
    decreases |s|
  {
    if |s| == 0 then []
    else if MatchAt(rule, s, 0) then [Hit(s[0], s[1], s[2])] + Scan(rule, s[3..])
    else [Skip(s[0])] + Scan(rule, s[1..])
  }

  /** `re.sub(pattern, replacement, s)` for the rule's pattern. */
  function Sub(rule: Rule, s: string): string
  {
    Output(rule, Scan(rule, s))
  }

  /** `dehyphenate_text`: first join hyphenated line breaks, then turn soft line breaks into
      spaces. */
  function Dehyphenate(text: string): string
  {
    Sub(SoftBreak, Sub(HyphenBreak, text))
  }

  // ------------------------------------------------------------ what re.sub's scan is

  /** The offset in the source at which piece `k` starts. */
  function Offset(ps: seq<Piece>, k: nat): nat
    requires k <= |ps|
  {
    |Source(ps[..k])|
  }

  /** The leftmost, non-overlapping matching of a fixed-width pattern, stated without a scan:
      the pieces spell the text, every match is a match of the pattern, and every copied
      character sits at a position where no match starts. */
  ghost predicate LeftmostSegmentation(rule: Rule, ps: seq<Piece>, s: string)
  {
    && Source(ps) == s
    && (forall k :: 0 <= k < |ps| && ps[k].Hit? ==> Matches(rule, ps[k].a, ps[k].b, ps[k].c))
    && (forall k :: 0 <= k < |ps| && ps[k].Skip? ==> !MatchAt(rule, s, Offset(ps, k)))
  }

  lemma SourceCons(p: Piece, ps: seq<Piece>, k: nat)
    requires k <= |ps|
    ensures ([p] + ps)[..k + 1] == [p] + ps[..k]
    ensures Source([p] + ps[..k]) == PieceSource(p) + Source(ps[..k])
  {
  }

  /** The match test at an offset into a suffix is the match test at the shifted index. */
  lemma MatchAtSuffix(rule: Rule, s: string, d: nat, i: nat)
    requires d <= |s|
    ensures MatchAt(rule, s[d..], i) == MatchAt(rule, s, d + i)
  {
  }

  /** Prepending a piece whose source starts the text keeps a leftmost segmentation leftmost. */
  lemma {:induction false} LeftmostCons(rule: Rule, p: Piece, ps: seq<Piece>, s: string)
    requires |PieceSource(p)| <= |s| && s[..|PieceSource(p)|] == PieceSource(p)
    requires p.Hit? ==> Matches(rule, p.a, p.b, p.c)
    requires p.Skip? ==> !MatchAt(rule, s, 0)
    requires LeftmostSegmentation(rule, ps, s[|PieceSource(p)|..])
    ensures LeftmostSegmentation(rule, [p] + ps, s)
  {
    var d := |PieceSource(p)|;
    var qs := [p] + ps;
    assert s == PieceSource(p) + s[d..];
    assert qs[1..] == ps;
    forall k | 0 <= k < |qs| && qs[k].Skip?
      ensures !MatchAt(rule, s, Offset(qs, k))
    {
      if k == 0 {
        assert qs[..0] == [];
      } else {
        SourceCons(p, ps, k - 1);
        assert Offset(qs, k) == d + Offset(ps, k - 1);
        assert qs[k] == ps[k - 1];
        MatchAtSuffix(rule, s, d, Offset(ps, k - 1));
      }
    }
    forall k | 0 <= k < |qs| && qs[k].Hit?
      ensures Matches(rule, qs[k].a, qs[k].b, qs[k].c)
    {
      if k > 0 { assert qs[k] == ps[k - 1]; }
    }
  }

  /** The scan is a leftmost, non-overlapping segmentation of its input. */
  lemma {:induction false} ScanIsLeftmost(rule: Rule, s: string)
    ensures LeftmostSegmentation(rule, Scan(rule, s), s)
    decreases |s|
  {
    if |s| > 0 {
      if MatchAt(rule, s, 0) {
        ScanIsLeftmost(rule, s[3..]);
        assert s[..3] == [s[0], s[1], s[2]];
        LeftmostCons(rule, Hit(s[0], s[1], s[2]), Scan(rule, s[3..]), s);
      } else {
        ScanIsLeftmost(rule, s[1..]);
        assert s[..1] == [s[0]];
        LeftmostCons(rule, Skip(s[0]), Scan(rule, s[1..]), s);
      }
    }
  }

  /** Dropping the first piece of a leftmost segmentation leaves one of the rest of the text. */
  lemma {:induction false} LeftmostTail(rule: Rule, ps: seq<Piece>, s: string)
    requires |ps| > 0 && LeftmostSegmentation(rule, ps, s)
    ensures |PieceSource(ps[0])| <= |s| && s[..|PieceSource(ps[0])|] == PieceSource(ps[0])
    ensures LeftmostSegmentation(rule, ps[1..], s[|PieceSource(ps[0])|..])
  {
    var p, rest := ps[0], ps[1..];
    var d := |PieceSource(p)|;
    assert ps == [p] + rest;
    assert s == PieceSource(p) + Source(rest);
    assert s[d..] == Source(rest);
    forall k | 0 <= k < |rest| && rest[k].Skip?
      ensures !MatchAt(rule, s[d..], Offset(rest, k))
    {
      SourceCons(p, rest, k);
      assert Offset(ps, k + 1) == d + Offset(rest, k);
      assert ps[k + 1] == rest[k];
      MatchAtSuffix(rule, s, d, Offset(rest, k));
    }
    forall k | 0 <= k < |rest| && rest[k].Hit?
      ensures Matches(rule, rest[k].a, rest[k].b, rest[k].c)
    {
      assert ps[k + 1] == rest[k];
    }
  }

  /** There is only one leftmost segmentation, so the scan is determined by the predicate. */
  lemma {:induction false} LeftmostUnique(rule: Rule, ps: seq<Piece>, qs: seq<Piece>, s: string)
    requires LeftmostSegmentation(rule, ps, s) && LeftmostSegmentation(rule, qs, s)
    ensures ps == qs
    decreases |s|
  {
    if |ps| == 0 || |qs| == 0 {
      assert |ps| == 0 && |qs| == 0;
    } else {
      LeftmostTail(rule, ps, s);
      LeftmostTail(rule, qs, s);
      assert ps[..0] == [] && qs[..0] == [];
      assert ps[0] == qs[0] by {
        var p, q := ps[0], qs[0];
        if p.Hit? {
          assert MatchAt(rule, s, 0);
        }
        if q.Hit? {
          assert MatchAt(rule, s, 0);
        }
      }
      LeftmostUnique(rule, ps[1..], qs[1..], s[|PieceSource(ps[0])|..]);
      assert ps == [ps[0]] + ps[1..] && qs == [qs[0]] + qs[1..];
    }
  }

  /** The scan is the one leftmost segmentation. */
  lemma ScanCharacterized(rule: Rule, ps: seq<Piece>, s: string)
    ensures LeftmostSegmentation(rule, ps, s) <==> ps == Scan(rule, s)
  {
    ScanIsLeftmost(rule, s);
    if LeftmostSegmentation(rule, ps, s) {
      LeftmostUnique(rule, ps, Scan(rule, s), s);
    }
  }

  // ------------------------------------------------------------ what the rewrites do to the text

  function HitCount(ps: seq<Piece>): (n: nat)
    ensures n <= |ps|
    decreases |ps|
  {
    if |ps| == 0 then 0 else (if ps[0].Hit? then 1 else 0) + HitCount(ps[1..])
  }

  /** A hyphen break shrinks by two characters per match, a soft break keeps the length. */
  lemma {:induction false} OutputLength(rule: Rule, ps: seq<Piece>)
    ensures rule == HyphenBreak ==> |Output(rule, ps)| == |Source(ps)| - 2 * HitCount(ps)
    ensures rule == SoftBreak ==> |Output(rule, ps)| == |Source(ps)|
    decreases |ps|
  {
    if |ps| > 0 {
      OutputLength(rule, ps[1..]);
    }
  }

  /** Joining hyphenated breaks removes exactly two characters, the `-` and the `\n`, for every
      match of the scan; turning soft breaks into spaces leaves the length alone. */
  lemma SubLength(s: string)
    ensures |Sub(HyphenBreak, s)| == |s| - 2 * HitCount(Scan(HyphenBreak, s))
    ensures |Sub(SoftBreak, s)| == |s|
  {
    ScanIsLeftmost(HyphenBreak, s);
    ScanIsLeftmost(SoftBreak, s);
    OutputLength(HyphenBreak, Scan(HyphenBreak, s));
    OutputLength(SoftBreak, Scan(SoftBreak, s));
  }

  /** Both patterns contain a newline, so text without one is left as it is. */
  lemma {:induction false} SubWithoutNewline(rule: Rule, s: string)
    requires forall i :: 0 <= i < |s| ==> s[i] != '\n'
    ensures Sub(rule, s) == s
    decreases |s|
  {
    if |s| > 0 {
      assert !MatchAt(rule, s, 0);
      SubWithoutNewline(rule, s[1..]);
      assert s == [s[0]] + s[1..];
    }
  }

  /** `dehyphenate_text` never lengthens its input and leaves text without newlines unchanged. */
  lemma DehyphenateShape(text: string)
    ensures |Dehyphenate(text)| <= |text|
    ensures (forall i :: 0 <= i < |text| ==> text[i] != '\n') ==> Dehyphenate(text) == text
  {
    SubLength(text);
    SubLength(Sub(HyphenBreak, text));
    if forall i :: 0 <= i < |text| ==> text[i] != '\n' {
      SubWithoutNewline(HyphenBreak, text);
      SubWithoutNewline(SoftBreak, text);
    }
  }

  /** Index `i` of `s` is a newline between `[a-z0-9]` and `[a-z]`. */
  predicate SoftBreakAround(s: string, i: int)
  {
    0 < i < |s| - 1 && s[i] == '\n' && IsLowerOrDigit(s[i - 1]) && IsLower(s[i + 1])
  }

  /** Soft-break joining, character by character: a character changes only if it is a newline
      between `[a-z0-9]` and `[a-z]`, and then becomes a space; such a newline stays only when the
      character before it was already taken by the match just before (as in `a\nb\nc`). */
  lemma {:induction false} SoftBreakPointwise(s: string)
    ensures var r := Sub(SoftBreak, s);
      && |r| == |s|
      && (forall i :: 0 <= i < |s| ==> r[i] == s[i] || (SoftBreakAround(s, i) && r[i] == ' '))
      && (forall i :: 0 <= i < |s| && SoftBreakAround(s, i) && r[i] != ' ' ==>
            2 <= i && SoftBreakAround(s, i - 2) && r[i - 2] == ' ')
    decreases |s|
  {
    SubLength(s);
    if |s| > 0 {
      var ps := Scan(SoftBreak, s);
      var r := Sub(SoftBreak, s);
      if MatchAt(SoftBreak, s, 0) {
        var t := s[3..];
        SoftBreakPointwise(t);
        var r' := Sub(SoftBreak, t);
        assert r == [s[0], ' ', s[2]] + r';
        forall i | 3 <= i < |s|
          ensures r[i] == r'[i - 3] && s[i] == t[i - 3]
          ensures SoftBreakAround(s, i) && i >= 4 ==> SoftBreakAround(t, i - 3)
          ensures SoftBreakAround(t, i - 3) ==> SoftBreakAround(s, i)
        {
        }
      } else {
        var t := s[1..];
        SoftBreakPointwise(t);
        var r' := Sub(SoftBreak, t);
        assert r == [s[0]] + r';
        forall i | 1 <= i < |s|
          ensures r[i] == r'[i - 1] && s[i] == t[i - 1]
          ensures SoftBreakAround(s, i) && i >= 2 ==> SoftBreakAround(t, i - 1)
          ensures SoftBreakAround(t, i - 1) ==> SoftBreakAround(s, i)
        {
        }
      }
    }
  }

  // ------------------------------------------------------------ examples

  /** The scan copies a character at which no match starts ... */
  lemma SubSkip(rule: Rule, s: string)
    requires |s| > 0 && !MatchAt(rule, s, 0)
    ensures Sub(rule, s) == [s[0]] + Sub(rule, s[1..])
  {
  }

  /** ... and rewrites a match at the start. */
  lemma SubHit(rule: Rule, s: string)
    requires MatchAt(rule, s, 0)
    ensures Sub(rule, s) == Replacement(rule, s[0], s[1], s[2]) + Sub(rule, s[3..])
  {
  }

  /** A stretch without a hyphen is copied by the hyphen-break rewrite. */
  lemma {:induction false} HyphenJoinCopiesPlain(x: string, y: string)
    requires forall i :: 0 <= i < |x| ==> x[i] != '-'
    ensures Sub(HyphenBreak, x + y) == x + Sub(HyphenBreak, y)
    decreases |x|
  {
    if |x| > 0 {
      var s := x + y;
      assert !MatchAt(HyphenBreak, s, 0);
      assert s[1..] == x[1..] + y;
      HyphenJoinCopiesPlain(x[1..], y);
      SubSkip(HyphenBreak, s);
      assert s[0] == x[0] && x == [x[0]] + x[1..];
      assert [x[0]] + (x[1..] + Sub(HyphenBreak, y)) == x + Sub(HyphenBreak, y);
    } else {
      assert x + y == y;
    }
  }
  /** The doc comment's example, `"multi-\nple"` to `"multiple"`, for any words: a hyphen, a
      line break and a following `[a-z0-9]` are joined to the word before them. */
  lemma JoinsLoneHyphenBreak(x: string, c: char, y: string)
    requires forall i :: 0 <= i < |x| ==> x[i] != '-'
    requires forall i :: 0 <= i < |y| ==> y[i] != '-'
    requires IsLowerOrDigit(c)
    ensures Sub(HyphenBreak, x + ['-', '\n', c] + y) == x + [c] + y
  {
    var t := ['-', '\n', c] + y;
    assert x + ['-', '\n', c] + y == x + t;
    HyphenJoinCopiesPlain(x, t);
    SubHit(HyphenBreak, t);
    assert t[3..] == y + "";
    HyphenJoinCopiesPlain(y, "");
  }

  /** Matches do not overlap: the `b` taken by the first match cannot start the second. */
  lemma SoftBreakOverlapExample()
    ensures Sub(SoftBreak, "a\nb\nc") == "a b\nc"
  {
  }
}
