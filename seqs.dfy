/** Sequence helpers shared by the text and manifest models: Python's `"".join`, `sep.join` and
    the rank of an element kept by an order-preserving filter. */
module Seqs {

  /** `"".join(parts)` */
  function Concat<T>(parts: seq<seq<T>>): (r: seq<T>)
    decreases |parts|
  {
    if |parts| == 0 then [] else Concat(parts[..|parts| - 1]) + parts[|parts| - 1]
  }

  lemma {:induction false} ConcatAppend<T>(a: seq<seq<T>>, b: seq<seq<T>>)
    ensures Concat(a + b) == Concat(a) + Concat(b)
    decreases |b|
  {
    if |b| == 0 {
      assert a + b == a;
    } else {
      var n := |b| - 1;
      assert (a + b)[..|a + b| - 1] == a + b[..n];
      assert (a + b)[|a + b| - 1] == b[n];
      ConcatAppend(a, b[..n]);
      calc {
        Concat(a + b);
        Concat(a + b[..n]) + b[n];
        Concat(a) + Concat(b[..n]) + b[n];
        Concat(a) + (Concat(b[..n]) + b[n]);
        Concat(a) + Concat(b);
      }
    }
  }

  lemma ConcatCons<T>(x: seq<T>, rest: seq<seq<T>>)
    ensures Concat([x] + rest) == x + Concat(rest)
  {
    ConcatAppend([x], rest);
    assert Concat([x]) == Concat([x][..0]) + x;
  }

  /** `sep.join(parts)` */
  function JoinWith<T>(parts: seq<seq<T>>, sep: seq<T>): (r: seq<T>)
    decreases |parts|
  {
    if |parts| == 0 then []
    else if |parts| == 1 then parts[0]
    else JoinWith(parts[..|parts| - 1], sep) + sep + parts[|parts| - 1]
  }

  lemma {:induction false} JoinWithCons<T>(x: seq<T>, rest: seq<seq<T>>, sep: seq<T>)
    requires |rest| > 0
    ensures JoinWith([x] + rest, sep) == x + sep + JoinWith(rest, sep)
    decreases |rest|
  {
    var xs := [x] + rest;
    if |rest| == 1 {
      assert xs[..1] == [x];
      assert JoinWith(xs, sep) == JoinWith([x], sep) + sep + rest[0];
    } else {
      assert xs[..|xs| - 1] == [x] + rest[..|rest| - 1];
      JoinWithCons(x, rest[..|rest| - 1], sep);
      calc {
        JoinWith(xs, sep);
        JoinWith([x] + rest[..|rest| - 1], sep) + sep + rest[|rest| - 1];
        x + sep + JoinWith(rest[..|rest| - 1], sep) + sep + rest[|rest| - 1];
        x + sep + JoinWith(rest, sep);
      }
    }
  }

  /** A common prefix cancels. */
  lemma CancelPrefix<T>(a: seq<T>, x: seq<T>, y: seq<T>)
    requires a + x == a + y
    ensures x == y
  {
    assert x == (a + x)[|a|..];
  }

  /** Cutting a sequence after its first `k` elements. */
  lemma SplitFront<T>(a: seq<T>, b: seq<T>, k: nat)
    requires k <= |a|
    ensures a == a[..k] + a[k..]
    ensures a + b == a[..k] + (a[k..] + b)
  {
  }

  /** Growing a prefix by one element. */
  lemma PrefixExtend<T>(s: seq<T>, i: nat)
    requires i < |s|
    ensures s[..i + 1] == s[..i] + [s[i]]
  {
  }

  /** Joining splits at any interior boundary into the join of each side. */
  lemma {:induction false} JoinWithSplit<T>(parts: seq<seq<T>>, k: nat, sep: seq<T>)
    requires 0 < k < |parts|
    ensures JoinWith(parts, sep) == JoinWith(parts[..k], sep) + sep + JoinWith(parts[k..], sep)
    decreases |parts|
  {
    var n := |parts|;
    if k < n - 1 {
      JoinWithSplit(parts[..n - 1], k, sep);
      assert parts[..n - 1][..k] == parts[..k];
      assert parts[k..][..|parts[k..]| - 1] == parts[..n - 1][k..];
    } else {
      assert parts[k..] == [parts[n - 1]];
    }
  }

  /** An empty interior part shows up as two separators back to back. */
  lemma JoinWithEmptyPart<T>(parts: seq<seq<T>>, k: nat, sep: seq<T>)
    requires 0 < k < |parts| - 1 && parts[k] == []
    ensures JoinWith(parts, sep) == JoinWith(parts[..k], sep) + sep + sep + JoinWith(parts[k + 1..], sep)
  {
    JoinWithSplit(parts, k, sep);
    assert parts[k..] == [parts[k]] + parts[k + 1..];
    JoinWithCons(parts[k], parts[k + 1..], sep);
  }

  /** Extending the first part extends the joined text at the front. */
  lemma JoinWithExtendFirst<T>(c: seq<T>, parts: seq<seq<T>>, sep: seq<T>)
    requires |parts| > 0
    ensures JoinWith([c + parts[0]] + parts[1..], sep) == c + JoinWith(parts, sep)
  {
    if |parts| > 1 {
      JoinWithCons(c + parts[0], parts[1..], sep);
      JoinWithCons(parts[0], parts[1..], sep);
      assert parts == [parts[0]] + parts[1..];
    } else {
      assert [c + parts[0]] + parts[1..] == [c + parts[0]];
    }
  }

  /** Every element of `sep.join(parts)` lies in some part or in the separator. */
  lemma {:induction false} JoinWithElements<T>(parts: seq<seq<T>>, sep: seq<T>, P: T -> bool)
    requires forall i :: 0 <= i < |parts| ==> forall c :: c in parts[i] ==> P(c)
    requires forall c :: c in sep ==> P(c)
    ensures forall c :: c in JoinWith(parts, sep) ==> P(c)
    decreases |parts|
  {
    if |parts| > 1 {
      JoinWithElements(parts[..|parts| - 1], sep, P);
      assert parts[|parts| - 1] == parts[|parts| - 1];
    }
  }

  /** The number of `true` flags: the length of what an order-preserving filter keeps. */
  function CountTrue(flags: seq<bool>): (n: nat)
    ensures n <= |flags|
    decreases |flags|
  {
    if |flags| == 0 then 0
    else CountTrue(flags[..|flags| - 1]) + (if flags[|flags| - 1] then 1 else 0)
  }

  lemma CountTrueStep(flags: seq<bool>, k: nat)
    requires k < |flags|
    ensures CountTrue(flags[..k + 1]) == CountTrue(flags[..k]) + (if flags[k] then 1 else 0)
  {
    assert flags[..k + 1][..k] == flags[..k];
  }

  /** The rank of a kept element is below the number kept. */
  lemma {:induction false} CountTrueRank(flags: seq<bool>, k: nat, m: nat)
    requires k < m <= |flags| && flags[k]
    ensures CountTrue(flags[..k]) < CountTrue(flags[..m])
    decreases m - k
  {
    CountTrueStep(flags, m - 1);
    if k < m - 1 {
      CountTrueRank(flags, k, m - 1);
    }
  }

  // ------------------------------------------------------------ order-preserving filter

  /** The elements whose flag is set, in order. */
  function Select<T>(xs: seq<T>, flags: seq<bool>): (r: seq<T>)
    requires |flags| == |xs|
    ensures |r| == CountTrue(flags)
    decreases |xs|
  {
    if |xs| == 0 then []
    else
      var n := |xs| - 1;
      assert flags[..n + 1][..n] == flags[..n];
      Select(xs[..n], flags[..n]) + (if flags[n] then [xs[n]] else [])
  }

  /** A selected element sits at its rank among the selected ones. */
  lemma {:induction false} SelectAt<T>(xs: seq<T>, flags: seq<bool>, k: nat)
    requires |flags| == |xs| && k < |xs| && flags[k]
    ensures CountTrue(flags[..k]) < |Select(xs, flags)|
    ensures Select(xs, flags)[CountTrue(flags[..k])] == xs[k]
    decreases |xs|
  {
    var n := |xs| - 1;
    if k < n {
      SelectAt(xs[..n], flags[..n], k);
      assert flags[..n][..k] == flags[..k];
    } else {
      assert flags[..k] == flags[..n];
    }
  }

  /** Every selected element is a flagged element found at that element's rank. */
  lemma {:induction false} SelectFrom<T>(xs: seq<T>, flags: seq<bool>, m: nat)
    requires |flags| == |xs| && m < |Select(xs, flags)|
    ensures exists k :: 0 <= k < |xs| && flags[k] && CountTrue(flags[..k]) == m && Select(xs, flags)[m] == xs[k]
    decreases |xs|
  {
    var n := |xs| - 1;
    var front := Select(xs[..n], flags[..n]);
    if m < |front| {
      SelectFrom(xs[..n], flags[..n], m);
      var k :| 0 <= k < n && flags[..n][k] && CountTrue(flags[..n][..k]) == m && front[m] == xs[..n][k];
      assert flags[..n][..k] == flags[..k];
    } else {
      assert flags[n] && CountTrue(flags[..n]) == m;
    }
  }

  /** `s` with every element `drop` holds of left out, the others kept in order. */
  function Without<T>(s: seq<T>, drop: T -> bool): (r: seq<T>)
    ensures |r| <= |s|
    decreases |s|
  {
    if |s| == 0 then []
    else
      var n := |s| - 1;
      Without(s[..n], drop) + (if drop(s[n]) then [] else [s[n]])
  }

  /** Filtering a sequence cut in three filters each piece. */
  lemma {:induction false} WithoutAround<T>(s: seq<T>, i: nat, j: nat, drop: T -> bool)
    requires i <= j <= |s|
    ensures Without(s, drop) == Without(s[..i], drop) + Without(s[i..j], drop) + Without(s[j..], drop)
  {
    assert s == s[..i] + s[i..j] + s[j..];
    WithoutAppend(s[..i] + s[i..j], s[j..], drop);
    WithoutAppend(s[..i], s[i..j], drop);
  }

  /** A kept stretch followed by a dropped one is filtered down to the kept stretch. */
  lemma {:induction false} WithoutSkip<T>(s: seq<T>, i: nat, j: nat, drop: T -> bool)
    requires i <= j <= |s|
    requires forall k :: 0 <= k < i ==> !drop(s[k])
    requires forall k :: i <= k < j ==> drop(s[k])
    ensures Without(s, drop) == s[..i] + Without(s[j..], drop)
  {
    WithoutAround(s, i, j, drop);
    WithoutNone(s[..i], drop);
    WithoutAll(s[i..j], drop);
  }

  /** Cutting off dropped elements at both ends changes nothing once filtered. */
  lemma {:induction false} WithoutTrim<T>(s: seq<T>, i: nat, j: nat, drop: T -> bool)
    requires i <= j <= |s|
    requires forall k :: 0 <= k < i ==> drop(s[k])
    requires forall k :: j <= k < |s| ==> drop(s[k])
    ensures Without(s[i..j], drop) == Without(s, drop)
  {
    WithoutAround(s, i, j, drop);
    WithoutAll(s[..i], drop);
    WithoutAll(s[j..], drop);
  }

  /** Nothing is left of a sequence whose every element is dropped. */
  lemma {:induction false} WithoutAll<T>(s: seq<T>, drop: T -> bool)
    requires forall i :: 0 <= i < |s| ==> drop(s[i])
    ensures Without(s, drop) == []
    decreases |s|
  {
    if |s| > 0 {
      WithoutAll(s[..|s| - 1], drop);
    }
  }

  /** A sequence with no dropped element is kept whole. */
  lemma {:induction false} WithoutNone<T>(s: seq<T>, drop: T -> bool)
    requires forall i :: 0 <= i < |s| ==> !drop(s[i])
    ensures Without(s, drop) == s
    decreases |s|
  {
    if |s| > 0 {
      WithoutNone(s[..|s| - 1], drop);
      assert s == s[..|s| - 1] + [s[|s| - 1]];
    }
  }

  lemma {:induction false} WithoutAppend<T>(a: seq<T>, b: seq<T>, drop: T -> bool)
    ensures Without(a + b, drop) == Without(a, drop) + Without(b, drop)
    decreases |b|
  {
    if |b| == 0 {
      assert a + b == a;
    } else {
      assert (a + b)[..|a + b| - 1] == a + b[..|b| - 1];
      WithoutAppend(a, b[..|b| - 1], drop);
    }
  }

  lemma {:induction false} WithoutCons<T>(x: T, s: seq<T>, drop: T -> bool)
    ensures Without([x] + s, drop) == (if drop(x) then [] else [x]) + Without(s, drop)
  {
    WithoutAppend([x], s, drop);
    assert [x][..0] == [];
  }

  /** Filtering with a narrower test first changes nothing once the wider test is applied. */
  lemma {:induction false} WithoutSubsumed<T>(s: seq<T>, drop: T -> bool, wider: T -> bool)
    requires forall x :: drop(x) ==> wider(x)
    ensures Without(Without(s, drop), wider) == Without(s, wider)
    decreases |s|
  {
    if |s| > 0 {
      var n := |s| - 1;
      WithoutSubsumed(s[..n], drop, wider);
      WithoutAppend(Without(s[..n], drop), if drop(s[n]) then [] else [s[n]], wider);
    }
  }

  /** Filtering the concatenation filters each part. */
  lemma {:induction false} WithoutConcat<T>(xs: seq<seq<T>>, ys: seq<seq<T>>, drop: T -> bool)
    requires |xs| == |ys|
    requires forall k :: 0 <= k < |xs| ==> Without(xs[k], drop) == Without(ys[k], drop)
    ensures Without(Concat(xs), drop) == Without(Concat(ys), drop)
    decreases |xs|
  {
    if |xs| > 0 {
      var n := |xs| - 1;
      var xi, yi := xs[..n], ys[..n];
      forall k | 0 <= k < n ensures Without(xi[k], drop) == Without(yi[k], drop) {
        assert xi[k] == xs[k] && yi[k] == ys[k];
      }
      WithoutConcat(xi, yi, drop);
      assert Concat(xs) == Concat(xi) + xs[n];
      assert Concat(ys) == Concat(yi) + ys[n];
      WithoutAppend(Concat(xi), xs[n], drop);
      WithoutAppend(Concat(yi), ys[n], drop);
    }
  }

  /** A separator made only of dropped elements disappears from the filtered join. */
  lemma {:induction false} WithoutJoin<T>(parts: seq<seq<T>>, sep: seq<T>, drop: T -> bool)
    requires forall i :: 0 <= i < |sep| ==> drop(sep[i])
    ensures Without(JoinWith(parts, sep), drop) == Without(Concat(parts), drop)
    decreases |parts|
  {
    if |parts| == 1 {
      assert Concat(parts) == Concat(parts[..0]) + parts[0];
      assert Concat(parts[..0]) == [];
      assert Concat(parts) == parts[0] == JoinWith(parts, sep);
    } else if |parts| > 1 {
      var n := |parts| - 1;
      WithoutJoin(parts[..n], sep, drop);
      WithoutSkipSeparator(JoinWith(parts[..n], sep), sep, parts[n], drop);
      WithoutAppend(Concat(parts[..n]), parts[n], drop);
    }
  }

  lemma {:induction false} WithoutSkipSeparator<T>(a: seq<T>, sep: seq<T>, b: seq<T>, drop: T -> bool)
    requires forall i :: 0 <= i < |sep| ==> drop(sep[i])
    ensures Without(a + sep + b, drop) == Without(a, drop) + Without(b, drop)
  {
    WithoutAppend(a + sep, b, drop);
    WithoutAppend(a, sep, drop);
    WithoutAll(sep, drop);
  }
}
