/**
 * Run-length descriptions of the code point widths of a text: the abstract
 * value of the linked list of nodes that a code point mapping keeps, and the
 * reference definitions of what `split`, `append` and `graft` do to it.
 */
module Runs {
  import opened Outcomes
  import opened Offsets

  /** `count` consecutive code points, each `width` UTF-16 units wide. */
  datatype Run = Run(width: nat, count: nat)

  function Repeat(w: nat, c: nat): seq<nat>
  {
    seq(c, _ => w)
  }

  /** The width of each code point the runs describe, in order. */
  function Expand(rs: seq<Run>): seq<nat>
  {
    if rs == [] then [] else Repeat(rs[0].width, rs[0].count) + Expand(rs[1..])
  }

  /** The sum of `width * count`: the number of UTF-16 units the runs describe. */
  function UnitCount(rs: seq<Run>): nat
  {
    if rs == [] then 0 else Scale(rs[0].count, rs[0].width) + UnitCount(rs[1..])
  }

  /** The sum of `count`: the number of code points the runs describe. */
  function CpCount(rs: seq<Run>): nat
  {
    if rs == [] then 0 else rs[0].count + CpCount(rs[1..])
  }

  /** Every run holds code points of one or two units. */
  predicate WidthsOk(rs: seq<Run>)
  {
    forall k :: 0 <= k < |rs| ==> 1 <= rs[k].width <= 2
  }

  /**
   * The run list is minimal: neighbouring runs differ in width, and no run
   * but the first is empty.
   */
  predicate Canonical(rs: seq<Run>)
  {
    forall k :: 0 < k < |rs| ==> rs[k].count > 0 && rs[k].width != rs[k - 1].width
  }

  // ---------------------------------------------------------------------------
  // Expansion

  lemma RepeatSplit(w: nat, a: nat, b: nat)
    ensures Repeat(w, a) + Repeat(w, b) == Repeat(w, a + b)
  {
  }

  lemma {:induction false} ExpandConcat(a: seq<Run>, b: seq<Run>)
    ensures Expand(a + b) == Expand(a) + Expand(b)
  {
    if a == [] {
      assert a + b == b;
    } else {
      assert (a + b)[1..] == a[1..] + b;
      ExpandConcat(a[1..], b);
    }
  }

  lemma ExpandSingle(r: Run)
    ensures Expand([r]) == Repeat(r.width, r.count)
  {
    assert [r][1..] == [];
  }

  lemma {:induction false} UnitsRepeat(w: nat, c: nat)
    ensures Units(Repeat(w, c)) == Scale(c, w)
  {
    if c > 0 {
      assert Repeat(w, c)[1..] == Repeat(w, c - 1);
      UnitsRepeat(w, c - 1);
    }
  }

  /** The run totals are the length of the text in units and in code points. */
  lemma {:induction false} ExpandTotals(rs: seq<Run>)
    ensures Units(Expand(rs)) == UnitCount(rs)
    ensures |Expand(rs)| == CpCount(rs)
  {
    if rs != [] {
      ExpandTotals(rs[1..]);
      UnitsRepeat(rs[0].width, rs[0].count);
      UnitsConcat(Repeat(rs[0].width, rs[0].count), Expand(rs[1..]));
    }
  }

  lemma {:induction false} ExpandWidths(rs: seq<Run>)
    requires WidthsOk(rs)
    ensures IsWidths(Expand(rs))
  {
    if rs != [] {
      ExpandWidths(rs[1..]);
    }
  }

  lemma ExpandStep(rs: seq<Run>, i: nat)
    requires i < |rs|
    ensures Expand(rs[..i + 1]) == Expand(rs[..i]) + Repeat(rs[i].width, rs[i].count)
  {
    assert rs[..i + 1] == rs[..i] + [rs[i]];
    ExpandSnoc(rs[..i], rs[i]);
  }

  /** The first code points of a run list: all runs before run `i`, then `e` code points of run `i`. */
  lemma ExpandPrefix(rs: seq<Run>, i: nat, e: nat)
    requires i < |rs| && e <= rs[i].count
    ensures var k := |Expand(rs[..i])| + e;
            k <= |Expand(rs)| && Expand(rs)[..k] == Expand(rs[..i]) + Repeat(rs[i].width, e)
  {
    assert rs == rs[..i] + ([rs[i]] + rs[i + 1..]);
    ExpandConcat(rs[..i], [rs[i]] + rs[i + 1..]);
    ExpandCons(rs[i], rs[i + 1..]);
    RepeatSplit(rs[i].width, e, rs[i].count - e);
  }

  // ---------------------------------------------------------------------------
  // Offsets within a run

  /** Walking past a whole run of `c` code points of width `w` consumes `w * c` units and `c` code points. */
  lemma {:induction false} CpOffsetPast(w: nat, c: nat, rest: seq<nat>, u: nat)
    requires Scale(c, w) < u
    ensures CpOffset(Repeat(w, c) + rest, u) == Shift(CpOffset(rest, u - Scale(c, w)), c)
  {
    if c == 0 {
      assert Repeat(w, c) + rest == rest;
    } else {
      var ws := Repeat(w, c) + rest;
      assert ws[0] == w && ws[1..] == Repeat(w, c - 1) + rest;
      assert Scale(c, w) == w + Scale(c - 1, w);
      var v := u - w;
      assert Scale(c - 1, w) < v && v - Scale(c - 1, w) == u - Scale(c, w);
      CpOffsetPast(w, c - 1, rest, v);
      assert CpOffset(ws, u) == Shift(CpOffset(ws[1..], v), 1);
      ShiftShift(CpOffset(rest, u - Scale(c, w)), c - 1, 1);
    }
  }

  /**
   * A unit offset that does not pass a run of width `w` is a code point
   * boundary exactly when it is a whole number of code points.
   */
  lemma {:induction false} CpOffsetWithin(w: nat, c: nat, rest: seq<nat>, u: nat)
    requires 1 <= w <= 2 && u <= Scale(c, w)
    ensures Whole(u, w) <= c
    ensures CpOffset(Repeat(w, c) + rest, u) ==
              if Leftover(u, w) == 0 then Ok(Whole(u, w)) else Err(OffsetInMiddleOfSurrogate)
  {
    if u > 0 {
      var ws := Repeat(w, c) + rest;
      assert ws[0] == w && ws[1..] == Repeat(w, c - 1) + rest;
      if u >= w {
        CpOffsetWithin(w, c - 1, rest, u - w);
      }
    }
  }

  // ---------------------------------------------------------------------------
  // split: cut one run in two

  /** Run `i` cut after its first `a` code points into two runs of its width. */
  function Cut(rs: seq<Run>, i: nat, a: nat): seq<Run>
    requires i < |rs| && a <= rs[i].count
  {
    rs[..i] + [Run(rs[i].width, a), Run(rs[i].width, rs[i].count - a)] + rs[i + 1..]
  }

  lemma ExpandCons(r: Run, rs: seq<Run>)
    ensures Expand([r] + rs) == Repeat(r.width, r.count) + Expand(rs)
  {
    assert ([r] + rs)[1..] == rs;
  }

  lemma ExpandSnoc(rs: seq<Run>, r: Run)
    ensures Expand(rs + [r]) == Expand(rs) + Repeat(r.width, r.count)
  {
    ExpandConcat(rs, [r]);
    ExpandSingle(r);
  }

  /** Replacing run `i` by runs that describe the same code points changes no code point. */
  lemma ExpandReplace(rs: seq<Run>, i: nat, part: seq<Run>)
    requires i < |rs| && Expand(part) == Expand([rs[i]])
    ensures Expand(rs[..i] + part + rs[i + 1..]) == Expand(rs)
  {
    assert rs == rs[..i] + [rs[i]] + rs[i + 1..];
    ExpandConcat(rs[..i] + part, rs[i + 1..]);
    ExpandConcat(rs[..i], part);
    ExpandConcat(rs[..i] + [rs[i]], rs[i + 1..]);
    ExpandConcat(rs[..i], [rs[i]]);
  }

  /** Cutting a run changes no code point. */
  lemma CutExpand(rs: seq<Run>, i: nat, a: nat)
    requires i < |rs| && a <= rs[i].count
    ensures Expand(Cut(rs, i, a)) == Expand(rs)
  {
    var w, c := rs[i].width, rs[i].count;
    var halves := [Run(w, a), Run(w, c - a)];
    assert Expand(halves) == Expand([rs[i]]) by {
      ExpandCons(Run(w, a), [Run(w, c - a)]);
      ExpandSingle(Run(w, c - a));
      ExpandSingle(rs[i]);
      RepeatSplit(w, a, c - a);
    }
    ExpandReplace(rs, i, halves);
  }

  /**
   * Counted from run `j`, the runs up to the first half of the cut describe
   * the first `k` code points, and the runs after it all the others.
   */
  lemma CutHalves(rs: seq<Run>, i: nat, a: nat, j: nat, k: nat)
    requires j <= i < |rs| && a <= rs[i].count && k == |Expand(rs[j..i])| + a
    ensures Cut(rs, i, a)[..j] == rs[..j] && k <= |Expand(rs[j..])|
    ensures Expand(Cut(rs, i, a)[j..i + 1]) == Expand(rs[j..])[..k]
    ensures Expand(Cut(rs, i, a)[i + 1..]) == Expand(rs[j..])[k..]
  {
    var w, c := rs[i].width, rs[i].count;
    var A, B, C, D := Expand(rs[j..i]), Repeat(w, a), Repeat(w, c - a), Expand(rs[i + 1..]);
    CutLow(rs, i, a, j);
    CutHigh(rs, i, a);
    ExpandAround(rs, i, j);
    RepeatSplit(w, a, c - a);
    var E := Expand(rs[j..]);
    assert E == (A + B) + (C + D) by {
      assert A + (B + C) + D == (A + B) + (C + D);
    }
    assert |A + B| == k;
    SliceHalves(A + B, C + D);
    assert E[..k] == A + B && E[k..] == C + D;
    CutPrefix(rs, i, a, j);
  }

  lemma CutPrefix(rs: seq<Run>, i: nat, a: nat, j: nat)
    requires j <= i < |rs| && a <= rs[i].count
    ensures Cut(rs, i, a)[..j] == rs[..j]
  {
    var cut := Cut(rs, i, a);
    forall k | 0 <= k < j
      ensures cut[k] == rs[k]
    {
    }
  }

  lemma CutLow(rs: seq<Run>, i: nat, a: nat, j: nat)
    requires j <= i < |rs| && a <= rs[i].count
    ensures Expand(Cut(rs, i, a)[j..i + 1]) == Expand(rs[j..i]) + Repeat(rs[i].width, a)
  {
    assert Cut(rs, i, a)[j..i + 1] == rs[j..i] + [Run(rs[i].width, a)];
    ExpandSnoc(rs[j..i], Run(rs[i].width, a));
  }

  lemma CutHigh(rs: seq<Run>, i: nat, a: nat)
    requires i < |rs| && a <= rs[i].count
    ensures Expand(Cut(rs, i, a)[i + 1..]) == Repeat(rs[i].width, rs[i].count - a) + Expand(rs[i + 1..])
  {
    assert Cut(rs, i, a)[i + 1..] == [Run(rs[i].width, rs[i].count - a)] + rs[i + 1..];
    ExpandCons(Run(rs[i].width, rs[i].count - a), rs[i + 1..]);
  }

  lemma ExpandAround(rs: seq<Run>, i: nat, j: nat)
    requires j <= i < |rs|
    ensures Expand(rs[j..]) == Expand(rs[j..i]) + Repeat(rs[i].width, rs[i].count) + Expand(rs[i + 1..])
  {
    assert rs[j..] == rs[j..i] + ([rs[i]] + rs[i + 1..]);
    ExpandConcat(rs[j..i], [rs[i]] + rs[i + 1..]);
    ExpandCons(rs[i], rs[i + 1..]);
  }

  lemma SliceHalves<T>(x: seq<T>, y: seq<T>)
    ensures (x + y)[..|x|] == x && (x + y)[|x|..] == y
  {
  }

  /**
   * Cutting a minimal list leaves a minimal second half; the first half is
   * minimal if the cut is in the `j`th run or leaves the cut run non-empty.
   */
  lemma CutCanonical(rs: seq<Run>, i: nat, a: nat, j: nat)
    requires j <= i < |rs| && a <= rs[i].count && Canonical(rs[j..])
    ensures Canonical(Cut(rs, i, a)[i + 1..])
    ensures i == j || a > 0 ==> Canonical(Cut(rs, i, a)[j..i + 1])
  {
    var cut := Cut(rs, i, a);
    var w, c := rs[i].width, rs[i].count;
    var hi := cut[i + 1..];
    assert hi == [Run(w, c - a)] + rs[i + 1..];
    forall k | 0 < k < |hi|
      ensures hi[k].count > 0 && hi[k].width != hi[k - 1].width
    {
      assert rs[j..][i + k - j] == rs[i + k] && rs[j..][i + k - j - 1] == rs[i + k - 1];
    }
    if i == j || a > 0 {
      var lo := cut[j..i + 1];
      assert lo == rs[j..i] + [Run(w, a)];
      forall k | 0 < k < |lo|
        ensures lo[k].count > 0 && lo[k].width != lo[k - 1].width
      {
        assert rs[j..][k] == rs[j + k] && rs[j..][k - 1] == rs[j + k - 1];
      }
    }
  }

  /**
   * `split`'s walk over the runs from run `i` on, looking for unit offset `u`:
   * a run that holds fewer than `u` units is passed whole; in the first run
   * that does not, the offset must be a whole number of its code points.
   */
  function Walk(rs: seq<Run>, i: nat, u: nat): Result<nat>
    requires WidthsOk(rs)
    decreases |rs| - i
  {
    if i >= |rs| then Err(OffsetBeyondEnd)
    else if Scale(rs[i].count, rs[i].width) < u then
      Shift(Walk(rs, i + 1, u - Scale(rs[i].count, rs[i].width)), rs[i].count)
    else if Leftover(u, rs[i].width) != 0 then Err(OffsetInMiddleOfSurrogate)
    else Ok(Whole(u, rs[i].width))
  }

  /**
   * The run-by-run walk agrees with the code-point-by-code-point reference
   * `CpOffset` on the widths the runs describe, whenever it starts on a run
   * (or with units left to find).
   */
  lemma {:induction false} WalkCpOffset(rs: seq<Run>, i: nat, u: nat)
    requires WidthsOk(rs) && i <= |rs| && (i < |rs| || u > 0)
    ensures Walk(rs, i, u) == CpOffset(Expand(rs[i..]), u)
    decreases |rs| - i
  {
    if i == |rs| {
      assert rs[i..] == [];
    } else {
      var r := rs[i];
      assert rs[i..] == [r] + rs[i + 1..];
      ExpandCons(r, rs[i + 1..]);
      if Scale(r.count, r.width) < u {
        CpOffsetPast(r.width, r.count, Expand(rs[i + 1..]), u);
        WalkCpOffset(rs, i + 1, u - Scale(r.count, r.width));
      } else {
        CpOffsetWithin(r.width, r.count, Expand(rs[i + 1..]), u);
      }
    }
  }

  /**
   * `split` walking past run `i`, which holds fewer than the `u` units left:
   * what remains to be found is `u'` units from run `i'`, after `off'` code
   * points.
   */
  lemma WalkPast(rs: seq<Run>, j: nat, i: nat, u0: nat, u: nat, off: nat, i': nat, u': nat, off': nat)
    requires WidthsOk(rs) && j <= i < |rs| && Scale(rs[i].count, rs[i].width) < u
    requires Walk(rs, j, u0) == Shift(Walk(rs, i, u), off) && off == Points(rs, j, i)
    requires i' == i + 1 && u' == u - Scale(rs[i].count, rs[i].width) && off' == off + rs[i].count
    ensures Walk(rs, j, u0) == Shift(Walk(rs, i', u'), off') && off' == Points(rs, j, i')
  {
    ShiftShift(Walk(rs, i', u'), rs[i].count, off);
  }

  /**
   * `split` stopping in run `i`, which holds at least the `u` units left: the
   * offset is `off` code points plus the whole ones in `u`, if nothing is
   * left over.
   */
  lemma WalkStop(rs: seq<Run>, j: nat, i: nat, u0: nat, u: nat, off: nat)
    requires WidthsOk(rs) && j <= i < |rs| && u <= Scale(rs[i].count, rs[i].width)
    requires Walk(rs, j, u0) == Shift(Walk(rs, i, u), off)
    ensures Whole(u, rs[i].width) <= rs[i].count
    ensures u > 0 && Leftover(u, rs[i].width) == 0 ==> Whole(u, rs[i].width) > 0
    ensures Walk(rs, j, u0) ==
            if Leftover(u, rs[i].width) == 0 then Ok(off + Whole(u, rs[i].width)) else Err(OffsetInMiddleOfSurrogate)
  {
    WholeWithin(u, rs[i].width, rs[i].count);
  }

  /** The code points in runs `j` up to (not including) `i`. */
  function Points(rs: seq<Run>, j: nat, i: nat): nat
    requires j <= i <= |rs|
    decreases i - j
  {
    if i == j then 0 else Points(rs, j, i - 1) + rs[i - 1].count
  }

  lemma {:induction false} PointsExpand(rs: seq<Run>, j: nat, i: nat)
    requires j <= i <= |rs|
    ensures Points(rs, j, i) == |Expand(rs[j..i])|
    decreases i - j
  {
    if i == j {
      assert rs[j..i] == [];
    } else {
      PointsExpand(rs, j, i - 1);
      assert rs[j..i] == rs[j..i - 1] + [rs[i - 1]];
      ExpandSnoc(rs[j..i - 1], rs[i - 1]);
    }
  }

  // ---------------------------------------------------------------------------
  // append: extend the last run, or start new ones

  /**
   * One more code point of width `w` after the runs: the last run grows if it
   * has that width, otherwise a new run of one code point starts.
   */
  function Push(rs: seq<Run>, w: nat): seq<Run>
    requires rs != []
  {
    var last := rs[|rs| - 1];
    if last.width == w then rs[..|rs| - 1] + [Run(w, last.count + 1)] else rs + [Run(w, 1)]
  }

  /** The runs after pushing the code point widths `ws` one by one. */
  function Extend(rs: seq<Run>, ws: seq<nat>): (r: seq<Run>)
    requires rs != []
    ensures |rs| <= |r| && r[..|rs| - 1] == rs[..|rs| - 1]
    ensures r[|rs| - 1].width == rs[|rs| - 1].width
  {
    if ws == [] then rs else Push(Extend(rs, ws[..|ws| - 1]), ws[|ws| - 1])
  }

  /** Pushing one more width extends the runs by that width. */
  lemma ExtendStep(rs: seq<Run>, ws: seq<nat>, q: nat)
    requires rs != [] && q < |ws|
    ensures Extend(rs, ws[..q + 1]) == Push(Extend(rs, ws[..q]), ws[q])
  {
    assert ws[..q + 1][..q] == ws[..q];
  }

  lemma PushExpand(rs: seq<Run>, w: nat)
    requires rs != []
    ensures Expand(Push(rs, w)) == Expand(rs) + [w]
  {
    var n := |rs| - 1;
    var last := rs[n];
    assert rs == rs[..n] + [last];
    ExpandConcat(rs[..n], [last]);
    ExpandSingle(last);
    if last.width == w {
      ExpandConcat(rs[..n], [Run(w, last.count + 1)]);
      ExpandSingle(Run(w, last.count + 1));
    } else {
      ExpandConcat(rs, [Run(w, 1)]);
      ExpandSingle(Run(w, 1));
    }
  }

  /** `append` adds exactly the widths of the new code points. */
  lemma {:induction false} ExtendExpand(rs: seq<Run>, ws: seq<nat>)
    requires rs != []
    ensures Expand(Extend(rs, ws)) == Expand(rs) + ws
  {
    if ws != [] {
      var n := |ws| - 1;
      ExtendExpand(rs, ws[..n]);
      PushExpand(Extend(rs, ws[..n]), ws[n]);
      assert ws == ws[..n] + [ws[n]];
    }
  }

  lemma PushCanonical(rs: seq<Run>, w: nat)
    requires rs != [] && Canonical(rs)
    ensures Canonical(Push(rs, w))
  {
    var n := |rs| - 1;
    var r := Push(rs, w);
    forall k | 0 < k < |r|
      ensures r[k].count > 0 && r[k].width != r[k - 1].width
    {
      if k < n {
        assert r[k] == rs[k] && r[k - 1] == rs[k - 1];
      } else if k == n {
        assert r[k - 1] == rs[k - 1] && r[k].width == rs[k].width;
        assert r[k].count >= rs[k].count;
      } else {
        assert r[k - 1] == rs[n] && r[k] == Run(w, 1);
      }
    }
  }

  /** `append` keeps the run list minimal. */
  lemma {:induction false} ExtendCanonical(rs: seq<Run>, ws: seq<nat>)
    requires rs != [] && Canonical(rs)
    ensures Canonical(Extend(rs, ws))
  {
    if ws != [] {
      ExtendCanonical(rs, ws[..|ws| - 1]);
      PushCanonical(Extend(rs, ws[..|ws| - 1]), ws[|ws| - 1]);
    }
  }

  lemma {:induction false} ExtendWidths(rs: seq<Run>, ws: seq<nat>)
    requires rs != [] && WidthsOk(rs) && IsWidths(ws)
    ensures WidthsOk(Extend(rs, ws))
  {
    if ws != [] {
      ExtendWidths(rs, ws[..|ws| - 1]);
    }
  }

  lemma {:induction false} ExtendConcat(rs: seq<Run>, a: seq<nat>, b: seq<nat>)
    requires rs != []
    ensures Extend(rs, a + b) == Extend(Extend(rs, a), b)
  {
    if b == [] {
      assert a + b == a;
    } else {
      var n := |b| - 1;
      assert (a + b)[..|a + b| - 1] == a + b[..n];
      ExtendConcat(rs, a, b[..n]);
    }
  }

  /** Pushing `c` code points of a width the last run already has grows it by `c`. */
  lemma {:induction false} ExtendSameWidth(rs: seq<Run>, c: nat)
    requires rs != []
    ensures var last := rs[|rs| - 1];
            Extend(rs, Repeat(last.width, c)) == rs[..|rs| - 1] + [Run(last.width, last.count + c)]
  {
    var last := rs[|rs| - 1];
    if c > 0 {
      assert Repeat(last.width, c)[..c - 1] == Repeat(last.width, c - 1);
      ExtendSameWidth(rs, c - 1);
    } else {
      assert rs == rs[..|rs| - 1] + [last];
    }
  }

  /** Pushing `c > 0` code points of a new width adds one run of `c`. */
  lemma ExtendNewWidth(rs: seq<Run>, w: nat, c: nat)
    requires rs != [] && rs[|rs| - 1].width != w && c > 0
    ensures Extend(rs, Repeat(w, c)) == rs + [Run(w, c)]
  {
    var one := rs + [Run(w, 1)];
    assert Repeat(w, c) == [w] + Repeat(w, c - 1);
    assert Extend(rs, [w]) == one by {
      assert [w][..0] == [];
      assert Extend(rs, [w]) == Push(rs, w);
    }
    ExtendConcat(rs, [w], Repeat(w, c - 1));
    ExtendSameWidth(one, c - 1);
    assert one[|one| - 1] == Run(w, 1) && one[..|one| - 1] == rs;
  }

  /** The runs the source's constructor builds for code points of widths `ws`: `append` onto an empty head of width 1. */
  function Encode(ws: seq<nat>): seq<Run>
  {
    Extend([Run(1, 0)], ws)
  }

  /** Encoding is a faithful, minimal description of the widths. */
  lemma EncodeSound(ws: seq<nat>)
    ensures Expand(Encode(ws)) == ws && Canonical(Encode(ws)) && Encode(ws)[0].width == 1
  {
    ExtendExpand([Run(1, 0)], ws);
    ExtendCanonical([Run(1, 0)], ws);
    ExpandSingle(Run(1, 0));
  }

  /**
   * A minimal run list whose first run has width 1 is the one the
   * constructor would build from its code points: after any sequence of
   * edits the structure depends only on the text it describes.
   */
  lemma {:induction false} CanonicalUnique(rs: seq<Run>)
    requires rs != [] && Canonical(rs) && rs[0].width == 1
    ensures Encode(Expand(rs)) == rs
  {
    var n := |rs| - 1;
    var pre, last := rs[..n], rs[n];
    var tail := Repeat(last.width, last.count);
    assert rs == pre + [last];
    assert Expand(rs) == Expand(pre) + tail by {
      ExpandConcat(pre, [last]);
      ExpandSingle(last);
    }
    if n == 0 {
      assert pre == [] && Expand(rs) == tail;
      ExtendSameWidth([Run(1, 0)], last.count);
    } else {
      assert Canonical(pre) by {
        forall k | 0 < k < |pre|
          ensures pre[k].count > 0 && pre[k].width != pre[k - 1].width
        {
          assert pre[k] == rs[k] && pre[k - 1] == rs[k - 1];
        }
      }
      assert pre[n - 1].width != last.width && last.count > 0;
      calc {
        Encode(Expand(rs));
        Extend([Run(1, 0)], Expand(pre) + tail);
        { ExtendConcat([Run(1, 0)], Expand(pre), tail); }
        Extend(Encode(Expand(pre)), tail);
        { CanonicalUnique(pre); }
        Extend(pre, tail);
        { ExtendNewWidth(pre, last.width, last.count); }
        pre + [last];
      }
    }
  }

  // ---------------------------------------------------------------------------
  // graft: reattach a list after a run

  /** `rs` without its leading empty runs. */
  function DropEmpty(rs: seq<Run>): (r: seq<Run>)
    ensures |r| <= |rs|
    ensures r == [] || r[0].count > 0
  {
    if rs != [] && rs[0].count == 0 then DropEmpty(rs[1..]) else rs
  }

  /** What is left after the empty runs are dropped is a suffix of `rs`. */
  lemma {:induction false} DropEmptySuffix(rs: seq<Run>)
    ensures DropEmpty(rs) == rs[|rs| - |DropEmpty(rs)|..]
  {
    if rs != [] && rs[0].count == 0 {
      DropEmptySuffix(rs[1..]);
      assert rs[1..][|rs| - 1 - |DropEmpty(rs)|..] == rs[|rs| - |DropEmpty(rs)|..];
    }
  }

  /**
   * `m` linked after `rs`, its first run merged into the last run of `rs`
   * when their widths agree.
   */
  function Attach(rs: seq<Run>, m: seq<Run>): seq<Run>
    requires rs != []
  {
    var last := rs[|rs| - 1];
    if m != [] && m[0].width == last.width
    then rs[..|rs| - 1] + [Run(last.width, last.count + m[0].count)] + m[1..]
    else rs + m
  }

  /**
   * `rest` reattached after `rs`: its leading empty runs are dropped, and its
   * first remaining run merges into the last run of `rs` when their widths agree.
   */
  function Splice(rs: seq<Run>, rest: seq<Run>): seq<Run>
    requires rs != []
  {
    Attach(rs, DropEmpty(rest))
  }

  /** Dropping the first `p` runs, exactly the empty ones at the front. */
  lemma {:induction false} DropEmptyAt(rs: seq<Run>, p: nat)
    requires p <= |rs| && (forall q :: 0 <= q < p ==> rs[q].count == 0)
    requires p < |rs| ==> rs[p].count > 0
    ensures DropEmpty(rs) == rs[p..]
  {
    if p > 0 {
      assert rs[1..][p - 1..] == rs[p..];
      DropEmptyAt(rs[1..], p - 1);
    }
  }

  lemma {:induction false} DropEmptyExpand(rs: seq<Run>)
    ensures Expand(DropEmpty(rs)) == Expand(rs)
  {
    if rs != [] && rs[0].count == 0 {
      DropEmptyExpand(rs[1..]);
    }
  }

  lemma AttachExpand(rs: seq<Run>, m: seq<Run>)
    requires rs != []
    ensures Expand(Attach(rs, m)) == Expand(rs) + Expand(m)
  {
    var n := |rs| - 1;
    var last := rs[n];
    assert Expand(rs) == Expand(rs[..n]) + Repeat(last.width, last.count) by {
      assert rs == rs[..n] + [last];
      ExpandSnoc(rs[..n], last);
    }
    if m != [] && m[0].width == last.width {
      var merged := Run(last.width, last.count + m[0].count);
      assert Expand(m) == Repeat(last.width, m[0].count) + Expand(m[1..]) by {
        assert m == [m[0]] + m[1..];
        ExpandCons(m[0], m[1..]);
      }
      assert Expand(rs[..n] + [merged] + m[1..]) ==
             Expand(rs[..n]) + Repeat(last.width, last.count + m[0].count) + Expand(m[1..]) by {
        ExpandConcat(rs[..n] + [merged], m[1..]);
        ExpandSnoc(rs[..n], merged);
      }
      RepeatSplit(last.width, last.count, m[0].count);
    } else {
      ExpandConcat(rs, m);
    }
  }

  lemma AttachCanonical(rs: seq<Run>, m: seq<Run>)
    requires rs != [] && Canonical(rs) && Canonical(m) && (m == [] || m[0].count > 0)
    ensures Canonical(Attach(rs, m))
  {
    var n := |rs| - 1;
    var r := Attach(rs, m);
    if m != [] && m[0].width == rs[n].width {
      forall k | 0 < k < |r|
        ensures r[k].count > 0 && r[k].width != r[k - 1].width
      {
        if k < n {
          assert r[k] == rs[k] && r[k - 1] == rs[k - 1];
        } else if k == n {
          assert r[k - 1] == rs[k - 1] && r[k].width == rs[k].width;
        } else if k == n + 1 {
          assert r[k] == m[1] && r[k - 1].width == m[0].width;
        } else {
          assert r[k] == m[k - n] && r[k - 1] == m[k - n - 1];
        }
      }
    } else {
      forall k | 0 < k < |r|
        ensures r[k].count > 0 && r[k].width != r[k - 1].width
      {
        if k <= n {
          assert r[k] == rs[k] && r[k - 1] == rs[k - 1];
        } else if k == n + 1 {
          assert r[k] == m[0] && r[k - 1] == rs[n];
        } else {
          assert r[k] == m[k - n - 1] && r[k - 1] == m[k - n - 2];
        }
      }
    }
  }

  /** Grafting loses and adds no code point. */
  lemma SpliceExpand(rs: seq<Run>, rest: seq<Run>)
    requires rs != []
    ensures Expand(Splice(rs, rest)) == Expand(rs) + Expand(rest)
  {
    DropEmptyExpand(rest);
    AttachExpand(rs, DropEmpty(rest));
  }

  /** Grafting a minimal list onto a minimal list gives a minimal list. */
  lemma SpliceCanonical(rs: seq<Run>, rest: seq<Run>)
    requires rs != [] && Canonical(rs) && Canonical(rest)
    ensures Canonical(Splice(rs, rest))
  {
    var m := DropEmpty(rest);
    var d := |rest| - |m|;
    DropEmptySuffix(rest);
    assert Canonical(m) by {
      forall k | 0 < k < |m|
        ensures m[k].count > 0 && m[k].width != m[k - 1].width
      {
        assert m[k] == rest[d + k] && m[k - 1] == rest[d + k - 1];
      }
    }
    AttachCanonical(rs, m);
  }

  // ---------------------------------------------------------------------------
  // insertAt and deleteAt on runs

  lemma PushAfter(pre: seq<Run>, rs: seq<Run>, w: nat)
    requires rs != []
    ensures Push(pre + rs, w) == pre + Push(rs, w)
  {
    var all := pre + rs;
    assert all[|all| - 1] == rs[|rs| - 1];
    assert all[..|all| - 1] == pre + rs[..|rs| - 1];
  }

  /** `append` only ever touches the last run. */
  lemma {:induction false} ExtendLast(rs: seq<Run>, ws: seq<nat>)
    requires rs != []
    ensures Extend(rs, ws) == rs[..|rs| - 1] + Extend([rs[|rs| - 1]], ws)
  {
    var n := |rs| - 1;
    if ws == [] {
      assert rs == rs[..n] + [rs[n]];
    } else {
      var m := |ws| - 1;
      ExtendLast(rs, ws[..m]);
      PushAfter(rs[..n], Extend([rs[n]], ws[..m]), ws[m]);
    }
  }

  /** Appending after run `i` of `rs`, with the later runs set aside. */
  lemma ExtendAt(rs: seq<Run>, i: nat, ws: seq<nat>)
    requires i < |rs|
    ensures Extend(rs[..i + 1], ws) == rs[..i] + Extend([rs[i]], ws)
  {
    ExtendLast(rs[..i + 1], ws);
    assert rs[..i + 1][..i] == rs[..i] && rs[..i + 1][i] == rs[i];
  }

  /**
   * The runs `insertAt` leaves: run `i` cut after `a` code points, the
   * widths `ws` pushed onto the first half, and the second half grafted back.
   */
  function Inserted(rs: seq<Run>, i: nat, a: nat, ws: seq<nat>): seq<Run>
    requires i < |rs| && a <= rs[i].count
  {
    var cut := Cut(rs, i, a);
    Splice(Extend(cut[..i + 1], ws), cut[i + 1..])
  }

  /** Inserting puts the new widths exactly at the cut, `k` code points in. */
  lemma InsertExpand(rs: seq<Run>, i: nat, a: nat, ws: seq<nat>, k: nat)
    requires i < |rs| && a <= rs[i].count && k == |Expand(rs[..i])| + a
    ensures k <= |Expand(rs)| && Expand(Inserted(rs, i, a, ws)) == Expand(rs)[..k] + ws + Expand(rs)[k..]
  {
    var cut := Cut(rs, i, a);
    assert rs[0..] == rs && rs[0..i] == rs[..i] && cut[0..i + 1] == cut[..i + 1];
    CutHalves(rs, i, a, 0, k);
    ExtendExpand(cut[..i + 1], ws);
    SpliceExpand(Extend(cut[..i + 1], ws), cut[i + 1..]);
  }

  /** Inserting keeps a minimal run list minimal, unless the cut left an empty run after the first. */
  lemma InsertCanonical(rs: seq<Run>, i: nat, a: nat, ws: seq<nat>)
    requires i < |rs| && a <= rs[i].count && Canonical(rs) && (i == 0 || a > 0)
    ensures Canonical(Inserted(rs, i, a, ws))
  {
    var cut := Cut(rs, i, a);
    assert rs[0..] == rs && cut[0..i + 1] == cut[..i + 1];
    CutCanonical(rs, i, a, 0);
    ExtendCanonical(cut[..i + 1], ws);
    SpliceCanonical(Extend(cut[..i + 1], ws), cut[i + 1..]);
  }

  /**
   * The runs `deleteAt` leaves: run `i` cut after `a` code points, then run
   * `i2` of the result (after the first cut) cut after `a2`, and the runs
   * after the second cut grafted onto the first half of the first.
   */
  function Deleted(rs: seq<Run>, i: nat, a: nat, i2: nat, a2: nat): seq<Run>
    requires i < |rs| && a <= rs[i].count
    requires i < i2 <= |rs| && a2 <= Cut(rs, i, a)[i2].count
  {
    var cut2 := Cut(Cut(rs, i, a), i2, a2);
    Splice(cut2[..i + 1], cut2[i2 + 1..])
  }

  /** Deleting removes exactly the `k2` code points after the first `k1`. */
  lemma DeleteExpand(rs: seq<Run>, i: nat, a: nat, i2: nat, a2: nat, k1: nat, k2: nat)
    requires i < |rs| && a <= rs[i].count
    requires i < i2 <= |rs| && a2 <= Cut(rs, i, a)[i2].count
    requires k1 == |Expand(rs[..i])| + a && k2 == |Expand(Cut(rs, i, a)[i + 1..i2])| + a2
    ensures k1 + k2 <= |Expand(rs)| && Expand(Deleted(rs, i, a, i2, a2)) == Expand(rs)[..k1] + Expand(rs)[k1 + k2..]
  {
    var cut, W := Cut(rs, i, a), Expand(rs);
    var cut2 := Cut(cut, i2, a2);
    assert rs[0..] == rs && rs[0..i] == rs[..i] && cut[0..i + 1] == cut[..i + 1];
    CutHalves(rs, i, a, 0, k1);
    assert Expand(cut[..i + 1]) == W[..k1] && Expand(cut[i + 1..]) == W[k1..];
    CutHalves(cut, i2, a2, i + 1, k2);
    assert cut2[..i + 1] == cut[..i + 1];
    assert Expand(cut2[i2 + 1..]) == W[k1..][k2..];
    assert W[k1..][k2..] == W[k1 + k2..];
    SpliceExpand(cut2[..i + 1], cut2[i2 + 1..]);
  }

  /** Deleting keeps a minimal run list minimal, unless the first cut left an empty run after the first. */
  lemma DeleteCanonical(rs: seq<Run>, i: nat, a: nat, i2: nat, a2: nat)
    requires i < |rs| && a <= rs[i].count
    requires i < i2 <= |rs| && a2 <= Cut(rs, i, a)[i2].count
    requires Canonical(rs) && (i == 0 || a > 0)
    ensures Canonical(Deleted(rs, i, a, i2, a2))
  {
    var cut := Cut(rs, i, a);
    var cut2 := Cut(cut, i2, a2);
    assert rs[0..] == rs && cut[0..i + 1] == cut[..i + 1];
    CutCanonical(rs, i, a, 0);
    CutCanonical(cut, i2, a2, i + 1);
    CutPrefix(cut, i2, a2, i + 1);
    SpliceCanonical(cut2[..i + 1], cut2[i2 + 1..]);
  }
}
