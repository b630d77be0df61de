/**
 * Offsets in a text described only by the width (in UTF-16 units) of each of
 * its code points: `ws[i]` is the number of units of the `i`th code point.
 * A code point offset `k` corresponds to the unit offset `Units(ws[..k])`.
 */
module Offsets {
  import opened Outcomes

  /** The number of UTF-16 units spanned by code points of widths `ws`. */
  function Units(ws: seq<nat>): nat
  {
    if ws == [] then 0 else ws[0] + Units(ws[1..])
  }

  /**
   * The units taken by `c` code points of width `w` each (`c * w`), spelt
   * out as repeated addition; `ScaleIsProduct` ties it to multiplication.
   */
  function Scale(c: nat, w: nat): nat
  {
    if c == 0 then 0 else w + Scale(c - 1, w)
  }

  /** The whole code points of width `w` in `u` units (`u / w`, see `WholeLeftoverDivMod`). */
  function Whole(u: nat, w: nat): nat
    requires w > 0
    decreases u
  {
    if u < w then 0 else 1 + Whole(u - w, w)
  }

  /** The units left over after the whole code points of width `w` in `u` units (`u % w`). */
  function Leftover(u: nat, w: nat): nat
    requires w > 0
    decreases u
  {
    if u < w then u else Leftover(u - w, w)
  }

  lemma {:induction false} ScaleIsProduct(c: nat, w: nat)
    ensures Scale(c, w) == c * w
  {
    if c > 0 {
      ScaleIsProduct(c - 1, w);
    }
  }

  /**
   * For the widths code points have, `Whole` and `Leftover` are the quotient
   * and remainder of the division `split` performs.
   */
  lemma {:induction false} WholeLeftoverDivMod(u: nat, w: nat)
    requires 1 <= w <= 2
    ensures Whole(u, w) == u / w && Leftover(u, w) == u % w
    decreases u
  {
    if u >= w {
      WholeLeftoverDivMod(u - w, w);
      if w == 2 {
        assert (u - 2) / 2 + 1 == u / 2 && (u - 2) % 2 == u % 2;
      }
    }
  }

  /** The units `split` skips or stops in: `Whole` code points of width `w`, then `Leftover` units. */
  lemma {:induction false} WholeLeftoverSum(u: nat, w: nat)
    requires w > 0
    ensures u == Scale(Whole(u, w), w) + Leftover(u, w) && Leftover(u, w) < w
    decreases u
  {
    if u >= w {
      WholeLeftoverSum(u - w, w);
    }
  }

  /**
   * An offset of at most `c` code points of width `w` holds at most `c` whole
   * ones, and a nonzero offset with nothing left over holds at least one.
   */
  lemma {:induction false} WholeWithin(u: nat, w: nat, c: nat)
    requires w > 0 && u <= Scale(c, w)
    ensures Whole(u, w) <= c
    ensures u > 0 && Leftover(u, w) == 0 ==> Whole(u, w) > 0
    decreases u
  {
    if u >= w {
      WholeWithin(u - w, w, c - 1);
    }
  }

  /** Every code point is one unit wide, or two (a surrogate pair). */
  predicate IsWidths(ws: seq<nat>)
  {
    forall q :: 0 <= q < |ws| ==> 1 <= ws[q] <= 2
  }

  /** Adds `d` to a successful offset; an error passes through. */
  function Shift(r: Result<nat>, d: nat): Result<nat>
  {
    match r
    case Ok(v) => Ok(v + d)
    case Err(e) => Err(e)
  }

  /**
   * The reference meaning of a unit offset: walking the code points one at a
   * time, the number of code points that end within the first `u` units, or
   * the reason there is none (`u` is past the end, or falls inside a code point).
   */
  function CpOffset(ws: seq<nat>, u: nat): (r: Result<nat>)
    ensures r.Ok? ==> r.value <= |ws|
  {
    if u == 0 then Ok(0)
    else if ws == [] then Err(OffsetBeyondEnd)
    else if u < ws[0] then Err(OffsetInMiddleOfSurrogate)
    else Shift(CpOffset(ws[1..], u - ws[0]), 1)
  }

  /** Shifting twice is shifting by the sum. */
  lemma ShiftShift(r: Result<nat>, c: nat, d: nat)
    ensures Shift(Shift(r, c), d) == Shift(r, c + d)
  {
  }

  lemma {:induction false} UnitsConcat(a: seq<nat>, b: seq<nat>)
    ensures Units(a + b) == Units(a) + Units(b)
  {
    if a == [] {
      assert a + b == b;
    } else {
      assert (a + b)[1..] == a[1..] + b;
      UnitsConcat(a[1..], b);
    }
  }

  /** A successful `CpOffset` names a code point boundary that lies exactly `u` units in. */
  lemma {:induction false} CpOffsetSound(ws: seq<nat>, u: nat)
    ensures CpOffset(ws, u).Ok? ==>
              CpOffset(ws, u).value <= |ws| && Units(ws[..CpOffset(ws, u).value]) == u
  {
    if u != 0 && ws != [] && u >= ws[0] {
      CpOffsetSound(ws[1..], u - ws[0]);
      var r := CpOffset(ws[1..], u - ws[0]);
      if r.Ok? {
        assert ws[..r.value + 1][1..] == ws[1..][..r.value];
      }
    }
  }

  /** Every code point boundary is found by `CpOffset`: it inverts `Units` of a prefix. */
  lemma {:induction false} CpOffsetComplete(ws: seq<nat>, k: nat)
    requires IsWidths(ws) && k <= |ws|
    ensures CpOffset(ws, Units(ws[..k])) == Ok(k)
  {
    if k > 0 {
      assert ws[..k][1..] == ws[1..][..k - 1];
      CpOffsetComplete(ws[1..], k - 1);
    }
  }

  /** `CpOffset` reports "beyond end" exactly when `u` exceeds the total length. */
  lemma {:induction false} CpOffsetBeyond(ws: seq<nat>, u: nat)
    requires IsWidths(ws)
    ensures CpOffset(ws, u) == Err(OffsetBeyondEnd) <==> u > Units(ws)
  {
    if u != 0 && ws != [] && u >= ws[0] {
      CpOffsetBeyond(ws[1..], u - ws[0]);
    }
  }
}
