/**
 * UTF-16 text as JavaScript strings hold it, and its code points as the
 * string iterator (`for (let x of str)`) yields them.
 */
module Utf16 {
  import opened Outcomes
  import opened Offsets

  /** One UTF-16 code unit. */
  type CodeUnit = u: nat | u < 0x1_0000

  predicate IsHighSurrogate(u: CodeUnit) { 0xD800 <= u <= 0xDBFF }
  predicate IsLowSurrogate(u: CodeUnit) { 0xDC00 <= u <= 0xDFFF }
  predicate IsSurrogate(u: CodeUnit) { 0xD800 <= u <= 0xDFFF }

  /** A high surrogate followed by a low surrogate: one code point outside the Basic Multilingual Plane. */
  predicate IsPair(x: seq<CodeUnit>)
  {
    |x| == 2 && IsHighSurrogate(x[0]) && IsLowSurrogate(x[1])
  }

  /** A one-unit element holding half of a surrogate pair. */
  predicate IsLoneSurrogate(x: seq<CodeUnit>)
  {
    |x| == 1 && IsSurrogate(x[0])
  }

  /**
   * The code points of `t`, each as the units that encode it: a high
   * surrogate directly followed by a low surrogate is one 2-unit element,
   * every other unit (a lone surrogate included) is a 1-unit element.
   */
  function Decode(t: seq<CodeUnit>): (cps: seq<seq<CodeUnit>>)
    ensures |cps| <= |t|
    decreases |t|
  {
    if t == [] then []
    else if |t| >= 2 && IsHighSurrogate(t[0]) && IsLowSurrogate(t[1]) then [t[..2]] + Decode(t[2..])
    else [t[..1]] + Decode(t[1..])
  }

  /** Every code point is a single unit or a surrogate pair. */
  lemma {:induction false} DecodeShape(t: seq<CodeUnit>)
    ensures forall q :: 0 <= q < |Decode(t)| ==> |Decode(t)[q]| == 1 || IsPair(Decode(t)[q])
    decreases |t|
  {
    if t != [] {
      var n := FirstLength(t);
      DecodeFirst(t);
      DecodeShape(t[n..]);
      forall q | 1 <= q < |Decode(t)|
        ensures Decode(t)[q] == Decode(t[n..])[q - 1]
      {
      }
    }
  }

  /** The units of a sequence of code points, in order. */
  function Flatten(cps: seq<seq<CodeUnit>>): seq<CodeUnit>
  {
    if cps == [] then [] else cps[0] + Flatten(cps[1..])
  }

  /** No code point of `t` is a lone surrogate: the text `append` accepts. */
  predicate WellFormed(t: seq<CodeUnit>)
  {
    forall q :: 0 <= q < |Decode(t)| ==> !IsLoneSurrogate(Decode(t)[q])
  }

  /** The width in units of each element of `cps`. */
  function WidthsOf(cps: seq<seq<CodeUnit>>): seq<nat>
  {
    seq(|cps|, q => WidthAt(cps, q))
  }

  /** The width of the `q`th element of `cps`. */
  function WidthAt(cps: seq<seq<CodeUnit>>, q: int): nat
  {
    if 0 <= q < |cps| then |cps[q]| else 0
  }

  /** The width of each code point of `t`. */
  function Widths(t: seq<CodeUnit>): (ws: seq<nat>)
    ensures IsWidths(ws) && |ws| == |Decode(t)|
  {
    DecodeShape(t);
    WidthsOf(Decode(t))
  }

  /** A unit offset that falls between the two halves of a surrogate pair. */
  predicate InsidePair(t: seq<CodeUnit>, u: nat)
  {
    0 < u < |t| && IsHighSurrogate(t[u - 1]) && IsLowSurrogate(t[u])
  }

  lemma WidthsOfCons(x: seq<CodeUnit>, cps: seq<seq<CodeUnit>>)
    ensures WidthsOf([x] + cps) == [|x|] + WidthsOf(cps)
  {
  }

  /** Decoding loses nothing: the code points put back together are the text. */
  lemma {:induction false} FlattenDecode(t: seq<CodeUnit>)
    ensures Flatten(Decode(t)) == t
    decreases |t|
  {
    if t != [] {
      var cps := Decode(t);
      if |t| >= 2 && IsHighSurrogate(t[0]) && IsLowSurrogate(t[1]) {
        assert cps[1..] == Decode(t[2..]);
        FlattenDecode(t[2..]);
        assert t == t[..2] + t[2..];
      } else {
        assert cps[1..] == Decode(t[1..]);
        FlattenDecode(t[1..]);
        assert t == t[..1] + t[1..];
      }
    }
  }

  lemma {:induction false} UnitsWidthsOf(cps: seq<seq<CodeUnit>>)
    ensures Units(WidthsOf(cps)) == |Flatten(cps)|
  {
    if cps != [] {
      WidthsOfCons(cps[0], cps[1..]);
      assert [cps[0]] + cps[1..] == cps;
      UnitsWidthsOf(cps[1..]);
    }
  }

  /** The widths of the code points of `t` add up to its length in units. */
  lemma UnitsWidths(t: seq<CodeUnit>)
    ensures Units(Widths(t)) == |t|
  {
    UnitsWidthsOf(Decode(t));
    FlattenDecode(t);
  }

  /**
   * Cutting a text at a unit offset that is not inside a surrogate pair
   * cuts its code points: both halves decode to the code points on their side.
   */
  lemma {:induction false} DecodeSplit(t: seq<CodeUnit>, u: nat)
    requires u <= |t| && !InsidePair(t, u)
    ensures Decode(t) == Decode(t[..u]) + Decode(t[u..])
    decreases |t|
  {
    if u == 0 {
      assert t[..u] == [] && t[u..] == t;
    } else {
      var n := FirstLength(t);
      assert n <= u;
      var r := t[n..];
      assert !InsidePair(r, u - n) by {
        if 0 < u - n < |r| {
          assert r[u - n - 1] == t[u - 1] && r[u - n] == t[u];
        }
      }
      assert t[..u][..n] == t[..n] && t[..u][n..] == r[..u - n] && t[u..] == r[u - n..];
      assert FirstLength(t[..u]) == n;
      calc {
        Decode(t);
        { DecodeFirst(t); }
        [t[..n]] + Decode(r);
        { DecodeSplit(r, u - n); }
        [t[..n]] + (Decode(r[..u - n]) + Decode(r[u - n..]));
        ([t[..n]] + Decode(r[..u - n])) + Decode(r[u - n..]);
        { DecodeFirst(t[..u]); }
        Decode(t[..u]) + Decode(t[u..]);
      }
    }
  }

  /** The number of units of the first code point of a non-empty text. */
  function FirstLength(t: seq<CodeUnit>): (n: nat)
    requires t != []
    ensures n <= |t| && (n == 2 <==> IsPair(t[..n]))
  {
    if |t| >= 2 && IsHighSurrogate(t[0]) && IsLowSurrogate(t[1]) then 2 else 1
  }

  lemma DecodeFirst(t: seq<CodeUnit>)
    requires t != []
    ensures Decode(t) == [t[..FirstLength(t)]] + Decode(t[FirstLength(t)..])
  {
  }

  lemma WellFormedRest(t: seq<CodeUnit>)
    requires t != [] && WellFormed(t)
    ensures WellFormed(t[FirstLength(t)..]) && !IsLoneSurrogate(t[..FirstLength(t)])
  {
    DecodeFirst(t);
    var rest := Decode(t[FirstLength(t)..]);
    assert !IsLoneSurrogate(Decode(t)[0]);
    forall q | 0 <= q < |rest|
      ensures !IsLoneSurrogate(rest[q])
    {
      assert rest[q] == Decode(t)[q + 1];
    }
  }

  /**
   * Appending text after a well-formed text appends its code points: the
   * last code point of `a` is never a lone high surrogate that could pair
   * with the first unit of `b`.
   */
  lemma {:induction false} DecodeConcat(a: seq<CodeUnit>, b: seq<CodeUnit>)
    requires WellFormed(a)
    ensures Decode(a + b) == Decode(a) + Decode(b)
    decreases |a|
  {
    if a == [] {
      assert a + b == b;
    } else {
      var n := FirstLength(a);
      WellFormedRest(a);
      assert FirstLength(a + b) == n by {
        if n == 1 {
          assert !IsHighSurrogate(a[0]) by { assert !IsLoneSurrogate(a[..1]); }
        }
      }
      var ab := a + b;
      assert ab[..n] == a[..n] && ab[n..] == a[n..] + b;
      calc {
        Decode(ab);
        { DecodeFirst(ab); }
        [a[..n]] + Decode(a[n..] + b);
        { DecodeConcat(a[n..], b); }
        [a[..n]] + (Decode(a[n..]) + Decode(b));
        ([a[..n]] + Decode(a[n..])) + Decode(b);
        { DecodeFirst(a); }
        Decode(a) + Decode(b);
      }
    }
  }

  /** The widths of a non-empty text: its first code point's, then the rest's. */
  lemma WidthsFirst(t: seq<CodeUnit>)
    requires t != []
    ensures Widths(t) == [FirstLength(t)] + Widths(t[FirstLength(t)..])
  {
    DecodeFirst(t);
    WidthsOfCons(t[..FirstLength(t)], Decode(t[FirstLength(t)..]));
  }

  /** An offset at or past the first code point is inside a pair exactly when it is inside one of the rest. */
  lemma InsidePairRest(t: seq<CodeUnit>, u: nat)
    requires t != [] && FirstLength(t) <= u
    ensures InsidePair(t, u) <==> InsidePair(t[FirstLength(t)..], u - FirstLength(t))
  {
    var n, r := FirstLength(t), t[FirstLength(t)..];
    if n < u < |t| {
      assert r[u - n - 1] == t[u - 1] && r[u - n] == t[u];
    }
  }

  /** A prefix that ends on a code point boundary past the first code point holds that code point and a prefix of the rest. */
  lemma PrefixFirst(t: seq<CodeUnit>, u: nat)
    requires t != [] && FirstLength(t) <= u <= |t|
    ensures |Decode(t[..u])| == |Decode(t[FirstLength(t)..][..u - FirstLength(t)])| + 1
  {
    var n := FirstLength(t);
    assert t[..u][..n] == t[..n] && t[..u][n..] == t[n..][..u - n];
    assert FirstLength(t[..u]) == n;
    DecodeFirst(t[..u]);
  }

  /**
   * What `CpOffset` means on real text: a unit offset past the end is
   * "beyond end", one between the halves of a surrogate pair is "in middle
   * of surrogate", and any other offset `u` is the number of code points of
   * the first `u` units.
   */
  lemma {:induction false} CpOffsetOfText(t: seq<CodeUnit>, u: nat)
    ensures CpOffset(Widths(t), u) ==
              if u > |t| then Err(OffsetBeyondEnd)
              else if InsidePair(t, u) then Err(OffsetInMiddleOfSurrogate)
              else Ok(|Decode(t[..u])|)
    decreases |t|
  {
    if u == 0 {
      assert t[..u] == [];
    } else if t != [] {
      var n := FirstLength(t);
      WidthsFirst(t);
      if u < n {
        assert InsidePair(t, u);
      } else {
        assert CpOffset(Widths(t), u) == Shift(CpOffset(Widths(t[n..]), u - n), 1);
        CpOffsetOfText(t[n..], u - n);
        InsidePairRest(t, u);
        if u <= |t| && !InsidePair(t, u) {
          PrefixFirst(t, u);
        }
      }
    }
  }
}
