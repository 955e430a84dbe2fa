/**
 The conversion of an integer to float64 and back, as in int64(math.Max(float64(a), float64(b)))
 of notify/msg_notify_center.go: round to 53 significant bits, ties to even.
 */
module Float64 {

  const P52: nat := 0x10_0000_0000_0000
  const P53: nat := 0x20_0000_0000_0000

  /** The distance between neighbouring float64 values around x. */
  function Spacing(x: nat): (s: nat)
    ensures s >= 1
  {
    if x < P53 then 1 else 2 * Spacing(x / 2)
  }

  /** The multiple of s nearest to x, ties to the even multiple. */
  function RoundTo(x: nat, s: nat): nat
    requires s >= 1
  {
    var q, r := x / s, x % s;
    if 2 * r < s || (2 * r == s && q % 2 == 0) then q * s else (q + 1) * s
  }

  function RoundNat(x: nat): nat {
    RoundTo(x, Spacing(x))
  }

  function Round(x: int): int {
    if x < 0 then 0 - RoundNat(-x) else RoundNat(x)
  }

  lemma {:induction false} SpacingBounds(x: nat)
    ensures x < Spacing(x) * P53
    ensures Spacing(x) > 1 ==> x >= Spacing(x) * P52
  {
    if x >= P53 { SpacingBounds(x / 2); }
  }

  // Spacings are powers of two: a different one is at least twice as large.
  lemma {:induction false} SpacingGrows(x: nat, y: nat)
    requires x <= y
    ensures Spacing(x) == Spacing(y) || 2 * Spacing(x) <= Spacing(y)
  {
    if x >= P53 {
      SpacingGrows(x / 2, y / 2);
    }
  }

  lemma DivParts(x: nat, s: nat)
    requires s >= 1
    ensures x == (x / s) * s + x % s && 0 <= x % s < s
  {
  }

  lemma MulGrows(a: nat, b: nat, s: nat)
    requires a <= b
    ensures a * s <= b * s
  {
  }

  lemma DivMonotone(x: nat, y: nat, s: nat)
    requires s >= 1 && x <= y
    ensures x / s <= y / s
  {
    DivParts(x, s);
    DivParts(y, s);
    if x / s > y / s {
      MulGrows(y / s + 1, x / s, s);
    }
  }

  lemma RoundToBetween(x: nat, s: nat)
    requires s >= 1
    ensures (x / s) * s <= RoundTo(x, s) <= (x / s + 1) * s
  {
    MulGrows(x / s, x / s + 1, s);
  }

  lemma RoundToMonotone(x: nat, y: nat, s: nat)
    requires s >= 1 && x <= y
    ensures RoundTo(x, s) <= RoundTo(y, s)
  {
    RoundToBetween(x, s);
    RoundToBetween(y, s);
    DivMonotone(x, y, s);
    if x / s == y / s {
      DivParts(x, s);
      DivParts(y, s);
      NextMultiple(x / s, s);
      assert x % s <= y % s;
    } else {
      MulGrows(x / s + 1, y / s, s);
    }
  }

  lemma RoundToMultiple(q: nat, s: nat)
    requires s >= 1
    ensures RoundTo(q * s, s) == q * s
  {
  }

  lemma RoundNatBounds(x: nat)
    ensures var s := Spacing(x);
            RoundNat(x) <= s * P53 && (s > 1 ==> RoundNat(x) >= s * P52)
  {
    var s := Spacing(x);
    SpacingBounds(x);
    RoundToMultiple(P53, s);
    RoundToMonotone(x, P53 * s, s);
    if s > 1 {
      RoundToMultiple(P52, s);
      RoundToMonotone(P52 * s, x, s);
    }
  }

  lemma RoundNatMonotone(x: nat, y: nat)
    requires x <= y
    ensures RoundNat(x) <= RoundNat(y)
  {
    SpacingGrows(x, y);
    if Spacing(x) == Spacing(y) {
      RoundToMonotone(x, y, Spacing(x));
    } else {
      RoundNatBounds(x);
      RoundNatBounds(y);
    }
  }

  /** Rounding keeps the order. */
  lemma RoundMonotone(x: int, y: int)
    requires x <= y
    ensures Round(x) <= Round(y)
  {
    if x >= 0 { RoundNatMonotone(x, y); }
    else if y < 0 { RoundNatMonotone(-y, -x); }
  }

  // A value between the bounds of a spacing has that spacing.
  lemma SpacingPinned(x: nat, z: nat)
    requires Spacing(x) * P52 <= z < Spacing(x) * P53
    ensures Spacing(z) == Spacing(x) || Spacing(x) == 1
  {
  }

  lemma RoundNatIdempotent(x: nat)
    ensures RoundNat(RoundNat(x)) == RoundNat(x)
  {
    var s, z := Spacing(x), RoundNat(x);
    var m := if z == (x / s) * s then x / s else x / s + 1;
    assert z == m * s;
    RoundNatBounds(x);
    if s == 1 {
      SpacingBounds(x);
      DivParts(x, 1);
    } else if z < s * P53 {
      SpacingPinned(x, z);
      RoundToMultiple(m, s);
    } else {
      SpacingBounds(z);
      if x <= z { SpacingGrows(x, z); } else { SpacingGrows(z, x); }
      assert Spacing(z) == 2 * s;
      assert z == P52 * (2 * s);
      RoundToMultiple(P52, 2 * s);
    }
  }

  /** Rounding a float64 value changes nothing. */
  lemma RoundIdempotent(x: int)
    ensures Round(Round(x)) == Round(x)
  {
    RoundNatIdempotent(if x < 0 then -x else x);
    if x < 0 && RoundNat(-x) == 0 { RoundNatMonotone(1, -x); RoundSmall(1); }
  }

  /** Integers up to 2^53 in magnitude are exact; 2^53 + 1 is not. */
  lemma RoundSmall(x: int)
    ensures 0 - P53 <= x <= P53 ==> Round(x) == x
    ensures Round(P53 + 1) == P53
  {
    assert Spacing(P53) == 2 && Spacing(P53 + 1) == 2;
    var n := if x < 0 then -x else x;
    if n < P53 { DivParts(n, 1); RoundToMultiple(n, 1); }
  }

  // ---- Rounding is to the nearest float64 value ---------------------------------------------------

  function Pow2(e: nat): (p: nat)
    ensures p >= 1
  {
    if e == 0 then 1 else 2 * Pow2(e - 1)
  }

  /** y is an integer with 53 significant bits. */
  ghost predicate FloatWith(y: nat, m: nat, e: nat) {
    m <= P53 && y == m * Pow2(e)
  }

  ghost predicate FloatValue(y: int) {
    exists m, e :: FloatWith(Abs(y), m, e)
  }

  function Abs(x: int): nat {
    if x < 0 then -x else x
  }

  lemma {:induction false} SpacingIsPower(x: nat) returns (e: nat)
    ensures Spacing(x) == Pow2(e)
  {
    if x < P53 { e := 0; } else {
      e := SpacingIsPower(x / 2);
      e := e + 1;
    }
  }

  lemma {:induction false} Pow2Splits(e: nat, f: nat)
    requires e <= f
    ensures Pow2(f) == Pow2(f - e) * Pow2(e)
  {
    if e < f { Pow2Splits(e, f - 1); }
  }

  lemma NearestMultiple(x: nat, s: nat, k: nat)
    requires s >= 1
    ensures Abs(x - RoundTo(x, s)) <= Abs(x - k * s)
  {
    var q := x / s;
    DivParts(x, s);
    if k <= q { MulGrows(k, q, s); } else { MulGrows(q + 1, k, s); }
    NextMultiple(q, s);
  }

  lemma NearestNat(x: nat, y: nat, m: nat, e: nat)
    requires FloatWith(y, m, e)
    ensures Abs(x - RoundNat(x)) <= Abs(x - y)
  {
    var s := Spacing(x);
    var f := SpacingIsPower(x);
    if e >= f {
      Pow2Splits(f, e);
      MulAssoc(m, Pow2(e - f), s);
      NearestMultiple(x, s, m * Pow2(e - f));
    } else {
      Pow2Splits(e + 1, f);
      SpacingBounds(x);
      MulGrows(1, Pow2(f - e - 1), Pow2(e + 1));
      MulGrows(m, P53, Pow2(e));
      assert y <= P52 * s <= x;
      NearestMultiple(x, s, P52);
    }
  }

  lemma MulAssoc(a: nat, b: nat, c: nat)
    ensures a * (b * c) == (a * b) * c
  {
  }

  lemma RoundNatIsFloat(x: nat)
    ensures FloatValue(RoundNat(x))
  {
    var s, q := Spacing(x), x / Spacing(x);
    var e := SpacingIsPower(x);
    RoundNatBounds(x);
    var m := if RoundNat(x) == q * s then q else q + 1;
    if m > P53 { MulGrows(P53 + 1, m, s); }
    assert Abs(RoundNat(x)) == RoundNat(x) == m * s;
    assert FloatWith(Abs(RoundNat(x)), m, e);
  }

  /**
   Round is the float64 rounding: its results are float64 values, none is nearer, and halfway
   between two neighbours it takes the even multiple of their distance.
   */
  lemma RoundNearest(x: int, y: int)
    requires FloatValue(y)
    ensures FloatValue(Round(x)) && Abs(x - Round(x)) <= Abs(x - y)
    ensures var s := Spacing(Abs(x)); 2 * Abs(x - Round(x)) == s ==> (Abs(Round(x)) / s) % 2 == 0
  {
    var n := Abs(x);
    RoundNatIsFloat(n);
    assert Abs(Round(x)) == RoundNat(n);
    if (x < 0) == (y < 0) || y == 0 {
      var m, e :| FloatWith(Abs(y), m, e);
      NearestNat(n, Abs(y), m, e);
    } else {
      assert FloatWith(0, 0, 0);
      NearestNat(n, 0, 0, 0);
    }
    TieIsEven(n, Spacing(n));
  }

  lemma TieIsEven(x: nat, s: nat)
    requires s >= 1
    ensures 2 * Abs(x - RoundTo(x, s)) == s ==> (RoundTo(x, s) / s) % 2 == 0
  {
    var q, r := x / s, x % s;
    var low, high := q * s, (q + 1) * s;
    DivParts(x, s);
    MulDiv(q, s);
    MulDiv(q + 1, s);
    NextMultiple(q, s);
    assert low / s == q && high / s == q + 1 && high == low + s && x == low + r;
    assert RoundTo(x, s) == if 2 * r < s || (2 * r == s && q % 2 == 0) then low else high;
    Halfway(x, low, s, r);
  }

  lemma Halfway(x: nat, low: nat, s: nat, r: nat)
    requires x == low + r && r < s
    ensures 2 * Abs(x - low) == s ==> 2 * r == s
    ensures 2 * Abs(x - (low + s)) == s ==> 2 * r == s
  {
  }

  lemma MulDiv(q: nat, s: nat)
    requires s >= 1
    ensures (q * s) / s == q
  {
    DivParts(q * s, s);
    if (q * s) / s < q { MulGrows((q * s) / s + 1, q, s); }
  }

  lemma NextMultiple(q: nat, s: nat)
    ensures (q + 1) * s == q * s + s
  {
  }

  // 2^54 + 6 lies halfway between two float64 values and goes up to the even one.
  lemma RoundTie()
    ensures Round(2 * P53 + 6) == 2 * P53 + 8
  {
    var x := 2 * P53 + 6;
    assert Spacing(x / 2 / 2) == 1;
    assert Spacing(x / 2) == 2;
    assert Spacing(x) == 4;
  }
}
