/**
 The overflow checks of gdk_calc_private.h. Machine integers are written as `int`
 with every 64-bit wrap-around spelled out; the smallest value of a type is its nil.
 */
module Calc {

  const TWO31: int := 0x8000_0000
  const TWO32: int := 0x1_0000_0000
  const TWO63: int := 0x8000_0000_0000_0000
  const TWO64: int := 0x1_0000_0000_0000_0000

  /** What a checked operation leaves: a value, a nil that was counted, or an abort. */
  datatype Checked = Value(v: int) | Nil | Abort

  function Overflow(abortOnError: bool): Checked {
    if abortOnError then Abort else Nil
  }

  /** ADD_WITH_CHECK for a result type with the values (min, max]; `min` is nil. */
  method AddWithCheck(lft: int, rgt: int, min: int, max: int, abortOnError: bool) returns (dst: Checked)
    requires min <= lft <= max
    ensures dst == if min < lft + rgt <= max then Value(lft + rgt) else Overflow(abortOnError)
    ensures dst.Value? <==> min < lft + rgt <= max
    ensures (dst.Abort? ==> abortOnError) && (dst.Nil? ==> !abortOnError)
  {
    if rgt < 1 {
      if min - rgt >= lft {
        return Overflow(abortOnError);
      } else {
        return Value(lft + rgt);
      }
    } else {
      if max - rgt < lft {
        return Overflow(abortOnError);
      } else {
        return Value(lft + rgt);
      }
    }
  }

  lemma MulMono(a: int, b: int, c: int, d: int)
    requires 0 <= a <= c && 0 <= b <= d
    ensures 0 <= a * b <= c * d
  {
    assert a * b <= c * b;
    assert c * b <= c * d;
  }

  /** Splitting both factors into 32-bit halves. */
  lemma Halves(a1: int, a2: int, b1: int, b2: int)
    ensures (a1 * TWO32 + a2) * (b1 * TWO32 + b2) == a1 * b1 * TWO64 + (a1 * b2 + a2 * b1) * TWO32 + a2 * b2
  {
    calc {
      (a1 * TWO32 + a2) * (b1 * TWO32 + b2);
      a1 * TWO32 * (b1 * TWO32 + b2) + a2 * (b1 * TWO32 + b2);
      { Distribute(a1 * TWO32, b1 * TWO32, b2); Distribute(a2, b1 * TWO32, b2); }
      a1 * TWO32 * (b1 * TWO32) + a1 * TWO32 * b2 + a2 * (b1 * TWO32) + a2 * b2;
      a1 * b1 * TWO64 + a1 * b2 * TWO32 + a2 * b1 * TWO32 + a2 * b2;
    }
  }

  lemma Distribute(x: int, y: int, z: int)
    ensures x * (y + z) == x * y + x * z
  {
  }

  /** Both high halves set: the product is far out of range. */
  lemma HighProduct(a1: int, a2: int, b1: int, b2: int)
    requires 1 <= a1 && 1 <= b1 && 0 <= a2 && 0 <= b2
    ensures (a1 * TWO32 + a2) * (b1 * TWO32 + b2) >= TWO64
  {
    MulMono(TWO32, TWO32, a1 * TWO32 + a2, b1 * TWO32 + b2);
  }

  /**
   One high half is zero (here `y`'s). The cross term never wraps, and when it is below
   2^31 the 64-bit sum of the shifted cross term and the low product never wraps either.
   */
  lemma CrossTerm(x1: int, x2: int, y2: int)
    requires 0 <= x1 < TWO31 && 0 <= x2 < TWO32 && 0 <= y2 < TWO32
    ensures 0 <= x1 * y2 < TWO63
    ensures (x1 * TWO32 + x2) * y2 == x1 * y2 * TWO32 + x2 * y2
    ensures x1 * y2 >= TWO31 ==> (x1 * TWO32 + x2) * y2 >= TWO63
    ensures 0 <= x2 * y2
    ensures x1 * y2 < TWO31 ==> x1 * y2 * TWO32 + x2 * y2 < TWO64
  {
    MulMono(x1, y2, TWO31 - 1, TWO32 - 1);
    Halves(x1, x2, 0, y2);
    MulMono(x2, y2, TWO32 - 1, TWO32 - 1);
    if x1 >= 1 && x1 * y2 < TWO31 {
      MulMono(1, y2, x1, y2);
      MulMono(x2, y2, TWO32 - 1, TWO31 - 1);
    }
  }

  /** The sum of the cross products, when one of the high halves is zero. */
  lemma Magnitude(a1: int, a2: int, b1: int, b2: int)
    requires 0 <= a1 < TWO31 && 0 <= b1 < TWO31 && 0 <= a2 < TWO32 && 0 <= b2 < TWO32
    requires a1 == 0 || b1 == 0
    ensures 0 <= a1 * b2 + a2 * b1 < TWO63 && 0 <= a2 * b2
    ensures (a1 * TWO32 + a2) * (b1 * TWO32 + b2) == (a1 * b2 + a2 * b1) * TWO32 + a2 * b2
    ensures a1 * b2 + a2 * b1 < TWO31 ==> (a1 * b2 + a2 * b1) * TWO32 + a2 * b2 < TWO64
    ensures a1 * b2 + a2 * b1 >= TWO31 ==> (a1 * TWO32 + a2) * (b1 * TWO32 + b2) >= TWO63
  {
    if b1 == 0 {
      CrossTerm(a1, a2, b2);
    } else {
      CrossTerm(b1, b2, a2);
    }
  }

  /** The two tests of LNGMUL_CHECK on the wrapped sums decide whether the product fits. */
  lemma Tests(cross: int, low: int, product: int, c: int)
    requires 0 <= cross < TWO63 && 0 <= low && product == cross * TWO32 + low
    requires cross < TWO31 ==> product < TWO64
    requires c == (cross * TWO32 % TWO64 + low) % TWO64
    ensures cross % TWO64 == cross
    ensures cross / TWO31 == 0 <==> cross < TWO31
    ensures cross < TWO31 ==> c == product && (c / TWO63 == 0 <==> product < TWO63)
    ensures cross >= TWO31 ==> product >= TWO63
  {
  }

  /** The unsigned part of LNGMUL_CHECK. */
  method MulMagnitude(a: int, b: int) returns (ok: bool, c: int)
    requires 0 <= a < TWO63 && 0 <= b < TWO63
    ensures ok <==> a * b < TWO63
    ensures ok ==> c == a * b
  {
    ghost var product := a * b;
    var a1, a2, b1, b2 := a / TWO32, a % TWO32, b / TWO32, b % TWO32;
    assert a1 * TWO32 + a2 == a && b1 * TWO32 + b2 == b;
    if a1 != 0 && b1 != 0 {
      HighProduct(a1, a2, b1, b2);
      return false, 0;
    }
    Magnitude(a1, a2, b1, b2);
    var cross, low := a1 * b2 + a2 * b1, a2 * b2;
    c := cross % TWO64;
    Tests(cross, low, product, (cross * TWO32 % TWO64 + low) % TWO64);
    if c / TWO31 != 0 {
      return false, c;
    }
    c := (c * TWO32 % TWO64 + low) % TWO64;
    return c / TWO63 == 0, c;
  }

  lemma Signs(l: int, r: int)
    ensures -l * r == -(l * r) && l * -r == -(l * r) && -l * -r == l * r
  {
  }

  /**
   LNGMUL_CHECK: the product of two non-nil lng values, from four 32-bit products.
   It is accepted exactly when it is a non-nil lng, and then it is exact.
   */
  method LngMulCheck(lft: int, rgt: int, abortOnError: bool) returns (dst: Checked)
    requires -TWO63 < lft < TWO63 && -TWO63 < rgt < TWO63
    ensures dst == if -TWO63 < lft * rgt < TWO63 then Value(lft * rgt) else Overflow(abortOnError)
    ensures dst.Value? <==> -TWO63 < lft * rgt < TWO63
    ensures (dst.Abort? ==> abortOnError) && (dst.Nil? ==> !abortOnError)
  {
    var a, b, sign := lft, rgt, 1;
    if a < 0 {
      sign := -sign;
      a := -a;
    }
    if b < 0 {
      sign := -sign;
      b := -b;
    }
    Signs(lft, rgt);
    MulMono(0, 0, a, b);
    ghost var product := a * b;
    var ok, c := MulMagnitude(a, b);
    return if ok then Value(sign * c) else Overflow(abortOnError);
  }
}
