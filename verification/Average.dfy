/**
 Running averages (gdk_aggr.c). An average over n values is kept as a whole part `a` and a
 remainder `r` with a * n + r equal to the mathematical sum, so that no sum is ever formed.
 All arithmetic of AVERAGE_ITER is that of its types: m is the largest value of the element
 type (its nil is -m - 1), and A the largest value of the signed type in which C subtracts two
 values of the element type. Signed overflow, which C leaves undefined, wraps around.
 */
module Average {
  import opened Calc

  // ------------------------------------------------------------------- arithmetic

  /** C's `/` and `%` truncate towards zero. */
  function Quot(x: int, n: int): int
    requires n > 0
  {
    if x >= 0 then x / n else -(-x / n)
  }

  function Rem(x: int, n: int): int
    requires n > 0
  {
    x - Quot(x, n) * n
  }

  /** The values of a signed type with largest value m, nil among them. */
  predicate Fits(v: int, m: int) {
    -m - 1 <= v <= m
  }

  /** Two's complement wrap-around into that type. */
  function WrapTo(v: int, m: int): (w: int)
    requires m >= 0
    ensures Fits(w, m)
  {
    (v + m + 1) % (2 * m + 2) - m - 1
  }

  /** The cast of a signed value to BUN. */
  function Unsigned(v: int): (u: int)
    ensures 0 <= u < TWO64
  {
    v % TWO64
  }

  function Sum(s: seq<int>): int {
    if s == [] then 0 else Sum(s[..|s| - 1]) + s[|s| - 1]
  }

  lemma SumAppend(s: seq<int>, x: int)
    ensures Sum(s + [x]) == Sum(s) + x
  {
    assert (s + [x])[..|s|] == s;
  }

  /** `a` and `r` are the average of n values with the given sum, rounded down. */
  predicate IsAverage(a: int, r: int, n: int, sum: int) {
    a * n + r == sum && if n == 0 then a == 0 && r == 0 else 0 <= r < n
  }

  lemma Product(p: int, q: int, n: int)
    ensures (p + q) * n == p * n + q * n && (p - q) * n == p * n - q * n
  {
  }

  lemma MulLe(p: int, q: int, n: int)
    requires p <= q && n >= 0
    ensures p * n <= q * n
  {
  }

  /** Quotient and remainder are determined by their equation. */
  lemma Unique(d: int, q: int, r: int, q': int, r': int)
    requires d > 0 && q * d + r == q' * d + r' && 0 <= r < d && 0 <= r' < d
    ensures q == q' && r == r'
  {
    if q < q' {
      MulLe(q + 1, q', d);
      Product(q, 1, d);
    } else if q' < q {
      MulLe(q' + 1, q, d);
      Product(q', 1, d);
    }
  }

  lemma DivMod(v: int, d: int, q: int, r: int)
    requires d > 0 && v == q * d + r && 0 <= r < d
    ensures v / d == q && v % d == r
  {
    Unique(d, q, r, v / d, v % d);
  }

  /** How often a value goes around the range of its type. */
  function Turns(v: int, m: int): int
    requires m >= 0
  {
    (v + m + 1) / (2 * m + 2)
  }

  lemma WrapTurns(v: int, m: int)
    requires m >= 0
    ensures WrapTo(v, m) == v - Turns(v, m) * (2 * m + 2)
  {
  }

  lemma WrapIs(v: int, w: int, q: int, m: int)
    requires m >= 0 && Fits(w, m) && v == w + q * (2 * m + 2)
    ensures WrapTo(v, m) == w
  {
    DivMod(v + m + 1, 2 * m + 2, q, w + m + 1);
  }

  /** Wrapping in between makes no difference to what is wrapped in the end. */
  lemma WrapTwice(u: int, v: int, m: int)
    requires m >= 0
    ensures WrapTo(WrapTo(u, m) + v, m) == WrapTo(u + v, m)
  {
    hide WrapTo, Turns;
    var d := 2 * m + 2;
    WrapTurns(u, m);
    WrapTurns(u + v, m);
    Product(Turns(u + v, m), Turns(u, m), d);
    WrapIs(WrapTo(u, m) + v, WrapTo(u + v, m), Turns(u + v, m) - Turns(u, m), m);
  }

  lemma WrapNot(v: int, m: int)
    requires m >= 0 && Fits(v, m)
    ensures WrapTo(v, m) == v
  {
    WrapIs(v, v, 0, m);
  }

  lemma RemBounds(x: int, n: int)
    requires n > 0
    ensures x >= 0 ==> 0 <= Rem(x, n) < n && 0 <= Quot(x, n) * n <= x
    ensures x <= 0 ==> -n < Rem(x, n) <= 0 && x <= Quot(x, n) * n <= 0
    ensures -n < Rem(x, n) < n
  {
    if x >= 0 {
      DivBounds(x, n);
    } else {
      DivBounds(-x, n);
      Product(0, -x / n, n);
    }
  }

  lemma DivBounds(x: int, n: int)
    requires n > 0 && x >= 0
    ensures 0 <= x / n && 0 <= x / n * n <= x < x / n * n + n
  {
    MulLe(0, x / n, n);
  }

  /** A value of the type that is smaller than n is its own remainder. */
  lemma RemSmall(x: int, n: int)
    requires -n < x < n
    ensures Rem(x, n) == x
  {
    DivMod(if x >= 0 then x else -x, n, 0, if x >= 0 then x else -x);
  }

  /** A bound on z from a bound on z * n, for n >= 2. */
  lemma QuotientBound(z: int, n: int, m: int)
    requires n >= 2 && m >= 0
    ensures z * n <= 2 * m + 1 ==> z <= m
    ensures z * n >= -2 * m - n ==> z >= -m - 1
  {
    if z > m {
      MulLe(m + 1, z, n);
      MulLe(2, n, m + 1);
    }
    if z < -m - 1 {
      MulLe(z, -m - 2, n);
      Product(-m, 2, n);
      MulLe(2, n, m);
    }
  }

  /** Quotient and remainder of a value are no larger than the value. */
  lemma QuotRange(x: int, n: int)
    requires n >= 1
    ensures x >= 0 ==> 0 <= Quot(x, n) <= x && Rem(x, n) <= x && (n >= 2 ==> 2 * Quot(x, n) <= x)
    ensures x <= 0 ==> x <= Quot(x, n) <= 0 && x <= Rem(x, n) && (n >= 2 ==> x <= 2 * Quot(x, n))
  {
    RemBounds(x, n);
    var q := Quot(x, n);
    var p := if q >= 0 then q else -q;
    MulLe(1, n, p);
    if n >= 2 {
      MulLe(2, n, p);
    }
  }

  /** The whole part of an average of values in [-m, m] is in [-m, m]. */
  lemma WholeBound(a: int, r: int, n: int, m: int)
    requires n >= 1 && 0 <= r < n && -m * n <= a * n + r <= m * n
    ensures -m <= a <= m
  {
    Product(m, 1, n);
    Product(-m, 1, n);
    if a > m {
      MulLe(m + 1, a, n);
      assert false;
    }
    if a < -m {
      MulLe(a, -m - 1, n);
      assert false;
    }
  }

  // ------------------------------------------------------------- one more value

  predicate Types(m: int, A: int) {
    0 <= m <= A < TWO63
  }

  /** The difference of remainders that AVERAGE_ITER forms, in one order or the other. */
  function Diff(x: int, a: int, n: int): int
    requires n > 0
  {
    Rem(x, n) - Rem(a, n)
  }

  /** It does not fit in its signed type. */
  predicate Overflows(x: int, a: int, n: int, A: int)
    requires n > 0
  {
    Diff(x, a, n) > A || Diff(x, a, n) < -A
  }

  /** What wrap-around and the cast to BUN add to a difference that does not fit. */
  function Surplus(A: int): int {
    TWO64 - 2 * (A + 1)
  }

  /** By how much the dividend x - a is off. */
  function Off(x: int, a: int, n: int, A: int): int
    requires n > 0
  {
    if Diff(x, a, n) > A then Surplus(A) else if Diff(x, a, n) < -A then -Surplus(A) else 0
  }

  lemma Cast(d: int, m: int, A: int)
    requires Types(m, A) && 0 <= d <= 2 * m + 1
    ensures Unsigned(WrapTo(d, A)) == if d <= A then d else d + Surplus(A)
  {
    if d <= A {
      WrapNot(d, A);
      DivMod(d, TWO64, 0, d);
    } else {
      WrapIs(d, d - (2 * A + 2), 1, A);
      DivMod(d - (2 * A + 2), TWO64, -1, d + Surplus(A));
    }
  }

  lemma DiffRange(x: int, a: int, n: int, m: int)
    requires n >= 1 && m >= 0 && -m <= x <= m && Fits(a, m)
    ensures Fits(Quot(x, n), m) && Fits(Quot(a, n), m) && Fits(Rem(x, n), m) && Fits(Rem(a, n), m)
    ensures -2 * m <= Diff(x, a, n) <= 2 * m + 1
    ensures n >= 2 ==> Fits(Quot(x, n) - Quot(a, n), m)
    ensures n == 1 ==> Diff(x, a, n) == 0
  {
    hide Quot, Rem;
    QuotRange(x, n);
    QuotRange(a, n);
    RemBounds(x, n);
    RemBounds(a, n);
  }

  /** One turn of the first correcting loop; d is the dividend without overflow. */
  lemma StepUp(z: int, z1: int, z2: int, n: int, m: int, t: int, d: int)
    requires m >= 0 && n >= 2 && z * n + z2 == t && z2 >= n && z1 == WrapTo(z, m) && -2 * m <= d <= 2 * m + 1
    requires t == d ==> z1 == z
    ensures (z + 1) * n + (z2 - n) == t && WrapTo(z1 + 1, m) == WrapTo(z + 1, m)
    ensures t == d ==> Fits(z1 + 1, m) && WrapTo(z1 + 1, m) == z + 1
  {
    hide WrapTo;
    Product(z, 1, n);
    WrapTwice(z, 1, m);
    if t == d {
      QuotientBound(z + 1, n, m);
      WrapNot(z + 1, m);
    }
  }

  /** One turn of the second one. */
  lemma StepDown(z: int, z1: int, z2: int, n: int, m: int, t: int, d: int)
    requires m >= 0 && n >= 2 && z * n - z2 == t && z2 >= 0 && z1 == WrapTo(z, m) && -2 * m <= d <= 2 * m + 1
    requires t == d ==> z1 == z
    ensures (z - 1) * n - (z2 - n) == t && WrapTo(z1 - 1, m) == WrapTo(z - 1, m)
    ensures t == d ==> Fits(z1 - 1, m) && WrapTo(z1 - 1, m) == z - 1
  {
    hide WrapTo;
    Product(z, 1, n);
    WrapTwice(z, -1, m);
    if t == d {
      QuotientBound(z - 1, n, m);
      WrapNot(z - 1, m);
    }
  }

  /**
   The first part of AVERAGE_ITER: x - a divided by n, rounded down, with its remainder z2, which
   may come out as n. z is the quotient without wrap-around. `fits` says that no signed value left
   its type on the way, which is so iff the difference of remainders fits.
   */
  method Divide(x: int, a: int, n: int, m: int, A: int) returns (z1: int, z2: int, ghost z: int, ghost fits: bool)
    requires Types(m, A) && n >= 1 && -m <= x <= m && Fits(a, m) && (n == 1 ==> a == 0)
    ensures z1 == WrapTo(z, m) && z * n + z2 == x - a + Off(x, a, n, A)
    ensures 0 <= z2 <= n && (n == 1 ==> z2 == 0)
    ensures fits <==> !Overflows(x, a, n, A)
    ensures fits ==> z1 == z
  {
    hide Quot, WrapTo, Surplus;
    DiffRange(x, a, n, m);
    var an, xn := Quot(a, n), Quot(x, n);
    z1 := xn - an;
    z := z1;
    Product(xn, an, n);
    if n == 1 {
      RemBounds(x, n);
      RemBounds(0, 1);
    }
    WrapNot(z1, m);
    fits := Fits(an, m) && Fits(xn, m) && Fits(z1, m);
    xn := x - xn * n;
    an := a - an * n;
    fits := fits && Fits(an, m) && Fits(xn, m) && Fits(if xn >= an then xn - an else an - xn, A);
    ghost var t := x - a + Off(x, a, n, A);
    if xn >= an {
      z2 := Unsigned(WrapTo(xn - an, A));
      Cast(xn - an, m, A);
      while z2 >= n
        invariant z * n + z2 == t && 0 <= z2 && z1 == WrapTo(z, m) && (n == 1 ==> z2 == 0)
        invariant t == x - a ==> z1 == z
        invariant fits <==> !Overflows(x, a, n, A)
      {
        StepUp(z, z1, z2, n, m, t, x - a);
        z2 := z2 - n;
        fits := fits && Fits(z1 + 1, m);
        z1 := WrapTo(z1 + 1, m);
        z := z + 1;
      }
    } else {
      z2 := Unsigned(WrapTo(an - xn, A));
      Cast(an - xn, m, A);
      while true
        invariant z * n - z2 == t && 0 <= z2 && n > 1 && z1 == WrapTo(z, m)
        invariant t == x - a ==> z1 == z
        invariant fits <==> !Overflows(x, a, n, A)
        decreases z2
      {
        StepDown(z, z1, z2, n, m, t, x - a);
        fits := fits && Fits(z1 - 1, m);
        z1 := WrapTo(z1 - 1, m);
        z := z - 1;
        if z2 < n {
          z2 := n - z2;
          break;
        }
        z2 := z2 - n;
      }
    }
  }

  /** What AVERAGE_ITER makes of (a, r), in closed form. */
  function Step(x: int, a: int, r: int, n: int, m: int, A: int): (int, int)
    requires n > 0 && m >= 0
  {
    var t := r + x - a + Off(x, a, n, A);
    (WrapTo(a + t / n, m), t % n)
  }

  /** A surplus of this kind is lost again: it adds whole turns of the element type. */
  predicate Harmless(n: int, m: int, A: int)
    requires n > 0 && m >= 0
  {
    Positive(n, m);
    Surplus(A) % (n * (2 * m + 2)) == 0
  }

  lemma Positive(n: int, m: int)
    requires n > 0 && m >= 0
    ensures n * (2 * m + 2) > 0
  {
  }

  /** Dividing the remainder sum: z and z2 are quotient and remainder, z2 possibly n. */
  lemma Normalised(a: int, r: int, n: int, m: int, z: int, z2: int, t: int)
    requires n > 0 && m >= 0 && 0 <= r < n && 0 <= z2 <= n && z * n + z2 == t
    ensures r + z2 < n ==> (r + t) / n == z && (r + t) % n == r + z2
    ensures r + z2 >= n ==> (r + t) / n == z + 1 && (r + t) % n == r + z2 - n
    ensures WrapTo(a + WrapTo(z, m), m) == WrapTo(a + z, m) && WrapTo(WrapTo(a + z, m) + 1, m) == WrapTo(a + z + 1, m)
  {
    hide WrapTo;
    if r + z2 < n {
      DivMod(r + t, n, z, r + z2);
    } else {
      Product(z, 1, n);
      DivMod(r + t, n, z + 1, r + z2 - n);
    }
    WrapTwice(z, a, m);
    WrapTwice(a + z, 1, m);
  }

  lemma SumRange(x: int, sum: int, n: int, m: int)
    requires -m <= x <= m && -m * n <= sum <= m * n
    ensures -m * (n + 1) <= sum + x <= m * (n + 1)
  {
    assert m * (n + 1) == m * n + m && -m * (n + 1) == -m * n - m;
  }

  /** The average over one more value, before anything wraps around. */
  lemma NextAverage(x: int, a: int, r: int, n: int, m: int, sum: int)
    requires n >= 0 && m >= 0 && IsAverage(a, r, n, sum) && -m <= x <= m && -m * n <= sum <= m * n
    ensures var t := r + x - a; IsAverage(a + t / (n + 1), t % (n + 1), n + 1, sum + x) && -m <= a + t / (n + 1) <= m
    ensures -m <= a <= m
  {
    var t := r + x - a;
    var q := t / (n + 1);
    Product(a, q, n + 1);
    assert a * (n + 1) == a * n + a;
    assert t == q * (n + 1) + t % (n + 1);
    SumRange(x, sum, n, m);
    WholeBound(a + q, t % (n + 1), n + 1, m);
    if n > 0 {
      WholeBound(a, r, n, m);
    }
  }

  /**
   AVERAGE_ITER: one more value x. From an exact average it makes an exact one iff the difference
   of remainders fits, or its surplus is harmless; no signed value leaves its type iff it fits.
   */
  method AverageIter(x: int, a: int, r: int, n: int, m: int, A: int, ghost sum: int)
    returns (a': int, r': int, n': int, ghost fits: bool)
    requires Types(m, A) && n >= 0 && -m <= x <= m && Fits(a, m)
    requires if n == 0 then a == 0 && r == 0 else 0 <= r < n
    ensures n' == n + 1 && (a', r') == Step(x, a, r, n', m, A)
    ensures IsAverage(a, r, n, sum) && -m * n <= sum <= m * n ==>
      && (fits <==> !Overflows(x, a, n', A))
      && (IsAverage(a', r', n', sum + x) <==> !Overflows(x, a, n', A) || Harmless(n', m, A))
  {
    hide WrapTo, Overflows, Off, Harmless;
    n' := n + 1;
    var z1, z2;
    ghost var z;
    z1, z2, z, fits := Divide(x, a, n', m, A);
    Normalised(a, r, n', m, z, z2, x - a + Off(x, a, n', A));
    fits := fits && Fits(a + z1, m);
    a' := WrapTo(a + z1, m);
    r' := r + z2;
    if r' >= n' {
      r' := r' - n';
      fits := fits && Fits(a' + 1, m);
      a' := WrapTo(a' + 1, m);
    }
    if IsAverage(a, r, n, sum) && -m * n <= sum <= m * n {
      StepExact(x, a, r, n, m, A, sum);
      if !Overflows(x, a, n', A) {
        IterFits(x, a, r, n, m, A, sum, z, z2);
        WrapNot(a + z1, m);
      }
    }
  }

  lemma IterFits(x: int, a: int, r: int, n: int, m: int, A: int, sum: int, z: int, z2: int)
    requires Types(m, A) && n >= 0 && IsAverage(a, r, n, sum) && -m <= x <= m && -m * n <= sum <= m * n
    requires !Overflows(x, a, n + 1, A) && z * (n + 1) + z2 == x - a + Off(x, a, n + 1, A) && 0 <= z2 <= n + 1
    ensures Fits(a + z, m) && (r + z2 >= n + 1 ==> Fits(a + z + 1, m))
  {
    hide WrapTo, Overflows, Off;
    NoOff(x, a, n + 1, A);
    NextAverage(x, a, r, n, m, sum);
    Normalised(a, r, n + 1, m, z, z2, x - a);
  }

  lemma NoOff(x: int, a: int, n: int, A: int)
    requires n > 0 && !Overflows(x, a, n, A)
    ensures Off(x, a, n, A) == 0
  {
  }

  /** A shift of the dividend changes neither remainder nor wrapped quotient iff it is whole turns. */
  lemma ShiftExact(a: int, t: int, off: int, n: int, m: int)
    requires n > 0 && m >= 0 && Fits(a + t / n, m)
    ensures n * (2 * m + 2) > 0
    ensures (t + off) % n == t % n && WrapTo(a + (t + off) / n, m) == a + t / n <==> off % (n * (2 * m + 2)) == 0
  {
    hide WrapTo;
    Positive(n, m);
    if (t + off) % n == t % n && WrapTo(a + (t + off) / n, m) == a + t / n {
      ShiftIsTurns(a, t, off, n, m, t / n, (t + off) / n, t % n);
    }
    if off % (n * (2 * m + 2)) == 0 {
      TurnsShift(a, t, off, n, m, t / n, t % n, off / (n * (2 * m + 2)));
    }
  }

  lemma ShiftIsTurns(a: int, t: int, off: int, n: int, m: int, q: int, q': int, r: int)
    requires n > 0 && m >= 0 && t == q * n + r && t + off == q' * n + r && WrapTo(a + q', m) == a + q
    ensures n * (2 * m + 2) > 0 && off % (n * (2 * m + 2)) == 0
  {
    hide WrapTo, Turns;
    var d, k := 2 * m + 2, Turns(a + q', m);
    Positive(n, m);
    WrapTurns(a + q', m);
    Product(q', q, n);
    assert q' - q == k * d;
    Regroup(k, d, n);
    DivMod(off, n * d, k, 0);
  }

  lemma TurnsShift(a: int, t: int, off: int, n: int, m: int, q: int, r: int, k: int)
    requires n > 0 && m >= 0 && Fits(a + q, m) && t == q * n + r && 0 <= r < n && off == k * (n * (2 * m + 2))
    ensures (t + off) % n == r && WrapTo(a + (t + off) / n, m) == a + q
  {
    hide WrapTo, Fits;
    var d := 2 * m + 2;
    Regroup(k, d, n);
    Product(q, k * d, n);
    DivMod(t + off, n, q + k * d, r);
    WrapIs(a + q + k * d, a + q, k, m);
  }

  lemma Regroup(k: int, d: int, n: int)
    ensures k * d * n == k * (n * d)
  {
  }

  lemma Negated(s: int, d: int)
    requires d > 0
    ensures -s % d == 0 <==> s % d == 0
  {
    if s % d == 0 {
      DivMod(-s, d, -(s / d), 0);
    }
    if -s % d == 0 {
      DivMod(s, d, -(-s / d), 0);
    }
  }

  /** When one step of AVERAGE_ITER is exact, for each state and value. */
  lemma StepExact(x: int, a: int, r: int, n: int, m: int, A: int, sum: int)
    requires Types(m, A) && n >= 0 && -m <= x <= m && IsAverage(a, r, n, sum) && -m * n <= sum <= m * n
    ensures var p := Step(x, a, r, n + 1, m, A);
      IsAverage(p.0, p.1, n + 1, sum + x) <==> !Overflows(x, a, n + 1, A) || Harmless(n + 1, m, A)
  {
    hide WrapTo, Diff;
    var t, off := r + x - a, Off(x, a, n + 1, A);
    NextAverage(x, a, r, n, m, sum);
    ShiftExact(a, t, off, n + 1, m);
    Negated(Surplus(A), (n + 1) * (2 * m + 2));
    var p := Step(x, a, r, n + 1, m, A);
    if IsAverage(p.0, p.1, n + 1, sum + x) {
      Unique(n + 1, p.0, p.1, a + t / (n + 1), t % (n + 1));
    }
    if !Overflows(x, a, n + 1, A) {
      DivMod(0, (n + 1) * (2 * m + 2), 0, 0);
    }
  }

  /** The counts up to which no value and no state makes the difference overflow. */
  predicate Safe(n: int, m: int, A: int) {
    2 * (if n - 1 < m then n - 1 else m) <= A
  }

  /** The difference fits for all values iff the count is small enough for the type. */
  lemma DifferenceFits(n: int, m: int, A: int)
    requires Types(m, A) && n >= 1
    ensures (forall x, a :: -m <= x <= m && -m <= a <= m ==> !Overflows(x, a, n, A)) <==> Safe(n, m, A)
  {
    hide Rem, Quot;
    var k := if n - 1 < m then n - 1 else m;
    RemSmall(k, n);
    RemSmall(-k, n);
    assert Diff(k, -k, n) == 2 * k;
    assert Overflows(k, -k, n, A) <==> 2 * k > A;
    if Safe(n, m, A) {
      forall x, a | -m <= x <= m && -m <= a <= m ensures !Overflows(x, a, n, A) {
        SafeFits(x, a, n, m, A);
      }
    }
  }

  lemma SafeFits(x: int, a: int, n: int, m: int, A: int)
    requires Types(m, A) && n >= 1 && Safe(n, m, A) && -m <= x <= m && -m <= a <= m
    ensures !Overflows(x, a, n, A)
  {
    hide Rem, Quot;
    RemBounds(x, n);
    RemBounds(a, n);
    QuotRange(x, n);
    QuotRange(a, n);
  }

  /** AVERAGE_ITER with x makes an exact average of (a, r), if that is one. */
  predicate KeepsAverage(x: int, a: int, r: int, n: nat, m: int, A: int, sum: int)
    requires m >= 0
  {
    IsAverage(a, r, n, sum) ==>
      var p := Step(x, a, r, n + 1, m, A);
      IsAverage(p.0, p.1, n + 1, sum + x)
  }

  /** AVERAGE_ITER is exact for all states and values iff the count is safe or its surplus harmless. */
  lemma StepAlwaysExact(n: nat, m: int, A: int)
    requires Types(m, A)
    ensures (forall x, a, r, sum :: -m <= x <= m && -m * n <= sum <= m * n ==> KeepsAverage(x, a, r, n, m, A, sum))
      <==> Safe(n + 1, m, A) || Harmless(n + 1, m, A)
  {
    hide Step, Harmless, Overflows, KeepsAverage, Safe;
    if Safe(n + 1, m, A) || Harmless(n + 1, m, A) {
      forall x, a, r, sum | -m <= x <= m && -m * n <= sum <= m * n ensures KeepsAverage(x, a, r, n, m, A, sum) {
        StepKeeps(x, a, r, n, m, A, sum);
      }
    } else {
      var k, sum := StepLoses(n, m, A);
      assert -m <= -k <= m && -m * n <= sum <= m * n && !KeepsAverage(-k, k, 0, n, m, A, sum);
    }
  }

  lemma StepKeeps(x: int, a: int, r: int, n: nat, m: int, A: int, sum: int)
    requires Types(m, A) && -m <= x <= m && -m * n <= sum <= m * n && (Safe(n + 1, m, A) || Harmless(n + 1, m, A))
    ensures KeepsAverage(x, a, r, n, m, A, sum)
  {
    hide Step, Harmless, Overflows, Safe;
    if IsAverage(a, r, n, sum) {
      StepExact(x, a, r, n, m, A, sum);
      if Safe(n + 1, m, A) {
        NextAverage(x, a, r, n, m, sum);
        SafeFits(x, a, n + 1, m, A);
      }
    }
  }

  /** From n times the value k to one -k more. */
  lemma StepLoses(n: nat, m: int, A: int) returns (k: int, sum: int)
    requires Types(m, A) && !Safe(n + 1, m, A) && !Harmless(n + 1, m, A)
    ensures 0 <= k <= m && -m * n <= sum <= m * n && !KeepsAverage(-k, k, 0, n, m, A, sum)
  {
    k := if n < m then n else m;
    sum := k * n;
    Opposite(k, n + 1, A);
    hide Step, Harmless, Overflows;
    MulLe(k, m, n);
    MulLe(-m, k, n);
    StepExact(-k, k, 0, n, m, A, sum);
  }

  lemma Opposite(k: int, n: int, A: int)
    requires 0 <= k < n
    ensures Diff(-k, k, n) == -2 * k && (Overflows(-k, k, n, A) <==> 2 * k > A)
  {
    hide Rem, Quot;
    RemSmall(k, n);
    RemSmall(-k, n);
    if 2 * k <= A < 0 {
      assert false;
    }
  }

  // ------------------------------------------------------------- the element types

  datatype Atom = Bte | Sht | Int | Lng

  function Max(t: Atom): int {
    match t
    case Bte => 0x7F
    case Sht => 0x7FFF
    case Int => TWO31 - 1
    case Lng => TWO63 - 1
  }

  /** Narrow types are promoted to int before they are subtracted. */
  function Arith(t: Atom): int {
    if t.Lng? then TWO63 - 1 else TWO31 - 1
  }

  predicate InRange(s: seq<int>, m: int) {
    forall i :: 0 <= i < |s| ==> -m <= s[i] <= m
  }

  predicate InLng(v: int) {
    -TWO63 < v < TWO63
  }

  lemma {:induction false} SumBound(s: seq<int>, m: int)
    requires InRange(s, m)
    ensures -m * |s| <= Sum(s) <= m * |s|
  {
    if s != [] {
      SumBound(s[..|s| - 1], m);
      SumRange(s[|s| - 1], Sum(s[..|s| - 1]), |s| - 1, m);
    }
  }

  /** A step with equal value and whole part leaves the state as it is. */
  lemma StepSame(a: int, r: int, n: int, m: int, A: int)
    requires n > 0 && m >= 0 && A >= 0 && Fits(a, m) && 0 <= r < n
    ensures Step(a, a, r, n, m, A) == (a, r)
  {
    hide WrapTo, Rem;
    assert Diff(a, a, n) == 0;
    DivMod(r, n, 0, r);
    WrapNot(a, m);
  }

  /** When no count, or no overflow, can hurt. */
  lemma StepFine(x: int, a: int, r: int, n: int, t: Atom, sum: int)
    requires n >= 0 && -Max(t) <= x <= Max(t) && IsAverage(a, r, n, sum) && -Max(t) * n <= sum <= Max(t) * n
    requires t.Int? ==> Safe(n + 1, Max(t), Arith(t)) || !Overflows(x, a, n + 1, Arith(t))
    ensures var p := Step(x, a, r, n + 1, Max(t), Arith(t)); IsAverage(p.0, p.1, n + 1, sum + x)
  {
    hide Step, Overflows;
    var m, A := Max(t), Arith(t);
    StepExact(x, a, r, n, m, A, sum);
    if t.Lng? {
      Positive(n + 1, m);
      DivMod(0, (n + 1) * (2 * m + 2), 0, 0);
    } else if Safe(n + 1, m, A) {
      NextAverage(x, a, r, n, m, sum);
      SafeFits(x, a, n + 1, m, A);
    }
  }

  // ------------------------------------------------------ one column at a time

  /** What BATcalcavg computes: the quotient of a sum that fits in a lng, or (a, r). */
  datatype Mean = Quotient(sum: int, n: nat) | Split(a: int, r: int, n: nat)

  predicate IsMean(mean: Mean, s: seq<int>) {
    match mean
    case Quotient(sum, n) => sum == Sum(s) && n == |s|
    case Split(a, r, n) => n == |s| > 0 && IsAverage(a, r, n, Sum(s))
  }

  /** From the sum of n values to their average, rounded down. */
  function Handed(sum: int, n: nat): Mean {
    if n == 0 then Split(0, 0, 0) else Split(sum / n, sum % n, n)
  }

  function Next(p: Mean, x: int, t: Atom): Mean
    requires p.Split?
  {
    var q := Step(x, p.a, p.r, p.n + 1, Max(t), Arith(t));
    Split(q.0, q.1, p.n + 1)
  }

  /** What AVERAGE_TYPE does with one more value: a sum as long as that is a lng, then (a, r). */
  function Take(p: Mean, x: int, t: Atom): Mean {
    if p.Split? then Next(p, x, t)
    else if InLng(p.sum + x) then Quotient(p.sum + x, p.n + 1)
    else Next(Handed(p.sum, p.n), x, t)
  }

  /** What it has after the values s. */
  function Computed(s: seq<int>, t: Atom): Mean {
    if s == [] then Quotient(0, 0) else Take(Computed(s[..|s| - 1], t), s[|s| - 1], t)
  }

  lemma ComputedAppend(s: seq<int>, x: int, t: Atom)
    ensures Computed(s + [x], t) == Take(Computed(s, t), x, t)
  {
    assert (s + [x])[..|s|] == s;
  }

  /** The range of the state; a whole part of the wrong sign, or nil, is possible. */
  predicate Shaped(p: Mean, s: seq<int>, t: Atom) {
    p.n == |s| &&
    match p
    case Quotient(sum, n) => sum == Sum(s) && InLng(sum)
    case Split(a, r, n) => Fits(a, Max(t)) && 0 <= r < n && n * Max(t) >= TWO63
  }

  lemma {:induction false} ComputedShape(s: seq<int>, t: Atom)
    requires InRange(s, Max(t))
    ensures Shaped(Computed(s, t), s, t)
  {
    hide Computed, Shaped, Take, Max;
    if s == [] {
      ComputedNone(t);
    } else {
      var s', x := s[..|s| - 1], s[|s| - 1];
      assert s == s' + [x];
      ComputedShape(s', t);
      ComputedAppend(s', x, t);
      SumBound(s, Max(t));
      TakeShape(Computed(s', t), s', x, t);
    }
  }

  lemma ComputedNone(t: Atom)
    ensures Computed([], t) == Quotient(0, 0) && Shaped(Quotient(0, 0), [], t)
  {
  }

  lemma TakeShape(p: Mean, s: seq<int>, x: int, t: Atom)
    requires Shaped(p, s, t) && -Max(t) * (|s| + 1) <= Sum(s + [x]) <= Max(t) * (|s| + 1)
    ensures Shaped(Take(p, x, t), s + [x], t)
  {
    hide Step, Max, Sum;
    SumAppend(s, x);
    TypesOf(t);
    var h := if p.Split? then p else Handed(p.sum, p.n);
    StepShape(x, h.a, h.r, h.n + 1, Max(t), Arith(t));
    MulLe(|s|, |s| + 1, Max(t));
  }

  lemma StepShape(x: int, a: int, r: int, n: int, m: int, A: int)
    requires n > 0 && m >= 0
    ensures var p := Step(x, a, r, n, m, A); Fits(p.0, m) && 0 <= p.1 < n
  {
    hide WrapTo, Off;
  }

  /** The value that takes the sum out of lng has its sign, so the first step cannot overflow. */
  lemma FirstStepFits(sum: int, n: nat, x: int, t: Atom)
    requires n > 0 && InLng(sum) && !InLng(sum + x) && -Max(t) <= x <= Max(t) && -Max(t) * n <= sum <= Max(t) * n
    ensures !Overflows(x, sum / n, n + 1, Arith(t))
  {
    hide Overflows;
    var a, r := sum / n, sum % n;
    TypesOf(t);
    OneInLng(x, t);
    assert sum == a * n + r;
    WholeBound(a, r, n, Max(t));
    if a < 0 {
      MulLe(a, -1, n);
    } else {
      MulLe(0, a, n);
    }
    assert if sum >= 0 then a >= 0 && x > 0 else a < 0 && x < 0;
    SameSign(x, a, n + 1, Max(t), Arith(t));
  }

  lemma SameSign(x: int, a: int, n: int, m: int, A: int)
    requires n > 0 && m <= A && -m <= x <= m && -m <= a <= m && ((x >= 0 && a >= 0) || (x <= 0 && a <= 0))
    ensures !Overflows(x, a, n, A)
  {
    hide Rem, Quot;
    RemBounds(x, n);
    RemBounds(a, n);
    QuotRange(x, n);
    QuotRange(a, n);
  }

  /** The number of int values up to which a column average is always exact. */
  const MAX_INT_COLUMN: int := TWO32 + 3

  lemma {:induction false} ColumnFine(s: seq<int>, t: Atom)
    requires InRange(s, Max(t)) && (t.Int? ==> |s| <= MAX_INT_COLUMN)
    ensures IsMean(Computed(s, t), s)
  {
    hide Computed, IsMean, Take, Max, Shaped;
    if s == [] {
      ComputedNone(t);
      NoMean();
    } else {
      var s', x := s[..|s| - 1], s[|s| - 1];
      assert s == s' + [x];
      ComputedShape(s', t);
      ColumnFine(s', t);
      ComputedAppend(s', x, t);
      SumBound(s', Max(t));
      TakeFine(Computed(s', t), s', x, t);
    }
  }

  lemma NoMean()
    ensures IsMean(Quotient(0, 0), [])
  {
  }

  lemma TakeFine(p: Mean, s: seq<int>, x: int, t: Atom)
    requires Shaped(p, s, t) && IsMean(p, s) && -Max(t) <= x <= Max(t) && (t.Int? ==> |s| < MAX_INT_COLUMN)
    requires -Max(t) * |s| <= Sum(s) <= Max(t) * |s|
    ensures IsMean(Take(p, x, t), s + [x])
  {
    hide Step, Overflows, Max, Arith, Sum, Safe;
    SumAppend(s, x);
    if p.Split? {
      ShortColumn(p.n, t);
      StepFine(x, p.a, p.r, p.n, t, p.a * p.n + p.r);
    } else if !InLng(p.sum + x) {
      OneInLng(x, t);
      assert s != [] by {
        SumNone();
      }
      FirstStepFits(p.sum, p.n, x, t);
      StepFine(x, p.sum / p.n, p.sum % p.n, p.n, t, p.sum);
    }
  }

  lemma SumNone()
    ensures Sum([]) == 0
  {
  }

  lemma OneInLng(x: int, t: Atom)
    requires -Max(t) <= x <= Max(t)
    ensures InLng(x)
  {
  }

  lemma ShortColumn(n: nat, t: Atom)
    requires n * Max(t) >= TWO63
    ensures t.Int? ==> n >= MAX_INT_COLUMN
  {
    if t.Int? && n <= TWO32 + 2 {
      MulLe(n, TWO32 + 2, Max(t));
    }
  }

  /** c times the value k. */
  function Same(k: int, c: nat): seq<int> {
    seq(c, _ => k)
  }

  /** n - 1 times k, and then -k. */
  function Turned(k: int, n: nat): seq<int>
    requires n > 0
  {
    Same(k, n - 1) + [-k]
  }

  lemma {:induction false} SumSame(k: int, c: nat)
    ensures Sum(Same(k, c)) == c * k
  {
    if c > 0 {
      assert Same(k, c)[..c - 1] == Same(k, c - 1);
      SumSame(k, c - 1);
    }
  }

  lemma {:induction false} ComputedSame(c: nat, t: Atom)
    ensures Computed(Same(Max(t), c), t) == if c * Max(t) < TWO63 then Quotient(c * Max(t), c) else Split(Max(t), 0, c)
  {
    hide Take, Max;
    var m := Max(t);
    if c > 0 {
      assert Same(m, c) == Same(m, c - 1) + [m];
      ComputedSame(c - 1, t);
      ComputedAppend(Same(m, c - 1), m, t);
      TakeSame(c, t, (c - 1) * m);
      Product(c, 1, m);
    }
  }

  /** One more largest value, after c - 1 of them. */
  lemma TakeSame(c: nat, t: Atom, sum: int)
    requires c > 0 && sum == (c - 1) * Max(t)
    ensures Take(if sum < TWO63 then Quotient(sum, c - 1) else Split(Max(t), 0, c - 1), Max(t), t)
      == if sum + Max(t) < TWO63 then Quotient(sum + Max(t), c) else Split(Max(t), 0, c)
  {
    hide Step, Max;
    var m := Max(t);
    TypesOf(t);
    OneInLng(m, t);
    StepSame(m, 0, c, m, Arith(t));
    MulLe(0, c - 1, m);
    if c > 1 {
      DivMod(sum, c - 1, m, 0);
    }
  }

  lemma TypesOf(t: Atom)
    ensures Types(Max(t), Arith(t)) && Max(t) > 0
  {
  }

  /** For int, the last step of this column goes wrong, for every length above the bound. */
  lemma LongIntColumn(n: nat)
    requires n > MAX_INT_COLUMN
    ensures var s := Turned(Max(Int), n); InRange(s, Max(Int)) && |s| == n && !IsMean(Computed(s, Int), s)
  {
    hide Step, Overflows, Harmless, Computed;
    var m, A, sum := Max(Int), Arith(Int), (n - 1) * Max(Int);
    var s' := Same(m, n - 1);
    LongSum(n, sum);
    ComputedSame(n - 1, Int);
    ComputedAppend(s', -m, Int);
    SumSame(m, n - 1);
    SumAppend(s', -m);
    Opposite(m, n, A);
    NotHarmless(n);
    StepExact(-m, m, 0, n - 1, m, A, sum);
  }

  lemma LongSum(n: nat, sum: int)
    requires n > MAX_INT_COLUMN && sum == (n - 1) * Max(Int)
    ensures sum >= TWO63 && IsAverage(Max(Int), 0, n - 1, sum) && -Max(Int) * (n - 1) <= sum <= Max(Int) * (n - 1)
  {
    MulLe(MAX_INT_COLUMN, n - 1, Max(Int));
    MulLe(-Max(Int), Max(Int), n - 1);
  }

  lemma NotHarmless(n: nat)
    requires n > MAX_INT_COLUMN
    ensures !Harmless(n, Max(Int), Arith(Int))
  {
    var d := n * (2 * Max(Int) + 2);
    MulLe(TWO32, n, TWO32);
    DivMod(Surplus(Arith(Int)), d, 0, Surplus(Arith(Int)));
  }

  /**
   BATcalcavg is exact for all columns of n values that are not nil, iff those are not more than
   2^32 + 3 values of type int.
   */
  lemma ColumnExact(n: nat, t: Atom)
    ensures (forall s: seq<int> :: |s| == n && InRange(s, Max(t)) ==> IsMean(Computed(s, t), s))
      <==> (t.Int? ==> n <= MAX_INT_COLUMN)
  {
    hide Computed, IsMean, Max, Turned;
    if t.Int? && n > MAX_INT_COLUMN {
      LongIntColumn(n);
      var s := Turned(Max(Int), n);
      assert |s| == n && InRange(s, Max(t)) && !IsMean(Computed(s, t), s);
    } else {
      forall s: seq<int> | |s| == n && InRange(s, Max(t)) ensures IsMean(Computed(s, t), s) {
        ColumnFine(s, t);
      }
    }
  }

  /**
   The first length at which it fails, in numbers: after 2^32 + 3 times 2147483647 comes
   -2147483647. The average is 2147483646 and 6 / n; the code has a whole part of -2147483646.
   */
  lemma IntStepFails()
    ensures var m, n := TWO31 - 1, TWO32 + 4;
      && Overflows(-m, m, n, Arith(Int)) && Unsigned(WrapTo(2 * m, Arith(Int))) == TWO64 - 2
      && Step(-m, m, 0, n, Max(Int), Arith(Int)) == (-2147483646, 4294967286)
      && IsAverage(2147483646, 6, n, (n - 1) * m - m)
  {
    var m, n, A := TWO31 - 1, TWO32 + 4, Arith(Int);
    Opposite(m, n, A);
    Cast(2 * m, m, A);
    assert Off(-m, m, n, A) == -Surplus(A);
    DivMod(-2 * m - Surplus(A), n, -4294967293, 4294967286);
    WrapIs(m - 4294967293, -2147483646, 0, m);
  }

  /** A column value: `None` is the type's nil. */
  datatype Cell = None | Some(value: int)

  function NonNil(vals: seq<Cell>): seq<int> {
    if vals == [] then []
    else NonNil(vals[..|vals| - 1]) + if vals[|vals| - 1].None? then [] else [vals[|vals| - 1].value]
  }

  lemma NonNilStep(vals: seq<Cell>, i: int)
    requires 0 <= i < |vals|
    ensures NonNil(vals[..i + 1]) == if vals[i].None? then NonNil(vals[..i]) else NonNil(vals[..i]) + [vals[i].value]
  {
    assert vals[..i + 1][..i] == vals[..i];
  }

  ghost predicate InType(vals: seq<Cell>, m: int) {
    forall i :: 0 <= i < |vals| && vals[i].Some? ==> -m <= vals[i].value <= m
  }

  lemma {:induction false} NonNilInRange(vals: seq<Cell>, i: nat, m: int)
    requires InType(vals, m) && i <= |vals|
    ensures InRange(NonNil(vals[..i]), m)
  {
    if i > 0 {
      NonNilInRange(vals, i - 1, m);
      NonNilStep(vals, i - 1);
    }
  }

  /** The hand-over when the lng sum would overflow: floor division from C's truncating one. "This fits". */
  method HandOver(sum: int, n: nat, ghost m: int) returns (a: int, r: int)
    requires n > 0 && m >= 0 && -m * n <= sum <= m * n
    ensures Handed(sum, n) == Split(a, r, n) && IsAverage(a, r, n, sum)
    ensures -m <= a <= m && -m <= Quot(sum, n) <= m
  {
    HandedFits(sum, n, m);
    if sum >= 0 {
      a := sum / n;
      r := sum % n;
    } else {
      FloorOf(sum, n);
      a := -(-sum / n);
      r := -sum % n;
      if r != 0 {
        a := a - 1;
        r := n - r;
      }
    }
  }

  lemma HandedFits(sum: int, n: nat, m: int)
    requires n > 0 && m >= 0 && -m * n <= sum <= m * n
    ensures IsAverage(sum / n, sum % n, n, sum) && -m <= sum / n <= m && -m <= Quot(sum, n) <= m
  {
    assert sum == sum / n * n + sum % n;
    WholeBound(sum / n, sum % n, n, m);
    var v := if sum >= 0 then sum else -sum;
    assert v == v / n * n + v % n;
    WholeBound(v / n, v % n, n, m);
  }

  /** Floor division of a negative number, from the division of its absolute value. */
  lemma FloorOf(sum: int, n: nat)
    requires n > 0 && sum < 0
    ensures if -sum % n == 0 then sum / n == -(-sum / n) && sum % n == 0
            else sum / n == -(-sum / n) - 1 && sum % n == n - -sum % n
  {
    var q, r := -sum / n, -sum % n;
    assert -sum == q * n + r;
    Product(0, q, n);
    Product(-q, 1, n);
    if r == 0 {
      DivMod(sum, n, -q, 0);
    } else {
      DivMod(sum, n, -q - 1, n - r);
    }
  }

  /** First loop of AVERAGE_TYPE: i is the first row whose value takes the sum out of lng. */
  method SumUntilOverflow(vals: seq<Cell>, t: Atom) returns (i: nat, sum: int, n: nat)
    requires InType(vals, Max(t))
    ensures i <= |vals| && Computed(NonNil(vals[..i]), t) == Quotient(sum, n)
    ensures n == |NonNil(vals[..i])| && sum == Sum(NonNil(vals[..i])) && InLng(sum)
    ensures i < |vals| ==> vals[i].Some? && !InLng(sum + vals[i].value) && n > 0
  {
    hide Computed, Max;
    sum, n, i := 0, 0, 0;
    ComputedNone(t);
    while i < |vals|
      invariant i <= |vals| && Computed(NonNil(vals[..i]), t) == Quotient(sum, n) && InLng(sum)
      invariant n == 0 ==> sum == 0
    {
      NonNilStep(vals, i);
      if vals[i].Some? {
        OneInLng(vals[i].value, t);
        ComputedAppend(NonNil(vals[..i]), vals[i].value, t);
        var c := AddWithCheck(vals[i].value, sum, -TWO63, TWO63 - 1, true);
        if c.Abort? {
          break;
        }
        sum := c.v;
        n := n + 1;
      }
      i := i + 1;
    }
    NonNilInRange(vals, i, Max(t));
    ComputedShape(NonNil(vals[..i]), t);
  }

  /** A state of the type and a value for AVERAGE_ITER; within the safe count both are harmless. */
  ghost predicate Ready(x: int, a: int, r: int, n: nat, t: Atom, sum: int) {
    && Types(Max(t), Arith(t)) && -Max(t) <= x <= Max(t) && Fits(a, Max(t))
    && (if n == 0 then a == 0 && r == 0 else 0 <= r < n)
    && -Max(t) * n <= sum <= Max(t) * n
    && (Safe(n + 1, Max(t), Arith(t)) ==> IsAverage(a, r, n, sum) && !Overflows(x, a, n + 1, Arith(t)))
  }

  lemma IsReady(x: int, a: int, r: int, n: nat, t: Atom, sum: int)
    requires -Max(t) <= x <= Max(t) && Fits(a, Max(t)) && (if n == 0 then a == 0 && r == 0 else 0 <= r < n)
    requires -Max(t) * n <= sum <= Max(t) * n && (Safe(n + 1, Max(t), Arith(t)) ==> IsAverage(a, r, n, sum))
    ensures Ready(x, a, r, n, t, sum)
  {
    hide Max, Arith, Overflows, Safe;
    TypesOf(t);
    if Safe(n + 1, Max(t), Arith(t)) {
      if n > 0 {
        WholeBound(a, r, n, Max(t));
      }
      SafeFits(x, a, n + 1, Max(t), Arith(t));
    }
  }

  /** AVERAGE_ITER for a type. */
  method Iterate(x: int, a: int, r: int, n: nat, t: Atom, ghost sum: int)
    returns (a': int, r': int, n': nat, ghost fits: bool)
    requires Ready(x, a, r, n, t, sum)
    ensures Split(a', r', n') == Next(Split(a, r, n), x, t) && n' == n + 1
    ensures Safe(n', Max(t), Arith(t)) ==> fits
  {
    hide Step, Overflows, Max, Arith, Safe, Harmless;
    a', r', n', fits := AverageIter(x, a, r, n, Max(t), Arith(t), sum);
  }

  /**
   Second loop of AVERAGE_TYPE: the rows from i0 on, in (a, r) form. No signed value leaves its
   type if the number of values is safe.
   */
  method AverageFrom(vals: seq<Cell>, t: Atom, i0: nat, a0: int, r0: int, n0: nat)
    returns (a: int, r: int, n: nat, ghost fits: bool)
    requires InType(vals, Max(t)) && i0 < |vals| && vals[i0].Some? && n0 > 0
    requires var p := Computed(NonNil(vals[..i0]), t);
      p.Quotient? && p.n == n0 && Handed(p.sum, n0) == Split(a0, r0, n0) && !InLng(p.sum + vals[i0].value)
    ensures Computed(NonNil(vals), t) == Split(a, r, n)
    ensures Safe(n, Max(t), Arith(t)) ==> fits
  {
    hide Computed, Ready, NonNil, Safe;
    FromStart(vals, t, i0, a0, r0, n0);
    a, r, n, fits := Iterate(vals[i0].value, a0, r0, n0, t, Sum(NonNil(vals[..i0])));
    var i := i0 + 1;
    while i < |vals|
      invariant i0 < i <= |vals| && Computed(NonNil(vals[..i]), t) == Split(a, r, n)
      invariant Safe(n, Max(t), Arith(t)) ==> fits
    {
      NonNilStep(vals, i);
      if vals[i].Some? {
        FromNext(vals, t, i, a, r, n);
        Fewer(n, n + 1, Max(t), Arith(t));
        ghost var fits' := fits;
        a, r, n, fits := Iterate(vals[i].value, a, r, n, t, Sum(NonNil(vals[..i])));
        fits := fits' && fits;
      }
      i := i + 1;
    }
    assert vals[..i] == vals;
  }

  lemma Fewer(n: int, n': int, m: int, A: int)
    requires n <= n'
    ensures Safe(n', m, A) ==> Safe(n, m, A)
  {
  }

  /** The state in which the second loop starts. */
  lemma FromStart(vals: seq<Cell>, t: Atom, i: nat, a: int, r: int, n: nat)
    requires InType(vals, Max(t)) && i < |vals| && vals[i].Some? && n > 0
    requires var p := Computed(NonNil(vals[..i]), t);
      p.Quotient? && p.n == n && Handed(p.sum, n) == Split(a, r, n) && !InLng(p.sum + vals[i].value)
    ensures Ready(vals[i].value, a, r, n, t, Sum(NonNil(vals[..i])))
    ensures Computed(NonNil(vals[..i + 1]), t) == Next(Split(a, r, n), vals[i].value, t)
  {
    hide Computed, Max, Arith, Next, Overflows, Sum, Safe;
    var s, x := NonNil(vals[..i]), vals[i].value;
    NonNilInRange(vals, i, Max(t));
    ComputedShape(s, t);
    SumBound(s, Max(t));
    NonNilStep(vals, i);
    ComputedAppend(s, x, t);
    TypesOf(t);
    StartReady(Sum(s), n, x, t);
  }

  lemma StartReady(sum: int, n: nat, x: int, t: Atom)
    requires n > 0 && InLng(sum) && !InLng(sum + x) && -Max(t) <= x <= Max(t) && -Max(t) * n <= sum <= Max(t) * n
    ensures Ready(x, sum / n, sum % n, n, t, sum)
  {
    hide Max, Arith, Overflows, Safe;
    TypesOf(t);
    FirstStepFits(sum, n, x, t);
    HandedFits(sum, n, Max(t));
  }

  /** The state in its next rounds. */
  lemma FromNext(vals: seq<Cell>, t: Atom, i: nat, a: int, r: int, n: nat)
    requires InType(vals, Max(t)) && i < |vals| && vals[i].Some? && Computed(NonNil(vals[..i]), t) == Split(a, r, n)
    ensures Ready(vals[i].value, a, r, n, t, Sum(NonNil(vals[..i])))
    ensures Computed(NonNil(vals[..i + 1]), t) == Next(Split(a, r, n), vals[i].value, t)
  {
    hide Computed, Max, Arith, Next, Overflows, Sum, Safe, Ready, IsAverage;
    var s, x := NonNil(vals[..i]), vals[i].value;
    NonNilInRange(vals, i, Max(t));
    ComputedShape(s, t);
    SumBound(s, Max(t));
    NonNilStep(vals, i);
    ComputedAppend(s, x, t);
    if Safe(n + 1, Max(t), Arith(t)) {
      SafeShort(n + 1, t);
      ColumnFine(s, t);
    }
    IsReady(x, a, r, n, t, Sum(s));
  }

  lemma SafeShort(n: int, t: Atom)
    requires Safe(n, Max(t), Arith(t))
    ensures t.Int? ==> n <= MAX_INT_GROUP < MAX_INT_COLUMN
  {
  }

  /**
   AVERAGE_TYPE: sum the values in a lng; when that overflows carry on with (a, r) from the
   value that did not fit. The result is the exact mean of the non-nil values, within the bound.
   */
  method CalcAverage(vals: seq<Cell>, t: Atom) returns (mean: Mean)
    requires InType(vals, Max(t))
    ensures mean == Computed(NonNil(vals), t)
    ensures (t.Int? ==> |NonNil(vals)| <= MAX_INT_COLUMN) ==> IsMean(mean, NonNil(vals))
  {
    hide Computed, Max, IsMean;
    assert vals[..|vals|] == vals;
    NonNilInRange(vals, |vals|, Max(t));
    if t.Int? ==> |NonNil(vals)| <= MAX_INT_COLUMN {
      ColumnFine(NonNil(vals), t);
    }
    var i, sum, n := SumUntilOverflow(vals, t);
    if i == |vals| {
      return Quotient(sum, n);
    }
    NonNilInRange(vals, i, Max(t));
    SumBound(NonNil(vals[..i]), Max(t));
    var a, r := HandOver(sum, n, Max(t));
    ghost var fits;
    a, r, n, fits := AverageFrom(vals, t, i, a, r, n);
    return Split(a, r, n);
  }

  // ------------------------------------------------------------------ grouped

  /** What AVERAGE_ITER has after the values s, beginning with the first. */
  function Accumulated(s: seq<int>, t: Atom): (int, int) {
    if s == [] then (0, 0)
    else
      var p := Accumulated(s[..|s| - 1], t);
      Step(s[|s| - 1], p.0, p.1, |s|, Max(t), Arith(t))
  }

  ghost predicate Exact(s: seq<int>, t: Atom) {
    IsAverage(Accumulated(s, t).0, Accumulated(s, t).1, |s|, Sum(s))
  }

  lemma AccumulatedAppend(s: seq<int>, x: int, t: Atom)
    ensures var p := Accumulated(s, t);
      Accumulated(s + [x], t) == Step(x, p.0, p.1, |s| + 1, Max(t), Arith(t))
  {
    assert (s + [x])[..|s|] == s;
  }

  lemma AccumulatedShape(s: seq<int>, t: Atom)
    ensures var p := Accumulated(s, t);
      Fits(p.0, Max(t)) && if s == [] then p == (0, 0) else 0 <= p.1 < |s|
  {
    hide Step;
    TypesOf(t);
    if s != [] {
      var p := Accumulated(s[..|s| - 1], t);
      StepShape(s[|s| - 1], p.0, p.1, |s|, Max(t), Arith(t));
    }
  }

  /** The number of int values up to which a group average is always exact. */
  const MAX_INT_GROUP: int := 0x4000_0000

  lemma {:induction false} GroupFine(s: seq<int>, t: Atom)
    requires InRange(s, Max(t)) && (t.Int? ==> |s| <= MAX_INT_GROUP)
    ensures Exact(s, t)
  {
    hide Step, Max, Arith, Overflows, Accumulated, Sum, Safe;
    if s == [] {
      SumNone();
      AccumulatedShape(s, t);
    } else {
      var s', x := s[..|s| - 1], s[|s| - 1];
      assert s == s' + [x];
      GroupFine(s', t);
      AccumulatedAppend(s', x, t);
      SumAppend(s', x);
      SumBound(s', Max(t));
      SmallGroup(|s|, t);
      var p := Accumulated(s', t);
      StepFine(x, p.0, p.1, |s'|, t, Sum(s'));
    }
  }

  lemma SmallGroup(n: nat, t: Atom)
    ensures t.Int? && n <= MAX_INT_GROUP ==> Safe(n, Max(t), Arith(t))
  {
  }

  lemma {:induction false} AccumulatedSame(k: int, c: nat, t: Atom)
    requires -Max(t) <= k <= Max(t) && c > 0
    ensures Accumulated(Same(k, c), t) == (k, 0)
  {
    hide Step, Max, Arith, Accumulated;
    TypesOf(t);
    assert Same(k, c) == Same(k, c - 1) + [k];
    AccumulatedAppend(Same(k, c - 1), k, t);
    if c == 1 {
      AccumulatedShape(Same(k, 0), t);
      StepFirst(k, Max(t), Arith(t));
    } else {
      AccumulatedSame(k, c - 1, t);
      StepSame(k, 0, c, Max(t), Arith(t));
    }
  }

  lemma StepFirst(k: int, m: int, A: int)
    requires m >= 0 && A >= 0 && -m <= k <= m
    ensures Step(k, 0, 0, 1, m, A) == (k, 0)
  {
    hide WrapTo, Quot, Rem;
    RemBounds(k, 1);
    RemBounds(0, 1);
    WrapNot(k, m);
  }

  /** The value with which a group of n values goes wrong. */
  function Worst(n: nat): int
    requires n > 0
  {
    if n - 1 < Max(Int) then n - 1 else Max(Int)
  }

  /** A group whose last value goes wrong, for every length whose surplus is not harmless. */
  lemma LongIntGroup(n: nat)
    requires n > MAX_INT_GROUP && !Harmless(n, Max(Int), Arith(Int))
    ensures var s := Turned(Worst(n), n); InRange(s, Max(Int)) && |s| == n && !Exact(s, Int)
    ensures Accumulated(Turned(Worst(n), n), Int) == Step(-Worst(n), Worst(n), 0, n, Max(Int), Arith(Int))
  {
    hide Step, Overflows, Harmless;
    var m, A, k := Max(Int), Arith(Int), Worst(n);
    AccumulatedSame(k, n - 1, Int);
    AccumulatedAppend(Same(k, n - 1), -k, Int);
    SumSame(k, n - 1);
    SumAppend(Same(k, n - 1), -k);
    Opposite(k, n, A);
    MulLe(k, m, n - 1);
    MulLe(-m, k, n - 1);
    StepExact(-k, k, 0, n - 1, m, A, (n - 1) * k);
  }

  /** Once wrong, a group stays wrong if its whole part comes as the next value. */
  lemma StaysWrong(s: seq<int>, t: Atom)
    requires s != [] && !Exact(s, t)
    ensures !Exact(s + [Accumulated(s, t).0], t)
  {
    hide Step, Max, Arith, Accumulated, Sum;
    var p := Accumulated(s, t);
    TypesOf(t);
    AccumulatedShape(s, t);
    AccumulatedAppend(s, p.0, t);
    StepSame(p.0, p.1, |s| + 1, Max(t), Arith(t));
    SumAppend(s, p.0);
    assert p.0 * (|s| + 1) == p.0 * |s| + p.0;
  }

  /** The only counts above the bound with a harmless surplus are 2^32 - 1 and a third of it. */
  lemma HarmlessCounts(n: nat)
    requires n > MAX_INT_GROUP
    ensures Harmless(n, Max(Int), Arith(Int)) ==> n == TWO32 - 1 || n == 1431655765
  {
    var d := n * TWO32;
    if Harmless(n, Max(Int), Arith(Int)) {
      var k := Surplus(Arith(Int)) / d;
      Regroup(k, n, TWO32);
      assert k * n == TWO32 - 1;
      if k >= 4 {
        MulLe(4, k, n);
      } else if k <= 0 {
        MulLe(k, 0, n);
      }
      assert 1 <= k <= 3;
    }
  }

  /** The wrong whole parts one value before those counts; they are not nil. */
  lemma BeforeHarmless(n: nat)
    requires n == TWO32 - 2 || n == 1431655764
    ensures var p := Step(-Worst(n), Worst(n), 0, n, Max(Int), Arith(Int)); -Max(Int) <= p.0 <= Max(Int)
  {
    hide WrapTo;
    var m, A, k := Max(Int), Arith(Int), Worst(n);
    Opposite(k, n, A);
    var t := -2 * k - Surplus(A);
    assert Off(-k, k, n, A) == -Surplus(A);
    if n == TWO32 - 2 {
      DivMod(t, n, -4294967299, 4294967292);
      WrapIs(k - 4294967299, 2147483644, -1, m);
    } else {
      DivMod(t, n, -12884901900, 1431655754);
      WrapIs(k - 12884901900, 1431655751, -3, m);
    }
  }

  /**
   AGGR_AVG is exact for all groups of n values that are not nil, iff those are not more than
   2^30 values of type int.
   */
  lemma GroupExact(n: nat, t: Atom)
    ensures (forall s: seq<int> :: |s| == n && InRange(s, Max(t)) ==> Exact(s, t))
      <==> (t.Int? ==> n <= MAX_INT_GROUP)
  {
    hide Exact, Max, Turned, Harmless;
    if t.Int? && n > MAX_INT_GROUP {
      var s := WrongGroup(n);
      assert |s| == n && InRange(s, Max(t)) && !Exact(s, t);
    } else {
      forall s: seq<int> | |s| == n && InRange(s, Max(t)) ensures Exact(s, t) {
        GroupFine(s, t);
      }
    }
  }

  lemma WrongGroup(n: nat) returns (s: seq<int>)
    requires n > MAX_INT_GROUP
    ensures |s| == n && InRange(s, Max(Int)) && !Exact(s, Int)
  {
    hide Exact, Turned, Harmless, Accumulated, Step;
    if !Harmless(n, Max(Int), Arith(Int)) {
      LongIntGroup(n);
      s := Turned(Worst(n), n);
    } else {
      HarmlessCounts(n);
      if Harmless(n - 1, Max(Int), Arith(Int)) {
        HarmlessCounts(n - 1);
      }
      LongIntGroup(n - 1);
      BeforeHarmless(n - 1);
      var s' := Turned(Worst(n - 1), n - 1);
      StaysWrong(s', Int);
      s := s' + [Accumulated(s', Int).0];
    }
  }

  /** The values of group g among the first k rows, nils left out. */
  function Members(vals: seq<Cell>, gids: seq<nat>, g: nat, k: nat): seq<int>
    requires k <= |vals| == |gids|
  {
    if k == 0 then []
    else Members(vals, gids, g, k - 1) + if gids[k - 1] == g && vals[k - 1].Some? then [vals[k - 1].value] else []
  }

  lemma MembersStep(vals: seq<Cell>, gids: seq<nat>, g: nat, k: nat)
    requires k < |vals| == |gids|
    ensures var ms := Members(vals, gids, g, k);
      Members(vals, gids, g, k + 1) == if gids[k] == g && vals[k].Some? then ms + [vals[k].value] else ms
  {
  }

  lemma NoMembers(vals: seq<Cell>, gids: seq<nat>, g: nat)
    requires |vals| == |gids|
    ensures Members(vals, gids, g, 0) == []
  {
  }

  lemma {:induction false} MembersInRange(vals: seq<Cell>, gids: seq<nat>, g: nat, k: nat, m: int)
    requires k <= |vals| == |gids| && InType(vals, m)
    ensures InRange(Members(vals, gids, g, k), m)
  {
    hide Members;
    if k == 0 {
      NoMembers(vals, gids, g);
    } else {
      MembersInRange(vals, gids, g, k - 1, m);
      MembersStep(vals, gids, g, k - 1);
    }
  }

  lemma {:induction false} MembersGrow(vals: seq<Cell>, gids: seq<nat>, g: nat, k: nat)
    requires k <= |vals| == |gids|
    ensures |Members(vals, gids, g, k)| <= |Members(vals, gids, g, |vals|)|
    decreases |vals| - k
  {
    if k < |vals| {
      MembersStep(vals, gids, g, k);
      MembersGrow(vals, gids, g, k + 1);
    }
  }

  /** Group g has a nil among its first k rows and nils are not skipped. */
  predicate Poisoned(vals: seq<Cell>, gids: seq<nat>, g: nat, k: nat, skipNils: bool)
    requires k <= |vals| == |gids|
  {
    !skipNils && exists i :: 0 <= i < k && gids[i] == g && vals[i].None?
  }

  datatype GroupMean = NilMean | Mean(a: int, r: int, n: int)

  /** What AGGR_AVG has for group g: the accumulated pair, or nil. */
  predicate IsGroupPair(mean: GroupMean, vals: seq<Cell>, gids: seq<nat>, g: nat, skipNils: bool, t: Atom)
    requires |vals| == |gids|
  {
    var ms := Members(vals, gids, g, |vals|);
    if Poisoned(vals, gids, g, |vals|, skipNils) || ms == [] then mean.NilMean?
    else mean.Mean? && mean.n == |ms| && (mean.a, mean.r) == Accumulated(ms, t)
  }

  /** What it promises: the exact mean. */
  predicate IsGroupMean(mean: GroupMean, vals: seq<Cell>, gids: seq<nat>, g: nat, skipNils: bool)
    requires |vals| == |gids|
  {
    var ms := Members(vals, gids, g, |vals|);
    if Poisoned(vals, gids, g, |vals|, skipNils) || ms == [] then mean.NilMean?
    else mean.Mean? && mean.n == |ms| && IsAverage(mean.a, mean.r, mean.n, Sum(ms))
  }

  /** The accumulators of group g after k rows; `None` is a count turned nil. */
  ghost predicate GroupState(a: int, r: int, cnt: Cell, vals: seq<Cell>, gids: seq<nat>, g: nat, k: nat,
                             skipNils: bool, t: Atom)
    requires k <= |vals| == |gids|
  {
    (cnt.None? <==> Poisoned(vals, gids, g, k, skipNils))
    && (cnt.Some? ==>
          var ms := Members(vals, gids, g, k);
          cnt.value == |ms| && (a, r) == Accumulated(ms, t))
  }

  /** One row of AGGR_AVG, on the accumulators of its group. */
  method AddRow(a: int, r: int, cnt: Cell, vals: seq<Cell>, ghost gids: seq<nat>, i: nat, skipNils: bool, t: Atom)
    returns (a': int, r': int, cnt': Cell, ghost fits: bool)
    requires i < |vals| == |gids| && InType(vals, Max(t)) && GroupState(a, r, cnt, vals, gids, gids[i], i, skipNils, t)
    ensures GroupState(a', r', cnt', vals, gids, gids[i], i + 1, skipNils, t)
    ensures Safe(|Members(vals, gids, gids[i], i + 1)|, Max(t), Arith(t)) ==> fits
  {
    hide Step, Max, Arith, Accumulated, Sum, Safe, Ready;
    a', r', cnt', fits := a, r, cnt, true;
    ghost var ms := Members(vals, gids, gids[i], i);
    MembersStep(vals, gids, gids[i], i);
    if vals[i].None? {
      if !skipNils {
        cnt' := None;
      }
    } else if cnt != None {
      AddReady(vals, gids, i, t);
      AccumulatedAppend(ms, vals[i].value, t);
      var n;
      a', r', n, fits := Iterate(vals[i].value, a, r, cnt.value, t, Sum(ms));
      cnt' := Some(n);
    }
  }

  lemma AddReady(vals: seq<Cell>, gids: seq<nat>, i: nat, t: Atom)
    requires i < |vals| == |gids| && InType(vals, Max(t)) && vals[i].Some?
    ensures var ms := Members(vals, gids, gids[i], i);
      var p := Accumulated(ms, t);
      Ready(vals[i].value, p.0, p.1, |ms|, t, Sum(ms))
  {
    hide Max, Arith, Accumulated, Sum, Safe, Ready, Members;
    var ms := Members(vals, gids, gids[i], i);
    var p := Accumulated(ms, t);
    MembersInRange(vals, gids, gids[i], i, Max(t));
    SumBound(ms, Max(t));
    AccumulatedShape(ms, t);
    if Safe(|ms| + 1, Max(t), Arith(t)) {
      SafeShort(|ms| + 1, t);
      GroupFine(ms, t);
    }
    IsReady(vals[i].value, p.0, p.1, |ms|, t, Sum(ms));
  }

  lemma OtherGroup(a: int, r: int, cnt: Cell, vals: seq<Cell>, gids: seq<nat>, g: nat, i: nat, skipNils: bool, t: Atom)
    requires i < |vals| == |gids| && gids[i] != g && GroupState(a, r, cnt, vals, gids, g, i, skipNils, t)
    ensures GroupState(a, r, cnt, vals, gids, g, i + 1, skipNils, t)
  {
    hide Accumulated;
    MembersStep(vals, gids, g, i);
  }

  lemma FirstState(vals: seq<Cell>, gids: seq<nat>, g: nat, skipNils: bool, t: Atom)
    requires |vals| == |gids|
    ensures GroupState(0, 0, Some(0), vals, gids, g, 0, skipNils, t)
  {
  }

  /** The last loop of AGGR_AVG, for one group. */
  method Finish(a: int, r: int, cnt: Cell, ghost vals: seq<Cell>, ghost gids: seq<nat>, ghost g: nat,
                ghost skipNils: bool, ghost t: Atom)
    returns (mean: GroupMean)
    requires |vals| == |gids| && InType(vals, Max(t)) && GroupState(a, r, cnt, vals, gids, g, |vals|, skipNils, t)
    ensures IsGroupPair(mean, vals, gids, g, skipNils, t)
    ensures (t.Int? ==> |Members(vals, gids, g, |vals|)| <= MAX_INT_GROUP) ==>
      IsGroupMean(mean, vals, gids, g, skipNils)
  {
    hide Max, Accumulated, Sum;
    ghost var ms := Members(vals, gids, g, |vals|);
    MembersInRange(vals, gids, g, |vals|, Max(t));
    if t.Int? ==> |ms| <= MAX_INT_GROUP {
      GroupFine(ms, t);
    }
    return if cnt.None? || cnt.value == 0 then NilMean else Mean(a, r, cnt.value);
  }

  /** No group has more values than are safe for its type. */
  ghost predicate AllSafe(vals: seq<Cell>, gids: seq<nat>, t: Atom)
    requires |vals| == |gids|
  {
    forall g: nat :: Safe(|Members(vals, gids, g, |vals|)|, Max(t), Arith(t))
  }

  /**
   AGGR_AVG: the averages of all groups in one pass. Row i belongs to group gids[i] - min
   when that is one of the ngrp groups. Every group within the bound gets its exact mean, and if
   all groups are safe no signed value leaves its type.
   */
  method GroupAverages(vals: seq<Cell>, gids: seq<nat>, min: nat, ngrp: nat, skipNils: bool, t: Atom)
    returns (means: seq<GroupMean>, ghost fits: bool)
    requires |vals| == |gids| && InType(vals, Max(t))
    ensures |means| == ngrp
    ensures forall g :: 0 <= g < ngrp ==> IsGroupPair(means[g], vals, gids, g + min, skipNils, t)
    ensures forall g :: 0 <= g < ngrp && (t.Int? ==> |Members(vals, gids, g + min, |vals|)| <= MAX_INT_GROUP) ==>
      IsGroupMean(means[g], vals, gids, g + min, skipNils)
    ensures AllSafe(vals, gids, t) ==> fits
  {
    hide GroupState, IsGroupMean, IsGroupPair, Max, Members, AllSafe;
    var avgs, rems, cnts := new int[ngrp](_ => 0), new int[ngrp](_ => 0), new Cell[ngrp](_ => Some(0));
    fits := true;
    forall g | 0 <= g < ngrp ensures GroupState(avgs[g], rems[g], cnts[g], vals, gids, g + min, 0, skipNils, t) {
      FirstState(vals, gids, g + min, skipNils, t);
    }
    for i := 0 to |vals|
      invariant forall g :: 0 <= g < ngrp ==>
        GroupState(avgs[g], rems[g], cnts[g], vals, gids, g + min, i, skipNils, t)
      invariant AllSafe(vals, gids, t) ==> fits
    {
      forall g | 0 <= g < ngrp && g + min != gids[i]
        ensures GroupState(avgs[g], rems[g], cnts[g], vals, gids, g + min, i + 1, skipNils, t)
      {
        OtherGroup(avgs[g], rems[g], cnts[g], vals, gids, g + min, i, skipNils, t);
      }
      if min <= gids[i] < min + ngrp {
        var gid := gids[i] - min;
        ghost var fits';
        var a, r, cnt;
        a, r, cnt, fits' := AddRow(avgs[gid], rems[gid], cnts[gid], vals, gids, i, skipNils, t);
        SafeSoFar(vals, gids, i, t);
        fits := fits && fits';
        avgs[gid], rems[gid], cnts[gid] := a, r, cnt;
      }
    }
    means := [];
    for g := 0 to ngrp
      modifies {}
      invariant |means| == g
      invariant forall k :: 0 <= k < g ==> IsGroupPair(means[k], vals, gids, k + min, skipNils, t)
      invariant forall k :: 0 <= k < g && (t.Int? ==> |Members(vals, gids, k + min, |vals|)| <= MAX_INT_GROUP) ==>
        IsGroupMean(means[k], vals, gids, k + min, skipNils)
    {
      var mean := Finish(avgs[g], rems[g], cnts[g], vals, gids, g + min, skipNils, t);
      means := means + [mean];
    }
  }

  lemma SafeSoFar(vals: seq<Cell>, gids: seq<nat>, i: nat, t: Atom)
    requires i < |vals| == |gids|
    ensures AllSafe(vals, gids, t) ==> Safe(|Members(vals, gids, gids[i], i + 1)|, Max(t), Arith(t))
  {
    hide Members;
    MembersGrow(vals, gids, gids[i], i + 1);
  }
}
