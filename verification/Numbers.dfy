/** Bytes, powers, division by them, and bitwise or of natural numbers. */
module Numbers {
  type Byte = b: int | 0 <= b < 256

  function Pow(b: nat, e: nat): (r: nat)
    ensures b > 0 ==> r > 0
  {
    if e == 0 then 1 else b * Pow(b, e - 1)
  }

  function Pow2(e: nat): (r: nat)
    ensures r > 0
  {
    if e == 0 then 1 else 2 * Pow2(e - 1)
  }

  lemma MulMono(a: nat, x: int, y: int)
    requires x <= y
    ensures a * x <= a * y
  {
  }

  function Quotient(x: nat, d: nat): nat
    requires d > 0
  {
    x / d
  }

  /** The quotient is the only number q with d*q <= x < d*(q+1). */
  lemma DivUnique(x: int, d: nat, q: int)
    requires d > 0 && d * q <= x < d * q + d
    ensures x / d == q && x % d == x - d * q
  {
    var q' := x / d;
    if q' < q {
      MulMono(d, q' + 1, q);
    } else if q' > q {
      MulMono(d, q + 1, q');
    }
  }

  lemma DivBy2d(x: int, d: nat)
    requires d > 0
    ensures x / (2 * d) == (x / d) / 2
  {
    var q := (x / d) / 2;
    var r := x / d - 2 * q;
    assert x == d * (x / d) + x % d;
    assert d * (x / d) == d * (2 * q + r) == 2 * d * q + d * r;
    assert 0 <= d * r <= d by {
      MulMono(d, 0, r);
      MulMono(d, r, 1);
    }
    DivUnique(x, 2 * d, q);
  }

  const WORD: nat := 0x1_0000_0000

  /** Multiplying a 32-bit value by n and keeping the high word scales it into [0, n). */
  lemma ScaleInRange(x: nat, n: nat)
    requires x < WORD && n > 0
    ensures x * n / WORD < n
  {
    MulMono(n, x, WORD - 1);
  }

  lemma DivAtLeast(i: nat, n: nat, k: int)
    requires n > 0
    ensures i / n >= k <==> i >= k * n
  {
    var q := i / n;
    assert i == q * n + i % n;
    if q >= k {
      MulMono(n, k, q);
    } else {
      MulMono(n, q + 1, k);
      assert (q + 1) * n == q * n + n;
    }
  }

  function Scale(w: nat, x: nat, n: nat): nat
    requires w > 0
  {
    x * n / w
  }

  /** The hash x below w goes to index p of n. */
  predicate IsScaledTo(w: nat, x: nat, n: nat, p: nat)
    requires w > 0
  {
    x < w && Scale(w, x, n) == p
  }

  /** lo is x / n rounded up. */
  predicate RoundsUp(x: nat, n: nat, lo: nat) {
    (lo - 1) * n < x <= lo * n
  }

  lemma RoundUp(x: nat, n: nat) returns (lo: nat)
    requires n > 0
    ensures RoundsUp(x, n, lo)
  {
    lo := (x + n - 1) / n;
    assert x + n - 1 == n * lo + (x + n - 1) % n;
    assert (lo - 1) * n == n * lo - n;
  }

  /** The least hash that is scaled to p or more. */
  lemma ScaledFrom(w: nat, x: nat, n: nat, p: nat, lo: nat)
    requires w > 0 && n > 0 && RoundsUp(p * w, n, lo)
    ensures Scale(w, x, n) >= p <==> x >= lo
  {
    DivAtLeast(x * n, w, p);
    if x >= lo {
      MulMono(n, lo, x);
    } else {
      MulMono(n, x, lo - 1);
    }
  }

  /** The hashes below w are spread evenly: an interval of w / n of them, or one more, for every index below n. */
  lemma ScaledFairly(w: nat, n: nat, p: nat) returns (lo: nat, hi: nat)
    requires 0 < n <= w && p < n
    ensures forall x: nat :: IsScaledTo(w, x, n, p) <==> lo <= x < hi
    ensures 1 <= w / n <= hi - lo <= w / n + 1
  {
    hide IsScaledTo, RoundsUp;
    lo := RoundUp(p * w, n);
    hi := RoundUp((p + 1) * w, n);
    FairWidth(w, n, p, lo, hi);
    AllScaledTo(w, n, p, lo, hi);
  }

  lemma AllScaledTo(w: nat, n: nat, p: nat, lo: nat, hi: nat)
    requires p < n <= w && RoundsUp(p * w, n, lo) && RoundsUp((p + 1) * w, n, hi)
    ensures forall x: nat :: IsScaledTo(w, x, n, p) <==> lo <= x < hi
  {
    hide IsScaledTo, RoundsUp;
    forall x: nat ensures IsScaledTo(w, x, n, p) <==> lo <= x < hi {
      ScaledTo(w, x, n, p, lo, hi);
    }
  }

  lemma ScaledTo(w: nat, x: nat, n: nat, p: nat, lo: nat, hi: nat)
    requires p < n <= w && RoundsUp(p * w, n, lo) && RoundsUp((p + 1) * w, n, hi)
    ensures IsScaledTo(w, x, n, p) <==> lo <= x < hi
  {
    assert (w - 1) * n == n * w - n;
    assert RoundsUp(n * w, n, w);
    hide Scale, RoundsUp;
    ScaledFrom(w, x, n, p, lo);
    ScaledFrom(w, x, n, p + 1, hi);
    ScaledFrom(w, x, n, n, w);
  }

  lemma FairWidth(w: nat, n: nat, p: nat, lo: nat, hi: nat)
    requires 0 < n <= w && RoundsUp(p * w, n, lo) && RoundsUp((p + 1) * w, n, hi)
    ensures 1 <= w / n <= hi - lo <= w / n + 1
  {
    var q := w / n;
    DivAtLeast(w, n, 1);
    assert (p + 1) * w == p * w + w;
    assert (hi - 1) * n - lo * n == (hi - 1 - lo) * n && hi * n - (lo - 1) * n == (hi - lo + 1) * n;
    if hi - 1 - lo > q {
      DivAtLeast(w, n, hi - 1 - lo);
    }
    if hi - lo + 1 <= q {
      DivAtLeast(w, n, hi - lo + 1);
    }
  }

  lemma ScaledIs(w: nat, x: nat, n: nat, p: nat)
    requires w > 0
    ensures IsScaledTo(w, x, n, p) <==> x < w && x * n / w == p
  {
  }

  lemma {:induction false} PowAdd(b: nat, x: nat, y: nat)
    ensures Pow(b, x + y) == Pow(b, x) * Pow(b, y)
  {
    if x > 0 {
      PowAdd(b, x - 1, y);
      MulAssoc(b, Pow(b, x - 1), Pow(b, y));
    }
  }

  lemma {:induction false} Pow2Add(x: nat, y: nat)
    ensures Pow2(x + y) == Pow2(x) * Pow2(y)
  {
    if x > 0 {
      Pow2Add(x - 1, y);
      MulAssoc(2, Pow2(x - 1), Pow2(y));
    }
  }

  lemma {:induction false} Pow2Mono(x: nat, y: nat)
    requires x <= y
    ensures Pow2(x) <= Pow2(y)
  {
    if x < y {
      Pow2Mono(x, y - 1);
    }
  }

  lemma Pow2Word()
    ensures Pow2(32) == WORD
  {
    assert Pow2(8) == 256;
    Pow2Add(8, 8);
    Pow2Add(16, 16);
  }

  lemma {:induction false} PowWord(k: nat)
    ensures Pow(WORD, k) == Pow2(32 * k)
  {
    if k > 0 {
      PowWord(k - 1);
      Pow2Word();
      Pow2Add(32, 32 * (k - 1));
    }
  }

  lemma MulAssoc(x: int, y: int, z: int)
    ensures x * (y * z) == x * y * z
  {
  }

  lemma MulSwap(x: int, y: int, z: int)
    ensures x * (y * z) == y * (x * z)
  {
  }

  lemma MulDist(x: int, y: int, z: int)
    ensures x * (y + z) == x * y + x * z
    ensures x * (y - z) == x * y - x * z
  {
  }

  /** A remainder is known by being in range and congruent. */
  lemma ModUnique(x: int, m: nat, r: int, t: int)
    requires m > 0 && 0 <= r < m && x == r + m * t
    ensures x % m == r && x / m == t
  {
    DivUnique(x, m, t);
  }

  lemma DivDiv(x: nat, a: nat, b: nat)
    requires a > 0 && b > 0
    ensures a * b > 0 && x / (a * b) == x / a / b
  {
    MulMono(a, 1, b);
    var q := x / a / b;
    assert x == a * (x / a) + x % a;
    assert x / a == b * q + x / a % b;
    MulDist(a, b * q, x / a % b);
    MulAssoc(a, b, q);
    MulMono(a, x / a % b, b - 1);
    MulMono(a, 0, x / a % b);
    MulDist(a, b, 1);
    DivUnique(x, a * b, q);
  }

  // ----- Bitwise or

  function Or(x: nat, y: nat): nat {
    if x == 0 && y == 0 then 0
    else (if x % 2 == 1 || y % 2 == 1 then 1 else 0) + 2 * Or(x / 2, y / 2)
  }

  lemma {:induction false} OrZero(x: nat)
    ensures Or(x, 0) == x && Or(0, x) == x
  {
    if x > 0 {
      OrZero(x / 2);
    }
  }

  lemma HalfMod(x: nat, d: nat)
    requires d > 0 && x % (2 * d) == 0
    ensures x % 2 == 0 && x / 2 % d == 0
  {
    var q := x / (2 * d);
    assert x == 2 * d * q == 2 * (d * q);
    DivUnique(x / 2, d, q);
  }

  /** Numbers with no bit in common: or is addition. */
  lemma {:induction false} OrSum(x: nat, y: nat, s: nat)
    requires x % Pow2(s) == 0 && y < Pow2(s)
    ensures Or(x, y) == x + y && Or(y, x) == x + y
  {
    if s == 0 {
      OrZero(x);
    } else {
      HalfMod(x, Pow2(s - 1));
      OrSum(x / 2, y / 2, s - 1);
    }
  }

  lemma {:induction false} OrBound(x: nat, y: nat, n: nat)
    requires x < Pow2(n) && y < Pow2(n)
    ensures Or(x, y) < Pow2(n)
  {
    if n > 0 {
      OrBound(x / 2, y / 2, n - 1);
    }
  }

  // ----- Common factors

  lemma MulDivMul(a: nat, x: nat, b: nat)
    requires a > 0 && b > 0
    ensures a * b > 0 && a * x / (a * b) == x / b && a * x % (a * b) == a * (x % b)
  {
    MulMono(a, 1, b);
    var q, r := x / b, x % b;
    MulDist(a, b * q, r);
    MulAssoc(a, b, q);
    MulMono(a, r, b - 1);
    MulMono(a, 0, r);
    MulDist(a, b, 1);
    DivUnique(a * x, a * b, q);
  }

  lemma ModDiv(x: nat, a: nat, b: nat)
    requires a > 0 && b > 0
    ensures a * b > 0 && x % (a * b) / a == x / a % b
  {
    DivDiv(x, a, b);
    var q, y := x / (a * b), x / a;
    assert x == a * b * q + x % (a * b);
    assert y == b * q + y % b;
    MulDist(a, b * q, y % b);
    MulAssoc(a, b, q);
    DivUnique(x % (a * b), a, y % b);
  }
}
