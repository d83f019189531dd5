/**
 Fixed-width unsigned integers as arrays of 32-bit limbs (base_uint and arith_uint256 in
 src/arith_uint256.h, src/arith_uint256.cpp).
 */
module ArithUint {
  import opened Numbers

  type Limb = x: int | 0 <= x < WORD

  // ----- The number a limb sequence stands for, lowest limb first

  function Value(s: seq<Limb>): nat {
    if s == [] then 0 else s[0] + WORD * Value(s[1..])
  }

  /** One more than the largest number of n limbs. */
  function Range(n: nat): (r: nat)
    ensures r > 0
  {
    Pow(WORD, n)
  }

  lemma {:induction false} ValueSplit(s: seq<Limb>, k: nat)
    requires k <= |s|
    ensures Value(s) == Value(s[..k]) + Range(k) * Value(s[k..])
  {
    if k == 0 {
      assert s[0..] == s;
    } else {
      ValueSplit(s[1..], k - 1);
      assert s[1..][..k - 1] == s[..k][1..];
      assert s[1..][k - 1..] == s[k..];
      MulDist(WORD, Value(s[1..][..k - 1]), Range(k - 1) * Value(s[k..]));
      MulAssoc(WORD, Range(k - 1), Value(s[k..]));
    }
  }

  lemma ValueOne(x: Limb)
    ensures Value([x]) == x
  {
    assert [x][1..] == [];
  }

  /** The limbs up to index i give the limbs up to i - 1 plus one digit. */
  lemma ValueStep(s: seq<Limb>, i: nat)
    requires i < |s|
    ensures Value(s[..i + 1]) == Value(s[..i]) + Range(i) * s[i]
  {
    ValueSplit(s[..i + 1], i);
    assert s[..i + 1][..i] == s[..i];
    assert s[..i + 1][i..] == [s[i]];
    ValueOne(s[i]);
  }

  lemma {:induction false} ValueBound(s: seq<Limb>)
    ensures Value(s) < Range(|s|)
  {
    if s != [] {
      ValueBound(s[1..]);
      MulMono(WORD, Value(s[1..]), Range(|s| - 1) - 1);
      MulDist(WORD, Range(|s| - 1), 1);
    }
  }

  /** Changing one limb changes the number by that digit's difference. */
  lemma {:induction false} ValueUpdate(s: seq<Limb>, i: nat, x: Limb)
    requires i < |s|
    ensures Value(s[i := x]) == Value(s) + Range(i) * (x - s[i])
  {
    ValueSplit(s, i);
    ValueSplit(s[i := x], i);
    assert s[i := x][..i] == s[..i];
    assert s[i := x][i..][1..] == s[i..][1..];
    var rest := WORD * Value(s[i..][1..]);
    assert Value(s[i := x][i..]) == x + rest && Value(s[i..]) == s[i] + rest;
    MulDist(Range(i), x + rest, s[i] + rest);
  }

  lemma {:induction false} ValueZero(s: seq<Limb>)
    requires forall i :: 0 <= i < |s| ==> s[i] == 0
    ensures Value(s) == 0
  {
    if s != [] {
      ValueZero(s[1..]);
    }
  }

  lemma ValueSnoc(s: seq<Limb>, x: Limb)
    ensures Value(s + [x]) == Value(s) + Range(|s|) * x
  {
    ValueStep(s + [x], |s|);
    assert (s + [x])[..|s|] == s;
    assert (s + [x])[..|s| + 1] == s + [x];
  }

  /**
   One turn of a carry loop.  The digits written so far and the carry make up sum; adding the
   next part writes one digit more and leaves a new carry.
   */
  lemma CarryStep(low: seq<Limb>, carry: nat, part: nat, sum: int)
    requires Value(low) + Range(|low|) * carry == sum
    ensures Value(low + [(carry + part) % WORD]) + Range(|low| + 1) * ((carry + part) / WORD)
         == sum + Range(|low|) * part
  {
    assert Range(|low| + 1) == WORD * Range(|low|);
    hide Value, Range;
    var range, digit, limb := Range(|low|), (carry + part) % WORD, (carry + part) / WORD;
    ValueSnoc(low, digit);
    MulDist(range, carry, part);
    MulDist(range, digit, WORD * limb);
    MulAssoc(range, WORD, limb);
    assert carry + part == digit + WORD * limb;
  }

  // ----- The carry loops, one turn each

  ghost predicate Added(low: seq<Limb>, carry: nat, x: seq<Limb>, y: seq<Limb>)
    requires |low| <= |x| == |y|
  {
    Value(low) + Range(|low|) * carry == Value(x[..|low|]) + Value(y[..|low|])
  }

  lemma AddStep(low: seq<Limb>, carry: nat, x: seq<Limb>, y: seq<Limb>)
    requires |low| < |x| == |y| && Added(low, carry, x, y)
    ensures var n := carry + x[|low|] + y[|low|]; Added(low + [n % WORD], n / WORD, x, y)
  {
    hide Value, Range;
    var i := |low|;
    CarryStep(low, carry, x[i] as int + y[i], Value(x[..i]) + Value(y[..i]));
    MulDist(Range(i), x[i], y[i]);
    ValueStep(x, i);
    ValueStep(y, i);
  }

  lemma AddEnd(r: seq<Limb>, carry: nat, x: seq<Limb>, y: seq<Limb>)
    requires |r| == |x| == |y| && Added(r, carry, x, y)
    ensures Value(r) == (Value(x) + Value(y)) % Range(|r|)
  {
    hide Value, Range;
    assert x[..|r|] == x && y[..|r|] == y;
    ValueBound(r);
    ModUnique(Value(x) + Value(y), Range(|r|), Value(r), carry);
  }

  ghost predicate Scaled(low: seq<Limb>, carry: nat, x: seq<Limb>, b: nat)
    requires |low| <= |x|
  {
    Value(low) + Range(|low|) * carry == b * Value(x[..|low|])
  }

  lemma ScaleStep(low: seq<Limb>, carry: nat, x: seq<Limb>, b: nat)
    requires |low| < |x| && Scaled(low, carry, x, b)
    ensures var n := MulAdd(carry, 0, b, x[|low|]); Scaled(low + [n % WORD], n / WORD, x, b)
  {
    hide Value, Range;
    var i := |low|;
    CarryStep(low, carry, b * x[i], b * Value(x[..i]));
    ValueStep(x, i);
    MulDist(b, Value(x[..i]), Range(i) * x[i]);
    MulSwap(b, Range(i), x[i]);
  }

  lemma ScaleEnd(r: seq<Limb>, carry: nat, x: seq<Limb>, b: nat)
    requires |r| == |x| && Scaled(r, carry, x, b)
    ensures Value(r) == b * Value(x) % Range(|r|)
  {
    hide Value, Range;
    assert x[..|r|] == x;
    ValueBound(r);
    ModUnique(b * Value(x), Range(|r|), Value(r), carry);
  }

  /** A partial product with what is added to it. */
  function MulAdd(carry: nat, a: nat, p: nat, b: nat): nat {
    carry + a + p * b
  }

  /** The carry of a product stays a limb, so the 64-bit sum cannot overflow. */
  lemma CarryFits(carry: nat, p: nat, a: Limb, b: Limb)
    requires carry < WORD && p < WORD
    ensures MulAdd(carry, a, p, b) < WORD * WORD
    ensures MulAdd(carry, a, p, b) / WORD < WORD
  {
    MulMono(p, b, WORD - 1);
    MulMono(WORD - 1, p, WORD - 1);
  }

  /** The inner loop of the full product: row p * y added into the limbs of x. */
  ghost predicate RowAdded(low: seq<Limb>, carry: nat, x: seq<Limb>, p: nat, y: seq<Limb>)
    requires |low| <= |x| <= |y|
  {
    Value(low) + Range(|low|) * carry == Value(x[..|low|]) + p * Value(y[..|low|])
  }

  lemma RowStep(low: seq<Limb>, carry: nat, x: seq<Limb>, p: nat, y: seq<Limb>)
    requires |low| < |x| <= |y| && RowAdded(low, carry, x, p, y)
    ensures var n := MulAdd(carry, x[|low|], p, y[|low|]); RowAdded(low + [n % WORD], n / WORD, x, p, y)
  {
    hide Value, Range;
    var i := |low|;
    CarryStep(low, carry, x[i] + p * y[i], Value(x[..i]) + p * Value(y[..i]));
    MulDist(Range(i), x[i], p * y[i]);
    ValueStep(x, i);
    ValueStep(y, i);
    MulDist(p, Value(y[..i]), Range(i) * y[i]);
    MulSwap(p, Range(i), y[i]);
  }

  /** r is the product of the low j limbs of x with y, up to a multiple of the range. */
  ghost predicate Product(r: seq<Limb>, x: seq<Limb>, y: seq<Limb>, j: nat, t: nat)
    requires j <= |x|
  {
    Value(r) + Range(|r|) * t == Value(x[..j]) * Value(y)
  }

  lemma RowEnd(r: seq<Limb>, r': seq<Limb>, carry: nat, x: seq<Limb>, y: seq<Limb>, j: nat, t: nat) returns (t': nat)
    requires |r| == |r'| == |x| == |y| && j < |x| && r'[..j] == r[..j]
    requires Product(r, x, y, j, t) && RowAdded(r'[j..], carry, r[j..], x[j], y)
    ensures Product(r', x, y, j + 1, t')
  {
    hide Value, Range;
    var n := |x|;
    var p, rj := x[j] as nat, Range(j);
    RangeAdd(j, n - j);
    assert r[j..][..n - j] == r[j..];
    ValueSplit(r, j);
    ValueSplit(r', j);
    ValueSplit(y, n - j);
    ValueStep(x, j);
    t' := t + carry + p * Value(y[n - j..]);
    RowAlgebra(Value(r[..j]), Value(r[j..]), Value(r'[j..]), rj, Range(n - j), Range(n), carry, p,
               Value(y[..n - j]), Value(y[n - j..]), Value(x[..j]), t);
  }

  lemma RowAlgebra(low: int, high: int, high': int, rj: int, rest: int, all: int, carry: int, p: int,
                   yl: int, yh: int, xj: int, t: int)
    requires all == rj * rest
    requires high' + rest * carry == high + p * yl
    requires low + rj * high + all * t == xj * (yl + rest * yh)
    ensures low + rj * high' + all * (t + carry + p * yh) == (xj + rj * p) * (yl + rest * yh)
  {
    var y := yl + rest * yh;
    assert rj * high' + all * carry == rj * high + rj * (p * yl) by {
      MulDist(rj, high', rest * carry);
      MulDist(rj, high, p * yl);
      MulAssoc(rj, rest, carry);
    }
    assert all * (p * yh) == rj * (p * (rest * yh)) by {
      MulSwap(p, rest, yh);
      MulAssoc(rj, rest, p * yh);
    }
    assert rj * (p * yl) + rj * (p * (rest * yh)) == rj * p * y by {
      MulDist(p, yl, rest * yh);
      MulDist(rj, p * yl, p * (rest * yh));
      MulAssoc(rj, p, y);
    }
    assert all * (t + carry + p * yh) == all * t + all * carry + all * (p * yh) by {
      MulDist(all, t + carry, p * yh);
      MulDist(all, t, carry);
    }
    assert (xj + rj * p) * y == xj * y + rj * p * y by {
      MulDist(y, xj, rj * p);
    }
  }

  lemma ProductEnd(r: seq<Limb>, x: seq<Limb>, y: seq<Limb>, t: nat)
    requires |r| == |x| && Product(r, x, y, |x|, t)
    ensures Value(r) == Value(x) * Value(y) % Range(|r|)
  {
    hide Value, Range;
    assert x[..|x|] == x;
    ValueBound(r);
    ModUnique(Value(x) * Value(y), Range(|r|), Value(r), t);
  }

  function OrLimb(x: Limb, y: Limb): Limb {
    Pow2Word();
    OrBound(x, y, 32);
    Or(x, y)
  }

  // ----- Shifts, limb by limb

  /** x shifted left by s bits: the part that stays in its limb, and the part that leaves it. */
  function Kept(x: Limb, s: nat): (r: Limb)
    requires s < 32
  {
    x * Pow2(s) % WORD
  }

  function Passed(x: Limb, s: nat): (r: Limb)
    requires s < 32
    ensures r < Pow2(s)
  {
    WordSplit(s);
    PassedBound(x, Pow2(s), Pow2(32 - s));
    x / Pow2(32 - s)
  }

  lemma WordSplit(s: nat)
    requires s <= 32
    ensures Pow2(s) * Pow2(32 - s) == WORD
  {
    Pow2Add(s, 32 - s);
    Pow2Word();
  }

  lemma PassedBound(x: Limb, a: nat, b: nat)
    requires a > 0 && b > 0 && a * b == WORD
    ensures 0 <= x / b < a && x / b < WORD
  {
    if x / b >= a {
      MulMono(b, a, x / b);
    }
    MulMono(b, 1, b);
    MulMono(x / b, 1, b);
  }

  /** A product by a divisor of the word: what overflows and what stays. */
  lemma SplitProduct(x: nat, a: nat, b: nat, c: nat)
    requires a > 0 && b > 0 && a * b == WORD && c < a
    ensures (a * x + c) / WORD == x / b
    ensures (a * x + c) % WORD == a * (x % b) + c
    ensures a * (x % b) % a == 0
  {
    var q, r := x / b, x % b;
    assert x == b * q + r;
    MulDist(a, b * q, r);
    MulAssoc(a, b, q);
    ScaledDigit(a, b, r, c);
    DivUnique(a * x + c, WORD, q);
    DivUnique(a * r, a, r);
  }

  lemma ScaledDigit(a: nat, b: nat, r: nat, c: nat)
    requires a * b == WORD && r < b && c < a
    ensures 0 <= a * r + c < WORD
  {
    MulMono(a, r, b - 1);
    MulMono(a, 0, r);
    MulDist(a, b, 1);
  }

  /** Scaling a limb by a power of two with a small carry splits into the two parts. */
  lemma ShiftDigit(x: Limb, c: nat, s: nat)
    requires s < 32 && c < Pow2(s)
    ensures Kept(x, s) % Pow2(s) == 0
    ensures MulAdd(c, 0, Pow2(s), x) % WORD == Kept(x, s) + c
    ensures MulAdd(c, 0, Pow2(s), x) / WORD == Passed(x, s)
  {
    hide Pow2;
    WordSplit(s);
    SplitProduct(x, Pow2(s), Pow2(32 - s), c);
    SplitProduct(x, Pow2(s), Pow2(32 - s), 0);
  }

  function ShlLimb(x: seq<Limb>, k: nat, s: nat, j: nat, i: nat): (r: Limb)
    requires s < 32 && i <= |x|
  {
    var kept := if 0 <= j - k < i then Kept(x[j - k], s) else 0;
    var passed := if 0 <= j - k - 1 < i then Passed(x[j - k - 1], s) else 0;
    if kept == 0 then passed else ShlFits(x[j - k], passed, s); kept + passed
  }

  lemma ShlFits(x: Limb, c: Limb, s: nat)
    requires s < 32 && c < Pow2(s)
    ensures Kept(x, s) + c < WORD
  {
    ShiftDigit(x, c, s);
  }

  ghost predicate IsShl(r: seq<Limb>, x: seq<Limb>, k: nat, s: nat, i: nat) {
    && s < 32 && i <= |x| == |r|
    && forall j :: 0 <= j < |r| ==> r[j] == ShlLimb(x, k, s, j, i)
  }

  lemma {:induction false} ShlScaled(r: seq<Limb>, x: seq<Limb>, k: nat, s: nat, m: nat)
    requires IsShl(r, x, k, s, |x|) && k + m <= |x|
    ensures Scaled(r[k..k + m], if m == 0 then 0 else Passed(x[m - 1], s), x, Pow2(s))
  {
    hide Scaled, MulAdd, Pow2, Kept, Passed;
    if m == 0 {
      ScaleStart(x, Pow2(s));
    } else {
      ShlScaled(r, x, k, s, m - 1);
      var c := if m == 1 then 0 else Passed(x[m - 2], s);
      var low := r[k..k + m - 1];
      ScaleStep(low, c, x, Pow2(s));
      ShiftDigit(x[m - 1], c, s);
      assert r[k + m - 1] == Kept(x[m - 1], s) + c;
      assert r[k..k + m] == low + [r[k + m - 1]];
    }
  }

  lemma ShlAlgebra(x: nat, xl: nat, xh: nat, v: nat, c: nat, rk: nat, rest: nat, all: nat, b: nat)
    requires x == xl + rest * xh && all == rk * rest && v + rest * c == b * xl
    ensures x * (rk * b) == rk * v + all * (c + b * xh)
  {
    assert b * x == v + rest * (c + b * xh) by {
      MulDist(b, xl, rest * xh);
      MulSwap(b, rest, xh);
      MulDist(rest, c, b * xh);
    }
    MulSwap(x, rk, b);
    MulDist(rk, v, rest * (c + b * xh));
    MulAssoc(rk, rest, c + b * xh);
  }

  lemma ShiftPower(k: nat, s: nat)
    ensures Pow2(32 * k + s) == Range(k) * Pow2(s)
  {
    PowWord(k);
    Pow2Add(32 * k, s);
  }

  lemma RangeAdd(m: nat, n: nat)
    ensures Range(m + n) == Range(m) * Range(n)
  {
    PowAdd(WORD, m, n);
  }

  /** A left shift by 32k + s bits multiplies, modulo the range. */
  lemma ShlValue(r: seq<Limb>, x: seq<Limb>, k: nat, s: nat)
    requires IsShl(r, x, k, s, |x|)
    ensures Value(r) == Value(x) * Pow2(32 * k + s) % Range(|x|)
  {
    hide Value, Range, Pow2;
    ShiftPower(k, s);
    if k >= |x| {
      ShlTooFar(r, x, k, s);
    } else {
      ShlNear(r, x, k, s);
    }
  }

  lemma ShlHigh(r: seq<Limb>, x: seq<Limb>, k: nat, s: nat) returns (c: nat)
    requires IsShl(r, x, k, s, |x|) && k < |x|
    ensures Value(r) == Range(k) * Value(r[k..])
    ensures Value(r[k..]) + Range(|x| - k) * c == Pow2(s) * Value(x[..|x| - k])
  {
    hide Value, Range, Pow2, Passed;
    var n := |x|;
    ShlScaled(r, x, k, s, n - k);
    c := Passed(x[n - k - 1], s);
    assert r[k..k + (n - k)] == r[k..];
    ValueSplit(r, k);
    ValueZero(r[..k]);
  }

  lemma ShlNear(r: seq<Limb>, x: seq<Limb>, k: nat, s: nat)
    requires IsShl(r, x, k, s, |x|) && k < |x|
    ensures Value(r) == Value(x) * (Range(k) * Pow2(s)) % Range(|x|)
  {
    hide Value, Range, Pow2, ShlLimb;
    var n := |x|;
    var c := ShlHigh(r, x, k, s);
    var xh := Value(x[n - k..]);
    RangeAdd(k, n - k);
    ValueSplit(x, n - k);
    ShlAlgebra(Value(x), Value(x[..n - k]), xh, Value(r[k..]), c, Range(k), Range(n - k), Range(n), Pow2(s));
    ValueBound(r);
    ModUnique(Value(x) * (Range(k) * Pow2(s)), Range(n), Value(r), c + Pow2(s) * xh);
  }

  lemma ShlTooFar(r: seq<Limb>, x: seq<Limb>, k: nat, s: nat)
    requires IsShl(r, x, k, s, |x|) && k >= |x|
    ensures Value(r) == 0 == Value(x) * (Range(k) * Pow2(s)) % Range(|x|)
  {
    hide Value, Range, Pow2;
    var n := |x|;
    ValueZero(r);
    RangeAdd(n, k - n);
    var f := Range(k - n) * Pow2(s);
    MulAssoc(Range(n), Range(k - n), Pow2(s));
    MulSwap(Value(x), Range(n), f);
    ModUnique(Value(x) * (Range(k) * Pow2(s)), Range(n), 0, Value(x) * f);
  }

  function ShrLimb(x: seq<Limb>, k: nat, s: nat, j: nat, i: nat): (r: Limb)
    requires s < 32 && i <= |x|
  {
    var own := if j + k < i then Passed32(x[j + k], s) else 0;
    var next := if j + k + 1 < i then Kept32(x[j + k + 1], s) else 0;
    ShrFits(own, next, s);
    own + next
  }

  /** x shifted right by s bits. */
  function Passed32(x: Limb, s: nat): (r: Limb)
    requires s < 32
    ensures r < Pow2(32 - s)
  {
    WordSplit(s);
    PassedBound(x, Pow2(32 - s), Pow2(s));
    x / Pow2(s)
  }

  /** The low s bits of x, moved to the top of the limb below. */
  function Kept32(x: Limb, s: nat): (r: Limb)
    requires s < 32
    ensures r == Pow2(32 - s) * (x % Pow2(s)) && r % Pow2(32 - s) == 0
  {
    WordSplit(s);
    SplitProduct(x, Pow2(32 - s), Pow2(s), 0);
    x * Pow2(32 - s) % WORD
  }

  lemma ShrFits(own: Limb, next: Limb, s: nat)
    requires s < 32 && own < Pow2(32 - s) && next % Pow2(32 - s) == 0
    ensures own + next < WORD
  {
    hide Pow2;
    WordSplit(s);
    PassedBound(next, Pow2(s), Pow2(32 - s));
    MultipleFits(own, next / Pow2(32 - s), Pow2(s), Pow2(32 - s));
  }

  lemma MultipleFits(own: nat, q: nat, a: nat, b: nat)
    requires own < b && q < a && a * b == WORD
    ensures own + b * q < WORD
  {
    MulMono(b, q, a - 1);
    MulDist(b, a, 1);
  }

  ghost predicate IsShr(r: seq<Limb>, x: seq<Limb>, k: nat, s: nat, i: nat) {
    && s < 32 && i <= |x| == |r|
    && forall j :: 0 <= j < |r| ==> r[j] == ShrLimb(x, k, s, j, i)
  }

  /** Halving step: a number cut by s bits, one limb at a time. */
  lemma ShrDigit(x0: nat, x1: nat, q: nat, s: nat)
    requires s < 32
    ensures (x0 + WORD * (x1 + WORD * q)) / Pow2(s)
         == x0 / Pow2(s) + Pow2(32 - s) * (x1 % Pow2(s)) + WORD * ((x1 + WORD * q) / Pow2(s))
  {
    var a, b := Pow2(s), Pow2(32 - s);
    WordSplit(s);
    var v := x1 + WORD * q;
    ModWord(x1, q, a, b);
    assert v == a * (v / a) + v % a;
    assert WORD * v == a * (b * v) by {
      MulAssoc(a, b, v);
    }
    assert b * v == WORD * (v / a) + b * (v % a) by {
      MulDist(b, a * (v / a), v % a);
      MulAssoc(b, a, v / a);
    }
    DivPlus(x0, a, b * v);
  }

  lemma ModWord(x: nat, q: nat, a: nat, b: nat)
    requires a > 0 && a * b == WORD
    ensures (x + WORD * q) % a == x % a
  {
    MulAssoc(a, b, q);
    MulDist(a, x / a, b * q);
    DivUnique(x + WORD * q, a, x / a + b * q);
  }

  lemma DivPlus(x: nat, a: nat, y: nat)
    requires a > 0
    ensures (x + a * y) / a == x / a + y
  {
    MulDist(a, x / a, y);
    DivUnique(x + a * y, a, x / a + y);
  }

  /** The value from index j on, by its first limb. */
  lemma ValueFrom(s: seq<Limb>, j: nat)
    requires j <= |s|
    ensures Value(s[j..]) == if j == |s| then 0 else s[j] + WORD * Value(s[j + 1..])
  {
    if j < |s| {
      assert s[j..][1..] == s[j + 1..];
    }
  }

  lemma {:induction false} ShrTail(r: seq<Limb>, x: seq<Limb>, k: nat, s: nat, j: nat)
    requires IsShr(r, x, k, s, |x|) && j + k <= |x|
    ensures Value(r[j..]) == Value(x[j + k..]) / Pow2(s)
    decreases |x| - j
  {
    hide Pow2, Value;
    var m := j + k;
    ValueFrom(x, m);
    if m == |x| {
      ValueZero(r[j..]);
    } else {
      ShrTail(r, x, k, s, j + 1);
      ValueFrom(r, j);
      ValueFrom(x, m + 1);
      if m + 1 < |x| {
        ShrDigit(x[m], x[m + 1], Value(x[m + 2..]), s);
      }
    }
  }

  /** A right shift by 32k + s bits is division by a power of two. */
  lemma ShrValue(r: seq<Limb>, x: seq<Limb>, k: nat, s: nat)
    requires IsShr(r, x, k, s, |x|)
    ensures Value(r) == Value(x) / Pow2(32 * k + s)
  {
    hide Value, Range, Pow2;
    ShiftPower(k, s);
    if k >= |x| {
      ValueZero(r);
      ValueBound(x);
      RangeMono(|x|, k);
      MulMono(Range(k), 1, Pow2(s));
      DivUnique(Value(x), Range(k) * Pow2(s), 0);
    } else {
      ShrTail(r, x, k, s, 0);
      assert r[0..] == r;
      ValueSplit(x, k);
      ValueBound(x[..k]);
      DivUnique(Value(x), Range(k), Value(x[k..]));
      DivDiv(Value(x), Range(k), Pow2(s));
    }
  }

  lemma RangeMono(m: nat, n: nat)
    requires m <= n
    ensures Range(m) <= Range(n)
  {
    RangeAdd(m, n - m);
    MulMono(Range(m), 1, Range(n - m));
  }

  class BaseUint {
    const pn: array<Limb>

    ghost predicate Valid() {
      pn.Length >= 2
    }

    ghost function V(): nat
      reads pn
    {
      Value(pn[..])
    }

    ghost function R(): nat {
      Range(pn.Length)
    }

    /** Zero, of the given width. */
    constructor (width: nat)
      requires width >= 2
      ensures fresh(pn) && pn.Length == width && V() == 0
      ensures forall i :: 0 <= i < width ==> pn[i] == 0
    {
      pn := new Limb[width](i => 0);
      new;
      ValueZero(pn[..]);
    }

    /** A copy. */
    constructor Copy(b: BaseUint)
      requires b.Valid()
      ensures fresh(pn) && pn[..] == b.pn[..]
    {
      pn := new Limb[b.pn.Length](i requires 0 <= i < b.pn.Length reads b.pn => b.pn[i]);
    }

    method Assign(b: BaseUint)
      requires b.pn.Length == pn.Length
      modifies pn
      ensures pn[..] == old(b.pn[..])
    {
      var i := 0;
      while i < pn.Length
        invariant 0 <= i <= pn.Length
        invariant pn[..i] == old(b.pn[..i])
        invariant forall j :: i <= j < pn.Length ==> b.pn[j] == old(b.pn[j])
      {
        pn[i] := b.pn[i];
        i := i + 1;
      }
    }

    method Add(b: BaseUint)
      requires Valid() && b.pn.Length == pn.Length
      modifies pn
      ensures V() == (old(V()) + old(b.V())) % R()
    {
      hide Value, Range, Added, Scaled, RowAdded, Product, MulAdd;
      ghost var x, y := pn[..], b.pn[..];
      var carry, i := 0, 0;
      AddStart(x, y);
      while i < pn.Length
        invariant 0 <= i <= pn.Length && 0 <= carry <= 1
        invariant forall j :: i <= j < pn.Length ==> pn[j] == x[j] && b.pn[j] == y[j]
        invariant Added(pn[..i], carry, x, y)
      {
        ghost var low := pn[..i];
        var n := carry + pn[i] + b.pn[i];
        AddStep(low, carry, x, y);
        pn[i] := n % WORD;
        assert pn[..i + 1] == low + [n % WORD];
        carry := n / WORD;
        i := i + 1;
      }
      assert pn[..i] == pn[..];
      AddEnd(pn[..], carry, x, y);
    }

    method MulSmall(b: nat)
      requires Valid() && b < WORD
      modifies pn
      ensures V() == b * old(V()) % R()
    {
      hide Value, Range, Added, Scaled, RowAdded, Product, MulAdd;
      ghost var x := pn[..];
      var carry, i := 0, 0;
      ScaleStart(x, b);
      while i < pn.Length
        invariant 0 <= i <= pn.Length && 0 <= carry < WORD
        invariant forall j :: i <= j < pn.Length ==> pn[j] == x[j]
        invariant Scaled(pn[..i], carry, x, b)
      {
        ghost var low := pn[..i];
        CarryFits(carry, b, 0, pn[i]);
        var n := MulAdd(carry, 0, b, pn[i]);
        ScaleStep(low, carry, x, b);
        pn[i] := n % WORD;
        assert pn[..i + 1] == low + [n % WORD];
        carry := n / WORD;
        i := i + 1;
      }
      assert pn[..i] == pn[..];
      ScaleEnd(pn[..], carry, x, b);
    }

    method Mul(b: BaseUint)
      requires Valid() && b.Valid() && b.pn.Length == pn.Length
      modifies pn
      ensures V() == old(V()) * old(b.V()) % R()
    {
      hide Value, Range, Added, Scaled, RowAdded, Product, MulAdd;
      var a := new BaseUint(pn.Length);
      ghost var x, y, t := pn[..], b.pn[..], 0;
      ProductStart(a.pn[..], x, y);
      var j := 0;
      while j < pn.Length
        invariant 0 <= j <= pn.Length && a.pn.Length == pn.Length
        invariant Product(a.pn[..], x, y, j, t)
        modifies a.pn
      {
        ghost var r := a.pn[..];
        var carry := AddRow(a, pn[j], b, j);
        assert b.pn[..] == y;
        t := RowEnd(r, a.pn[..], carry, x, y, j, t);
        j := j + 1;
      }
      ProductEnd(a.pn[..], x, y, t);
      Assign(a);
    }

    /** Adds p * b, shifted by j limbs, to a, dropping what does not fit. */
    static method AddRow(a: BaseUint, p: Limb, b: BaseUint, j: nat) returns (carry: nat)
      requires a != b && a.pn != b.pn && j < a.pn.Length == b.pn.Length
      modifies a.pn
      ensures a.pn[..j] == old(a.pn[..j])
      ensures RowAdded(a.pn[..][j..], carry, old(a.pn[..])[j..], p, b.pn[..])
    {
      hide Value, Range, Added, Scaled, RowAdded, Product, MulAdd;
      ghost var r, y := a.pn[..], b.pn[..];
      carry := 0;
      var i := 0;
      RowStart(r[j..], p, y);
      assert a.pn[j..j] == [];
      while i + j < a.pn.Length
        invariant 0 <= i && i + j <= a.pn.Length && carry < WORD
        invariant a.pn[..j] == r[..j]
        invariant forall k :: i + j <= k < a.pn.Length ==> a.pn[k] == r[k]
        invariant RowAdded(a.pn[j..i + j], carry, r[j..], p, y)
      {
        ghost var low := a.pn[j..i + j];
        CarryFits(carry, p, a.pn[i + j], b.pn[i]);
        var n := MulAdd(carry, a.pn[i + j], p, b.pn[i]);
        RowStep(low, carry, r[j..], p, y);
        a.pn[i + j] := n % WORD;
        assert a.pn[j..i + j + 1] == low + [n % WORD];
        carry := n / WORD;
        i := i + 1;
      }
      assert a.pn[j..i + j] == a.pn[..][j..];
    }

    /** Turn i of the loop of Shl: spreads limb i of a over two limbs. */
    method WriteShlLimb(a: BaseUint, k: nat, s: nat, i: nat)
      requires a.pn != pn && a.pn.Length == pn.Length && i < pn.Length && IsShl(pn[..], a.pn[..], k, s, i)
      modifies pn
      ensures IsShl(pn[..], a.pn[..], k, s, i + 1)
    {
      ghost var r := pn[..];
      assert s < 32;
      hide Pow2, IsShl, OrLimb, Passed, Kept;
      if i + k + 1 < pn.Length && s != 0 {
        pn[i + k + 1] := OrLimb(pn[i + k + 1], Passed(a.pn[i], s));
      }
      if i + k < pn.Length {
        pn[i + k] := OrLimb(pn[i + k], Kept(a.pn[i], s));
      }
      ShlTurn(r, pn[..], a.pn[..], k, s, i);
    }

    method Shl(shift: nat)
      requires Valid()
      modifies pn
      ensures V() == old(V()) * Pow2(shift) % R()
    {
      hide Value, Range, Pow2, IsShl;
      var a := new BaseUint.Copy(this);
      ghost var x := pn[..];
      SetZero();
      var k, s := shift / 32, shift % 32;
      ShlNone(pn[..], x, k, s);
      var i := 0;
      while i < pn.Length
        invariant 0 <= i <= pn.Length
        invariant a.pn != pn && a.pn[..] == x && IsShl(pn[..], x, k, s, i)
      {
        WriteShlLimb(a, k, s, i);
        i := i + 1;
      }
      ShlValue(pn[..], x, k, s);
    }

    /** Turn i of the loop of Shr: spreads limb i of a over two limbs. */
    method WriteShrLimb(a: BaseUint, k: nat, s: nat, i: nat)
      requires a.pn != pn && a.pn.Length == pn.Length && i < pn.Length && IsShr(pn[..], a.pn[..], k, s, i)
      modifies pn
      ensures IsShr(pn[..], a.pn[..], k, s, i + 1)
    {
      ghost var r := pn[..];
      assert s < 32;
      hide Pow2, IsShr, OrLimb, Kept32, Passed32;
      if i - k - 1 >= 0 && s != 0 {
        pn[i - k - 1] := OrLimb(pn[i - k - 1], Kept32(a.pn[i], s));
      }
      if i - k >= 0 {
        pn[i - k] := OrLimb(pn[i - k], Passed32(a.pn[i], s));
      }
      ShrTurn(r, pn[..], a.pn[..], k, s, i);
    }

    method Shr(shift: nat)
      requires Valid()
      modifies pn
      ensures V() == old(V()) / Pow2(shift)
    {
      hide Value, Range, Pow2, IsShr;
      var a := new BaseUint.Copy(this);
      ghost var x := pn[..];
      SetZero();
      var k, s := shift / 32, shift % 32;
      ShrNone(pn[..], x, k, s);
      var i := 0;
      while i < pn.Length
        invariant 0 <= i <= pn.Length
        invariant a.pn != pn && a.pn[..] == x && IsShr(pn[..], x, k, s, i)
      {
        WriteShrLimb(a, k, s, i);
        i := i + 1;
      }
      ShrValue(pn[..], x, k, s);
    }

    method SetZero()
      modifies pn
      ensures forall j :: 0 <= j < pn.Length ==> pn[j] == 0
    {
      var i := 0;
      while i < pn.Length
        invariant 0 <= i <= pn.Length
        invariant forall j :: 0 <= j < i ==> pn[j] == 0
      {
        pn[i] := 0;
        i := i + 1;
      }
    }

    /** The bitwise complement. */
    method Complement() returns (ret: BaseUint)
      requires Valid()
      ensures fresh(ret) && fresh(ret.pn) && ret.pn.Length == pn.Length
      ensures ret.V() == R() - 1 - V()
    {
      ret := new BaseUint(pn.Length);
      var i := 0;
      while i < pn.Length
        invariant 0 <= i <= pn.Length
        invariant forall j :: 0 <= j < i ==> ret.pn[j] == WORD - 1 - pn[j]
      {
        ret.pn[i] := WORD - 1 - pn[i];
        i := i + 1;
      }
      ComplementValue(pn[..], ret.pn[..]);
    }

    /** Steps one limb; reports whether it wrapped around. */
    method IncrementAt(i: nat) returns (wrapped: bool)
      requires i < pn.Length
      modifies pn
      ensures Value(pn[..]) + (if wrapped then Range(i + 1) else 0) == old(Value(pn[..])) + Range(i)
    {
      hide Value, Range;
      BumpUp(pn[..], i);
      ghost var was := pn[..];
      pn[i] := (pn[i] + 1) % WORD;
      assert pn[..] == was[i := pn[i]];
      wrapped := pn[i] == 0;
    }

    method Increment()
      requires Valid()
      modifies pn
      ensures V() == (old(V()) + 1) % R()
    {
      assert Range(0) == 1;
      hide Value, Range;
      ghost var x := pn[..];
      var i, more := 0, true;
      while i < pn.Length && more
        invariant 0 <= i <= pn.Length && (more || i < pn.Length)
        invariant Value(pn[..]) + (if more then Range(i) else 0) == Value(x) + 1
        decreases pn.Length - i, more
      {
        var wrapped := IncrementAt(i);
        if wrapped {
          i := i + 1;
        } else {
          more := false;
        }
      }
      ValueBound(pn[..]);
      ValueBound(x);
      ModUnique(Value(x) + 1, R(), V(), if more then 1 else 0);
    }

    /** Steps one limb; reports whether it wrapped around. */
    method DecrementAt(i: nat) returns (wrapped: bool)
      requires i < pn.Length
      modifies pn
      ensures Value(pn[..]) - (if wrapped then Range(i + 1) else 0) == old(Value(pn[..])) - Range(i)
    {
      hide Value, Range;
      BumpDown(pn[..], i);
      ghost var was := pn[..];
      pn[i] := (pn[i] - 1) % WORD;
      assert pn[..] == was[i := pn[i]];
      wrapped := pn[i] == WORD - 1;
    }

    method Decrement()
      requires Valid()
      modifies pn
      ensures V() == (old(V()) - 1) % R()
    {
      assert Range(0) == 1;
      hide Value, Range;
      ghost var x := pn[..];
      var i, more := 0, true;
      while i < pn.Length && more
        invariant 0 <= i <= pn.Length && (more || i < pn.Length)
        invariant Value(pn[..]) - (if more then Range(i) else 0) == Value(x) - 1
        decreases pn.Length - i, more
      {
        var wrapped := DecrementAt(i);
        if wrapped {
          i := i + 1;
        } else {
          more := false;
        }
      }
      ValueBound(pn[..]);
      ModUnique(Value(x) - 1, R(), V(), if more then -1 else 0);
    }

    method Negate() returns (ret: BaseUint)
      requires Valid()
      ensures fresh(ret) && fresh(ret.pn) && ret.pn.Length == pn.Length
      ensures ret.V() == (R() - V()) % R()
    {
      ret := Complement();
      ret.Increment();
    }

    method Sub(b: BaseUint)
      requires Valid() && b.Valid() && b.pn.Length == pn.Length
      modifies pn
      ensures V() == (old(V()) - old(b.V())) % R()
    {
      hide Value, Range;
      ValueBound(b.pn[..]);
      var n := b.Negate();
      Add(n);
      ghost var x, y, m := old(V()), old(b.V()), R();
      ModOfNegated(x, y, m);
    }

    /** Sets this number to a 64-bit value. */
    method SetU64(b: nat)
      requires Valid() && b < WORD * WORD
      modifies pn
      ensures V() == b
    {
      pn[0] := b % WORD;
      pn[1] := b / WORD;
      var i := 2;
      while i < pn.Length
        invariant 2 <= i <= pn.Length
        invariant pn[0] == b % WORD && pn[1] == b / WORD
        invariant forall j :: 2 <= j < i ==> pn[j] == 0
      {
        pn[i] := 0;
        i := i + 1;
      }
      LowLimbs(pn[..]);
      ValueZero(pn[2..]);
    }

    method AddU64(b: nat)
      requires Valid() && b < WORD * WORD
      modifies pn
      ensures V() == (old(V()) + b) % R()
    {
      var n := new BaseUint(pn.Length);
      n.SetU64(b);
      Add(n);
    }

    method GetLow64() returns (r: nat)
      requires Valid()
      ensures r == V() % (WORD * WORD)
    {
      r := Or(pn[0], pn[1] * WORD);
      Pow2Word();
      OrSum(pn[1] * WORD, pn[0], 32);
      LowLimbs(pn[..]);
      ModUnique(V(), WORD * WORD, pn[0] + WORD * pn[1], Value(pn[2..]));
    }

    method EqualTo(b: nat) returns (equal: bool)
      requires Valid() && b < WORD * WORD
      ensures equal <==> V() == b
    {
      LowLimbs(pn[..]);
      var i := pn.Length - 1;
      while i >= 2
        invariant 1 <= i < pn.Length
        invariant forall j :: i < j < pn.Length ==> pn[j] == 0
      {
        if pn[i] != 0 {
          NonZero(pn[2..], i - 2);
          return false;
        }
        i := i - 1;
      }
      ValueZero(pn[2..]);
      equal := pn[1] == b / WORD && pn[0] == b % WORD;
    }

    method CompareTo(b: BaseUint) returns (c: int)
      requires Valid() && b.pn.Length == pn.Length
      ensures c < 0 <==> V() < b.V()
      ensures c > 0 <==> V() > b.V()
    {
      hide Value;
      var i := pn.Length - 1;
      while i >= 0
        invariant -1 <= i < pn.Length
        invariant forall j :: i < j < pn.Length ==> pn[j] == b.pn[j]
      {
        if pn[i] < b.pn[i] {
          Decided(pn[..], b.pn[..], i);
          return -1;
        }
        if pn[i] > b.pn[i] {
          Decided(b.pn[..], pn[..], i);
          return 1;
        }
        i := i - 1;
      }
      assert pn[..] == b.pn[..];
      c := 0;
    }

    method Bits() returns (n: nat)
      requires Valid()
      ensures IsBitLength(V(), n)
    {
      hide Value, Range, Pow2, IsBitLength;
      var pos := pn.Length - 1;
      while pos >= 0
        invariant -1 <= pos < pn.Length
        invariant forall j :: pos < j < pn.Length ==> pn[j] == 0
      {
        if pn[pos] != 0 {
          var nbits := 31;
          Pow2Word();
          while nbits > 0
            invariant 0 <= nbits <= 31 && pn[pos] < Pow2(nbits + 1)
          {
            TopBit(pn[pos], nbits);
            if BitTest(pn[pos], nbits) {
              TopLimb(pn[..], pos, nbits);
              return 32 * pos + nbits + 1;
            }
            nbits := nbits - 1;
          }
          OneBitLeft(pn[pos]);
          TopLimb(pn[..], pos, 0);
          return 32 * pos + 1;
        }
        pos := pos - 1;
      }
      ValueZero(pn[..]);
      ZeroBits();
      n := 0;
    }

    /** Sets bit `shift` of a number that has no bit set up to there. */
    method SetBit(shift: nat)
      requires Valid() && shift < 32 * pn.Length && ClearBelow(pn[..], shift + 1)
      modifies pn
      ensures V() == old(V()) + Pow2(shift) && ClearBelow(pn[..], shift)
    {
      hide Value, ClearBelow, OrLimb, Pow2;
      ghost var x := pn[..];
      var m, s := shift / 32, shift % 32;
      BitFits(s);
      pn[m] := OrLimb(pn[m], Pow2(s));
      ClearBit(x, pn[..], m, s);
    }

    /**
     Long division.  Dividing by zero throws, after this number was already set to zero.
     The remainder is what is left in the local copy of the dividend.
     */
    method Div(b: BaseUint) returns (ok: bool, ghost remainder: nat)
      requires Valid() && b.Valid() && b.pn.Length == pn.Length
      modifies pn
      ensures ok <==> old(b.V()) != 0
      ensures ok ==> V() == old(V()) / old(b.V()) && remainder == old(V()) % old(b.V())
      ensures !ok ==> V() == 0
    {
      hide Value, Range, Pow2, ClearBelow, IsBitLength;
      var div := new BaseUint.Copy(b);
      var num := new BaseUint.Copy(this);
      ghost var n0, b0 := V(), b.V();
      remainder := n0;
      SetZero();
      ValueZero(pn[..]);
      var numBits := num.Bits();
      var divBits := div.Bits();
      BitsOfZero(b0, divBits);
      if divBits == 0 {
        return false, 0;
      }
      ok := true;
      if divBits > numBits {
        TooSmall(n0, b0, numBits, divBits);
        return;
      }
      var shift := numBits - divBits;
      ValueBound(num.pn[..]);
      Aligned(n0, b0, numBits, divBits, pn.Length);
      div.Shl(shift);
      AllClear(pn[..], shift + 1);
      while shift >= 0
        invariant -1 <= shift < 32 * pn.Length
        invariant div.pn.Length == num.pn.Length == pn.Length
        invariant fresh(div.pn) && fresh(num.pn) && div.pn != num.pn && div.pn != pn && num.pn != pn
        invariant Dividing(n0, b0, V(), num.V(), shift)
        invariant shift >= 0 ==> div.V() == b0 * Pow2(shift)
        invariant ClearBelow(pn[..], shift + 1)
        decreases shift
      {
        hide Dividing;
        ghost var q, rem := V(), num.V();
        var c := num.CompareTo(div);
        DivideStep(n0, b0, q, rem, shift);
        if c >= 0 {
          ValueBound(num.pn[..]);
          ModUnique(rem - div.V(), num.R(), rem - div.V(), 0);
          num.Sub(div);
          SetBit(shift);
        } else {
          StillClear(pn[..], shift);
        }
        div.Shr(1);
        HalfShift(b0, shift);
        shift := shift - 1;
      }
      DivideEnd(n0, b0, V(), num.V());
      remainder := num.V();
    }
  }

  // ----- Long division

  /** The quotient so far and what is left of the dividend, with `shift` + 1 quotient bits to go. */
  ghost predicate Dividing(n: nat, b: nat, q: nat, rem: nat, shift: int)
    requires shift >= -1
  {
    n == q * b + rem && rem < b * Pow2(shift + 1)
  }

  lemma DivideStep(n: nat, b: nat, q: nat, rem: nat, shift: nat)
    requires Dividing(n, b, q, rem, shift)
    ensures rem >= b * Pow2(shift) ==> Dividing(n, b, q + Pow2(shift), rem - b * Pow2(shift), shift - 1)
    ensures rem < b * Pow2(shift) ==> Dividing(n, b, q, rem, shift - 1)
  {
    var p := Pow2(shift);
    assert Pow2(shift + 1) == 2 * p;
    MulDist(b, q, p);
    MulDist(b, p, p);
  }

  lemma DivideEnd(n: nat, b: nat, q: nat, rem: nat)
    requires Dividing(n, b, q, rem, -1)
    ensures b > 0 && q == n / b && rem == n % b
  {
    assert Pow2(0) == 1;
    DivUnique(n, b, q);
  }

  lemma HalfShift(b: nat, shift: nat)
    ensures shift > 0 ==> b * Pow2(shift) / Pow2(1) == b * Pow2(shift - 1)
  {
    if shift > 0 {
      assert Pow2(1) == 2 && Pow2(shift) == 2 * Pow2(shift - 1);
      MulSwap(b, 2, Pow2(shift - 1));
    }
  }

  lemma BitsOfZero(v: nat, n: nat)
    requires IsBitLength(v, n)
    ensures n == 0 <==> v == 0
  {
  }

  lemma TooSmall(n: nat, b: nat, nb: nat, db: nat)
    requires IsBitLength(n, nb) && IsBitLength(b, db) && db > nb
    ensures 0 <= n < b && n / b == 0 && n % b == n
  {
    Pow2Mono(nb, db - 1);
    DivUnique(n, b, 0);
  }

  /** Shifting the divisor by the difference of the lengths aligns it with the dividend without overflow. */
  lemma Aligned(n: nat, b: nat, nb: nat, db: nat, width: nat)
    requires IsBitLength(n, nb) && IsBitLength(b, db) && 0 < db <= nb && n < Range(width)
    ensures b * Pow2(nb - db) < Range(width)
    ensures b * Pow2(nb - db) % Range(width) == b * Pow2(nb - db)
    ensures Dividing(n, b, 0, n, nb - db)
    ensures nb - db < 32 * width
  {
    hide Pow2;
    var shift := nb - db;
    Pow2Add(db, shift);
    Pow2Add(db - 1, shift + 1);
    PowWord(width);
    if nb > 32 * width {
      Pow2Mono(32 * width, nb - 1);
    }
    Pow2Mono(nb, 32 * width);
    ScaleLess(b, Pow2(db), Pow2(shift));
    MulMono(Pow2(shift + 1), Pow2(db - 1), b);
    ModUnique(b * Pow2(shift), Range(width), b * Pow2(shift), 0);
  }

  lemma ScaleLess(x: nat, y: nat, f: nat)
    requires x < y && f > 0
    ensures x * f < y * f
  {
    MulMono(f, x + 1, y);
    MulDist(f, x, 1);
  }

  /** The low t bits are zero. */
  ghost predicate ClearBelow(s: seq<Limb>, t: nat) {
    forall j :: 0 <= j < |s| ==> LimbClear(s[j], t - 32 * j)
  }

  predicate LimbClear(x: Limb, t: int) {
    if t <= 0 then true else if t >= 32 then x == 0 else x % Pow2(t) == 0
  }

  lemma AllClear(s: seq<Limb>, t: nat)
    requires forall j :: 0 <= j < |s| ==> s[j] == 0
    ensures ClearBelow(s, t)
  {
  }

  lemma StillClear(s: seq<Limb>, t: nat)
    requires ClearBelow(s, t + 1)
    ensures ClearBelow(s, t)
  {
    forall j | 0 <= j < |s| ensures LimbClear(s[j], t - 32 * j) {
      assert LimbClear(s[j], t + 1 - 32 * j);
      LessClear(s[j], t - 32 * j);
    }
  }

  lemma LessClear(x: Limb, t: int)
    requires LimbClear(x, t + 1)
    ensures LimbClear(x, t)
  {
    if 0 < t < 31 {
      var d := Pow2(t);
      assert Pow2(t + 1) == 2 * d;
      var q := x / (2 * d);
      assert x == 2 * d * q;
      assert 2 * d * q == d * (2 * q);
      DivUnique(x, d, 2 * q);
    }
  }

  lemma BitFits(s: nat)
    requires s < 32
    ensures Pow2(s) < WORD
  {
    Pow2Word();
    Pow2Mono(s, 31);
    assert Pow2(32) == 2 * Pow2(31);
  }

  lemma ClearBit(x: seq<Limb>, y: seq<Limb>, m: nat, s: nat)
    requires m < |x| && s < 32 && ClearBelow(x, 32 * m + s + 1) && Pow2(s) < WORD
    requires y == x[m := OrLimb(x[m], Pow2(s))]
    ensures Value(y) == Value(x) + Pow2(32 * m + s) && ClearBelow(y, 32 * m + s)
  {
    assert LimbClear(x[m], s + 1);
    BitAdds(x[m], s);
    StillClear(x, 32 * m + s);
    hide Value, Range, Pow2, Or;
    ValueUpdate(x, m, y[m]);
    ShiftPower(m, s);
    forall j | 0 <= j < |y| ensures LimbClear(y[j], 32 * m + s - 32 * j) {
      assert LimbClear(x[j], 32 * m + s - 32 * j);
    }
  }

  /** Setting a clear bit adds its weight, and leaves the bits below it clear. */
  lemma BitAdds(x: Limb, s: nat)
    requires s < 32 && LimbClear(x, s + 1) && Pow2(s) < WORD
    ensures OrLimb(x, Pow2(s)) == x + Pow2(s)
    ensures LimbClear(x + Pow2(s), s)
  {
    Pow2Succ(s);
    hide Pow2, Or;
    if s == 31 {
      OrZero(Pow2(s));
      ModPlus(0, Pow2(s));
    } else {
      OrSum(x, Pow2(s), s + 1);
      LessClear(x, s);
      if s > 0 {
        ModPlus(x, Pow2(s));
      }
    }
  }

  lemma Pow2Succ(s: nat)
    ensures Pow2(s + 1) == 2 * Pow2(s)
  {
  }

  lemma ModPlus(x: nat, d: nat)
    requires d > 0 && x % d == 0
    ensures (x + d) % d == 0
  {
    MulDist(d, x / d, 1);
    DivUnique(x + d, d, x / d + 1);
  }

  lemma ModOfNegated(x: nat, y: nat, m: nat)
    requires m > 0 && y < m
    ensures (x + (m - y) % m) % m == (x - y) % m
  {
    if y == 0 {
      ModUnique(m, m, 0, 1);
    } else {
      ModUnique(m - y, m, m - y, 0);
      var d := x - y;
      assert d == d % m + m * (d / m);
      MulDist(m, d / m, 1);
      ModUnique(x + (m - y), m, d % m, d / m + 1);
    }
  }

  lemma LowLimbs(s: seq<Limb>)
    requires |s| >= 2
    ensures Value(s) == s[0] + WORD * s[1] + WORD * WORD * Value(s[2..])
  {
    assert s[1..][1..] == s[2..];
  }

  lemma NonZero(s: seq<Limb>, i: nat)
    requires i < |s| && s[i] != 0
    ensures Value(s) > 0
  {
    if i > 0 {
      NonZero(s[1..], i - 1);
    }
  }

  /** The highest limb that differs decides the order. */
  lemma Decided(x: seq<Limb>, y: seq<Limb>, i: nat)
    requires i < |x| == |y| && x[i] < y[i]
    requires forall j :: i < j < |x| ==> x[j] == y[j]
    ensures Value(x) < Value(y)
  {
    hide Value, Range;
    ValueSplit(x, i + 1);
    ValueSplit(y, i + 1);
    assert x[i + 1..] == y[i + 1..];
    ValueStep(x, i);
    ValueStep(y, i);
    ValueBound(x[..i]);
    MulMono(Range(i), x[i] + 1, y[i]);
    MulDist(Range(i), x[i], 1);
  }

  // ----- Bit lengths

  predicate IsBitLength(v: nat, n: nat) {
    if v == 0 then n == 0 else n > 0 && Pow2(n - 1) <= v < Pow2(n)
  }

  predicate BitTest(x: nat, n: nat) {
    x / Pow2(n) % 2 == 1
  }

  lemma TopBit(x: nat, n: nat)
    requires x < Pow2(n + 1)
    ensures BitTest(x, n) <==> x >= Pow2(n)
  {
    if x >= Pow2(n) {
      DivUnique(x, Pow2(n), 1);
    } else {
      DivUnique(x, Pow2(n), 0);
    }
  }

  lemma OneBitLeft(x: nat)
    requires x < Pow2(1)
    ensures Pow2(0) == 1 && x <= 1
  {
    assert Pow2(1) == 2 * Pow2(0);
  }

  lemma ZeroBits()
    ensures IsBitLength(0, 0)
  {
  }

  lemma TopLimb(s: seq<Limb>, pos: nat, n: nat)
    requires pos < |s| && Pow2(n) <= s[pos] < Pow2(n + 1)
    requires forall j :: pos < j < |s| ==> s[j] == 0
    ensures IsBitLength(Value(s), 32 * pos + n + 1)
  {
    hide Value, Range, Pow2;
    ValueSplit(s, pos + 1);
    ValueZero(s[pos + 1..]);
    ValueStep(s, pos);
    ValueBound(s[..pos]);
    ShiftPower(pos, n);
    ShiftPower(pos, n + 1);
    MulMono(Range(pos), Pow2(n), s[pos]);
    MulMono(Range(pos), s[pos] as int + 1, Pow2(n + 1));
    MulDist(Range(pos), s[pos], 1);
  }

  lemma ShlNone(r: seq<Limb>, x: seq<Limb>, k: nat, s: nat)
    requires |r| == |x| && s < 32 && forall j :: 0 <= j < |r| ==> r[j] == 0
    ensures IsShl(r, x, k, s, 0)
  {
  }

  /** One turn of the left-shift loop. */
  lemma ShlTurn(r: seq<Limb>, r': seq<Limb>, x: seq<Limb>, k: nat, s: nat, i: nat)
    requires IsShl(r, x, k, s, i) && i < |x| == |r'|
    requires forall j :: 0 <= j < |r| ==>
               r'[j] == if j == i + k + 1 && s != 0 then OrLimb(r[j], Passed(x[i], s))
                        else if j == i + k then OrLimb(r[j], Kept(x[i], s)) else r[j]
    ensures IsShl(r', x, k, s, i + 1)
  {
    hide Pow2, Kept, Passed, Or;
    OrZero(Passed(x[i], s));
    NothingPasses(x[i]);
    ShiftDigit(x[i], 0, s);
    if i + k < |x| {
      OrSum(Kept(x[i], s), r[i + k], s);
    }
  }

  lemma NothingPasses(x: Limb)
    ensures Passed(x, 0) == 0
  {
    Pow2Word();
  }

  lemma ShrNone(r: seq<Limb>, x: seq<Limb>, k: nat, s: nat)
    requires |r| == |x| && s < 32 && forall j :: 0 <= j < |r| ==> r[j] == 0
    ensures IsShr(r, x, k, s, 0)
  {
  }

  /** One turn of the right-shift loop. */
  lemma ShrTurn(r: seq<Limb>, r': seq<Limb>, x: seq<Limb>, k: nat, s: nat, i: nat)
    requires IsShr(r, x, k, s, i) && i < |x| == |r'|
    requires forall j :: 0 <= j < |r| ==>
               r'[j] == if j == i - k - 1 && s != 0 then OrLimb(r[j], Kept32(x[i], s))
                        else if j == i - k then OrLimb(r[j], Passed32(x[i], s)) else r[j]
    ensures IsShr(r', x, k, s, i + 1)
  {
    assert s == 0 ==> Kept32(x[i], s) == 0;
    hide Pow2, Kept32, Passed32, Or;
    OrZero(Passed32(x[i], s));
    if i - k - 1 >= 0 {
      OrSum(Kept32(x[i], s), r[i - k - 1], 32 - s);
    }
  }

  /** Adding one at limb i: the carry moves on when the limb wraps. */
  lemma BumpUp(s: seq<Limb>, i: nat)
    requires i < |s|
    ensures var x := (s[i] + 1) % WORD;
      Value(s[i := x]) + (if x == 0 then Range(i + 1) else 0) == Value(s) + Range(i)
  {
    var x := (s[i] + 1) % WORD;
    NextRange(i);
    hide Value, Range;
    ValueUpdate(s, i, x);
    if s[i] == WORD - 1 {
      MulDist(Range(i), 1, WORD);
    } else {
      assert x - s[i] == 1;
    }
  }

  lemma BumpDown(s: seq<Limb>, i: nat)
    requires i < |s|
    ensures var x := (s[i] - 1) % WORD;
      Value(s[i := x]) - (if x == WORD - 1 then Range(i + 1) else 0) == Value(s) - Range(i)
  {
    var x := (s[i] - 1) % WORD;
    NextRange(i);
    hide Value, Range;
    ValueUpdate(s, i, x);
    if s[i] == 0 {
      MulDist(Range(i), WORD, 1);
    } else {
      assert x - s[i] == -1;
    }
  }

  lemma NextRange(i: nat)
    ensures Range(i + 1) == WORD * Range(i)
  {
  }

  lemma {:induction false} ComplementValue(x: seq<Limb>, y: seq<Limb>)
    requires |x| == |y| && forall j :: 0 <= j < |x| ==> y[j] == WORD - 1 - x[j]
    ensures Value(y) == Range(|x|) - 1 - Value(x)
  {
    if x != [] {
      ComplementValue(x[1..], y[1..]);
    }
  }

  lemma AddStart(x: seq<Limb>, y: seq<Limb>)
    requires |x| == |y|
    ensures Added([], 0, x, y)
  {
  }

  lemma ScaleStart(x: seq<Limb>, b: nat)
    ensures Scaled([], 0, x, b)
  {
  }

  lemma RowStart(x: seq<Limb>, p: nat, y: seq<Limb>)
    requires |x| <= |y|
    ensures RowAdded([], 0, x, p, y)
  {
  }

  lemma ProductStart(r: seq<Limb>, x: seq<Limb>, y: seq<Limb>)
    requires Value(r) == 0
    ensures Product(r, x, y, 0, 0)
  {
  }
}
