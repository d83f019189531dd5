/**
 Base58 (EncodeBase58 and DecodeBase58 in src/base58.cpp).

 Both directions convert a big-endian number between base 256 and base 58 in a digit buffer
 of fixed size, and carry leading zero digits over one by one.
 */
module Base58 {
  import opened Numbers
  import opened Wrappers

  // ----- Numbers as digits, highest first

  predicate Digits(d: seq<nat>, b: nat) {
    forall i :: 0 <= i < |d| ==> d[i] < b
  }

  function Val(d: seq<nat>, b: nat): nat {
    if d == [] then 0 else Val(d[..|d| - 1], b) * b + d[|d| - 1]
  }

  lemma {:induction false} ValConcat(s: seq<nat>, t: seq<nat>, b: nat)
    ensures Val(s + t, b) == Val(s, b) * Pow(b, |t|) + Val(t, b)
  {
    if t == [] {
      assert s + t == s;
    } else {
      var n := |t| - 1;
      ValConcat(s, t[..n], b);
      assert (s + t)[..|s| + n] == s + t[..n];
      ValAlgebra(Val(s, b), Pow(b, n), Val(t[..n], b), b);
    }
  }

  lemma ValAlgebra(v: nat, p: nat, w: nat, b: nat)
    ensures (v * p + w) * b == v * (b * p) + w * b
  {
    MulDist(b, v * p, w);
    MulSwap(v, b, p);
  }

  lemma ValHead(x: nat, t: seq<nat>, b: nat)
    ensures Val([x] + t, b) == x * Pow(b, |t|) + Val(t, b)
  {
    ValConcat([x], t, b);
    assert [x][..0] == [];
    assert Val([x], b) == x;
  }

  lemma {:induction false} ValBound(d: seq<nat>, b: nat)
    requires Digits(d, b) && b > 0
    ensures Val(d, b) < Pow(b, |d|)
  {
    if d != [] {
      ValBound(d[..|d| - 1], b);
      MulMono(b, Val(d[..|d| - 1], b) + 1, Pow(b, |d| - 1));
      MulDist(b, Val(d[..|d| - 1], b), 1);
    }
  }

  predicate AllZero(d: seq<nat>) {
    forall i :: 0 <= i < |d| ==> d[i] == 0
  }

  lemma {:induction false} ValZeros(z: seq<nat>, t: seq<nat>, b: nat)
    requires AllZero(z)
    ensures Val(z, b) == 0 && Val(z + t, b) == Val(t, b)
  {
    if z != [] {
      ValZeros(z[..|z| - 1], [], b);
    }
    ValConcat(z, t, b);
  }

  // ----- Multiplying and adding in place

  function Scaled(carry: nat, factor: nat, x: nat): nat {
    carry + factor * x
  }

  function Digit(n: nat, b: nat): (d: nat)
    requires b > 0
    ensures d < b
  {
    n % b
  }

  lemma CarryStep(tail: nat, carry: nat, p: nat, b: nat, x: nat, factor: nat, old0: nat, c0: nat)
    requires b > 0 && tail + p * carry == factor * old0 + c0
    ensures var n := Scaled(carry, factor, x);
      Digit(n, b) * p + tail + b * p * Quotient(n, b) == factor * (x * p + old0) + c0
  {
    var n := Scaled(carry, factor, x);
    var d, q := Digit(n, b), Quotient(n, b);
    assert n == b * q + d;
    assert p * n == d * p + b * p * q by {
      MulDist(p, b * q, d);
      MulAssoc(p, b, q);
    }
    assert p * n == p * carry + factor * (x * p) by {
      MulDist(p, carry, factor * x);
      MulSwap(p, factor, x);
    }
    MulDist(factor, x * p, old0);
  }

  lemma NoCarryLeft(v: nat, p: nat, carry: nat)
    requires v + p * carry < p
    ensures carry == 0
  {
    if carry > 0 {
      MulMono(p, 1, carry);
    }
  }

  /** The state of the carry loop after i digits from the right. */
  ghost predicate Carried(x: seq<nat>, y: seq<nat>, i: nat, b: nat, factor: nat, c0: nat, carry: nat) {
    && |x| == |y| && i <= |x|
    && y[..|x| - i] == x[..|x| - i]
    && Digits(y, b)
    && Val(y[|x| - i..], b) + Pow(b, i) * carry == factor * Val(x[|x| - i..], b) + c0
  }

  lemma CarryNext(x: seq<nat>, y: seq<nat>, i: nat, b: nat, factor: nat, c0: nat, carry: nat)
    requires Carried(x, y, i, b, factor, c0, carry) && i < |x| && b > 0
    ensures var k, n := |x| - i - 1, Scaled(carry, factor, x[|x| - i - 1]);
      Carried(x, y[k := Digit(n, b)], i + 1, b, factor, c0, Quotient(n, b))
  {
    hide Val, Pow, Scaled, Digit, Quotient;
    var k := |x| - i - 1;
    var n := Scaled(carry, factor, x[k]);
    var y' := y[k := Digit(n, b)];
    assert y'[k..] == [Digit(n, b)] + y[k + 1..] && x[k..] == [x[k]] + x[k + 1..];
    assert y'[..k] == y[..k + 1][..k] && x[..k] == x[..k + 1][..k];
    ValHead(Digit(n, b), y[k + 1..], b);
    ValHead(x[k], x[k + 1..], b);
    PowNext(b, i);
    CarryStep(Val(y[k + 1..], b), carry, Pow(b, i), b, x[k], factor, Val(x[k + 1..], b), c0);
  }

  lemma PowNext(b: nat, i: nat)
    ensures Pow(b, i + 1) == b * Pow(b, i)
  {
  }

  /** When the loop ends, the buffer holds the product plus the digit: the carry is used up. */
  lemma CarryEnd(x: seq<nat>, y: seq<nat>, i: nat, length: nat, b: nat, factor: nat, c0: nat, carry: nat)
    requires Carried(x, y, i, b, factor, c0, carry) && length <= |x| && AllZero(x[..|x| - length])
    requires (carry == 0 && i >= length) || i == |x|
    requires factor * Val(x, b) + c0 < Pow(b, |x|)
    ensures carry == 0 && Val(y, b) == factor * Val(x, b) + c0 && AllZero(y[..|x| - i])
  {
    hide Val, Pow, Digits, AllZero;
    var k := |x| - i;
    var xt, yt := x[k..], y[k..];
    assert Val(yt, b) + Pow(b, i) * carry == factor * Val(xt, b) + c0;
    assert AllZero(x[..k]) && AllZero(y[..k]) by {
      if i < |x| {
        TopZero(x, y, k, |x| - length);
      } else {
        NoneZero(x[..k]);
      }
    }
    ValZeros(x[..k], xt, b);
    ValZeros(y[..k], yt, b);
    assert x == x[..k] + xt && y == y[..k] + yt;
    if i == |x| {
      NoCarryLeft(Val(y, b), Pow(b, |x|), carry);
    }
  }

  lemma TopZero(x: seq<nat>, y: seq<nat>, k: nat, m: nat)
    requires k <= m <= |x| == |y| && y[..k] == x[..k] && AllZero(x[..m])
    ensures AllZero(x[..k]) && AllZero(y[..k])
  {
    forall j | 0 <= j < k ensures x[..k][j] == 0 {
      assert x[..m][j] == 0;
    }
  }

  lemma NoneZero(s: seq<nat>)
    requires s == []
    ensures AllZero(s)
  {
  }

  /** buffer = buffer * factor + carry, from the last digit on; returns how many digits are in use. */
  method MulAdd(buf: array<nat>, b: nat, factor: nat, carry0: nat, length: nat) returns (i: nat)
    requires b > 0 && length <= buf.Length && Digits(buf[..], b) && AllZero(buf[..buf.Length - length])
    requires factor * Val(buf[..], b) + carry0 < Pow(b, buf.Length)
    modifies buf
    ensures i <= buf.Length && Digits(buf[..], b) && AllZero(buf[..buf.Length - i])
    ensures Val(buf[..], b) == factor * old(Val(buf[..], b)) + carry0
  {
    hide Val, Pow, Digits, AllZero, Carried, Scaled, Digit, Quotient;
    ghost var x := buf[..];
    assert buf[..buf.Length - length] == x[..|x| - length];
    var carry: nat := carry0;
    i := 0;
    CarryStart(x, b, factor, carry0);
    while (carry != 0 || i < length) && i < buf.Length
      invariant i <= buf.Length && Carried(x, buf[..], i, b, factor, carry0, carry)
      decreases buf.Length - i
    {
      var k := buf.Length - 1 - i;
      CarryNext(x, buf[..], i, b, factor, carry0, carry);
      NotYet(x, buf[..], i, b, factor, carry0, carry);
      ghost var y := buf[..];
      carry := Scaled(carry, factor, buf[k]);
      buf[k] := Digit(carry, b);
      assert buf[..] == y[k := buf[k]];
      carry := Quotient(carry, b);
      i := i + 1;
    }
    CarryEnd(x, buf[..], i, length, b, factor, carry0, carry);
    assert carry == 0;
    assert buf[..][..|x| - i] == buf[..buf.Length - i];
    EndDigits(x, buf[..], i, b, factor, carry0, carry);
  }

  lemma CarryStart(x: seq<nat>, b: nat, factor: nat, c0: nat)
    requires Digits(x, b)
    ensures Carried(x, x, 0, b, factor, c0, c0)
  {
  }

  lemma NotYet(x: seq<nat>, y: seq<nat>, i: nat, b: nat, factor: nat, c0: nat, carry: nat)
    requires Carried(x, y, i, b, factor, c0, carry) && i < |x|
    ensures y[|x| - 1 - i] == x[|x| - 1 - i]
  {
    assert y[..|x| - i][|x| - 1 - i] == x[..|x| - i][|x| - 1 - i];
  }

  lemma EndDigits(x: seq<nat>, y: seq<nat>, i: nat, b: nat, factor: nat, c0: nat, carry: nat)
    requires Carried(x, y, i, b, factor, c0, carry)
    ensures Digits(y, b)
  {
  }

  // ----- The buffers are large enough

  lemma {:induction false} PowExpMono(b: nat, x: nat, y: nat)
    requires b > 0 && x <= y
    ensures Pow(b, x) <= Pow(b, y)
  {
    PowAdd(b, x, y - x);
    MulMono(Pow(b, x), 1, Pow(b, y - x));
  }

  lemma {:induction false} PowBaseMono(a: nat, b: nat, n: nat)
    requires a <= b
    ensures Pow(a, n) <= Pow(b, n)
  {
    if n > 0 {
      PowBaseMono(a, b, n - 1);
      MulMono(a, Pow(a, n - 1), Pow(b, n - 1));
      MulMono(Pow(b, n - 1), a, b);
    }
  }

  lemma {:induction false} PowBaseStrict(a: nat, b: nat, n: nat)
    requires a < b && n > 0
    ensures Pow(a, n) < Pow(b, n)
  {
    PowBaseMono(a, b, n - 1);
    MulMono(a, Pow(a, n - 1), Pow(b, n - 1));
    MulMono(Pow(b, n - 1), a + 1, b);
    MulDist(Pow(b, n - 1), a, 1);
  }

  lemma {:induction false} PowPow(b: nat, x: nat, y: nat)
    ensures Pow(b, x * y) == Pow(Pow(b, x), y)
  {
    if y > 0 {
      PowPow(b, x, y - 1);
      MulDist(x, y, 1);
      PowAdd(b, x, x * (y - 1));
    }
  }

  lemma PowPowTo(b: nat, x: nat, y: nat, e: nat)
    requires e == x * y
    ensures Pow(b, e) == Pow(Pow(b, x), y)
  {
    PowPow(b, x, y);
  }

  /** Comparing one pair of powers compares all numbers of digits in that ratio. */
  lemma Capacity(from: nat, to: nat, p: nat, q: nat, n: nat, size: nat, np: nat, qn: nat, sp: nat)
    requires from > 0 && to > 0 && p > 0
    requires np == n * p && np == p * n && qn == q * n && sp == size * p
    requires Pow(from, p) <= Pow(to, q) && qn <= sp
    ensures Pow(from, n) <= Pow(to, size)
  {
    hide Pow;
    PowPowTo(to, size, p, sp);
    PowPowTo(from, n, p, np);
    PowPowTo(from, p, n, np);
    PowPowTo(to, q, n, qn);
    PowBaseMono(Pow(from, p), Pow(to, q), n);
    PowExpMono(to, qn, sp);
    if Pow(to, size) < Pow(from, n) {
      PowBaseStrict(Pow(to, size), Pow(from, n), p);
    }
  }

  /** 256^8 <= 58^11. */
  lemma BytesFit()
    ensures Pow(256, 8) <= Pow(58, 11)
  {
    assert Pow(256, 4) == 0x1_0000_0000;
    PowAdd(256, 4, 4);
    assert Pow(58, 4) == 11316496;
    assert Pow(58, 3) == 195112;
    PowAdd(58, 4, 4);
    PowAdd(58, 8, 3);
  }

  lemma EncodeFits(n: nat)
    ensures Pow(256, n) <= Pow(58, n * 138 / 100 + 1)
  {
    BytesFit();
    hide Pow;
    var size := n * 138 / 100 + 1;
    Capacity(256, 58, 8, 11, n, size, 8 * n, 11 * n, 8 * size);
  }

  /** 58^71 <= 256^52. */
  lemma CharsFit()
    ensures Pow(58, 71) <= Pow(256, 52)
  {
    Pow58By71();
    Pow256By52();
  }

  lemma Pow58By71()
    ensures Pow(58, 71) ==
      0xf1a10f76073f997e1af0b37f5c795ecf145633452837a5de3fa17ac74b86f60a0ebe5446f358940a4ca12a800000000000000000
  {
    assert Pow(58, 3) == 195112;
    assert Pow(58, 4) == 11316496;
    PowAdd(58, 4, 4);
    assert Pow(58, 8) == 128063081718016;
    PowAdd(58, 8, 8);
    assert Pow(58, 16) == 16400152899115243850138976256;
    PowAdd(58, 16, 16);
    assert Pow(58, 32) == 268965015114358137726910587140455987105619365599731777536;
    PowAdd(58, 32, 32);
    assert Pow(58, 64) ==
      0x7853026ae25f4ce0c69893e6f1f86f67aef4db69563516064adeb967a9d66f4fe64b09ec94e5010000000000000000;
    PowAdd(58, 4, 3);
    PowAdd(58, 64, 7);
  }

  lemma Pow256By52()
    ensures Pow(256, 52) ==
      0x100000000000000000000000000000000000000000000000000000000000000000000000000000000000000000000000000000000
  {
    assert Pow(256, 4) == 4294967296;
    PowAdd(256, 4, 4);
    assert Pow(256, 8) == 18446744073709551616;
    PowAdd(256, 8, 8);
    assert Pow(256, 16) == 340282366920938463463374607431768211456;
    PowAdd(256, 16, 16);
    assert Pow(256, 32) ==
      0x10000000000000000000000000000000000000000000000000000000000000000;
    PowAdd(256, 16, 4);
    PowAdd(256, 32, 20);
  }

  lemma DecodeFits(n: nat)
    ensures Pow(58, n) <= Pow(256, n * 733 / 1000 + 1)
  {
    CharsFit();
    hide Pow;
    var size := n * 733 / 1000 + 1;
    Capacity(58, 256, 71, 52, n, size, 71 * n, 52 * n, 71 * size);
  }

  // ----- Leading zeros, and uniqueness

  function LeadingZeros(d: seq<nat>): (n: nat)
    ensures n <= |d| && (forall i :: 0 <= i < n ==> d[i] == 0) && (n < |d| ==> d[n] != 0)
  {
    if d == [] || d[0] != 0 then 0 else 1 + LeadingZeros(d[1..])
  }

  lemma LeadingZerosAre(d: seq<nat>, n: nat)
    requires n <= |d| && (forall i :: 0 <= i < n ==> d[i] == 0) && (n < |d| ==> d[n] != 0)
    ensures LeadingZeros(d) == n
  {
  }

  /** The same number with the same leading zeros, in two bases. */
  ghost predicate Same(d: seq<nat>, b: nat, e: seq<nat>, c: nat) {
    LeadingZeros(d) == LeadingZeros(e) && Val(d, b) == Val(e, c)
  }

  lemma {:induction false} ValInjective(d: seq<nat>, e: seq<nat>, b: nat)
    requires |d| == |e| && Digits(d, b) && Digits(e, b) && Val(d, b) == Val(e, b)
    ensures d == e
  {
    if d != [] {
      var n := |d| - 1;
      LastDigit(Val(d[..n], b), d[n], Val(e[..n], b), e[n], b);
      ValInjective(d[..n], e[..n], b);
      assert d == d[..n] + [d[n]] && e == e[..n] + [e[n]];
    }
  }

  lemma LastDigit(v: nat, x: nat, w: nat, y: nat, b: nat)
    requires x < b && y < b && v * b + x == w * b + y
    ensures v == w && x == y
  {
    DivUnique(v * b + x, b, v);
    DivUnique(w * b + y, b, w);
  }

  /** A number with n digits and no leading zero is at least b^(n-1). */
  lemma TopDigit(d: seq<nat>, b: nat)
    requires d != [] && d[0] != 0
    ensures Val(d, b) >= Pow(b, |d| - 1)
  {
    assert d == [d[0]] + d[1..];
    ValHead(d[0], d[1..], b);
    MulMono(Pow(b, |d| - 1), 1, d[0]);
  }

  lemma NotLonger(d: seq<nat>, e: seq<nat>, b: nat)
    requires b > 0 && Digits(e, b) && Val(d, b) == Val(e, b)
    requires d != [] ==> d[0] != 0
    ensures |d| <= |e|
  {
    hide Val, Pow;
    if |d| > |e| {
      TopDigit(d, b);
      ValBound(e, b);
      PowExpMono(b, |e|, |d| - 1);
    }
  }

  /** Digits are determined by their number and their leading zeros. */
  lemma SameUnique(d: seq<nat>, e: seq<nat>, b: nat)
    requires b > 0 && Digits(d, b) && Digits(e, b) && Same(d, b, e, b)
    ensures d == e
  {
    hide Val, Pow;
    var z := LeadingZeros(d);
    var d', e' := d[z..], e[z..];
    assert d == d[..z] + d' && e == e[..z] + e';
    ValZeros(d[..z], d', b);
    ValZeros(e[..z], e', b);
    NotLonger(d', e', b);
    NotLonger(e', d', b);
    ValInjective(d, e, b);
  }

  // ----- Converting

  /** What the digit buffer holds after the first k source digits. */
  ghost predicate Converted(src: seq<nat>, from: nat, k: nat, buf: seq<nat>, to: nat, length: nat) {
    && k <= |src| && length <= |buf|
    && Digits(buf, to) && AllZero(buf[..|buf| - length])
    && Val(buf, to) == Val(src[..k], from)
  }

  lemma ConvertStart(src: seq<nat>, from: nat, buf: seq<nat>, to: nat)
    requires AllZero(buf) && to > 0
    ensures Converted(src, from, 0, buf, to, 0)
  {
    ValZeros(buf, [], to);
  }

  /** The next digit fits, because the whole number would. */
  lemma NextFits(src: seq<nat>, from: nat, k: nat, n: nat, to: nat, size: nat)
    requires from > 0 && k < |src| <= n && Digits(src, from) && Pow(from, n) <= Pow(to, size)
    ensures Val(src[..k + 1], from) == from * Val(src[..k], from) + src[k]
    ensures from * Val(src[..k], from) + src[k] < Pow(to, size)
  {
    assert src[..k + 1][..k] == src[..k];
    assert Val(src[..k + 1], from) == Val(src[..k], from) * from + src[k];
    hide Val, Pow;
    ValBound(src[..k + 1], from);
    PowExpMono(from, k + 1, n);
  }

  /** One source digit: the carry is always used up. */
  method AddDigit(ghost src: seq<nat>, from: nat, ghost k: nat, digit: nat, buf: array<nat>, to: nat, length: nat,
                  ghost n: nat)
    returns (length': nat)
    requires from > 0 && to > 0 && k < |src| <= n && Digits(src, from) && digit == src[k]
    requires Pow(from, n) <= Pow(to, buf.Length) && Converted(src, from, k, buf[..], to, length)
    modifies buf
    ensures Converted(src, from, k + 1, buf[..], to, length')
  {
    hide Val, Pow, Digits, AllZero;
    NextFits(src, from, k, n, to, buf.Length);
    assert buf[..buf.Length - length] == buf[..][..buf.Length - length];
    length' := MulAdd(buf, to, from, digit, length);
    assert buf[..buf.Length - length'] == buf[..][..buf.Length - length'];
  }

  /** The buffer without its leading zeros, behind the given number of zeros. */
  method Collect(zeroes: nat, buf: array<nat>, length: nat, ghost v: nat, b: nat) returns (out: seq<nat>)
    requires b > 0 && length <= buf.Length && Digits(buf[..], b) && AllZero(buf[..buf.Length - length])
    requires Val(buf[..], b) == v
    ensures Digits(out, b) && LeadingZeros(out) == zeroes && Val(out, b) == v
  {
    hide Val, Digits, AllZero;
    var it := FirstNonZero(buf, buf.Length - length);
    ghost var zs := buf[..it];
    var rest := buf[it..];
    assert buf[..] == zs + rest;
    ValZeros(zs, rest, b);
    out := Padded(zeroes, rest);
    PaddedIs(zeroes, rest, b);
    RestDigits(buf[..], it, b);
  }

  method FirstNonZero(buf: array<nat>, start: nat) returns (it: nat)
    requires start <= buf.Length && AllZero(buf[..start])
    ensures start <= it <= buf.Length && AllZero(buf[..it]) && (it < buf.Length ==> buf[it] != 0)
  {
    it := start;
    while it < buf.Length && buf[it] == 0
      invariant start <= it <= buf.Length && AllZero(buf[..it])
    {
      assert buf[..it + 1] == buf[..it] + [buf[it]];
      it := it + 1;
    }
  }

  function Padded(zeroes: nat, rest: seq<nat>): seq<nat> {
    seq(zeroes, _ => 0) + rest
  }

  lemma PaddedIs(zeroes: nat, rest: seq<nat>, b: nat)
    requires b > 0 && (rest != [] ==> rest[0] != 0)
    ensures LeadingZeros(Padded(zeroes, rest)) == zeroes && Val(Padded(zeroes, rest), b) == Val(rest, b)
    ensures Digits(rest, b) ==> Digits(Padded(zeroes, rest), b)
  {
    hide Val;
    ValZeros(seq(zeroes, _ => 0), rest, b);
    LeadingZerosAre(Padded(zeroes, rest), zeroes);
  }

  lemma RestDigits(buf: seq<nat>, it: nat, b: nat)
    requires it <= |buf| && Digits(buf, b)
    ensures Digits(buf[it..], b)
  {
  }

  // ----- Characters

  type Code = c: int | 0 < c < 256 witness 1
  type Text = seq<Code>

  /** The alphabet, by its runs of consecutive characters. */
  function Alphabet(d: nat): Code
    requires d < 58
  {
    if d < 9 then 49 + d
    else if d < 17 then 65 + (d - 9)
    else if d < 22 then 74 + (d - 17)
    else if d < 33 then 80 + (d - 22)
    else if d < 44 then 97 + (d - 33)
    else 109 + (d - 44)
  }

  /** The digit of a character, or -1. */
  function MapBase58(c: Code): (d: int)
    ensures -1 <= d < 58
  {
    if 49 <= c <= 57 then c - 49
    else if 65 <= c <= 72 then c - 65 + 9
    else if 74 <= c <= 78 then c - 74 + 17
    else if 80 <= c <= 90 then c - 80 + 22
    else if 97 <= c <= 107 then c - 97 + 33
    else if 109 <= c <= 122 then c - 109 + 44
    else -1
  }

  predicate IsSpace(c: Code) {
    c == 32 || 9 <= c <= 13
  }

  /** Tab, line feed, vertical tab, form feed, carriage return and space. */
  lemma SpacesAre(c: Code)
    ensures IsSpace(c) <==> c in {9, 10, 11, 12, 13, 32}
  {
  }

  lemma AlphabetMaps(d: nat, c: Code)
    ensures d < 58 ==> MapBase58(Alphabet(d)) == d && !IsSpace(Alphabet(d))
    ensures MapBase58(c) >= 0 ==> Alphabet(MapBase58(c)) == c && !IsSpace(c)
    ensures MapBase58(c) == 0 <==> c == 49
  {
  }

  /** The digits in order are the characters of the published alphabet. */
  lemma AlphabetIs(d: nat)
    requires d < 58
    ensures d < 33 ==> "123456789ABCDEFGHJKLMNPQRSTUVWXYZ"[d] as int == Alphabet(d)
    ensures d >= 33 ==> "abcdefghijkmnopqrstuvwxyz"[d - 33] as int == Alphabet(d)
  {
  }

  predicate InAlphabet(t: Text) {
    forall i :: 0 <= i < |t| ==> MapBase58(t[i]) >= 0
  }

  function DigitsOf(t: Text): (d: seq<nat>)
    requires InAlphabet(t)
    ensures |d| == |t| && forall i :: 0 <= i < |d| ==> d[i] == MapBase58(t[i])
  {
    seq(|t|, i requires 0 <= i < |t| => MapBase58(t[i]))
  }

  function TextOf(d: seq<nat>): (t: Text)
    requires Digits(d, 58)
    ensures |t| == |d| && forall i :: 0 <= i < |t| ==> t[i] == Alphabet(d[i])
  {
    seq(|d|, i requires 0 <= i < |d| => Alphabet(d[i]))
  }

  lemma TextOfDigits(d: seq<nat>, t: Text)
    ensures Digits(d, 58) ==> InAlphabet(TextOf(d)) && DigitsOf(TextOf(d)) == d
    ensures InAlphabet(t) ==> Digits(DigitsOf(t), 58) && TextOf(DigitsOf(t)) == t
  {
    if Digits(d, 58) {
      forall i | 0 <= i < |d| ensures MapBase58(TextOf(d)[i]) == d[i] {
        AlphabetMaps(d[i], 1);
      }
    }
    if InAlphabet(t) {
      forall i | 0 <= i < |t| ensures Alphabet(DigitsOf(t)[i]) == t[i] {
        AlphabetMaps(0, t[i]);
      }
    }
  }

  // ----- The two directions

  /** The text of some bytes: the same number, the same leading zeros. */
  ghost predicate IsEncoding(bytes: seq<nat>, t: Text) {
    InAlphabet(t) && Same(DigitsOf(t), 58, bytes, 256)
  }

  /** The byte 0x61 is written "2g". */
  lemma EncodingOfOneByte()
    ensures IsEncoding([0x61], [50, 103])
  {
    var t: Text := [50, 103];
    assert MapBase58(t[0]) == 1 && MapBase58(t[1]) == 39;
    var d := DigitsOf(t);
    assert d == [1, 39];
    assert [1, 39][..1] == [1] && [1][..0] == [] && [0x61][..0] == [];
    assert Val([], 58) == 0 && Val([1], 58) == 1 && Val(d, 58) == 97;
    assert Val([], 256) == 0 && Val([0x61], 256) == 97;
  }

  method EncodeBase58(bytes: seq<nat>) returns (t: Text)
    requires Digits(bytes, 256)
    ensures IsEncoding(bytes, t)
  {
    hide Val, Pow, AllZero;
    var zeroes := 0;
    while zeroes < |bytes| && bytes[zeroes] == 0
      invariant zeroes <= |bytes| && forall i :: 0 <= i < zeroes ==> bytes[i] == 0
    {
      zeroes := zeroes + 1;
    }
    LeadingZerosAre(bytes, zeroes);
    var rest := bytes[zeroes..];
    SkipZeros(bytes, zeroes, 256);
    var size := |rest| * 138 / 100 + 1;
    EncodeFits(|rest|);
    var b58 := new nat[size](_ => 0);
    BufferZero(b58[..]);
    ConvertStart(rest, 256, b58[..], 58);
    var length, p := 0, 0;
    while p < |rest|
      invariant 0 <= p <= |rest| && Converted(rest, 256, p, b58[..], 58, length)
    {
      hide Converted;
      length := AddDigit(rest, 256, p, rest[p], b58, 58, length, |rest|);
      p := p + 1;
    }
    assert rest[..p] == rest;
    assert b58[..b58.Length - length] == b58[..][..b58.Length - length];
    var digits := Collect(zeroes, b58, length, Val(rest, 256), 58);
    t := TextOf(digits);
    TextOfDigits(digits, []);
  }

  lemma BufferZero(buf: seq<nat>)
    requires forall i :: 0 <= i < |buf| ==> buf[i] == 0
    ensures AllZero(buf)
  {
  }

  lemma SkipZeros(d: seq<nat>, z: nat, b: nat)
    requires z <= |d| && forall i :: 0 <= i < z ==> d[i] == 0
    ensures Val(d[z..], b) == Val(d, b)
  {
    assert d == d[..z] + d[z..];
    ValZeros(d[..z], d[z..], b);
  }

  predicate AllSpaces(t: Text) {
    forall i :: 0 <= i < |t| ==> IsSpace(t[i])
  }

  /** The text is characters of the alphabet from i to j, with only white space around them. */
  predicate IsCore(s: Text, i: nat, j: nat) {
    i <= j <= |s| && AllSpaces(s[..i]) && InAlphabet(s[i..j]) && AllSpaces(s[j..])
  }

  /** Where the text starts, behind white space. */
  method SkipSpaces(s: Text, start: nat) returns (p: nat)
    requires start <= |s|
    ensures start <= p <= |s| && AllSpaces(s[start..p]) && (p < |s| ==> !IsSpace(s[p]))
  {
    p := start;
    while p < |s| && IsSpace(s[p])
      invariant start <= p <= |s| && AllSpaces(s[start..p])
    {
      assert s[start..p + 1] == s[start..p] + [s[p]];
      p := p + 1;
    }
  }

  /** Position k holds a character that is neither white space nor in the alphabet. */
  predicate IsBad(s: Text, k: nat) {
    k < |s| && MapBase58(s[k]) == -1 && !IsSpace(s[k])
  }

  /** Converts characters up to white space or the end; a character outside the alphabet fails. */
  method DecodeWord(s: Text, start: nat) returns (ok: bool, end: nat, length: nat, b256: array<nat>)
    requires start <= |s|
    ensures fresh(b256) && start <= end <= |s|
    ensures ok ==>
              && (end < |s| ==> IsSpace(s[end])) && InAlphabet(s[start..end])
              && Converted(DigitsOf(s[start..end]), 58, end - start, b256[..], 256, length)
    ensures !ok ==> IsBad(s, end)
  {
    hide Val, Pow, AllZero, MapBase58, IsSpace;
    var n := |s| - start;
    var size := n * 733 / 1000 + 1;
    DecodeFits(n);
    b256 := new nat[size](_ => 0);
    BufferZero(b256[..]);
    ConvertStart(DigitsOf(s[start..start]), 58, b256[..], 256);
    length, end := 0, start;
    while end < |s| && !IsSpace(s[end])
      invariant start <= end <= |s| && InAlphabet(s[start..end]) && fresh(b256) && b256.Length == size
      invariant Converted(DigitsOf(s[start..end]), 58, end - start, b256[..], 256, length)
    {
      hide Converted;
      var carry := MapBase58(s[end]);
      if carry == -1 {
        return false, end, length, b256;
      }
      ExtendWord(s, start, end, b256[..], length);
      length := AddDigit(DigitsOf(s[start..end + 1]), 58, end - start, carry, b256, 256, length, n);
      end := end + 1;
    }
    ok := true;
  }

  lemma ExtendWord(s: Text, start: nat, p: nat, buf: seq<nat>, length: nat)
    requires start <= p < |s| && InAlphabet(s[start..p]) && MapBase58(s[p]) >= 0
    requires Converted(DigitsOf(s[start..p]), 58, p - start, buf, 256, length)
    ensures InAlphabet(s[start..p + 1]) && Digits(DigitsOf(s[start..p + 1]), 58)
    ensures DigitsOf(s[start..p + 1])[p - start] == MapBase58(s[p])
    ensures Converted(DigitsOf(s[start..p + 1]), 58, p - start, buf, 256, length)
  {
    hide MapBase58, Val;
    assert s[start..p + 1] == s[start..p] + [s[p]];
    assert DigitsOf(s[start..p + 1])[..p - start] == DigitsOf(s[start..p])[..p - start];
  }

  method CountOnes(s: Text, start: nat) returns (p: nat)
    requires start <= |s|
    ensures start <= p <= |s| && (forall i :: start <= i < p ==> s[i] == 49) && (p < |s| ==> s[p] != 49)
  {
    p := start;
    while p < |s| && s[p] == 49
      invariant start <= p <= |s| && forall i :: start <= i < p ==> s[i] == 49
    {
      p := p + 1;
    }
  }

  /**
   Skips white space on both sides; what is left must be in the alphabet.  The bytes are the
   same number with the same leading zeros.
   */
  method DecodeBase58(s: Text) returns (r: Option<seq<nat>>)
    ensures r.Some? <==> exists i: nat, j: nat :: IsCore(s, i, j)
    ensures r.Some? ==> Digits(r.value, 256)
    ensures forall i: nat, j: nat :: IsCore(s, i, j) ==> r.Some? && IsEncoding(r.value, s[i..j])
  {
    hide Val, AllZero, MapBase58, IsSpace, AllSpaces, InAlphabet, IsEncoding, Converted;
    var first := SkipSpaces(s, 0);
    var start := CountOnes(s, first);
    var ok, end, length, b256 := DecodeWord(s, start);
    if !ok {
      BadHasNoCore(s, end);
      return None;
    }
    var last := SkipSpaces(s, end);
    assert s[..first] == s[0..first];
    if last != |s| {
      GapHasNoCore(s, first, start, end, last);
      return None;
    }
    assert s[end..last] == s[end..];
    ConvertedWhole(s, start, end, b256, length);
    var bytes := Collect(start - first, b256, length, Val(DigitsOf(s[start..end]), 58), 256);
    CoreFound(s, first, start, end, bytes);
    forall i: nat, j: nat | IsCore(s, i, j) ensures s[i..j] == s[first..end] {
      CoreUnique(s, i, j, first, end);
    }
    r := Some(bytes);
  }

  lemma ConvertedWhole(s: Text, start: nat, end: nat, buf: array<nat>, length: nat)
    requires start <= end <= |s| && InAlphabet(s[start..end])
    requires Converted(DigitsOf(s[start..end]), 58, end - start, buf[..], 256, length)
    ensures length <= buf.Length && Digits(buf[..], 256) && AllZero(buf[..buf.Length - length])
    ensures Val(buf[..], 256) == Val(DigitsOf(s[start..end]), 58)
  {
    var d := DigitsOf(s[start..end]);
    assert d[..end - start] == d;
    assert buf[..][..buf.Length - length] == buf[..buf.Length - length];
  }

  /** Every position of a text with a core is white space or in the alphabet, as its place says. */
  lemma CorePlaces(s: Text, i: nat, j: nat, k: nat)
    requires IsCore(s, i, j) && k < |s|
    ensures if i <= k < j then MapBase58(s[k]) >= 0 && !IsSpace(s[k]) else IsSpace(s[k])
  {
    if k < i {
      assert IsSpace(s[..i][k]);
    } else if k < j {
      assert MapBase58(s[i..j][k - i]) >= 0;
      AlphabetMaps(0, s[k]);
    } else {
      assert IsSpace(s[j..][k - j]);
    }
  }

  lemma BadHasNoCore(s: Text, k: nat)
    requires IsBad(s, k)
    ensures forall i: nat, j: nat :: !IsCore(s, i, j)
  {
    hide IsCore, MapBase58, IsSpace;
    forall i: nat, j: nat | IsCore(s, i, j) ensures false {
      CorePlaces(s, i, j, k);
    }
  }

  /** White space between two words. */
  lemma GapHasNoCore(s: Text, first: nat, start: nat, end: nat, last: nat)
    requires first <= start <= end <= last < |s| && (first < |s| ==> !IsSpace(s[first])) && !IsSpace(s[last])
    requires (end < |s| ==> IsSpace(s[end])) && AllSpaces(s[end..last])
    ensures forall i: nat, j: nat :: !IsCore(s, i, j)
  {
    hide IsCore, MapBase58, IsSpace;
    forall i: nat, j: nat | IsCore(s, i, j) ensures false {
      CorePlaces(s, i, j, first);
      CorePlaces(s, i, j, end);
      CorePlaces(s, i, j, last);
    }
  }

  /** One core lies within the other. */
  lemma Within(s: Text, i: nat, j: nat, a: nat, e: nat)
    requires IsCore(s, i, j) && IsCore(s, a, e) && i < j
    ensures a <= i && j <= e
  {
    assert j <= |s|;
    hide IsCore, MapBase58, IsSpace;
    CorePlaces(s, i, j, i);
    CorePlaces(s, a, e, i);
    CorePlaces(s, i, j, j - 1);
    CorePlaces(s, a, e, j - 1);
  }

  lemma CoreUnique(s: Text, i: nat, j: nat, a: nat, e: nat)
    requires IsCore(s, i, j) && IsCore(s, a, e)
    ensures s[i..j] == s[a..e]
  {
    assert i <= j <= |s| && a <= e <= |s|;
    hide IsCore, MapBase58, IsSpace;
    if i < j {
      Within(s, i, j, a, e);
    }
    if a < e {
      Within(s, a, e, i, j);
    }
    if i == j {
      assert s[i..j] == [] && s[a..e] == [];
    } else {
      assert i == a && j == e;
    }
  }

  /** The ones are the leading zero digits of the word. */
  lemma CoreFound(s: Text, first: nat, start: nat, end: nat, bytes: seq<nat>)
    requires first <= start <= end <= |s| && AllSpaces(s[..first]) && AllSpaces(s[end..])
    requires (forall i :: first <= i < start ==> s[i] == 49) && (start < |s| ==> s[start] != 49)
    requires InAlphabet(s[start..end])
    requires LeadingZeros(bytes) == start - first && Val(bytes, 256) == Val(DigitsOf(s[start..end]), 58)
    ensures IsCore(s, first, end) && IsEncoding(bytes, s[first..end])
  {
    hide Val, IsSpace;
    var t := s[first..end];
    forall i | 0 <= i < |t|
      ensures MapBase58(t[i]) >= 0 && (i < start - first ==> MapBase58(t[i]) == 0)
      ensures i == start - first ==> MapBase58(t[i]) != 0
    {
      if i >= start - first {
        assert t[i] == s[start..end][i - (start - first)];
      }
      AlphabetMaps(0, t[i]);
    }
    var d := DigitsOf(t);
    LeadingZerosAre(d, start - first);
    SkipZeros(d, start - first, 58);
    assert d[start - first..] == DigitsOf(s[start..end]);
  }

  // ----- Round trips

  method EncodeThenDecode(bytes: seq<nat>) returns (r: Option<seq<nat>>)
    requires Digits(bytes, 256)
    ensures r == Some(bytes)
  {
    hide Val;
    var t := EncodeBase58(bytes);
    r := DecodeBase58(t);
    assert t[0..|t|] == t;
    assert IsCore(t, 0, |t|);
    SameUnique(r.value, bytes, 256);
  }

  /** Encoding what a text decodes to gives the text back, without white space around it. */
  method DecodeThenEncode(s: Text) returns (t: Option<Text>)
    ensures t.Some? <==> exists i: nat, j: nat :: IsCore(s, i, j)
    ensures forall i: nat, j: nat :: IsCore(s, i, j) ==> t == Some(s[i..j])
    ensures InAlphabet(s) ==> t == Some(s)
  {
    hide Val, AllSpaces, InAlphabet, IsEncoding, MapBase58;
    var r := DecodeBase58(s);
    WholeIsCore(s);
    if r.None? {
      return None;
    }
    var e := EncodeBase58(r.value);
    forall i: nat, j: nat | IsCore(s, i, j) ensures e == s[i..j] {
      TextUnique(r.value, e, s[i..j]);
    }
    t := Some(e);
  }

  lemma WholeIsCore(s: Text)
    ensures InAlphabet(s) ==> IsCore(s, 0, |s|) && s[0..|s|] == s
  {
    assert s[0..|s|] == s;
  }

  lemma TextUnique(bytes: seq<nat>, t: Text, u: Text)
    requires IsEncoding(bytes, t) && IsEncoding(bytes, u)
    ensures t == u
  {
    hide Val, MapBase58;
    TextOfDigits([], t);
    TextOfDigits([], u);
    SameUnique(DigitsOf(t), DigitsOf(u), 58);
  }
}
