/**
 Compact targets (arith_uint256::SetCompact and GetCompact in src/arith_uint256.cpp) and the
 work of a block (GetBlockProof in src/chain.cpp).

 A compact number holds a byte count, a sign bit and a 23-bit mantissa.
 */
module CompactTarget {
  import opened ArithUint
  import opened Numbers

  const MANTISSA: nat := 0x80_0000
  const SIZE_UNIT: nat := 0x100_0000

  /** 256 to the power k. */
  function Bytes(k: nat): (r: nat)
    ensures r > 0
  {
    Pow2(8 * k)
  }

  lemma BytesNext(k: nat)
    ensures Bytes(k + 1) == 256 * Bytes(k)
  {
    Pow2Add(8, 8 * k);
    assert Pow2(8) == 256;
  }

  lemma BytesAdd(j: nat, k: nat)
    ensures Bytes(j + k) == Bytes(j) * Bytes(k)
  {
    Pow2Add(8 * j, 8 * k);
  }

  lemma BytesMono(j: nat, k: nat)
    requires j <= k
    ensures Bytes(j) <= Bytes(k)
  {
    Pow2Mono(8 * j, 8 * k);
  }

  lemma SmallBytes()
    ensures Bytes(0) == 1 && Bytes(1) == 256 && Bytes(2) == 0x1_0000 && Bytes(3) == SIZE_UNIT
  {
    BytesNext(0);
    BytesNext(1);
    BytesNext(2);
  }

  function Times(x: nat, y: nat): nat {
    x * y
  }

  // ----- What a compact number says

  function Size(c: nat): nat {
    c / SIZE_UNIT
  }

  function Word(c: nat): (w: nat)
    ensures w < MANTISSA
  {
    c % MANTISSA
  }

  predicate SignBit(c: nat) {
    c / MANTISSA % 2 == 1
  }

  /** The mantissa scaled to its byte count; a short count drops low bytes of it. */
  function Magnitude(c: nat): nat {
    if Size(c) <= 3 then Quotient(Word(c), Bytes(3 - Size(c))) else Times(Word(c), Bytes(Size(c) - 3))
  }

  /** The sign counts only for a nonzero mantissa. */
  predicate IsNegative(c: nat) {
    SignBit(c) && Magnitude(c) != 0
  }

  /** Compact forms with a known value. */
  lemma KnownCompacts()
    ensures Magnitude(0x00123456) == 0 && Magnitude(0x01123456) == 0x12 && Magnitude(0x02123456) == 0x1234
    ensures Magnitude(0x03123456) == 0x123456 && Magnitude(0x04123456) == 0x12345600
    ensures Magnitude(0x05009234) == 0x92340000 && !IsNegative(0x05009234)
    ensures Magnitude(0x04923456) == 0x12345600 && IsNegative(0x04923456) && !IsNegative(0x01803456)
  {
    assert Pow2(0) == 1 && Pow2(8) == 0x100 && Pow2(16) == 0x1_0000 && Pow2(24) == 0x100_0000;
    hide Pow2;
  }

  /** The comparison of size and mantissa is exactly the question whether the magnitude fits. */
  lemma OverflowIff(word: nat, size: nat)
    requires word < MANTISSA && size > 3
    ensures word * Bytes(size - 3) >= Bytes(32)
       <==> word != 0 && (size > 34 || (word > 0xff && size > 33) || (word > 0xffff && size > 32))
  {
    hide Bytes;
    if size > 34 {
      BytesMono(32, size - 3);
      if word > 0 {
        MulMono(Bytes(size - 3), 1, word);
      }
    } else if size > 32 {
      BytesNext(30);
      BytesNext(31);
      var unit := if size == 34 then 256 else 0x1_0000;
      assert Bytes(32) == unit * Bytes(size - 3);
      if word >= unit {
        MulMono(Bytes(size - 3), unit, word);
      } else {
        ScaleLess(word, unit, Bytes(size - 3));
      }
    } else {
      ScaleLess(word, SIZE_UNIT, Bytes(size - 3));
      SmallBytes();
      BytesAdd(3, size - 3);
      BytesMono(size, 32);
    }
  }

  lemma LowMagnitude(word: nat, size: nat)
    requires word < MANTISSA && size <= 3
    ensures word / Bytes(3 - size) < Bytes(32)
  {
    hide Bytes;
    SmallBytes();
    BytesMono(3, 32);
    QuotientSmaller(word, Bytes(3 - size));
  }

  lemma QuotientSmaller(x: nat, d: nat)
    requires d > 0
    ensures x / d <= x
  {
    MulMono(x / d, 1, d);
  }

  lemma RangeOfTarget()
    ensures Range(8) == Bytes(32)
  {
    PowWord(8);
  }

  method SetCompact(t: BaseUint, c: nat) returns (negative: bool, overflow: bool)
    requires t.pn.Length == 8 && c < WORD
    modifies t.pn
    ensures t.V() == Magnitude(c) % Bytes(32)
    ensures negative <==> IsNegative(c)
    ensures overflow <==> Magnitude(c) >= Bytes(32)
  {
    hide Value, Range, Pow2, Bytes;
    var nSize, nWord := c / SIZE_UNIT, c % MANTISSA;
    RangeOfTarget();
    if nSize <= 3 {
      LowMagnitude(nWord, nSize);
      QuotientSmaller(nWord, Bytes(3 - nSize));
      nWord := nWord / Bytes(3 - nSize);
      t.SetU64(nWord);
      ModUnique(nWord, Bytes(32), nWord, 0);
    } else {
      t.SetU64(nWord);
      ShlByBytes(nSize - 3);
      t.Shl(8 * (nSize - 3));
      OverflowIff(nWord, nSize);
      ProductZero(nWord, Bytes(nSize - 3));
    }
    negative := nWord != 0 && c / MANTISSA % 2 == 1;
    overflow := nWord != 0 && (nSize > 34 || (nWord > 0xff && nSize > 33) || (nWord > 0xffff && nSize > 32));
  }

  lemma ShlByBytes(k: nat)
    ensures Pow2(8 * k) == Bytes(k)
  {
  }

  lemma ProductZero(x: nat, y: nat)
    requires y > 0
    ensures x * y == 0 <==> x == 0
  {
    if x > 0 {
      MulMono(y, 1, x);
    }
  }

  // ----- The compact form of a number

  /** The number of bytes of v without leading zero bytes. */
  function ByteLength(v: nat): nat {
    if v == 0 then 0 else 1 + ByteLength(v / 256)
  }

  /** v has n bytes. */
  predicate HasLength(v: nat, n: nat) {
    if v == 0 then n == 0 else n > 0 && Bytes(n - 1) <= v < Bytes(n)
  }

  lemma {:induction false} LengthIsRight(v: nat)
    ensures HasLength(v, ByteLength(v))
  {
    hide Bytes;
    SmallBytes();
    if v >= 256 {
      LengthIsRight(v / 256);
      BytesNext(ByteLength(v / 256));
      BytesNext(ByteLength(v / 256) - 1);
    } else if v > 0 {
      assert ByteLength(v / 256) == 0;
    }
  }

  lemma LengthIsUnique(v: nat, m: nat, n: nat)
    requires HasLength(v, m) && HasLength(v, n)
    ensures m == n
  {
    hide Bytes;
    if m < n {
      BytesMono(m, n - 1);
    } else if n < m {
      BytesMono(n, m - 1);
    }
  }

  /** Rounding a bit length up to bytes gives the byte length. */
  lemma LengthFromBits(v: nat, bits: nat)
    requires IsBitLength(v, bits)
    ensures ByteLength(v) == (bits + 7) / 8
  {
    var n := (bits + 7) / 8;
    if v > 0 {
      Pow2Mono(bits, 8 * n);
      Pow2Mono(8 * (n - 1), bits - 1);
    }
    LengthIsRight(v);
    LengthIsUnique(v, n, ByteLength(v));
  }

  /** The top three bytes of v, which has n bytes. */
  function TopBytes(v: nat, n: nat): nat {
    if n <= 3 then Times(v, Bytes(3 - n)) else Quotient(v, Bytes(n - 3))
  }

  lemma TopBytesRange(v: nat, n: nat)
    requires HasLength(v, n)
    ensures TopBytes(v, n) < SIZE_UNIT
    ensures v > 0 ==> 0x1_0000 <= TopBytes(v, n)
  {
    hide Bytes;
    SmallBytes();
    if n == 0 {
    } else if n <= 3 {
      BytesAdd(n, 3 - n);
      BytesAdd(n - 1, 3 - n);
      ScaleLess(v, Bytes(n), Bytes(3 - n));
      MulMono(Bytes(3 - n), Bytes(n - 1), v);
    } else {
      BytesAdd(n - 3, 3);
      BytesAdd(n - 3, 2);
      QuotientBounds(v, Bytes(n - 3), 0x1_0000, SIZE_UNIT);
    }
  }

  lemma QuotientBounds(v: nat, d: nat, low: nat, high: nat)
    requires d > 0 && d * low <= v < d * high
    ensures low <= v / d < high
  {
    var q := v / d;
    assert d * q <= v < d * q + d;
    if q < low {
      MulMono(d, q + 1, low);
      MulDist(d, q, 1);
    } else if q >= high {
      MulMono(d, high, q);
    }
  }

  /** The final byte count: one more when the top bit would read as a sign. */
  function CompactSize(v: nat): nat {
    var n := ByteLength(v);
    if TopBytes(v, n) >= MANTISSA then n + 1 else n
  }

  function CompactWord(v: nat): nat {
    var m := TopBytes(v, ByteLength(v));
    if m >= MANTISSA then m / 256 else m
  }

  function Compact(v: nat, negative: bool): nat {
    SIZE_UNIT * CompactSize(v) + CompactWord(v) + (if negative && CompactWord(v) != 0 then MANTISSA else 0)
  }

  lemma CompactWordRange(v: nat)
    ensures CompactWord(v) < MANTISSA
    ensures CompactWord(v) == 0 <==> v == 0
  {
    hide Bytes, ByteLength, HasLength;
    LengthIsRight(v);
    TopBytesRange(v, ByteLength(v));
    if v == 0 {
      assert TopBytes(v, ByteLength(v)) == 0 by {
        ZeroLength();
      }
    }
  }

  lemma ZeroLength()
    ensures ByteLength(0) == 0
  {
  }

  /** A compact number reads back as its parts. */
  lemma CompactParts(v: nat, negative: bool)
    ensures var c := Compact(v, negative);
      && Size(c) == CompactSize(v) && Word(c) == CompactWord(v)
      && (SignBit(c) <==> negative && v != 0)
  {
    hide CompactSize, CompactWord;
    CompactWordRange(v);
    var sign := if negative && CompactWord(v) != 0 then 1 else 0;
    var c := Compact(v, negative);
    assert c == MANTISSA * (2 * CompactSize(v) + sign) + CompactWord(v);
    DivUnique(c, MANTISSA, 2 * CompactSize(v) + sign);
    DivUnique(c, SIZE_UNIT, CompactSize(v));
  }

  /** How many low bytes the compact form of v drops. */
  function Dropped(v: nat): nat {
    if CompactSize(v) <= 3 then 0 else CompactSize(v) - 3
  }

  /** v with its k low bytes cleared. */
  function Cleared(v: nat, k: nat): nat {
    Times(Quotient(v, Bytes(k)), Bytes(k))
  }

  /** The mantissa is v without the dropped bytes, lined up at three bytes when v is short. */
  lemma WordIsTop(v: nat)
    ensures CompactSize(v) <= 3 ==> CompactWord(v) == v * Bytes(3 - CompactSize(v))
    ensures CompactSize(v) > 3 ==> CompactWord(v) == v / Bytes(CompactSize(v) - 3)
  {
    hide Bytes, ByteLength;
    var n := ByteLength(v);
    if TopBytes(v, n) >= MANTISSA {
      SmallBytes();
      if n <= 2 {
        BytesNext(2 - n);
        MulSwap(v, 256, Bytes(2 - n));
      } else if n == 3 {
        assert v * Bytes(0) == v;
      } else {
        BytesNext(n - 3);
        DivDiv(v, Bytes(n - 3), 256);
      }
    }
  }

  /**
   Reading a compact form back gives the number with only its dropped low bytes cleared, with
   the sign it was given, and never an overflow.
   */
  lemma CompactReadsBack(v: nat, negative: bool)
    requires v < Bytes(32)
    ensures var c := Compact(v, negative);
      && c < WORD
      && Magnitude(c) == Cleared(v, Dropped(v)) < Bytes(32)
      && (IsNegative(c) <==> negative && v != 0)
  {
    hide Bytes, CompactSize, CompactWord, Compact, SignBit;
    CompactParts(v, negative);
    CompactWordRange(v);
    WordIsTop(v);
    CompactFits(v, negative);
    ClearedSmaller(v, Dropped(v));
    var n := CompactSize(v);
    if n <= 3 {
      SmallBytes();
      DivUnique(v * Bytes(3 - n), Bytes(3 - n), v);
      assert v / 1 * 1 == v;
    }
    if v != 0 {
      MagnitudeNonZero(v, Compact(v, negative));
    }
  }

  lemma MagnitudeNonZero(v: nat, c: nat)
    requires v != 0 && Magnitude(c) == Cleared(v, Dropped(v))
    ensures Magnitude(c) != 0
  {
    hide Bytes, Magnitude, CompactSize, CompactWord;
    CompactWordRange(v);
    WordIsTop(v);
    SmallBytes();
    if CompactSize(v) > 3 {
      ProductZero(CompactWord(v), Bytes(Dropped(v)));
    } else {
      assert v / 1 * 1 == v;
    }
  }

  lemma ClearedSmaller(v: nat, k: nat)
    ensures v - Bytes(k) < Cleared(v, k) <= v
  {
    hide Bytes;
    assert v == Bytes(k) * (v / Bytes(k)) + v % Bytes(k);
  }

  lemma CompactFits(v: nat, negative: bool)
    requires v < Bytes(32)
    ensures CompactSize(v) <= 33 && Compact(v, negative) < WORD
  {
    hide Bytes, CompactWord, ByteLength;
    CompactWordRange(v);
    LengthIsRight(v);
    if ByteLength(v) > 32 {
      BytesMono(32, ByteLength(v) - 1);
    }
  }

  /** Compacting again changes nothing. */
  lemma CompactIsStable(v: nat, negative: bool)
    ensures Compact(Cleared(v, Dropped(v)), negative) == Compact(v, negative)
  {
    hide Bytes, ByteLength, HasLength, TopBytes, CompactSize, CompactWord;
    var w, n := Cleared(v, Dropped(v)), ByteLength(v);
    if CompactSize(v) <= 3 {
      SmallBytes();
      assert v / 1 * 1 == v;
    } else {
      SameLength(v);
      SameTop(v);
    }
    SameParts(v, w);
  }

  lemma SameParts(v: nat, w: nat)
    requires w == v || (ByteLength(w) == ByteLength(v) && SameMantissa(v, w))
    ensures CompactSize(w) == CompactSize(v) && CompactWord(w) == CompactWord(v)
  {
  }

  /** The top bytes agree, or agree in all that a shortened mantissa keeps. */
  predicate SameMantissa(v: nat, w: nat) {
    var m, m' := TopBytes(v, ByteLength(v)), TopBytes(w, ByteLength(w));
    m' == if m >= MANTISSA then m / 256 * 256 else m
  }

  lemma SameLength(v: nat)
    requires CompactSize(v) > 3
    ensures ByteLength(Cleared(v, Dropped(v))) == ByteLength(v)
  {
    hide Bytes, ByteLength, TopBytes;
    var n, k := ByteLength(v), Dropped(v);
    LengthIsRight(v);
    var w := Cleared(v, k);
    ClearedSmaller(v, k);
    if v > 0 {
      assert k <= n - 1;
      BytesAdd(k, n - 1 - k);
      QuotientAtLeast(v, Bytes(k), Bytes(n - 1 - k));
      LengthIsRight(w);
      LengthIsUnique(w, ByteLength(w), n);
    }
  }

  lemma QuotientAtLeast(v: nat, d: nat, f: nat)
    requires d > 0 && d * f <= v
    ensures d * f <= v / d * d
  {
    var q := v / d;
    assert v < d * q + d;
    if q < f {
      MulMono(d, q + 1, f);
      MulDist(d, q, 1);
    } else {
      MulMono(d, f, q);
    }
  }

  lemma SameTop(v: nat)
    requires CompactSize(v) > 3 && ByteLength(Cleared(v, Dropped(v))) == ByteLength(v)
    ensures SameMantissa(v, Cleared(v, Dropped(v)))
  {
    hide Bytes, ByteLength;
    var n, k := ByteLength(v), Dropped(v);
    SmallBytes();
    if n == 3 {
      assert TopBytes(v, n) == v && TopBytes(Cleared(v, k), n) == Cleared(v, k);
    } else if k == n - 3 {
      DivUnique(v / Bytes(k) * Bytes(k), Bytes(k), v / Bytes(k));
    } else {
      BytesNext(n - 3);
      DivDiv(v, Bytes(n - 3), 256);
      var q := v / Bytes(k);
      MulSwap(q, 256, Bytes(n - 3));
      DivUnique(q * Bytes(k), Bytes(n - 3), 256 * q);
    }
  }

  // ----- Computing the compact form

  lemma OrSignBit(a: nat, x: nat)
    requires x < MANTISSA
    ensures Or(SIZE_UNIT * a + x, MANTISSA) == SIZE_UNIT * a + x + MANTISSA
  {
    hide Or;
    Pow2Is23();
    OrSplit(2 * a, x, 1, 0, 23);
    OrZero(x);
    OrSum(2 * a, 1, 1);
  }

  lemma Pow2Is23()
    ensures Pow2(23) == MANTISSA && Pow2(24) == SIZE_UNIT && Pow2(0) == 1 && Pow2(1) == 2
  {
    SmallBytes();
    assert Pow2(24) == 2 * Pow2(23);
  }

  /** Or works on the high and the low bits separately. */
  lemma {:induction false} OrSplit(a: nat, x: nat, b: nat, y: nat, k: nat)
    requires x < Pow2(k) && y < Pow2(k)
    ensures Or(a * Pow2(k) + x, b * Pow2(k) + y) == Or(a, b) * Pow2(k) + Or(x, y)
  {
    if k == 0 {
      OrZero(0);
      assert a * Pow2(0) == a && b * Pow2(0) == b && Or(a, b) * Pow2(0) == Or(a, b);
    } else {
      OrSplit(a, x / 2, b, y / 2, k - 1);
      OrSplitNext(a, x, b, y, Pow2(k - 1));
    }
  }

  lemma OrSplitNext(a: nat, x: nat, b: nat, y: nat, p: nat)
    requires Or(a * p + x / 2, b * p + y / 2) == Or(a, b) * p + Or(x / 2, y / 2)
    ensures Or(a * (2 * p) + x, b * (2 * p) + y) == Or(a, b) * (2 * p) + Or(x, y)
  {
    hide Or;
    OrHalves(a * p, x, b * p, y);
    OrHalves(0, x, 0, y);
    MulSwap(a, 2, p);
    MulSwap(b, 2, p);
    MulSwap(Or(a, b), 2, p);
  }

  lemma OrHalves(a: nat, x: nat, b: nat, y: nat)
    ensures Or(2 * a + x, 2 * b + y)
         == (if x % 2 == 1 || y % 2 == 1 then 1 else 0) + 2 * Or(a + x / 2, b + y / 2)
  {
    assert (2 * a + x) / 2 == a + x / 2 && (2 * b + y) / 2 == b + y / 2;
    if 2 * a + x == 0 && 2 * b + y == 0 {
      OrZero(0);
    }
  }

  /** The top bytes, as a shift of the low or of the high part computes them. */
  method TopThree(t: BaseUint, nSize: nat) returns (m: nat)
    requires t.pn.Length == 8 && HasLength(t.V(), nSize)
    ensures m == TopBytes(t.V(), nSize)
  {
    hide Value, Range, Pow2, Bytes, HasLength;
    TopBytesRange(t.V(), nSize);
    if nSize <= 3 {
      var low := t.GetLow64();
      LowIsAll(t.V(), nSize);
      StaysLow(t.V());
      StaysLow(low * Bytes(3 - nSize));
      m := low * Bytes(3 - nSize) % (WORD * WORD) % WORD;
    } else {
      var bn := new BaseUint.Copy(t);
      ShlByBytes(nSize - 3);
      bn.Shr(8 * (nSize - 3));
      var low := bn.GetLow64();
      StaysLow(bn.V());
      m := low % WORD;
    }
  }

  lemma StaysLow(x: nat)
    requires x < WORD
    ensures x % (WORD * WORD) == x && x % WORD == x
  {
  }

  lemma LowIsAll(v: nat, n: nat)
    requires HasLength(v, n) && n <= 3
    ensures v < WORD
  {
    hide Bytes;
    SmallBytes();
    if v > 0 {
      BytesMono(n, 3);
    }
  }

  method GetCompact(t: BaseUint, fNegative: bool) returns (c: nat)
    requires t.pn.Length == 8
    ensures c == Compact(t.V(), fNegative)
  {
    hide Value, Range, Pow2, Bytes, HasLength, ByteLength, TopBytes, IsBitLength, Or;
    ghost var v := t.V();
    var bits := t.Bits();
    LengthFromBits(v, bits);
    LengthIsRight(v);
    TopBytesRange(v, ByteLength(v));
    var nSize := (bits + 7) / 8;
    c := TopThree(t, nSize);
    if c / MANTISSA % 2 == 1 {
      c := c / 256;
      nSize := nSize + 1;
    }
    CompactWordRange(v);
    FitsTarget(t);
    CompactFits(v, false);
    assert c < MANTISSA && nSize < 256;
    c := Assemble(c, nSize, fNegative);
  }

  /** Puts size and sign into the word, bit by bit. */
  method Assemble(word: nat, nSize: nat, fNegative: bool) returns (c: nat)
    requires word < MANTISSA && nSize < 256
    ensures c == SIZE_UNIT * nSize + word + (if fNegative && word != 0 then MANTISSA else 0)
  {
    hide Or;
    Pow2Is23();
    OrSum(SIZE_UNIT * nSize, word, 24);
    c := Or(word, SIZE_UNIT * nSize);
    DivUnique(c, MANTISSA, 2 * nSize);
    OrSignBit(nSize, word);
    OrZero(c);
    c := Or(c, if fNegative && c % MANTISSA != 0 then MANTISSA else 0);
  }

  lemma FitsTarget(t: BaseUint)
    requires t.pn.Length == 8
    ensures t.V() < Bytes(32)
  {
    ValueBound(t.pn[..]);
    RangeOfTarget();
  }

  /** Encoding and decoding in place: only the dropped bytes are cleared. */
  method CompactAndBack(t: BaseUint, fNegative: bool) returns (negative: bool, overflow: bool)
    requires t.pn.Length == 8
    modifies t.pn
    ensures t.V() == Cleared(old(t.V()), Dropped(old(t.V())))
    ensures !overflow && (negative <==> fNegative && old(t.V()) != 0)
  {
    hide Magnitude, IsNegative, Compact, Cleared, Dropped, Bytes;
    FitsTarget(t);
    CompactReadsBack(t.V(), fNegative);
    ModUnique(Cleared(t.V(), Dropped(t.V())), Bytes(32), Cleared(t.V(), Dropped(t.V())), 0);
    var c := GetCompact(t, fNegative);
    negative, overflow := SetCompact(t, c);
  }

  // ----- The work of a block

  /** A target that fits is never all ones, so adding one does not wrap. */
  lemma TargetPlusOne(c: nat)
    requires Magnitude(c) < Bytes(32)
    ensures Magnitude(c) + 1 < Bytes(32)
  {
    hide Bytes;
    BytesNext(31);
    if Size(c) <= 3 {
      SmallBytes();
      BytesMono(3, 31);
      QuotientSmaller(Word(c), Bytes(3 - Size(c)));
    } else {
      BytesNext(Size(c) - 4);
      MulSwap(Word(c), 256, Bytes(Size(c) - 4));
    }
  }

  /** 2^256 / (t + 1), computed without 2^256. */
  lemma ProofIsFloor(m: nat, t: nat)
    requires t + 1 < m
    ensures (m - 1 - t) / (t + 1) + 1 == m / (t + 1)
  {
    var d := t + 1;
    var q := m / d;
    MulDist(d, q, 1);
    assert m == d * q + m % d;
    DivUnique(m - d, d, q - 1);
  }

  lemma ProofFits(m: nat, t: nat)
    requires 0 < t && t + 1 < m
    ensures 0 < m / (t + 1) < m
  {
    QuotientBounds(m, t + 1, 1, m);
    MulMono(m, 2, t + 1);
  }

  method GetBlockProof(nBits: nat) returns (proof: BaseUint)
    requires nBits < WORD
    ensures fresh(proof) && fresh(proof.pn) && proof.pn.Length == 8
    ensures var t := Magnitude(nBits);
      proof.V() == if IsNegative(nBits) || t >= Bytes(32) || t == 0 then 0 else Bytes(32) / (t + 1)
  {
    hide Value, Range, Pow2, Bytes, Magnitude, IsNegative;
    var target := new BaseUint(8);
    var negative, overflow := SetCompact(target, nBits);
    var zero := target.EqualTo(0);
    ghost var t := Magnitude(nBits);
    if !overflow {
      ModUnique(t, Bytes(32), t, 0);
    }
    if negative || overflow || zero {
      proof := new BaseUint(8);
      return;
    }
    RangeOfTarget();
    TargetPlusOne(nBits);
    ProofIsFloor(Bytes(32), t);
    ProofFits(Bytes(32), t);
    proof := target.Complement();
    target.AddU64(1);
    ModUnique(t + 1, Bytes(32), t + 1, 0);
    var ok, _ := proof.Div(target);
    proof.AddU64(1);
    ModUnique(Bytes(32) / (t + 1), Bytes(32), Bytes(32) / (t + 1), 0);
  }
}
