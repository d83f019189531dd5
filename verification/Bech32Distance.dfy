/**
 How many errors the Bech32 checksum detects (src/bech32.cpp, the comment in PolyMod).

 The checksum is the remainder of a polynomial over the 32 symbols. Its generator has three
 consecutive powers of one element of order 1023 as roots in the field of 1024 elements, so
 that any three symbols changed within 1023 places of each other change the remainder.
 */
module Bech32Distance {
  import opened Bech32
  import opened Numbers
  import F = Field1024

  // ----- Symbols in the field of 1024 elements

  /** The symbols form a field, generated by {2}; this is it inside the larger one, with {2} as z^330. */
  function Embed(q: Quint): F.Element {
    F.Element(q[0] != (q[2] != q[3]), q[3] != q[4], q[2] != (q[3] != q[4]), q[2] != q[4], q[3],
              (q[1] != q[2]) != (q[3] != q[4]), q[1] != (q[2] != q[4]), false, q[1] != q[4], q[2] != q[3])
  }

  lemma EmbedXor(q: Quint, r: Quint)
    ensures Embed(XorBits(q, r)) == F.Add(Embed(q), Embed(r))
  {
    F.AddIs(Embed(q), Embed(r));
  }

  lemma EmbedZero(q: Quint)
    requires Embed(q) == F.ZERO
    ensures q == NO_BITS
  {
  }

  lemma EmbedNothing()
    ensures Embed(NO_BITS) == F.ZERO
  {
  }

  // ----- Polynomials of degree five and their values

  datatype Poly = Poly(p0: F.Element, p1: F.Element, p2: F.Element, p3: F.Element, p4: F.Element, p5: F.Element)

  ghost function Level(x: F.Element, b: F.Element, y: F.Element): F.Element {
    F.Add(x, F.Mul(b, y))
  }

  ghost function Value(p: Poly, b: F.Element): F.Element {
    Level(p.p0, b, Level(p.p1, b, Level(p.p2, b, Level(p.p3, b, Level(p.p4, b, p.p5)))))
  }

  ghost function AddPoly(p: Poly, r: Poly): Poly {
    Poly(F.Add(p.p0, r.p0), F.Add(p.p1, r.p1), F.Add(p.p2, r.p2),
         F.Add(p.p3, r.p3), F.Add(p.p4, r.p4), F.Add(p.p5, r.p5))
  }

  lemma LevelAdd(x: F.Element, u: F.Element, b: F.Element, y: F.Element, v: F.Element)
    ensures Level(F.Add(x, u), b, F.Add(y, v)) == F.Add(Level(x, b, y), Level(u, b, v))
  {
    hide F.Mul, F.Add;
    F.MulAdd(y, v, b);
    F.FourTerms(x, u, F.Mul(b, y), F.Mul(b, v));
  }

  lemma ValueAdd(p: Poly, r: Poly, b: F.Element)
    ensures Value(AddPoly(p, r), b) == F.Add(Value(p, b), Value(r, b))
  {
    hide F.Mul, F.Add, Level;
    var x4, y4 := Level(p.p4, b, p.p5), Level(r.p4, b, r.p5);
    var x3, y3 := Level(p.p3, b, x4), Level(r.p3, b, y4);
    var x2, y2 := Level(p.p2, b, x3), Level(r.p2, b, y3);
    var x1, y1 := Level(p.p1, b, x2), Level(r.p1, b, y2);
    LevelAdd(p.p4, r.p4, b, p.p5, r.p5);
    LevelAdd(p.p3, r.p3, b, x4, y4);
    LevelAdd(p.p2, r.p2, b, x3, y3);
    LevelAdd(p.p1, r.p1, b, x2, y2);
    LevelAdd(p.p0, r.p0, b, x1, y1);
  }

  /** The product with the sixth power. */
  ghost function Six(b: F.Element, x: F.Element): F.Element {
    F.Mul(b, F.Mul(b, F.Mul(b, F.Mul(b, F.Mul(b, F.Mul(b, x))))))
  }

  lemma SixAdd(b: F.Element, x: F.Element, y: F.Element)
    ensures Six(b, F.Add(x, y)) == F.Add(Six(b, x), Six(b, y))
  {
    hide F.Mul, F.Add;
    F.MulAdd(x, y, b);
    var x1, y1 := F.Mul(b, x), F.Mul(b, y);
    F.MulAdd(x1, y1, b);
    var x2, y2 := F.Mul(b, x1), F.Mul(b, y1);
    F.MulAdd(x2, y2, b);
    var x3, y3 := F.Mul(b, x2), F.Mul(b, y2);
    F.MulAdd(x3, y3, b);
    var x4, y4 := F.Mul(b, x3), F.Mul(b, y3);
    F.MulAdd(x4, y4, b);
    F.MulAdd(F.Mul(b, x4), F.Mul(b, y4), b);
  }

  lemma LevelSum(x: F.Element, b: F.Element, y: F.Element, w: F.Element)
    ensures Level(x, b, F.Add(y, w)) == F.Add(Level(x, b, y), F.Mul(b, w))
  {
    hide F.Mul, F.Add;
    F.MulAdd(y, w, b);
    F.AddAssoc(x, F.Mul(b, y), F.Mul(b, w));
  }

  /** Multiplying by x, the leading coefficient set apart. */
  lemma ValueShift(e: F.Element, p: Poly, b: F.Element)
    ensures Level(e, b, Value(p, b)) == F.Add(Value(Poly(e, p.p0, p.p1, p.p2, p.p3, p.p4), b), Six(b, p.p5))
  {
    hide F.Mul, F.Add;
    var w1 := F.Mul(b, p.p5);
    var w2 := F.Mul(b, w1);
    var w3 := F.Mul(b, w2);
    var w4 := F.Mul(b, w3);
    var w5 := F.Mul(b, w4);
    var y3 := Level(p.p3, b, p.p4);
    var y2 := Level(p.p2, b, y3);
    var y1 := Level(p.p1, b, y2);
    var y0 := Level(p.p0, b, y1);
    assert Level(p.p4, b, p.p5) == F.Add(p.p4, w1);
    hide Level;
    LevelSum(p.p3, b, p.p4, w1);
    LevelSum(p.p2, b, y3, w2);
    LevelSum(p.p1, b, y2, w3);
    LevelSum(p.p0, b, y1, w4);
    LevelSum(e, b, y0, w5);
  }

  // ----- The table of the generator

  // Multiples of the generator, less their leading terms: what each bit of the leading coefficient feeds back.
  const TABLE0: Poly :=
    Poly(F.Element(false, true, true, true, false, false, false, false, false, false),
         F.Element(true, false, true, false, true, true, false, false, true, false),
         F.Element(false, true, false, false, false, false, false, false, true, true),
         F.Element(true, true, false, false, false, false, false, false, true, true),
         F.Element(true, true, false, false, false, true, true, false, false, true),
         F.Element(true, false, true, false, true, true, false, false, true, false))
  const TABLE1: Poly :=
    Poly(F.Element(true, true, false, true, true, false, true, false, false, false),
         F.Element(true, true, true, true, false, false, false, false, false, false),
         F.Element(true, false, false, false, false, true, true, false, true, false),
         F.Element(true, false, false, false, false, false, false, false, false, false),
         F.Element(false, false, true, true, false, true, true, false, false, true),
         F.Element(true, true, true, true, false, false, false, false, false, false))
  const TABLE2: Poly :=
    Poly(F.Element(true, false, false, true, true, true, false, false, false, true),
         F.Element(true, true, false, true, true, true, false, false, true, false),
         F.Element(true, false, true, true, false, false, false, false, true, true),
         F.Element(false, false, false, false, false, true, true, false, true, false),
         F.Element(true, true, true, false, true, false, true, false, true, true),
         F.Element(true, true, false, true, true, true, false, false, true, false))
  const TABLE3: Poly :=
    Poly(F.Element(true, false, true, false, true, true, false, false, true, false),
         F.Element(false, false, true, false, true, false, true, false, false, false),
         F.Element(false, true, false, true, true, false, true, false, false, false),
         F.Element(true, false, true, true, false, true, true, false, false, true),
         F.Element(true, true, false, false, false, false, false, false, true, true),
         F.Element(false, false, true, false, true, false, true, false, false, false))
  const TABLE4: Poly :=
    Poly(F.Element(true, true, true, true, false, false, false, false, false, false),
         F.Element(false, true, false, false, false, false, false, false, true, true),
         F.Element(true, false, false, true, true, false, true, false, true, true),
         F.Element(true, true, true, false, true, true, false, false, false, true),
         F.Element(true, false, false, false, false, false, false, false, false, false),
         F.Element(false, true, false, false, false, false, false, false, true, true))

  // The symbols {1}, {2}, {4}, {8} and {16}.
  const UNIT0: F.Element := F.Element(true, false, false, false, false, false, false, false, false, false)
  const UNIT1: F.Element := F.Element(false, false, false, false, false, true, true, false, true, false)
  const UNIT2: F.Element := F.Element(true, false, true, true, false, true, true, false, false, true)
  const UNIT3: F.Element := F.Element(true, true, true, false, true, true, false, false, false, true)
  const UNIT4: F.Element := F.Element(false, true, true, true, false, true, true, false, true, false)

  // ----- The three roots

  /** The roots of the generator that are used. */
  function Root(j: nat): F.Element {
    if j == 0 then F.ROOT0 else if j == 1 then F.ROOT1 else F.ROOT2
  }

  /** Multiplication by a root, bit by bit. */
  function TimesRoot(j: nat, u: F.Element): F.Element {
    if j == 0 then F.TimesRoot0(u) else if j == 1 then F.TimesRoot1(u) else F.TimesRoot2(u)
  }

  lemma TimesRootIs(j: nat, u: F.Element)
    ensures F.Mul(Root(j), u) == TimesRoot(j, u)
  {
    hide F.Mul, F.TimesRoot0, F.TimesRoot1, F.TimesRoot2;
    F.TimesRoot0Is(u);
    F.TimesRoot1Is(u);
    F.TimesRoot2Is(u);
  }

  function ValueAt(j: nat, p: Poly): F.Element {
    F.Xor(p.p0, TimesRoot(j, F.Xor(p.p1, TimesRoot(j, F.Xor(p.p2, TimesRoot(j,
      F.Xor(p.p3, TimesRoot(j, F.Xor(p.p4, TimesRoot(j, p.p5))))))))))
  }

  function SixAt(j: nat, x: F.Element): F.Element {
    TimesRoot(j, TimesRoot(j, TimesRoot(j, TimesRoot(j, TimesRoot(j, TimesRoot(j, x))))))
  }

  lemma LevelAt(j: nat, x: F.Element, y: F.Element)
    ensures Level(x, Root(j), y) == F.Xor(x, TimesRoot(j, y))
  {
    hide F.Mul, F.Add, F.Xor, TimesRoot;
    TimesRootIs(j, y);
    F.AddIs(x, TimesRoot(j, y));
  }

  lemma ByRoot(j: nat, p: Poly, x: F.Element)
    ensures Value(p, Root(j)) == ValueAt(j, p) && Six(Root(j), x) == SixAt(j, x)
  {
    hide F.Mul, F.Xor, TimesRoot, Level, Root;
    LevelAt(j, p.p4, p.p5);
    var y4 := F.Xor(p.p4, TimesRoot(j, p.p5));
    LevelAt(j, p.p3, y4);
    var y3 := F.Xor(p.p3, TimesRoot(j, y4));
    LevelAt(j, p.p2, y3);
    var y2 := F.Xor(p.p2, TimesRoot(j, y3));
    LevelAt(j, p.p1, y2);
    LevelAt(j, p.p0, F.Xor(p.p1, TimesRoot(j, y2)));
    TimesRootIs(j, x);
    var x1 := TimesRoot(j, x);
    TimesRootIs(j, x1);
    var x2 := TimesRoot(j, x1);
    TimesRootIs(j, x2);
    var x3 := TimesRoot(j, x2);
    TimesRootIs(j, x3);
    var x4 := TimesRoot(j, x3);
    TimesRootIs(j, x4);
    TimesRootIs(j, TimesRoot(j, x4));
  }

  lemma TableAt0(j: nat)
    requires j < 3
    ensures Value(TABLE0, Root(j)) == Six(Root(j), UNIT0)
  {
    ByRoot(j, TABLE0, UNIT0);
    hide F.Mul, Value, Six, Root;
    if j == 0 {
      assert ValueAt(0, TABLE0) == SixAt(0, UNIT0);
    } else if j == 1 {
      assert ValueAt(1, TABLE0) == SixAt(1, UNIT0);
    } else {
      assert ValueAt(2, TABLE0) == SixAt(2, UNIT0);
    }
  }

  lemma TableAt1(j: nat)
    requires j < 3
    ensures Value(TABLE1, Root(j)) == Six(Root(j), UNIT1)
  {
    ByRoot(j, TABLE1, UNIT1);
    hide F.Mul, Value, Six, Root;
    if j == 0 {
      assert ValueAt(0, TABLE1) == SixAt(0, UNIT1);
    } else if j == 1 {
      assert ValueAt(1, TABLE1) == SixAt(1, UNIT1);
    } else {
      assert ValueAt(2, TABLE1) == SixAt(2, UNIT1);
    }
  }

  lemma TableAt2(j: nat)
    requires j < 3
    ensures Value(TABLE2, Root(j)) == Six(Root(j), UNIT2)
  {
    ByRoot(j, TABLE2, UNIT2);
    hide F.Mul, Value, Six, Root;
    if j == 0 {
      assert ValueAt(0, TABLE2) == SixAt(0, UNIT2);
    } else if j == 1 {
      assert ValueAt(1, TABLE2) == SixAt(1, UNIT2);
    } else {
      assert ValueAt(2, TABLE2) == SixAt(2, UNIT2);
    }
  }

  lemma TableAt3(j: nat)
    requires j < 3
    ensures Value(TABLE3, Root(j)) == Six(Root(j), UNIT3)
  {
    ByRoot(j, TABLE3, UNIT3);
    hide F.Mul, Value, Six, Root;
    if j == 0 {
      assert ValueAt(0, TABLE3) == SixAt(0, UNIT3);
    } else if j == 1 {
      assert ValueAt(1, TABLE3) == SixAt(1, UNIT3);
    } else {
      assert ValueAt(2, TABLE3) == SixAt(2, UNIT3);
    }
  }

  lemma TableAt4(j: nat)
    requires j < 3
    ensures Value(TABLE4, Root(j)) == Six(Root(j), UNIT4)
  {
    ByRoot(j, TABLE4, UNIT4);
    hide F.Mul, Value, Six, Root;
    if j == 0 {
      assert ValueAt(0, TABLE4) == SixAt(0, UNIT4);
    } else if j == 1 {
      assert ValueAt(1, TABLE4) == SixAt(1, UNIT4);
    } else {
      assert ValueAt(2, TABLE4) == SixAt(2, UNIT4);
    }
  }

  // ----- A step of the checksum multiplies by x

  /** The leading symbol of a state. */
  function Top(c: State): Quint {
    c[25..30]
  }

  function Coefficients(c: State): Poly {
    Poly(Embed(c[0..5]), Embed(c[5..10]), Embed(c[10..15]), Embed(c[15..20]), Embed(c[20..25]), Embed(Top(c)))
  }

  function TableQuint(k: nat, d: nat): (r: Quint)
    ensures forall i :: 0 <= i < 5 ==> r[i] == BitOf(k, 5 * d + i)
  {
    seq(5, i requires 0 <= i < 5 => BitOf(k, 5 * d + i))
  }

  function TablePoly(k: nat): Poly {
    Poly(Embed(TableQuint(k, 0)), Embed(TableQuint(k, 1)), Embed(TableQuint(k, 2)),
         Embed(TableQuint(k, 3)), Embed(TableQuint(k, 4)), Embed(TableQuint(k, 5)))
  }

  function Mask(b: bool, q: Quint): Quint {
    if b then q else NO_BITS
  }

  function FeedbackQuint(c: State, d: nat): (r: Quint)
    ensures forall i :: 0 <= i < 5 ==> r[i] == Feedback(c, 5 * d + i)
  {
    seq(5, i requires 0 <= i < 5 => Feedback(c, 5 * d + i))
  }

  lemma MaskBit(b: bool, k: nat, d: nat, i: nat)
    requires i < 5
    ensures Mask(b, TableQuint(k, d))[i] == (b && BitOf(k, 5 * d + i))
  {
  }

  lemma FeedbackSplit(c: State, d: nat)
    ensures FeedbackQuint(c, d)
            == XorBits(XorBits(XorBits(XorBits(Mask(c[25], TableQuint(K0, d)), Mask(c[26], TableQuint(K1, d))),
                                       Mask(c[27], TableQuint(K2, d))), Mask(c[28], TableQuint(K3, d))),
                       Mask(c[29], TableQuint(K4, d)))
  {
    hide BitOf, Mask;
    var m0, m1, m2, m3, m4 := Mask(c[25], TableQuint(K0, d)), Mask(c[26], TableQuint(K1, d)),
                              Mask(c[27], TableQuint(K2, d)), Mask(c[28], TableQuint(K3, d)),
                              Mask(c[29], TableQuint(K4, d));
    forall i | 0 <= i < 5
      ensures FeedbackQuint(c, d)[i] == XorBits(XorBits(XorBits(XorBits(m0, m1), m2), m3), m4)[i]
    {
      MaskBit(c[25], K0, d, i);
      MaskBit(c[26], K1, d, i);
      MaskBit(c[27], K2, d, i);
      MaskBit(c[28], K3, d, i);
      MaskBit(c[29], K4, d, i);
    }
  }

  lemma EmbedMask(b: bool, q: Quint)
    ensures Embed(Mask(b, q)) == F.Pick(b, Embed(q))
  {
    EmbedNothing();
  }

  /** A sum of those of five elements whose bits are set. */
  ghost function Fed(c: State, t0: F.Element, t1: F.Element, t2: F.Element, t3: F.Element, t4: F.Element): F.Element {
    F.Add(F.Add(F.Add(F.Add(F.Pick(c[25], t0), F.Pick(c[26], t1)), F.Pick(c[27], t2)), F.Pick(c[28], t3)),
          F.Pick(c[29], t4))
  }

  lemma EmbedFeedback(c: State, d: nat)
    ensures Embed(FeedbackQuint(c, d))
            == Fed(c, Embed(TableQuint(K0, d)), Embed(TableQuint(K1, d)), Embed(TableQuint(K2, d)),
                   Embed(TableQuint(K3, d)), Embed(TableQuint(K4, d)))
  {
    FeedbackSplit(c, d);
    hide Embed, Mask, FeedbackQuint, TableQuint, F.Add, F.Pick, XorBits;
    var m0, m1, m2, m3, m4 := Mask(c[25], TableQuint(K0, d)), Mask(c[26], TableQuint(K1, d)),
                              Mask(c[27], TableQuint(K2, d)), Mask(c[28], TableQuint(K3, d)),
                              Mask(c[29], TableQuint(K4, d));
    var x1 := XorBits(m0, m1);
    var x2 := XorBits(x1, m2);
    var x3 := XorBits(x2, m3);
    EmbedXor(m0, m1);
    EmbedXor(x1, m2);
    EmbedXor(x2, m3);
    EmbedXor(x3, m4);
    EmbedMask(c[25], TableQuint(K0, d));
    EmbedMask(c[26], TableQuint(K1, d));
    EmbedMask(c[27], TableQuint(K2, d));
    EmbedMask(c[28], TableQuint(K3, d));
    EmbedMask(c[29], TableQuint(K4, d));
  }

  lemma PowersOfTwo()
    ensures Pow2(0) == 0x1 && Pow2(1) == 0x2 && Pow2(2) == 0x4 && Pow2(3) == 0x8 && Pow2(4) == 0x10
    ensures Pow2(5) == 0x20 && Pow2(6) == 0x40 && Pow2(7) == 0x80 && Pow2(8) == 0x100 && Pow2(9) == 0x200
    ensures Pow2(10) == 0x400 && Pow2(11) == 0x800 && Pow2(12) == 0x1000 && Pow2(13) == 0x2000 && Pow2(14) == 0x4000
    ensures Pow2(15) == 0x8000 && Pow2(16) == 0x10000 && Pow2(17) == 0x20000
    ensures Pow2(18) == 0x40000 && Pow2(19) == 0x80000
    ensures Pow2(20) == 0x100000 && Pow2(21) == 0x200000 && Pow2(22) == 0x400000
    ensures Pow2(23) == 0x800000 && Pow2(24) == 0x1000000
    ensures Pow2(25) == 0x2000000 && Pow2(26) == 0x4000000 && Pow2(27) == 0x8000000
    ensures Pow2(28) == 0x10000000 && Pow2(29) == 0x20000000
  {
  }

  lemma TableBits0()
    ensures !BitOf(K0, 0) && BitOf(K0, 1) && !BitOf(K0, 2) && !BitOf(K0, 3) && BitOf(K0, 4)
    ensures BitOf(K0, 5) && !BitOf(K0, 6) && BitOf(K0, 7) && BitOf(K0, 8) && BitOf(K0, 9)
    ensures BitOf(K0, 10) && !BitOf(K0, 11) && BitOf(K0, 12) && !BitOf(K0, 13) && BitOf(K0, 14)
    ensures !BitOf(K0, 15) && !BitOf(K0, 16) && BitOf(K0, 17) && !BitOf(K0, 18) && BitOf(K0, 19)
    ensures !BitOf(K0, 20) && BitOf(K0, 21) && BitOf(K0, 22) && !BitOf(K0, 23) && BitOf(K0, 24)
    ensures BitOf(K0, 25) && !BitOf(K0, 26) && BitOf(K0, 27) && BitOf(K0, 28) && BitOf(K0, 29)
  {
    PowersOfTwo();
    hide Pow2;
  }

  lemma TableIs0()
    ensures TablePoly(K0) == TABLE0
  {
    TableBits0();
    hide BitOf;
  }

  lemma TableBits1()
    ensures BitOf(K1, 0) && !BitOf(K1, 1) && BitOf(K1, 2) && BitOf(K1, 3) && !BitOf(K1, 4)
    ensures BitOf(K1, 5) && BitOf(K1, 6) && !BitOf(K1, 7) && !BitOf(K1, 8) && BitOf(K1, 9)
    ensures BitOf(K1, 10) && BitOf(K1, 11) && !BitOf(K1, 12) && !BitOf(K1, 13) && !BitOf(K1, 14)
    ensures BitOf(K1, 15) && !BitOf(K1, 16) && !BitOf(K1, 17) && !BitOf(K1, 18) && !BitOf(K1, 19)
    ensures BitOf(K1, 20) && !BitOf(K1, 21) && BitOf(K1, 22) && !BitOf(K1, 23) && !BitOf(K1, 24)
    ensures BitOf(K1, 25) && BitOf(K1, 26) && !BitOf(K1, 27) && !BitOf(K1, 28) && BitOf(K1, 29)
  {
    PowersOfTwo();
    hide Pow2;
  }

  lemma TableIs1()
    ensures TablePoly(K1) == TABLE1
  {
    TableBits1();
    hide BitOf;
  }

  lemma TableBits2()
    ensures !BitOf(K2, 0) && BitOf(K2, 1) && !BitOf(K2, 2) && BitOf(K2, 3) && BitOf(K2, 4)
    ensures BitOf(K2, 5) && BitOf(K2, 6) && BitOf(K2, 7) && BitOf(K2, 8) && !BitOf(K2, 9)
    ensures !BitOf(K2, 10) && BitOf(K2, 11) && BitOf(K2, 12) && !BitOf(K2, 13) && !BitOf(K2, 14)
    ensures !BitOf(K2, 15) && BitOf(K2, 16) && !BitOf(K2, 17) && !BitOf(K2, 18) && !BitOf(K2, 19)
    ensures !BitOf(K2, 20) && BitOf(K2, 21) && !BitOf(K2, 22) && BitOf(K2, 23) && !BitOf(K2, 24)
    ensures BitOf(K2, 25) && BitOf(K2, 26) && BitOf(K2, 27) && BitOf(K2, 28) && !BitOf(K2, 29)
  {
    PowersOfTwo();
    hide Pow2;
  }

  lemma TableIs2()
    ensures TablePoly(K2) == TABLE2
  {
    TableBits2();
    hide BitOf;
  }

  lemma TableBits3()
    ensures BitOf(K3, 0) && !BitOf(K3, 1) && BitOf(K3, 2) && BitOf(K3, 3) && BitOf(K3, 4)
    ensures !BitOf(K3, 5) && BitOf(K3, 6) && BitOf(K3, 7) && BitOf(K3, 8) && BitOf(K3, 9)
    ensures !BitOf(K3, 10) && !BitOf(K3, 11) && BitOf(K3, 12) && BitOf(K3, 13) && !BitOf(K3, 14)
    ensures !BitOf(K3, 15) && !BitOf(K3, 16) && BitOf(K3, 17) && !BitOf(K3, 18) && !BitOf(K3, 19)
    ensures !BitOf(K3, 20) && !BitOf(K3, 21) && BitOf(K3, 22) && !BitOf(K3, 23) && BitOf(K3, 24)
    ensures !BitOf(K3, 25) && BitOf(K3, 26) && BitOf(K3, 27) && BitOf(K3, 28) && BitOf(K3, 29)
  {
    PowersOfTwo();
    hide Pow2;
  }

  lemma TableIs3()
    ensures TablePoly(K3) == TABLE3
  {
    TableBits3();
    hide BitOf;
  }

  lemma TableBits4()
    ensures BitOf(K4, 0) && BitOf(K4, 1) && !BitOf(K4, 2) && !BitOf(K4, 3) && BitOf(K4, 4)
    ensures BitOf(K4, 5) && !BitOf(K4, 6) && BitOf(K4, 7) && !BitOf(K4, 8) && BitOf(K4, 9)
    ensures !BitOf(K4, 10) && !BitOf(K4, 11) && !BitOf(K4, 12) && BitOf(K4, 13) && BitOf(K4, 14)
    ensures !BitOf(K4, 15) && !BitOf(K4, 16) && !BitOf(K4, 17) && BitOf(K4, 18) && !BitOf(K4, 19)
    ensures BitOf(K4, 20) && !BitOf(K4, 21) && !BitOf(K4, 22) && !BitOf(K4, 23) && !BitOf(K4, 24)
    ensures BitOf(K4, 25) && !BitOf(K4, 26) && BitOf(K4, 27) && !BitOf(K4, 28) && BitOf(K4, 29)
  {
    PowersOfTwo();
    hide Pow2;
  }

  lemma TableIs4()
    ensures TablePoly(K4) == TABLE4
  {
    TableBits4();
    hide BitOf;
  }

  function FeedbackPoly(c: State): Poly {
    Poly(Embed(FeedbackQuint(c, 0)), Embed(FeedbackQuint(c, 1)), Embed(FeedbackQuint(c, 2)),
         Embed(FeedbackQuint(c, 3)), Embed(FeedbackQuint(c, 4)), Embed(FeedbackQuint(c, 5)))
  }

  lemma StepQuint(c: State, v: Quint, d: nat)
    requires d < 6
    ensures Step(c, v)[5 * d..5 * d + 5]
            == XorBits(if d == 0 then v else c[5 * d - 5..5 * d], FeedbackQuint(c, d))
  {
    hide Feedback;
  }

  lemma StepCoefficients(c: State, v: Quint)
    ensures var p := Coefficients(c);
      Coefficients(Step(c, v)) == AddPoly(Poly(Embed(v), p.p0, p.p1, p.p2, p.p3, p.p4), FeedbackPoly(c))
  {
    hide Embed, Step, FeedbackQuint, F.Add;
    StepQuint(c, v, 0);
    StepQuint(c, v, 1);
    StepQuint(c, v, 2);
    StepQuint(c, v, 3);
    StepQuint(c, v, 4);
    StepQuint(c, v, 5);
    EmbedXor(v, FeedbackQuint(c, 0));
    EmbedXor(c[0..5], FeedbackQuint(c, 1));
    EmbedXor(c[5..10], FeedbackQuint(c, 2));
    EmbedXor(c[10..15], FeedbackQuint(c, 3));
    EmbedXor(c[15..20], FeedbackQuint(c, 4));
    EmbedXor(c[20..25], FeedbackQuint(c, 5));
  }

  function PickPoly(b: bool, p: Poly): Poly {
    Poly(F.Pick(b, p.p0), F.Pick(b, p.p1), F.Pick(b, p.p2), F.Pick(b, p.p3), F.Pick(b, p.p4), F.Pick(b, p.p5))
  }

  lemma ValuePick(x: bool, p: Poly, b: F.Element)
    ensures Value(PickPoly(x, p), b) == F.Pick(x, Value(p, b))
  {
    hide F.Mul, F.Add;
    F.MulZero(b);
    F.AddZero(F.ZERO);
  }

  ghost function FedPoly(c: State): Poly {
    AddPoly(AddPoly(AddPoly(AddPoly(PickPoly(c[25], TABLE0), PickPoly(c[26], TABLE1)), PickPoly(c[27], TABLE2)),
                    PickPoly(c[28], TABLE3)), PickPoly(c[29], TABLE4))
  }

  lemma FeedbackIs(c: State)
    ensures FeedbackPoly(c) == FedPoly(c)
  {
    hide Embed, FeedbackQuint, TableQuint, F.Add, F.Pick, TABLE0, TABLE1, TABLE2, TABLE3, TABLE4;
    TableIs0();
    TableIs1();
    TableIs2();
    TableIs3();
    TableIs4();
    EmbedFeedback(c, 0);
    EmbedFeedback(c, 1);
    EmbedFeedback(c, 2);
    EmbedFeedback(c, 3);
    EmbedFeedback(c, 4);
    EmbedFeedback(c, 5);
  }

  lemma FedValue(c: State, b: F.Element)
    ensures Value(FedPoly(c), b)
            == Fed(c, Value(TABLE0, b), Value(TABLE1, b), Value(TABLE2, b), Value(TABLE3, b), Value(TABLE4, b))
  {
    hide Value, AddPoly, PickPoly, F.Add, F.Pick, TABLE0, TABLE1, TABLE2, TABLE3, TABLE4;
    var p0, p1, p2, p3, p4 := PickPoly(c[25], TABLE0), PickPoly(c[26], TABLE1), PickPoly(c[27], TABLE2),
                              PickPoly(c[28], TABLE3), PickPoly(c[29], TABLE4);
    var x1 := AddPoly(p0, p1);
    var x2 := AddPoly(x1, p2);
    var x3 := AddPoly(x2, p3);
    ValueAdd(p0, p1, b);
    ValueAdd(x1, p2, b);
    ValueAdd(x2, p3, b);
    ValueAdd(x3, p4, b);
    ValuePick(c[25], TABLE0, b);
    ValuePick(c[26], TABLE1, b);
    ValuePick(c[27], TABLE2, b);
    ValuePick(c[28], TABLE3, b);
    ValuePick(c[29], TABLE4, b);
  }

  lemma EmbedUnits(c: State)
    ensures Embed(Top(c)) == Fed(c, UNIT0, UNIT1, UNIT2, UNIT3, UNIT4)
  {
    var p0, p1, p2, p3, p4 := F.Pick(c[25], UNIT0), F.Pick(c[26], UNIT1), F.Pick(c[27], UNIT2),
                              F.Pick(c[28], UNIT3), F.Pick(c[29], UNIT4);
    F.AddIs(p0, p1);
    var x1 := F.Xor(p0, p1);
    F.AddIs(x1, p2);
    var x2 := F.Xor(x1, p2);
    F.AddIs(x2, p3);
    var x3 := F.Xor(x2, p3);
    F.AddIs(x3, p4);
  }

  predicate IsRoot(b: F.Element) {
    b == F.ROOT0 || b == F.ROOT1 || b == F.ROOT2
  }

  lemma RootTable(b: F.Element)
    requires IsRoot(b)
    ensures Value(TABLE0, b) == Six(b, UNIT0) && Value(TABLE1, b) == Six(b, UNIT1)
    ensures Value(TABLE2, b) == Six(b, UNIT2) && Value(TABLE3, b) == Six(b, UNIT3)
    ensures Value(TABLE4, b) == Six(b, UNIT4)
  {
    hide Value, Six;
    var j := if b == F.ROOT0 then 0 else if b == F.ROOT1 then 1 else 2;
    assert Root(j) == b;
    TableAt0(j);
    TableAt1(j);
    TableAt2(j);
    TableAt3(j);
    TableAt4(j);
  }

  lemma SixPick(x: bool, u: F.Element, b: F.Element)
    ensures F.Pick(x, Six(b, u)) == Six(b, F.Pick(x, u))
  {
    hide F.Mul;
    F.MulZero(b);
  }

  lemma SixFed(c: State, b: F.Element, t0: F.Element, t1: F.Element, t2: F.Element, t3: F.Element, t4: F.Element)
    ensures Fed(c, Six(b, t0), Six(b, t1), Six(b, t2), Six(b, t3), Six(b, t4)) == Six(b, Fed(c, t0, t1, t2, t3, t4))
  {
    hide Six, F.Add, F.Pick;
    SixPick(c[25], t0, b);
    SixPick(c[26], t1, b);
    SixPick(c[27], t2, b);
    SixPick(c[28], t3, b);
    SixPick(c[29], t4, b);
    var x1 := F.Add(F.Pick(c[25], t0), F.Pick(c[26], t1));
    var x2 := F.Add(x1, F.Pick(c[27], t2));
    var x3 := F.Add(x2, F.Pick(c[28], t3));
    SixAdd(b, F.Pick(c[25], t0), F.Pick(c[26], t1));
    SixAdd(b, x1, F.Pick(c[27], t2));
    SixAdd(b, x2, F.Pick(c[28], t3));
    SixAdd(b, x3, F.Pick(c[29], t4));
  }

  /** At a root, what is fed back is what was shifted out. */
  lemma FeedbackValue(c: State, b: F.Element)
    requires IsRoot(b)
    ensures Value(FeedbackPoly(c), b) == Six(b, Embed(Top(c)))
  {
    hide *;
    hide TABLE0, TABLE1, TABLE2, TABLE3, TABLE4, UNIT0, UNIT1, UNIT2, UNIT3, UNIT4;
    FeedbackIs(c);
    FedValue(c, b);
    RootTable(b);
    SixFed(c, b, UNIT0, UNIT1, UNIT2, UNIT3, UNIT4);
    EmbedUnits(c);
  }

  /** So a step is multiplication by the root, and adding the symbol. */
  lemma StepValue(c: State, v: Quint, b: F.Element)
    requires IsRoot(b)
    ensures Value(Coefficients(Step(c, v)), b) == Level(Embed(v), b, Value(Coefficients(c), b))
  {
    hide Value, Level, Embed, Step, AddPoly, FeedbackPoly, IsRoot, F.Add, Six;
    var p := Coefficients(c);
    StepCoefficients(c, v);
    ValueAdd(Poly(Embed(v), p.p0, p.p1, p.p2, p.p3, p.p4), FeedbackPoly(c), b);
    FeedbackValue(c, b);
    ValueShift(Embed(v), p, b);
  }

  ghost function At(c: State, b: F.Element): F.Element {
    Value(Coefficients(c), b)
  }

  lemma AtZero(b: F.Element)
    ensures At(ZERO, b) == F.ZERO
  {
    assert ZERO[0..5] == NO_BITS && ZERO[5..10] == NO_BITS && ZERO[10..15] == NO_BITS;
    assert ZERO[15..20] == NO_BITS && ZERO[20..25] == NO_BITS && ZERO[25..30] == NO_BITS;
    EmbedNothing();
    hide F.Mul, F.Add, Embed;
    F.MulZero(b);
    F.AddZero(F.ZERO);
  }

  lemma {:induction false} AtZeros(c: State, n: nat, b: F.Element)
    requires IsRoot(b)
    ensures At(Run(c, Zeros(n)), b) == F.Mul(F.Power(b, n), At(c, b))
  {
    hide IsRoot, Value, Coefficients, Step, F.Mul, Embed, F.Add;
    if n == 0 {
      F.MulCommutes(F.ONE, At(c, b));
      F.MulOne(At(c, b));
    } else {
      assert Zeros(n)[..n - 1] == Zeros(n - 1);
      AtZeros(c, n - 1, b);
      var s := Run(c, Zeros(n - 1));
      StepValue(s, NO_BITS, b);
      EmbedNothing();
      F.AddZero(F.Mul(b, At(s, b)));
      F.MulAssoc(b, F.Power(b, n - 1), At(c, b));
    }
  }

  // ----- Three errors

  /** The word with three symbols, m and k zeros apart. */
  function Sparse(e: Quint, m: nat, f: Quint, k: nat, g: Quint): seq<Quint> {
    [e] + Zeros(m) + [f] + Zeros(k) + [g]
  }

  lemma RunOne(c: State, v: Quint)
    ensures Run(c, [v]) == Step(c, v)
  {
    assert [v][..0] == [] && Run(c, []) == c;
  }

  /** The value of a sparse word at a root. */
  lemma SparseValue(e: Quint, m: nat, f: Quint, k: nat, g: Quint, b: F.Element)
    requires IsRoot(b)
    ensures At(Run(ZERO, Sparse(e, m, f, k, g)), b)
            == F.Add(F.Mul(Embed(e), F.Power(b, m + k + 2)),
                     F.Add(F.Mul(Embed(f), F.Power(b, k + 1)), Embed(g)))
  {
    hide *;
    var s1 := Step(ZERO, e);
    var s2 := Run(s1, Zeros(m));
    var s3 := Step(s2, f);
    var s4 := Run(s3, Zeros(k));
    SparseRun(e, m, f, k, g);
    AtZero(b);
    AtStep(ZERO, e, b);
    F.MulZero(b);
    F.AddZero(Embed(e));
    AtZeros(s1, m, b);
    AtStep(s2, f, b);
    AtZeros(s3, k, b);
    AtStep(s4, g, b);
    Collect(Embed(e), Embed(f), Embed(g), b, m, k);
  }

  lemma SparseRun(e: Quint, m: nat, f: Quint, k: nat, g: Quint)
    ensures Run(ZERO, Sparse(e, m, f, k, g)) == Step(Run(Step(Run(Step(ZERO, e), Zeros(m)), f), Zeros(k)), g)
  {
    hide Run, Step;
    RunOne(ZERO, e);
    RunConcat(ZERO, [e], Zeros(m));
    RunConcat(ZERO, [e] + Zeros(m), [f]);
    RunConcat(ZERO, [e] + Zeros(m) + [f], Zeros(k));
    RunConcat(ZERO, [e] + Zeros(m) + [f] + Zeros(k), [g]);
    RunOne(Run(ZERO, [e] + Zeros(m)), f);
    RunOne(Run(ZERO, [e] + Zeros(m) + [f] + Zeros(k)), g);
  }

  lemma AtStep(c: State, v: Quint, b: F.Element)
    requires IsRoot(b)
    ensures At(Step(c, v), b) == F.Add(Embed(v), F.Mul(b, At(c, b)))
  {
    hide Value, Coefficients, Step, F.Mul, F.Add, Embed, IsRoot;
    StepValue(c, v, b);
  }

  lemma Collect(e: F.Element, f: F.Element, g: F.Element, b: F.Element, m: nat, k: nat)
    ensures F.Add(g, F.Mul(b, F.Mul(F.Power(b, k), F.Add(f, F.Mul(b, F.Mul(F.Power(b, m), e))))))
            == F.Add(F.Mul(e, F.Power(b, m + k + 2)), F.Add(F.Mul(f, F.Power(b, k + 1)), g))
  {
    hide F.Mul, F.Add;
    var bk, bm := F.Power(b, k + 1), F.Power(b, m + 1);
    F.MulAssoc(b, F.Power(b, m), e);
    F.MulAssoc(b, F.Power(b, k), F.Add(f, F.Mul(bm, e)));
    F.MulAdd(f, F.Mul(bm, e), bk);
    F.MulAssoc(bk, bm, e);
    F.PowerAdd(b, k + 1, m + 1);
    F.MulCommutes(F.Power(b, m + k + 2), e);
    F.MulCommutes(bk, f);
    var x, y := F.Mul(f, bk), F.Mul(e, F.Power(b, m + k + 2));
    F.AddCommutes(g, F.Add(x, y));
    F.AddCommutes(x, y);
    F.AddAssoc(y, x, g);
  }

  lemma Ratio()
    ensures F.Mul(F.ROOT0, F.GENERATOR) == F.ROOT1 && F.Mul(F.ROOT1, F.GENERATOR) == F.ROOT2
  {
    assert F.TimesGenerator(F.ROOT0) == F.ROOT1;
    assert F.TimesGenerator(F.ROOT1) == F.ROOT2;
    hide F.Mul, F.TimesGenerator;
    F.TimesGeneratorIs(F.ROOT0);
    F.TimesGeneratorIs(F.ROOT1);
    F.MulCommutes(F.ROOT0, F.GENERATOR);
    F.MulCommutes(F.ROOT1, F.GENERATOR);
  }

  /** A term at the second and the third root, from the term at the first. */
  lemma TermAt(e: F.Element, n: nat)
    ensures F.Mul(e, F.Power(F.ROOT1, n)) == F.Mul(F.Mul(e, F.Power(F.ROOT0, n)), F.Power(F.GENERATOR, n))
    ensures F.Mul(e, F.Power(F.ROOT2, n))
            == F.Mul(F.Mul(F.Mul(e, F.Power(F.ROOT0, n)), F.Power(F.GENERATOR, n)), F.Power(F.GENERATOR, n))
  {
    hide F.Mul, F.Power;
    Ratio();
    var x := F.Power(F.GENERATOR, n);
    F.PowerOfProduct(F.ROOT0, F.GENERATOR, n);
    F.PowerOfProduct(F.ROOT1, F.GENERATOR, n);
    F.MulAssoc(e, F.Power(F.ROOT0, n), x);
    F.MulAssoc(e, F.Power(F.ROOT1, n), x);
  }

  lemma TermZero(e: Quint, n: nat)
    requires F.Mul(Embed(e), F.Power(F.ROOT0, n)) == F.ZERO
    ensures e == NO_BITS
  {
    hide F.Mul, F.Power;
    F.PowerNonzero(F.ROOT0, n);
    F.MulCommutes(Embed(e), F.Power(F.ROOT0, n));
    F.NoZeroDivisors(F.Power(F.ROOT0, n), Embed(e));
    EmbedZero(e);
  }

  lemma SparseSum(e: Quint, m: nat, f: Quint, k: nat, g: Quint, b: F.Element)
    requires IsRoot(b) && Run(ZERO, Sparse(e, m, f, k, g)) == ZERO
    ensures F.Add(F.Mul(Embed(e), F.Power(b, m + k + 2)), F.Add(F.Mul(Embed(f), F.Power(b, k + 1)), Embed(g)))
            == F.ZERO
  {
    hide *;
    SparseValue(e, m, f, k, g, b);
    AtZero(b);
  }

  /** The three sums as a linear system with the powers of the generator. */
  lemma SparseSystem(e: Quint, m: nat, f: Quint, k: nat, g: Quint)
    requires Run(ZERO, Sparse(e, m, f, k, g)) == ZERO
    ensures var p, q, r := F.Mul(Embed(e), F.Power(F.ROOT0, m + k + 2)), F.Mul(Embed(f), F.Power(F.ROOT0, k + 1)),
                           Embed(g);
      var x, y := F.Power(F.GENERATOR, m + k + 2), F.Power(F.GENERATOR, k + 1);
      && F.Add(p, F.Add(q, r)) == F.ZERO
      && F.Add(F.Mul(p, x), F.Add(F.Mul(q, y), r)) == F.ZERO
      && F.Add(F.Mul(F.Mul(p, x), x), F.Add(F.Mul(F.Mul(q, y), y), r)) == F.ZERO
  {
    hide *;
    hide F.ROOT0, F.ROOT1, F.ROOT2, F.GENERATOR, F.ZERO, ZERO;
    Roots();
    SparseSum(e, m, f, k, g, F.ROOT0);
    SparseSum(e, m, f, k, g, F.ROOT1);
    SparseSum(e, m, f, k, g, F.ROOT2);
    TermAt(Embed(e), m + k + 2);
    TermAt(Embed(f), k + 1);
  }

  lemma Roots()
    ensures IsRoot(F.ROOT0) && IsRoot(F.ROOT1) && IsRoot(F.ROOT2)
  {
  }

  /** A word with at most three symbols, all within 1023 places, leaves the zero state. */
  lemma SparseNonzero(e: Quint, m: nat, f: Quint, k: nat, g: Quint)
    requires m + k + 2 < 1023 && Run(ZERO, Sparse(e, m, f, k, g)) == ZERO
    ensures e == NO_BITS && f == NO_BITS && g == NO_BITS
  {
    hide *;
    hide F.ROOT0, F.ROOT1, F.ROOT2, F.GENERATOR, F.ZERO, F.ONE, ZERO, NO_BITS;
    var n := m + k + 2;
    SparseSystem(e, m, f, k, g);
    F.PowersDiffer(k + 1, n);
    F.PowersDiffer(0, k + 1);
    F.PowersDiffer(0, n);
    F.PowerFirst(F.GENERATOR);
    F.MulOne(Embed(g));
    F.Vandermonde(F.Mul(Embed(e), F.Power(F.ROOT0, n)), F.Mul(Embed(f), F.Power(F.ROOT0, k + 1)), Embed(g),
                  F.Power(F.GENERATOR, n), F.Power(F.GENERATOR, k + 1), F.ONE);
    TermZero(e, n);
    TermZero(f, k + 1);
    EmbedZero(g);
  }

  lemma {:induction false} ZeroStays(n: nat)
    ensures Run(ZERO, Zeros(n)) == ZERO
  {
    if n > 0 {
      assert Zeros(n)[..n - 1] == Zeros(n - 1);
      ZeroStays(n - 1);
      forall i | 0 <= i < 30 ensures !Step(ZERO, NO_BITS)[i] {
        NoFeedback(ZERO, i);
      }
    }
  }

  ghost predicate EqualBut<T>(u: seq<T>, v: seq<T>, i: nat, j: nat, k: nat) {
    |u| == |v| && forall t :: 0 <= t < |u| && t != i && t != j && t != k ==> u[t] == v[t]
  }

  lemma DifferenceIsSparse(u: seq<Quint>, v: seq<Quint>, i: nat, j: nat, k: nat)
    requires i < j < k < |u| && EqualBut(u, v, i, j, k)
    ensures var d := XorAll(u, v);
      d == Zeros(i) + Sparse(d[i], j - i - 1, d[j], k - j - 1, d[k]) + Zeros(|u| - k - 1)
  {
    var d := XorAll(u, v);
    var w := Zeros(i) + Sparse(d[i], j - i - 1, d[j], k - j - 1, d[k]) + Zeros(|u| - k - 1);
    forall t | 0 <= t < |u| ensures d[t] == w[t] {
      if t != i && t != j && t != k {
        XorFacts(u[t], v[t]);
      }
    }
  }

  /** Words that differ in at most three places, all within 1023 of each other, end in different states. */
  lemma ThreeDetected(c: State, u: seq<Quint>, v: seq<Quint>, i: nat, j: nat, k: nat)
    requires i < j < k < |u| && k - i < 1023 && EqualBut(u, v, i, j, k)
    requires Run(c, u) == Run(c, v)
    ensures u == v
  {
    hide Run, Sparse;
    var d := XorAll(u, v);
    RunLinear(c, u, c, v);
    XorFacts(c, c);
    XorFacts(Run(c, u), Run(c, v));
    DifferenceIsSparse(u, v, i, j, k);
    var w := Sparse(d[i], j - i - 1, d[j], k - j - 1, d[k]);
    RunConcat(ZERO, Zeros(i) + w, Zeros(|u| - k - 1));
    RunZeros(Run(ZERO, Zeros(i) + w), |u| - k - 1);
    RunConcat(ZERO, Zeros(i), w);
    ZeroStays(i);
    SparseNonzero(d[i], j - i - 1, d[j], k - j - 1, d[k]);
    forall t | 0 <= t < |u| ensures u[t] == v[t] {
      if t == i || t == j || t == k {
        XorFacts(u[t], v[t]);
      }
    }
  }

  /** What the checksum is computed of. */
  function Word(hrp: Text, values: seq<Symbol>): seq<Symbol> {
    ExpandHrp(hrp) + values
  }

  /** Up to three symbols changed anywhere in a window of 1023, the human-readable part included, never verify. */
  lemma WordErrorsDetected(hrp: Text, values: seq<Symbol>, hrp': Text, values': seq<Symbol>, i: nat, j: nat, k: nat)
    requires i < j < k < |Word(hrp, values)| && k - i < 1023
    requires EqualBut(Word(hrp, values), Word(hrp', values'), i, j, k)
    requires Verifies(hrp, values) && Word(hrp, values) != Word(hrp', values')
    ensures !Verifies(hrp', values')
  {
    hide Run, ToQuint, ExpandHrp;
    var u, v := Quints(Word(hrp, values)), Quints(Word(hrp', values'));
    if Verifies(hrp', values') {
      ThreeDetected(One(), u, v, i, j, k);
      QuintsInjective(Word(hrp, values), Word(hrp', values'));
    }
  }

  /** Up to three data or checksum symbols changed anywhere in a window of 1023 never verify. */
  lemma ThreeErrorsDetected(hrp: Text, values: seq<Symbol>, changed: seq<Symbol>, i: nat, j: nat, k: nat)
    requires i < j < k < |values| && k - i < 1023 && EqualBut(values, changed, i, j, k)
    requires Verifies(hrp, values) && values != changed
    ensures !Verifies(hrp, changed)
  {
    hide Verifies, ExpandHrp;
    var n := |ExpandHrp(hrp)|;
    var u, v := Word(hrp, values), Word(hrp, changed);
    forall t | 0 <= t < |u| && t != n + i && t != n + j && t != n + k ensures u[t] == v[t] {
      if t >= n {
        assert values[t - n] == changed[t - n];
      }
    }
    if u == v {
      SameTail(ExpandHrp(hrp), values, changed);
    }
    WordErrorsDetected(hrp, values, hrp, changed, n + i, n + j, n + k);
  }

  lemma SameTail(pre: seq<Symbol>, a: seq<Symbol>, b: seq<Symbol>)
    requires pre + a == pre + b
    ensures a == b
  {
    assert (pre + a)[|pre|..] == a && (pre + b)[|pre|..] == b;
  }

  /** A character is its high and its low bits. */
  lemma CharParts(c: Code, d: Code)
    requires High(c) == High(d) && Low(c) == Low(d)
    ensures c == d
  {
  }

  /**
   One character of the human-readable part changed, and with it up to one symbol of the rest: such
   a character is two symbols of the word.
   */
  lemma HrpErrorDetected(hrp: Text, i: nat, c: Code, values: seq<Symbol>, j: nat, v: Symbol)
    requires i < |hrp| && c != hrp[i] && j < |values| && 2 * |hrp| + 1 + |values| <= 1023
    requires Verifies(hrp, values)
    ensures !Verifies(hrp[i := c], values[j := v])
  {
    hide Verifies;
    var n := |hrp|;
    var hrp', values' := hrp[i := c], values[j := v];
    var u, w := Word(hrp, values), Word(hrp', values');
    forall t | 0 <= t < |u| && t != i && t != n + 1 + i && t != 2 * n + 1 + j ensures u[t] == w[t] {
      if t < n {
        assert u[t] == High(hrp[t]) && w[t] == High(hrp'[t]);
      } else if n < t < 2 * n + 1 {
        assert u[t] == Low(hrp[t - n - 1]) && w[t] == Low(hrp'[t - n - 1]);
      }
    }
    assert u[i] == High(hrp[i]) && w[i] == High(c) && u[n + 1 + i] == Low(hrp[i]) && w[n + 1 + i] == Low(c);
    if u == w {
      CharParts(hrp[i], c);
    }
    WordErrorsDetected(hrp, values, hrp', values', i, n + 1 + i, 2 * n + 1 + j);
  }

  /** Three places in order, all in the window of those given. */
  lemma Places(n: nat, i: nat, j: nat) returns (a: nat, b: nat, c: nat)
    requires i < j < n && n >= 3
    ensures a < b < c < n && c - a <= if j - i > 2 then j - i else 2
    ensures (i == a || i == b || i == c) && (j == a || j == b || j == c)
  {
    if i + 1 < j {
      a, b, c := i, i + 1, j;
    } else if j + 1 < n {
      a, b, c := i, j, j + 1;
    } else {
      a, b, c := i - 1, i, j;
    }
  }

  /** Two symbols, in particular. */
  lemma TwoErrorsDetected(hrp: Text, values: seq<Symbol>, changed: seq<Symbol>, i: nat, j: nat)
    requires i < j < |values| && j - i < 1023 && EqualBut(values, changed, i, j, j)
    requires Verifies(hrp, values) && values != changed
    ensures !Verifies(hrp, changed)
  {
    hide Verifies;
    if |values| < 3 {
      assert [] + values + [] == values && [] + changed + [] == changed;
      ErrorDetected(hrp, [], values, changed, []);
    } else {
      var a, b, c := Places(|values|, i, j);
      ThreeErrorsDetected(hrp, values, changed, a, b, c);
    }
  }
}
