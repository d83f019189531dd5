/**
 The field of 1024 elements: polynomials in z over the bits, modulo z^10 + z^3 + 1.
 */
module Field1024 {
  import opened Numbers

  datatype Element = Element(z0: bool, z1: bool, z2: bool, z3: bool, z4: bool,
                             z5: bool, z6: bool, z7: bool, z8: bool, z9: bool)

  const ZERO: Element := Element(false, false, false, false, false, false, false, false, false, false)
  const ONE: Element := Element(true, false, false, false, false, false, false, false, false, false)

  function Xor(u: Element, v: Element): Element {
    Element(u.z0 != v.z0, u.z1 != v.z1, u.z2 != v.z2, u.z3 != v.z3, u.z4 != v.z4,
            u.z5 != v.z5, u.z6 != v.z6, u.z7 != v.z7, u.z8 != v.z8, u.z9 != v.z9)
  }

  /** No property tells w from the exclusive or. */
  ghost predicate IsSum(u: Element, v: Element, w: Element) {
    forall p: Element -> bool :: p(w) == p(Xor(u, v))
  }

  /** Addition is exclusive or, but the proofs below see its bits only through AddIs. */
  ghost function Add(u: Element, v: Element): Element {
    assert IsSum(u, v, Xor(u, v));
    var w :| IsSum(u, v, w);
    w
  }

  lemma AddIs(u: Element, v: Element)
    ensures Add(u, v) == Xor(u, v)
  {
    hide Xor;
    var p := (x: Element) => x == Xor(u, v);
    assert p(Xor(u, v)) && p(Add(u, v)) == p(Xor(u, v));
  }

  /** Multiplication by z. */
  function Shift(u: Element): Element {
    Element(u.z9, u.z0, u.z1, u.z2 != u.z9, u.z3, u.z4, u.z5, u.z6, u.z7, u.z8)
  }

  /** What is left of u after its constant term, divided by z. */
  function Half(u: Element): Element {
    Element(u.z1, u.z2, u.z3, u.z4, u.z5, u.z6, u.z7, u.z8, u.z9, false)
  }

  function Pick(b: bool, u: Element): Element {
    if b then u else ZERO
  }

  /** The product of v with the first n terms of u. */
  ghost function Times(n: nat, u: Element, v: Element): Element {
    if n == 0 then ZERO else Add(Pick(u.z0, v), Shift(Times(n - 1, Half(u), v)))
  }

  /** No property tells w from the product of all ten terms. */
  ghost predicate IsProduct(u: Element, v: Element, w: Element) {
    forall p: Element -> bool :: p(w) == p(Times(10, u, v))
  }

  /** Multiplication, which the proofs below see only through MulIs. */
  ghost function Mul(u: Element, v: Element): Element {
    assert IsProduct(u, v, Times(10, u, v));
    var w :| IsProduct(u, v, w);
    w
  }

  lemma MulIs(u: Element, v: Element)
    ensures Mul(u, v) == Times(10, u, v)
  {
    hide Times;
    var p := (x: Element) => x == Times(10, u, v);
    assert p(Times(10, u, v)) && p(Mul(u, v)) == p(Times(10, u, v));
  }

  // ----- Linearity

  lemma AddCommutes(u: Element, v: Element)
    ensures Add(u, v) == Add(v, u)
  {
    AddIs(u, v);
    AddIs(v, u);
  }

  lemma AddZero(u: Element)
    ensures Add(u, ZERO) == u && Add(ZERO, u) == u && Add(u, u) == ZERO
  {
    AddIs(u, ZERO);
    AddIs(ZERO, u);
    AddIs(u, u);
  }

  lemma AddCancels(u: Element, v: Element)
    requires Add(u, v) == ZERO
    ensures u == v
  {
    AddIs(u, v);
  }

  lemma AddAssoc(u: Element, v: Element, w: Element)
    ensures Add(Add(u, v), w) == Add(u, Add(v, w))
  {
    AddIs(u, v);
    AddIs(Xor(u, v), w);
    AddIs(v, w);
    AddIs(u, Xor(v, w));
  }

  lemma FourTerms(a: Element, b: Element, c: Element, d: Element)
    ensures Add(Add(a, b), Add(c, d)) == Add(Add(a, c), Add(b, d))
  {
    AddIs(a, b);
    AddIs(c, d);
    AddIs(a, c);
    AddIs(b, d);
    AddIs(Xor(a, b), Xor(c, d));
    AddIs(Xor(a, c), Xor(b, d));
  }

  lemma ShiftAdd(u: Element, v: Element)
    ensures Shift(Add(u, v)) == Add(Shift(u), Shift(v)) && Shift(ZERO) == ZERO
  {
    AddIs(u, v);
    AddIs(Shift(u), Shift(v));
  }

  lemma HalfAdd(u: Element, v: Element)
    ensures Half(Add(u, v)) == Add(Half(u), Half(v)) && Add(u, v).z0 == (u.z0 != v.z0)
  {
    AddIs(u, v);
    AddIs(Half(u), Half(v));
  }

  lemma PickAdd(b: bool, c: bool, u: Element, v: Element)
    ensures Pick(b != c, u) == Add(Pick(b, u), Pick(c, u))
    ensures Pick(b, Add(u, v)) == Add(Pick(b, u), Pick(b, v))
    ensures Shift(Pick(b, u)) == Pick(b, Shift(u))
  {
    AddIs(u, v);
    AddIs(Pick(b, u), Pick(c, u));
    AddIs(Pick(b, u), Pick(b, v));
  }

  lemma {:induction false} TimesAdd(n: nat, u: Element, w: Element, v: Element)
    ensures Times(n, Add(u, w), v) == Add(Times(n, u, v), Times(n, w, v))
  {
    AddZero(ZERO);
    hide Shift, Pick, Add, Half;
    if n > 0 {
      HalfAdd(u, w);
      TimesAdd(n - 1, Half(u), Half(w), v);
      var x, y := Times(n - 1, Half(u), v), Times(n - 1, Half(w), v);
      PickAdd(u.z0, w.z0, v, v);
      ShiftAdd(x, y);
      FourTerms(Pick(u.z0, v), Pick(w.z0, v), Shift(x), Shift(y));
    }
  }

  lemma {:induction false} TimesSum(n: nat, u: Element, v: Element, w: Element)
    ensures Times(n, u, Add(v, w)) == Add(Times(n, u, v), Times(n, u, w))
  {
    if n == 0 {
      AddZero(ZERO);
    } else {
      hide Shift, Pick, Add, Half;
      TimesSum(n - 1, Half(u), v, w);
      var x, y := Times(n - 1, Half(u), v), Times(n - 1, Half(u), w);
      PickAdd(u.z0, u.z0, v, w);
      ShiftAdd(x, y);
      FourTerms(Pick(u.z0, v), Pick(u.z0, w), Shift(x), Shift(y));
    }
  }

  lemma {:induction false} TimesShift(n: nat, u: Element, v: Element)
    ensures Times(n, u, Shift(v)) == Shift(Times(n, u, v))
  {
    if n == 0 {
      ShiftAdd(ZERO, ZERO);
    } else {
      hide Shift, Pick, Add, Half;
      TimesShift(n - 1, Half(u), v);
      PickAdd(u.z0, u.z0, v, v);
      ShiftAdd(Pick(u.z0, v), Shift(Times(n - 1, Half(u), v)));
    }
  }

  lemma {:induction false} TimesZero(n: nat, u: Element)
    ensures Times(n, u, ZERO) == ZERO
  {
    if n > 0 {
      hide Half;
      TimesZero(n - 1, Half(u));
      ShiftAdd(ZERO, ZERO);
      AddZero(ZERO);
    }
  }

  lemma {:induction false} TimesNone(n: nat, u: Element)
    ensures Times(n, ZERO, u) == ZERO
  {
    if n > 0 {
      TimesNone(n - 1, u);
      assert Half(ZERO) == ZERO;
      ShiftAdd(ZERO, ZERO);
      AddZero(ZERO);
    }
  }

  // ----- The ring

  lemma MulAdd(u: Element, v: Element, w: Element)
    ensures Mul(Add(u, v), w) == Add(Mul(u, w), Mul(v, w))
    ensures Mul(w, Add(u, v)) == Add(Mul(w, u), Mul(w, v))
  {
    hide Add, Times;
    TimesAdd(10, u, v, w);
    TimesSum(10, w, u, v);
    MulIs(Add(u, v), w);
    MulIs(u, w);
    MulIs(v, w);
    MulIs(w, Add(u, v));
    MulIs(w, u);
    MulIs(w, v);
  }

  lemma MulZero(u: Element)
    ensures Mul(ZERO, u) == ZERO && Mul(u, ZERO) == ZERO
  {
    hide Times;
    TimesNone(10, u);
    TimesZero(10, u);
    MulIs(ZERO, u);
    MulIs(u, ZERO);
  }

  lemma MulShift(u: Element, v: Element)
    ensures Mul(u, Shift(v)) == Shift(Mul(u, v))
  {
    hide Times, Shift;
    TimesShift(10, u, v);
    MulIs(u, Shift(v));
    MulIs(u, v);
  }

  /** u has no terms from the n-th on. */
  predicate Short(n: nat, u: Element) {
    if n == 0 then u == ZERO else Short(n - 1, Half(u))
  }

  lemma AddConstant(b: bool, u: Element)
    ensures Add(Pick(b, ONE), u) == u.(z0 := b != u.z0)
  {
    AddIs(Pick(b, ONE), u);
  }

  lemma Decomposed(u: Element)
    ensures u == Add(Pick(u.z0, ONE), Shift(Half(u)))
  {
    hide Add;
    AddConstant(u.z0, Shift(Half(u)));
  }

  lemma {:induction false} TimesOne(n: nat, u: Element)
    requires Short(n, u)
    ensures Times(n, u, ONE) == u
  {
    if n > 0 {
      hide Shift, Add, Half;
      TimesOne(n - 1, Half(u));
      Decomposed(u);
    }
  }

  lemma AllShort(u: Element)
    ensures Short(10, u)
  {
    var a := Half(Half(u));
    assert a == Element(u.z2, u.z3, u.z4, u.z5, u.z6, u.z7, u.z8, u.z9, false, false);
    var b := Half(Half(a));
    assert b == Element(u.z4, u.z5, u.z6, u.z7, u.z8, u.z9, false, false, false, false);
    var c := Half(Half(b));
    assert c == Element(u.z6, u.z7, u.z8, u.z9, false, false, false, false, false, false);
    var d := Half(Half(c));
    assert d == Element(u.z8, u.z9, false, false, false, false, false, false, false, false);
    assert Half(Half(d)) == ZERO;
    assert Short(2, d);
    assert Short(4, c);
    assert Short(6, b);
    assert Short(8, a);
  }

  lemma MulOne(u: Element)
    ensures Mul(u, ONE) == u
  {
    hide Times, Short;
    AllShort(u);
    TimesOne(10, u);
    MulIs(u, ONE);
  }

  /** Multiplications commute, being sums of powers of z. */
  lemma {:induction false} TimesMul(n: nat, u: Element, v: Element, x: Element)
    ensures Times(n, u, Mul(v, x)) == Mul(v, Times(n, u, x))
  {
    hide Mul, Shift, Add, Half;
    if n == 0 {
      MulZero(v);
    } else {
      var y := Times(n - 1, Half(u), x);
      TimesMul(n - 1, Half(u), v, x);
      MulShift(v, y);
      MulAdd(Pick(u.z0, x), Shift(y), v);
      MulZero(v);
    }
  }

  lemma MulCommutes(u: Element, v: Element)
    ensures Mul(u, v) == Mul(v, u)
  {
    hide Times;
    TimesMul(10, u, v, ONE);
    MulIs(u, Mul(v, ONE));
    MulIs(u, ONE);
    MulOne(u);
    MulOne(v);
  }

  lemma MulAssoc(u: Element, v: Element, w: Element)
    ensures Mul(Mul(u, v), w) == Mul(u, Mul(v, w))
  {
    hide Times;
    MulCommutes(Mul(u, v), w);
    TimesMul(10, w, u, v);
    MulIs(w, Mul(u, v));
    MulIs(w, v);
    MulCommutes(w, v);
  }

  // ----- Squares

  lemma SquareAdd(u: Element, v: Element)
    ensures Mul(Add(u, v), Add(u, v)) == Add(Mul(u, u), Mul(v, v))
  {
    hide Mul, Add;
    MulAdd(u, v, Add(u, v));
    MulAdd(u, v, u);
    MulAdd(u, v, v);
    MulCommutes(u, v);
    var x := Mul(u, v);
    assert Mul(Add(u, v), Add(u, v)) == Add(Add(Mul(u, u), x), Add(x, Mul(v, v)));
    MiddleVanishes(Mul(u, u), x, Mul(v, v));
  }

  lemma MiddleVanishes(a: Element, x: Element, b: Element)
    ensures Add(Add(a, x), Add(x, b)) == Add(a, b)
  {
    hide Add;
    AddCommutes(x, b);
    FourTerms(a, x, b, x);
    AddZero(x);
    AddZero(Add(a, b));
  }

  lemma SquareShift(u: Element)
    ensures Mul(Shift(u), Shift(u)) == Shift(Shift(Mul(u, u)))
  {
    hide Mul, Shift;
    MulShift(Shift(u), u);
    MulCommutes(Shift(u), u);
    MulShift(u, u);
  }

  /** The square, bit by bit. */
  function Square(u: Element): Element {
    Element(u.z0 != u.z5, u.z9, u.z1 != u.z6, u.z5, (u.z2 != u.z7) != u.z9,
            u.z6, u.z3 != u.z8, u.z7, u.z4 != u.z9, u.z8)
  }

  lemma ShiftTwice(u: Element)
    ensures Shift(Shift(u)) == Element(u.z8, u.z9, u.z0, u.z1 != u.z8, u.z2 != u.z9, u.z3, u.z4, u.z5, u.z6, u.z7)
  {
  }

  lemma SquareOfHalf(u: Element)
    ensures Square(Half(u))
            == Element(u.z1 != u.z6, false, u.z2 != u.z7, u.z6, u.z3 != u.z8, u.z7, u.z4 != u.z9, u.z8, u.z5, u.z9)
  {
  }

  lemma SquareStep(u: Element)
    ensures Square(u) == Add(Pick(u.z0, ONE), Shift(Shift(Square(Half(u)))))
  {
    SquareOfHalf(u);
    ShiftTwice(Square(Half(u)));
    AddConstant(u.z0, Shift(Shift(Square(Half(u)))));
    hide Add, Shift, Half, Pick;
  }

  lemma {:induction false} ShortSquare(n: nat, u: Element)
    requires Short(n, u)
    ensures Mul(u, u) == Square(u)
  {
    if n == 0 {
      MulZero(ZERO);
    } else {
      hide Mul, Shift, Add, Half, Square;
      ShortSquare(n - 1, Half(u));
      Decomposed(u);
      SquareAdd(Pick(u.z0, ONE), Shift(Half(u)));
      SquareShift(Half(u));
      MulOne(ONE);
      MulZero(ZERO);
      SquareStep(u);
    }
  }

  lemma SquareIs(u: Element)
    ensures Mul(u, u) == Square(u)
  {
    hide Mul, Square, Short;
    AllShort(u);
    ShortSquare(10, u);
  }

  /** Only zero and one are their own squares. */
  lemma OwnSquare(u: Element)
    requires Mul(u, u) == u
    ensures u == ZERO || u == ONE
  {
    hide Mul;
    SquareIs(u);
    var s := Square(u);
    assert !u.z5 && !u.z3 && !u.z6 && !u.z8 && !u.z9 && !u.z1 && !u.z2 && !u.z4 && !u.z7;
  }

  // ----- Powers

  ghost function Power(u: Element, n: nat): Element {
    if n == 0 then ONE else Mul(u, Power(u, n - 1))
  }

  lemma {:induction false} PowerAdd(u: Element, m: nat, n: nat)
    ensures Power(u, m + n) == Mul(Power(u, m), Power(u, n))
  {
    hide Mul;
    if m == 0 {
      MulCommutes(ONE, Power(u, n));
      MulOne(Power(u, n));
    } else {
      PowerAdd(u, m - 1, n);
      MulAssoc(u, Power(u, m - 1), Power(u, n));
    }
  }

  lemma {:induction false} PowerOfPower(u: Element, m: nat, n: nat)
    ensures Power(Power(u, m), n) == Power(u, m * n)
  {
    hide Mul;
    if n > 0 {
      PowerOfPower(u, m, n - 1);
      PowerAdd(u, m, m * (n - 1));
      assert m + m * (n - 1) == m * n;
    }
  }

  lemma {:induction false} PowerOfOne(n: nat)
    ensures Power(ONE, n) == ONE
  {
    hide Mul;
    if n > 0 {
      PowerOfOne(n - 1);
      MulOne(ONE);
    }
  }

  lemma Swap(a: Element, b: Element, c: Element, d: Element)
    ensures Mul(Mul(a, b), Mul(c, d)) == Mul(Mul(a, c), Mul(b, d))
  {
    hide Mul;
    MulAssoc(a, b, Mul(c, d));
    MulAssoc(b, c, d);
    MulCommutes(b, c);
    MulAssoc(c, b, d);
    MulAssoc(a, c, Mul(b, d));
  }

  lemma {:induction false} PowerOfProduct(u: Element, v: Element, n: nat)
    ensures Power(Mul(u, v), n) == Mul(Power(u, n), Power(v, n))
  {
    hide Mul;
    if n == 0 {
      MulOne(ONE);
    } else {
      PowerOfProduct(u, v, n - 1);
      Swap(u, v, Power(u, n - 1), Power(v, n - 1));
    }
  }

  // ----- No divisors of zero

  function Squares(n: nat, u: Element): Element {
    if n == 0 then u else Square(Squares(n - 1, u))
  }

  lemma {:induction false} SquaresAdd(n: nat, u: Element, v: Element)
    ensures Squares(n, Add(u, v)) == Add(Squares(n, u), Squares(n, v))
  {
    hide Mul, Add, Square;
    if n > 0 {
      var x, y := Squares(n - 1, u), Squares(n - 1, v);
      SquaresAdd(n - 1, u, v);
      SquareAdd(x, y);
      SquareIs(x);
      SquareIs(y);
      SquareIs(Add(x, y));
    }
  }

  lemma {:induction false} SquaresMul(n: nat, u: Element, v: Element)
    ensures Squares(n, Mul(u, v)) == Mul(Squares(n, u), Squares(n, v))
  {
    hide Mul, Square;
    if n > 0 {
      var x, y := Squares(n - 1, u), Squares(n - 1, v);
      SquaresMul(n - 1, u, v);
      Swap(x, y, x, y);
      SquareIs(x);
      SquareIs(y);
      SquareIs(Mul(x, y));
    }
  }

  lemma {:induction false} SquaresPower(n: nat, u: Element)
    ensures Squares(n, u) == Power(u, Pow2(n))
  {
    hide Mul, Square;
    if n == 0 {
      assert Power(u, 1) == Mul(u, Power(u, 0));
      MulOne(u);
    } else {
      SquaresPower(n - 1, u);
      PowerAdd(u, Pow2(n - 1), Pow2(n - 1));
      SquareIs(Squares(n - 1, u));
    }
  }

  lemma {:induction false} SquaresConstant(n: nat, b: bool)
    ensures Squares(n, Pick(b, ONE)) == Pick(b, ONE)
  {
    if n > 0 {
      SquaresConstant(n - 1, b);
    }
  }

  /** z^1024 == z. */
  lemma SquaresOfZ()
    ensures Squares(10, Shift(ONE)) == Shift(ONE)
  {
    assert Squares(5, Shift(ONE)) == Square(Square(Square(Square(Square(Shift(ONE))))));
    assert Squares(10, Shift(ONE)) == Square(Square(Square(Square(Square(Squares(5, Shift(ONE)))))));
  }

  lemma ShiftIsMul(u: Element)
    ensures Shift(u) == Mul(u, Shift(ONE))
  {
    hide Mul, Shift;
    MulShift(u, ONE);
    MulOne(u);
  }

  lemma {:induction false} ShortSquares(n: nat, u: Element)
    requires Short(n, u)
    ensures Squares(10, u) == u
  {
    hide Mul, Shift, Add, Half, Squares;
    if n == 0 {
      SquaresConstant(10, false);
    } else {
      var h := Half(u);
      ShortSquares(n - 1, h);
      Decomposed(u);
      SquaresAdd(10, Pick(u.z0, ONE), Shift(h));
      SquaresConstant(10, u.z0);
      ShiftIsMul(h);
      SquaresMul(10, h, Shift(ONE));
      SquaresOfZ();
    }
  }

  /** u^1024 == u. */
  lemma PowerOrder(u: Element)
    ensures Power(u, 1024) == u
  {
    hide Short, Squares, Power;
    AllShort(u);
    ShortSquares(10, u);
    SquaresPower(10, u);
    assert Pow2(10) == 1024;
  }

  /** Every element but zero has the power 1023 one. */
  lemma Fermat(u: Element)
    requires u != ZERO
    ensures Power(u, 1023) == ONE
  {
    hide Mul, Power;
    var t := Power(u, 1023);
    PowerOrder(u);
    PowerAdd(u, 1023, 1023);
    PowerAdd(u, 1024, 1022);
    PowerAdd(u, 1, 1022);
    PowerFirst(u);
    OwnSquare(t);
    PowerAdd(u, 1, 1023);
    MulZero(u);
  }

  lemma PowerFirst(u: Element)
    ensures Power(u, 1) == u && Power(u, 0) == ONE
  {
    hide Mul;
    assert Power(u, 1) == Mul(u, Power(u, 0));
    MulOne(u);
  }

  lemma NoZeroDivisors(u: Element, v: Element)
    requires Mul(u, v) == ZERO && u != ZERO
    ensures v == ZERO
  {
    hide Mul, Power;
    Fermat(u);
    PowerAdd(u, 1022, 1);
    PowerFirst(u);
    MulAssoc(Power(u, 1022), u, v);
    MulZero(Power(u, 1022));
    MulCommutes(ONE, v);
    MulOne(v);
  }

  // ----- Products with sums of four powers of z

  function Shifts(n: nat, u: Element): Element {
    if n == 0 then u else Shift(Shifts(n - 1, u))
  }

  /** The product of u with z^a + z^b + z^c + z^d. */
  ghost function Sum(a: nat, b: nat, c: nat, d: nat, u: Element): Element {
    Add(Add(Shifts(a, u), Shifts(b, u)), Add(Shifts(c, u), Shifts(d, u)))
  }

  lemma {:induction false} ShiftsIs(n: nat, u: Element)
    ensures Mul(u, Shifts(n, ONE)) == Shifts(n, u)
  {
    hide Mul, Shift;
    if n == 0 {
      MulOne(u);
    } else {
      ShiftsIs(n - 1, u);
      MulShift(u, Shifts(n - 1, ONE));
    }
  }

  lemma SumIs(a: nat, b: nat, c: nat, d: nat, u: Element)
    ensures Mul(Sum(a, b, c, d, ONE), u) == Sum(a, b, c, d, u)
  {
    hide Mul, Add, Shifts;
    MulCommutes(Sum(a, b, c, d, ONE), u);
    MulAdd(Add(Shifts(a, ONE), Shifts(b, ONE)), Add(Shifts(c, ONE), Shifts(d, ONE)), u);
    MulAdd(Shifts(a, ONE), Shifts(b, ONE), u);
    MulAdd(Shifts(c, ONE), Shifts(d, ONE), u);
    ShiftsIs(a, u);
    ShiftsIs(b, u);
    ShiftsIs(c, u);
    ShiftsIs(d, u);
  }

  lemma Shifts1(u: Element)
    ensures Shifts(1, u) == Element(u.z9, u.z0, u.z1, u.z2 != u.z9, u.z3, u.z4, u.z5, u.z6, u.z7, u.z8)
  {
  }

  lemma Shifts2(u: Element)
    ensures Shifts(2, u) == Element(u.z8, u.z9, u.z0, u.z1 != u.z8, u.z2 != u.z9, u.z3, u.z4, u.z5, u.z6, u.z7)
  {
    Shifts1(u);
  }

  lemma Shifts3(u: Element)
    ensures Shifts(3, u) == Element(u.z7, u.z8, u.z9, u.z0 != u.z7, u.z1 != u.z8, u.z2 != u.z9, u.z3, u.z4, u.z5,
                                    u.z6)
  {
    Shifts2(u);
  }

  lemma Shifts4(u: Element)
    ensures Shifts(4, u) == Element(u.z6, u.z7, u.z8, u.z9 != u.z6, u.z0 != u.z7, u.z1 != u.z8, u.z2 != u.z9, u.z3,
                                    u.z4, u.z5)
  {
    Shifts3(u);
  }

  lemma Shifts5(u: Element)
    ensures Shifts(5, u) == Element(u.z5, u.z6, u.z7, u.z8 != u.z5, u.z9 != u.z6, u.z0 != u.z7, u.z1 != u.z8,
                                    u.z2 != u.z9, u.z3, u.z4)
  {
    Shifts4(u);
  }

  lemma Shifts6(u: Element)
    ensures Shifts(6, u) == Element(u.z4, u.z5, u.z6, u.z7 != u.z4, u.z8 != u.z5, u.z9 != u.z6, u.z0 != u.z7,
                                    u.z1 != u.z8, u.z2 != u.z9, u.z3)
  {
    Shifts5(u);
  }

  lemma Shifts7(u: Element)
    ensures Shifts(7, u) == Element(u.z3, u.z4, u.z5, u.z6 != u.z3, u.z7 != u.z4, u.z8 != u.z5, u.z9 != u.z6,
                                    u.z0 != u.z7, u.z1 != u.z8, u.z2 != u.z9)
  {
    Shifts6(u);
  }

  lemma Shifts8(u: Element)
    ensures Shifts(8, u) == Element(u.z2 != u.z9, u.z3, u.z4, u.z5 != (u.z2 != u.z9), u.z6 != u.z3, u.z7 != u.z4,
                                    u.z8 != u.z5, u.z9 != u.z6, u.z0 != u.z7, u.z1 != u.z8)
  {
    Shifts7(u);
  }

  lemma Shifts9(u: Element)
    ensures Shifts(9, u) == Element(u.z1 != u.z8, u.z2 != u.z9, u.z3, u.z4 != (u.z1 != u.z8), u.z5 != (u.z2 != u.z9),
                                    u.z6 != u.z3, u.z7 != u.z4, u.z8 != u.z5, u.z9 != u.z6, u.z0 != u.z7)
  {
    Shifts8(u);
  }

  lemma TwoThree(u: Element)
    ensures Add(Shifts(2, u), Shifts(3, u))
            == Element(u.z8 != u.z7, u.z9 != u.z8, u.z0 != u.z9, (u.z1 != u.z8) != (u.z0 != u.z7),
                       (u.z2 != u.z9) != (u.z1 != u.z8), u.z3 != (u.z2 != u.z9), u.z4 != u.z3, u.z5 != u.z4,
                       u.z6 != u.z5, u.z7 != u.z6)
  {
    AddIs(Shifts(2, u), Shifts(3, u));
    Shifts2(u);
    Shifts3(u);
  }

  lemma FourEight(u: Element)
    ensures Add(Shifts(4, u), Shifts(8, u))
            == Element(u.z6 != (u.z2 != u.z9), u.z7 != u.z3, u.z8 != u.z4, (u.z9 != u.z6) != (u.z5 != (u.z2 != u.z9)),
                       (u.z0 != u.z7) != (u.z6 != u.z3), (u.z1 != u.z8) != (u.z7 != u.z4),
                       (u.z2 != u.z9) != (u.z8 != u.z5), u.z3 != (u.z9 != u.z6), u.z4 != (u.z0 != u.z7),
                       u.z5 != (u.z1 != u.z8))
  {
    AddIs(Shifts(4, u), Shifts(8, u));
    Shifts4(u);
    Shifts8(u);
  }

  /** z^131. */
  const GENERATOR: Element := Element(false, false, true, true, true, false, false, false, true, false)

  function TimesGenerator(u: Element): Element {
    Element((u.z8 != u.z7) != (u.z6 != (u.z2 != u.z9)), (u.z9 != u.z8) != (u.z7 != u.z3),
            (u.z0 != u.z9) != (u.z8 != u.z4),
            ((u.z1 != u.z8) != (u.z0 != u.z7)) != ((u.z9 != u.z6) != (u.z5 != (u.z2 != u.z9))),
            ((u.z2 != u.z9) != (u.z1 != u.z8)) != ((u.z0 != u.z7) != (u.z6 != u.z3)),
            (u.z3 != (u.z2 != u.z9)) != ((u.z1 != u.z8) != (u.z7 != u.z4)),
            (u.z4 != u.z3) != ((u.z2 != u.z9) != (u.z8 != u.z5)), (u.z5 != u.z4) != (u.z3 != (u.z9 != u.z6)),
            (u.z6 != u.z5) != (u.z4 != (u.z0 != u.z7)), (u.z7 != u.z6) != (u.z5 != (u.z1 != u.z8)))
  }

  lemma TimesGeneratorSum(u: Element)
    ensures Xor(Element(u.z8 != u.z7, u.z9 != u.z8, u.z0 != u.z9, (u.z1 != u.z8) != (u.z0 != u.z7),
                        (u.z2 != u.z9) != (u.z1 != u.z8), u.z3 != (u.z2 != u.z9), u.z4 != u.z3, u.z5 != u.z4,
                        u.z6 != u.z5, u.z7 != u.z6),
                Element(u.z6 != (u.z2 != u.z9), u.z7 != u.z3, u.z8 != u.z4,
                        (u.z9 != u.z6) != (u.z5 != (u.z2 != u.z9)), (u.z0 != u.z7) != (u.z6 != u.z3),
                        (u.z1 != u.z8) != (u.z7 != u.z4), (u.z2 != u.z9) != (u.z8 != u.z5), u.z3 != (u.z9 != u.z6),
                        u.z4 != (u.z0 != u.z7), u.z5 != (u.z1 != u.z8)))
            == TimesGenerator(u)
  {
  }

  lemma TimesGeneratorIs(u: Element)
    ensures Mul(GENERATOR, u) == TimesGenerator(u)
  {
    assert TimesGenerator(ONE) == GENERATOR;
    hide *;
    SumIs(2, 3, 4, 8, u);
    TimesGeneratorForm(u);
    TimesGeneratorForm(ONE);
  }

  lemma TimesGeneratorForm(u: Element)
    ensures TimesGenerator(u) == Sum(2, 3, 4, 8, u)
  {
    AddIs(Add(Shifts(2, u), Shifts(3, u)), Add(Shifts(4, u), Shifts(8, u)));
    hide Add, Xor, Shifts, TimesGenerator;
    TimesGeneratorSum(u);
    TwoThree(u);
    FourEight(u);
  }

  lemma OneTwo(u: Element)
    ensures Add(Shifts(1, u), Shifts(2, u))
            == Element(u.z9 != u.z8, u.z0 != u.z9, u.z1 != u.z0, (u.z2 != u.z9) != (u.z1 != u.z8),
                       u.z3 != (u.z2 != u.z9), u.z4 != u.z3, u.z5 != u.z4, u.z6 != u.z5, u.z7 != u.z6, u.z8 != u.z7)
  {
    AddIs(Shifts(1, u), Shifts(2, u));
    Shifts1(u);
    Shifts2(u);
  }

  lemma EightNine(u: Element)
    ensures Add(Shifts(8, u), Shifts(9, u))
            == Element((u.z2 != u.z9) != (u.z1 != u.z8), u.z3 != (u.z2 != u.z9), u.z4 != u.z3,
                       (u.z5 != (u.z2 != u.z9)) != (u.z4 != (u.z1 != u.z8)),
                       (u.z6 != u.z3) != (u.z5 != (u.z2 != u.z9)), (u.z7 != u.z4) != (u.z6 != u.z3),
                       (u.z8 != u.z5) != (u.z7 != u.z4), (u.z9 != u.z6) != (u.z8 != u.z5),
                       (u.z0 != u.z7) != (u.z9 != u.z6), (u.z1 != u.z8) != (u.z0 != u.z7))
  {
    AddIs(Shifts(8, u), Shifts(9, u));
    Shifts8(u);
    Shifts9(u);
  }

  /** z^75. */
  const ROOT0: Element := Element(false, true, true, false, false, false, false, false, true, true)

  function TimesRoot0(u: Element): Element {
    Element((u.z9 != u.z8) != ((u.z2 != u.z9) != (u.z1 != u.z8)), (u.z0 != u.z9) != (u.z3 != (u.z2 != u.z9)),
            (u.z1 != u.z0) != (u.z4 != u.z3),
            ((u.z2 != u.z9) != (u.z1 != u.z8)) != ((u.z5 != (u.z2 != u.z9)) != (u.z4 != (u.z1 != u.z8))),
            (u.z3 != (u.z2 != u.z9)) != ((u.z6 != u.z3) != (u.z5 != (u.z2 != u.z9))),
            (u.z4 != u.z3) != ((u.z7 != u.z4) != (u.z6 != u.z3)),
            (u.z5 != u.z4) != ((u.z8 != u.z5) != (u.z7 != u.z4)),
            (u.z6 != u.z5) != ((u.z9 != u.z6) != (u.z8 != u.z5)),
            (u.z7 != u.z6) != ((u.z0 != u.z7) != (u.z9 != u.z6)),
            (u.z8 != u.z7) != ((u.z1 != u.z8) != (u.z0 != u.z7)))
  }

  lemma TimesRoot0Sum(u: Element)
    ensures Xor(Element(u.z9 != u.z8, u.z0 != u.z9, u.z1 != u.z0, (u.z2 != u.z9) != (u.z1 != u.z8),
                        u.z3 != (u.z2 != u.z9), u.z4 != u.z3, u.z5 != u.z4, u.z6 != u.z5, u.z7 != u.z6, u.z8 != u.z7),
                Element((u.z2 != u.z9) != (u.z1 != u.z8), u.z3 != (u.z2 != u.z9), u.z4 != u.z3,
                        (u.z5 != (u.z2 != u.z9)) != (u.z4 != (u.z1 != u.z8)),
                        (u.z6 != u.z3) != (u.z5 != (u.z2 != u.z9)), (u.z7 != u.z4) != (u.z6 != u.z3),
                        (u.z8 != u.z5) != (u.z7 != u.z4), (u.z9 != u.z6) != (u.z8 != u.z5),
                        (u.z0 != u.z7) != (u.z9 != u.z6), (u.z1 != u.z8) != (u.z0 != u.z7)))
            == TimesRoot0(u)
  {
  }

  lemma TimesRoot0Is(u: Element)
    ensures Mul(ROOT0, u) == TimesRoot0(u)
  {
    assert TimesRoot0(ONE) == ROOT0;
    hide *;
    SumIs(1, 2, 8, 9, u);
    TimesRoot0Form(u);
    TimesRoot0Form(ONE);
  }

  lemma TimesRoot0Form(u: Element)
    ensures TimesRoot0(u) == Sum(1, 2, 8, 9, u)
  {
    AddIs(Add(Shifts(1, u), Shifts(2, u)), Add(Shifts(8, u), Shifts(9, u)));
    hide Add, Xor, Shifts, TimesRoot0;
    TimesRoot0Sum(u);
    OneTwo(u);
    EightNine(u);
  }

  lemma ZeroThree(u: Element)
    ensures Add(Shifts(0, u), Shifts(3, u))
            == Element(u.z0 != u.z7, u.z1 != u.z8, u.z2 != u.z9, u.z3 != (u.z0 != u.z7), u.z4 != (u.z1 != u.z8),
                       u.z5 != (u.z2 != u.z9), u.z6 != u.z3, u.z7 != u.z4, u.z8 != u.z5, u.z9 != u.z6)
  {
    AddIs(Shifts(0, u), Shifts(3, u));
    Shifts3(u);
  }

  lemma SixSeven(u: Element)
    ensures Add(Shifts(6, u), Shifts(7, u))
            == Element(u.z4 != u.z3, u.z5 != u.z4, u.z6 != u.z5, (u.z7 != u.z4) != (u.z6 != u.z3),
                       (u.z8 != u.z5) != (u.z7 != u.z4), (u.z9 != u.z6) != (u.z8 != u.z5),
                       (u.z0 != u.z7) != (u.z9 != u.z6), (u.z1 != u.z8) != (u.z0 != u.z7),
                       (u.z2 != u.z9) != (u.z1 != u.z8), u.z3 != (u.z2 != u.z9))
  {
    AddIs(Shifts(6, u), Shifts(7, u));
    Shifts6(u);
    Shifts7(u);
  }

  /** z^206. */
  const ROOT1: Element := Element(true, false, false, true, false, false, true, true, false, false)

  function TimesRoot1(u: Element): Element {
    Element((u.z0 != u.z7) != (u.z4 != u.z3), (u.z1 != u.z8) != (u.z5 != u.z4), (u.z2 != u.z9) != (u.z6 != u.z5),
            (u.z3 != (u.z0 != u.z7)) != ((u.z7 != u.z4) != (u.z6 != u.z3)),
            (u.z4 != (u.z1 != u.z8)) != ((u.z8 != u.z5) != (u.z7 != u.z4)),
            (u.z5 != (u.z2 != u.z9)) != ((u.z9 != u.z6) != (u.z8 != u.z5)),
            (u.z6 != u.z3) != ((u.z0 != u.z7) != (u.z9 != u.z6)),
            (u.z7 != u.z4) != ((u.z1 != u.z8) != (u.z0 != u.z7)),
            (u.z8 != u.z5) != ((u.z2 != u.z9) != (u.z1 != u.z8)), (u.z9 != u.z6) != (u.z3 != (u.z2 != u.z9)))
  }

  lemma TimesRoot1Sum(u: Element)
    ensures Xor(Element(u.z0 != u.z7, u.z1 != u.z8, u.z2 != u.z9, u.z3 != (u.z0 != u.z7), u.z4 != (u.z1 != u.z8),
                        u.z5 != (u.z2 != u.z9), u.z6 != u.z3, u.z7 != u.z4, u.z8 != u.z5, u.z9 != u.z6),
                Element(u.z4 != u.z3, u.z5 != u.z4, u.z6 != u.z5, (u.z7 != u.z4) != (u.z6 != u.z3),
                        (u.z8 != u.z5) != (u.z7 != u.z4), (u.z9 != u.z6) != (u.z8 != u.z5),
                        (u.z0 != u.z7) != (u.z9 != u.z6), (u.z1 != u.z8) != (u.z0 != u.z7),
                        (u.z2 != u.z9) != (u.z1 != u.z8), u.z3 != (u.z2 != u.z9)))
            == TimesRoot1(u)
  {
  }

  lemma TimesRoot1Is(u: Element)
    ensures Mul(ROOT1, u) == TimesRoot1(u)
  {
    assert TimesRoot1(ONE) == ROOT1;
    hide *;
    SumIs(0, 3, 6, 7, u);
    TimesRoot1Form(u);
    TimesRoot1Form(ONE);
  }

  lemma TimesRoot1Form(u: Element)
    ensures TimesRoot1(u) == Sum(0, 3, 6, 7, u)
  {
    AddIs(Add(Shifts(0, u), Shifts(3, u)), Add(Shifts(6, u), Shifts(7, u)));
    hide Add, Xor, Shifts, TimesRoot1;
    TimesRoot1Sum(u);
    ZeroThree(u);
    SixSeven(u);
  }

  lemma SixEight(u: Element)
    ensures Add(Shifts(6, u), Shifts(8, u))
            == Element(u.z4 != (u.z2 != u.z9), u.z5 != u.z3, u.z6 != u.z4, (u.z7 != u.z4) != (u.z5 != (u.z2 != u.z9)),
                       (u.z8 != u.z5) != (u.z6 != u.z3), (u.z9 != u.z6) != (u.z7 != u.z4),
                       (u.z0 != u.z7) != (u.z8 != u.z5), (u.z1 != u.z8) != (u.z9 != u.z6),
                       (u.z2 != u.z9) != (u.z0 != u.z7), u.z3 != (u.z1 != u.z8))
  {
    AddIs(Shifts(6, u), Shifts(8, u));
    Shifts6(u);
    Shifts8(u);
  }

  /** z^337. */
  const ROOT2: Element := Element(false, false, true, true, false, false, true, false, true, false)

  function TimesRoot2(u: Element): Element {
    Element((u.z8 != u.z7) != (u.z4 != (u.z2 != u.z9)), (u.z9 != u.z8) != (u.z5 != u.z3),
            (u.z0 != u.z9) != (u.z6 != u.z4),
            ((u.z1 != u.z8) != (u.z0 != u.z7)) != ((u.z7 != u.z4) != (u.z5 != (u.z2 != u.z9))),
            ((u.z2 != u.z9) != (u.z1 != u.z8)) != ((u.z8 != u.z5) != (u.z6 != u.z3)),
            (u.z3 != (u.z2 != u.z9)) != ((u.z9 != u.z6) != (u.z7 != u.z4)),
            (u.z4 != u.z3) != ((u.z0 != u.z7) != (u.z8 != u.z5)),
            (u.z5 != u.z4) != ((u.z1 != u.z8) != (u.z9 != u.z6)),
            (u.z6 != u.z5) != ((u.z2 != u.z9) != (u.z0 != u.z7)), (u.z7 != u.z6) != (u.z3 != (u.z1 != u.z8)))
  }

  lemma TimesRoot2Sum(u: Element)
    ensures Xor(Element(u.z8 != u.z7, u.z9 != u.z8, u.z0 != u.z9, (u.z1 != u.z8) != (u.z0 != u.z7),
                        (u.z2 != u.z9) != (u.z1 != u.z8), u.z3 != (u.z2 != u.z9), u.z4 != u.z3, u.z5 != u.z4,
                        u.z6 != u.z5, u.z7 != u.z6),
                Element(u.z4 != (u.z2 != u.z9), u.z5 != u.z3, u.z6 != u.z4,
                        (u.z7 != u.z4) != (u.z5 != (u.z2 != u.z9)), (u.z8 != u.z5) != (u.z6 != u.z3),
                        (u.z9 != u.z6) != (u.z7 != u.z4), (u.z0 != u.z7) != (u.z8 != u.z5),
                        (u.z1 != u.z8) != (u.z9 != u.z6), (u.z2 != u.z9) != (u.z0 != u.z7), u.z3 != (u.z1 != u.z8)))
            == TimesRoot2(u)
  {
  }

  lemma TimesRoot2Is(u: Element)
    ensures Mul(ROOT2, u) == TimesRoot2(u)
  {
    assert TimesRoot2(ONE) == ROOT2;
    hide *;
    SumIs(2, 3, 6, 8, u);
    TimesRoot2Form(u);
    TimesRoot2Form(ONE);
  }

  lemma TimesRoot2Form(u: Element)
    ensures TimesRoot2(u) == Sum(2, 3, 6, 8, u)
  {
    AddIs(Add(Shifts(2, u), Shifts(3, u)), Add(Shifts(6, u), Shifts(8, u)));
    hide Add, Xor, Shifts, TimesRoot2;
    TimesRoot2Sum(u);
    TwoThree(u);
    SixEight(u);
  }

  // ----- An element of order 1023

  lemma PowerDouble(u: Element, n: nat)
    ensures Power(u, 2 * n) == Square(Power(u, n))
    ensures Power(u, 2 * n + 1) == Mul(u, Square(Power(u, n)))
  {
    hide Mul, Square;
    PowerAdd(u, n, n);
    SquareIs(Power(u, n));
    assert Power(u, 2 * n + 1) == Mul(u, Power(u, 2 * n));
  }

  lemma Doubled(n: nat)
    ensures Power(GENERATOR, 2 * n) == Square(Power(GENERATOR, n))
    ensures Power(GENERATOR, 2 * n + 1) == TimesGenerator(Square(Power(GENERATOR, n)))
  {
    hide Mul, Square, TimesGenerator;
    PowerDouble(GENERATOR, n);
    TimesGeneratorIs(Square(Power(GENERATOR, n)));
  }

  lemma NotOne33()
    ensures Power(GENERATOR, 33) != ONE
  {
    hide Mul, Power;
    PowerFirst(GENERATOR);
    Doubled(1);
    Doubled(2);
    Doubled(4);
    Doubled(8);
    Doubled(16);
  }

  lemma NotOne93()
    ensures Power(GENERATOR, 93) != ONE
  {
    hide Mul, Power;
    PowerFirst(GENERATOR);
    Doubled(1);
    Doubled(2);
    Doubled(5);
    Doubled(11);
    Doubled(23);
    Doubled(46);
  }

  lemma NotOne341()
    ensures Power(GENERATOR, 341) != ONE
  {
    hide Mul, Power;
    PowerFirst(GENERATOR);
    Doubled(1);
    Doubled(2);
    Doubled(5);
    Doubled(10);
    Doubled(21);
    Doubled(42);
    Doubled(85);
    Doubled(170);
  }

  lemma Remainder(h: Element, a: nat, b: nat)
    requires b > 0 && Power(h, a) == ONE && Power(h, b) == ONE
    ensures Power(h, a % b) == ONE
  {
    hide Mul, Power;
    var q, r := a / b, a % b;
    assert a == b * q + r;
    PowerAdd(h, b * q, r);
    PowerOfPower(h, b, q);
    PowerOfOne(q);
    MulCommutes(ONE, Power(h, r));
    MulOne(Power(h, r));
  }

  lemma Prime(p: nat, r: nat)
    requires (p == 3 || p == 11 || p == 31) && 1 < r < p
    ensures p % r != 0
  {
  }

  lemma {:induction false} PrimeOrder(h: Element, p: nat, d: nat)
    requires (p == 3 || p == 11 || p == 31) && d % p != 0
    requires Power(h, p) == ONE && Power(h, d) == ONE
    ensures h == ONE
    decreases d
  {
    hide Mul, Power;
    var r := d % p;
    Remainder(h, d, p);
    if r == 1 {
      PowerFirst(h);
    } else {
      Prime(p, r);
      Remainder(h, p, r);
      PrimeOrder(h, p, p % r);
    }
  }

  lemma OrderOfGenerator(d: nat)
    requires Power(GENERATOR, d) == ONE
    ensures d % 1023 == 0
  {
    hide Mul, Power;
    Fermat(GENERATOR);
    Factor(341, 3, d);
    Factor(93, 11, d);
    Factor(33, 31, d);
    Divisible(d);
  }

  lemma Divisible(d: nat)
    requires d % 3 == 0 && d % 11 == 0 && d % 31 == 0
    ensures d % 1023 == 0
  {
    var a, b, c := d / 3, d / 11, d / 31;
    assert d == 3 * a == 11 * b == 31 * c;
    var k := 4 * b - a;
    assert d == 33 * k;
    var m := 16 * c - 17 * k;
    assert d == 1023 * m;
  }

  lemma Factor(n: nat, p: nat, d: nat)
    requires (n == 341 && p == 3) || (n == 93 && p == 11) || (n == 33 && p == 31)
    requires Power(GENERATOR, d) == ONE && Power(GENERATOR, 1023) == ONE
    ensures d % p == 0
  {
    hide Mul, Power;
    NotOne341();
    NotOne93();
    NotOne33();
    if d % p != 0 {
      ByFactor(n, p, d);
    }
  }

  lemma ByFactor(n: nat, p: nat, d: nat)
    requires (p == 3 || p == 11 || p == 31) && n * p == 1023 && d % p != 0
    requires Power(GENERATOR, d) == ONE && Power(GENERATOR, 1023) == ONE
    ensures Power(GENERATOR, n) == ONE
  {
    hide Mul, Power;
    PowerOfPower(GENERATOR, n, p);
    PowerOfPower(GENERATOR, n, d);
    PowerOfPower(GENERATOR, d, n);
    PowerOfOne(n);
    assert n * d == d * n;
    PrimeOrder(Power(GENERATOR, n), p, d);
  }

  /** Powers of the generator less than 1023 apart differ. */
  lemma PowersDiffer(a: nat, b: nat)
    requires a < b < a + 1023
    ensures Power(GENERATOR, a) != Power(GENERATOR, b)
  {
    hide Mul, Power;
    if Power(GENERATOR, a) == Power(GENERATOR, b) {
      PowerNonzero(GENERATOR, a);
      PowerAdd(GENERATOR, a, b - a);
      Cancel(Power(GENERATOR, a), Power(GENERATOR, b - a));
      OrderOfGenerator(b - a);
    }
  }

  lemma Cancel(u: Element, v: Element)
    requires u != ZERO && Mul(u, v) == u
    ensures v == ONE
  {
    hide Mul, Add;
    MulAdd(v, ONE, u);
    MulOne(u);
    AddZero(u);
    NoZeroDivisors(u, Add(v, ONE));
    AddCancels(v, ONE);
  }

  lemma {:induction false} PowerNonzero(u: Element, n: nat)
    requires u != ZERO
    ensures Power(u, n) != ZERO
  {
    hide Mul;
    if n > 0 {
      PowerNonzero(u, n - 1);
      if Power(u, n) == ZERO {
        NoZeroDivisors(u, Power(u, n - 1));
      }
    }
  }

  // ----- Linear systems of powers

  lemma TwoTerms(p: Element, q: Element, x: Element, y: Element)
    requires Add(p, q) == ZERO && Add(Mul(p, x), Mul(q, y)) == ZERO && x != y
    ensures p == ZERO && q == ZERO
  {
    hide Mul, Add;
    AddCancels(p, q);
    MulAdd(x, y, p);
    if Add(x, y) == ZERO {
      AddCancels(x, y);
    }
    if p != ZERO {
      NoZeroDivisors(p, Add(x, y));
    }
  }

  /** One unknown eliminated. */
  lemma Eliminate(p: Element, q: Element, r: Element, x: Element, y: Element, z: Element)
    requires Add(p, Add(q, r)) == ZERO && Add(Mul(p, x), Add(Mul(q, y), Mul(r, z))) == ZERO
    ensures Add(Mul(p, Add(x, z)), Mul(q, Add(y, z))) == ZERO
  {
    hide Mul, Add;
    MulAdd(x, z, p);
    MulAdd(y, z, q);
    MulAdd(p, Add(q, r), z);
    MulAdd(q, r, z);
    MulZero(z);
    SixTerms(Mul(p, x), Mul(q, y), Mul(r, z), Mul(p, z), Mul(q, z));
  }

  lemma SixTerms(a: Element, b: Element, c: Element, d: Element, e: Element)
    requires Add(a, Add(b, c)) == ZERO && Add(d, Add(e, c)) == ZERO
    ensures Add(Add(a, d), Add(b, e)) == ZERO
  {
    hide Add;
    AddCancels(a, Add(b, c));
    AddCancels(d, Add(e, c));
    FourTerms(a, d, b, e);
    FourTerms(b, c, e, c);
    AddZero(c);
    AddZero(Add(b, e));
  }

  /** Three powers of distinct elements are independent. */
  lemma Vandermonde(p: Element, q: Element, r: Element, x: Element, y: Element, z: Element)
    requires x != y && y != z && x != z
    requires Add(p, Add(q, r)) == ZERO
    requires Add(Mul(p, x), Add(Mul(q, y), Mul(r, z))) == ZERO
    requires Add(Mul(Mul(p, x), x), Add(Mul(Mul(q, y), y), Mul(Mul(r, z), z))) == ZERO
    ensures p == ZERO && q == ZERO && r == ZERO
  {
    hide Mul, Add;
    var s, t := Add(x, z), Add(y, z);
    Eliminate(p, q, r, x, y, z);
    Eliminate(Mul(p, x), Mul(q, y), Mul(r, z), x, y, z);
    Exchange(p, x, s);
    Exchange(q, y, t);
    TwoTerms(Mul(p, s), Mul(q, t), x, y);
    Divide(p, x, z);
    Divide(q, y, z);
    AddZero(r);
    AddZero(ZERO);
  }

  lemma Exchange(p: Element, x: Element, s: Element)
    ensures Mul(Mul(p, x), s) == Mul(Mul(p, s), x)
  {
    hide Mul;
    MulAssoc(p, x, s);
    MulCommutes(x, s);
    MulAssoc(p, s, x);
  }

  lemma Divide(p: Element, x: Element, z: Element)
    requires Mul(p, Add(x, z)) == ZERO && x != z
    ensures p == ZERO
  {
    hide Mul, Add;
    if p != ZERO {
      NoZeroDivisors(p, Add(x, z));
      AddCancels(x, z);
    }
  }
}
