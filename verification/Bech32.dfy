/**
 Bech32 (src/bech32.cpp; BIP 173, section "Bech32").

 The checksum state is a 30-bit number, here the sequence of its bits, lowest first; a
 symbol is a 5-bit number.
 */
module Bech32 {
  import opened Numbers
  import opened Wrappers

  type Symbol = v: int | 0 <= v < 32
  type State = s: seq<bool> | |s| == 30 witness AllZero(30)
  type Quint = s: seq<bool> | |s| == 5 witness AllZero(5)

  function AllZero(n: nat): (r: seq<bool>)
    ensures |r| == n && forall i :: 0 <= i < n ==> !r[i]
  {
    seq(n, _ => false)
  }

  predicate Xor(a: bool, b: bool) {
    a != b
  }

  function XorBits(s: seq<bool>, t: seq<bool>): (r: seq<bool>)
    requires |s| == |t|
    ensures |r| == |s| && forall i :: 0 <= i < |r| ==> r[i] == Xor(s[i], t[i])
  {
    seq(|s|, i requires 0 <= i < |s| => Xor(s[i], t[i]))
  }

  const ZERO: State := AllZero(30)
  const NO_BITS: Quint := AllZero(5)

  /** The number 1. */
  function One(): State {
    ZERO[0 := true]
  }

  function ToQuint(v: Symbol): Quint {
    [v % 2 == 1, v / 2 % 2 == 1, v / 4 % 2 == 1, v / 8 % 2 == 1, v / 16 % 2 == 1]
  }

  function FromQuint(q: Quint): Symbol {
    (if q[0] then 1 else 0) + (if q[1] then 2 else 0) + (if q[2] then 4 else 0)
    + (if q[3] then 8 else 0) + if q[4] then 16 else 0
  }

  lemma QuintOfSymbol(v: Symbol)
    ensures FromQuint(ToQuint(v)) == v
  {
  }

  lemma SymbolOfQuint(q: Quint)
    ensures ToQuint(FromQuint(q)) == q
  {
    var a, b, c, d, e := if q[0] then 1 else 0, if q[1] then 1 else 0, if q[2] then 1 else 0,
                         if q[3] then 1 else 0, if q[4] then 1 else 0;
    var v := FromQuint(q);
    assert v == a + 2 * (b + 2 * (c + 2 * (d + 2 * e)));
  }

  // ----- One step of the checksum

  const K0: nat := 0x3b6a57b2
  const K1: nat := 0x26508e6d
  const K2: nat := 0x1ea119fa
  const K3: nat := 0x3d4233dd
  const K4: nat := 0x2a1462b3

  predicate BitOf(k: nat, i: nat) {
    k / Pow2(i) % 2 == 1
  }

  /** Bit i of what the five bits shifted out feed back. */
  predicate Feedback(c: State, i: nat) {
    Xor(Xor(Xor(Xor(c[25] && BitOf(K0, i), c[26] && BitOf(K1, i)), c[27] && BitOf(K2, i)),
            c[28] && BitOf(K3, i)), c[29] && BitOf(K4, i))
  }

  /** Bit i of the state shifted left by five with the symbol put in. */
  predicate Shifted(c: State, v: Quint, i: nat)
    requires i < 30
  {
    if i < 5 then v[i] else c[i - 5]
  }

  function Step(c: State, v: Quint): State {
    seq(30, i requires 0 <= i < 30 => Xor(Shifted(c, v, i), Feedback(c, i)))
  }

  lemma FeedbackLinear(c: State, d: State, i: nat)
    ensures Feedback(XorBits(c, d), i) == Xor(Feedback(c, i), Feedback(d, i))
  {
    hide BitOf;
  }

  /** A step is linear over exclusive or. */
  lemma StepLinear(c: State, v: Quint, d: State, w: Quint)
    ensures Step(XorBits(c, d), XorBits(v, w)) == XorBits(Step(c, v), Step(d, w))
  {
    hide Feedback;
    forall i | 0 <= i < 30
      ensures Step(XorBits(c, d), XorBits(v, w))[i] == XorBits(Step(c, v), Step(d, w))[i]
    {
      FeedbackLinear(c, d, i);
    }
  }

  /** The low five bits of the feedback are a nonsingular image of the bits shifted out. */
  lemma FeedbackNonzero(c: State)
    requires forall i :: 0 <= i < 5 ==> !Feedback(c, i)
    ensures !c[25] && !c[26] && !c[27] && !c[28] && !c[29]
  {
    LowBitsOfTable();
    hide BitOf;
    assert !Feedback(c, 0) && !Feedback(c, 1) && !Feedback(c, 2) && !Feedback(c, 3) && !Feedback(c, 4);
  }

  lemma LowBitsOfTable()
    ensures !BitOf(K0, 0) && BitOf(K0, 1) && !BitOf(K0, 2) && !BitOf(K0, 3) && BitOf(K0, 4)
    ensures BitOf(K1, 0) && !BitOf(K1, 1) && BitOf(K1, 2) && BitOf(K1, 3) && !BitOf(K1, 4)
    ensures !BitOf(K2, 0) && BitOf(K2, 1) && !BitOf(K2, 2) && BitOf(K2, 3) && BitOf(K2, 4)
    ensures BitOf(K3, 0) && !BitOf(K3, 1) && BitOf(K3, 2) && BitOf(K3, 3) && BitOf(K3, 4)
    ensures BitOf(K4, 0) && BitOf(K4, 1) && !BitOf(K4, 2) && !BitOf(K4, 3) && BitOf(K4, 4)
  {
    assert Pow2(0) == 1 && Pow2(1) == 2 && Pow2(2) == 4 && Pow2(3) == 8 && Pow2(4) == 16;
  }

  /** Only the zero state steps to zero on a zero symbol. */
  lemma StepZero(c: State)
    requires Step(c, NO_BITS) == ZERO
    ensures c == ZERO
  {
    hide Feedback;
    forall i | 0 <= i < 5 ensures !Feedback(c, i) {
      assert !Step(c, NO_BITS)[i];
    }
    FeedbackNonzero(c);
    forall i | 0 <= i < 25 ensures !c[i] {
      assert !Step(c, NO_BITS)[i + 5];
      NoFeedback(c, i + 5);
    }
  }

  lemma NoFeedback(c: State, i: nat)
    requires !c[25] && !c[26] && !c[27] && !c[28] && !c[29]
    ensures !Feedback(c, i)
  {
  }

  // ----- Whole runs

  function Run(c: State, vs: seq<Quint>): State {
    if vs == [] then c else Step(Run(c, vs[..|vs| - 1]), vs[|vs| - 1])
  }

  function XorAll(vs: seq<Quint>, ws: seq<Quint>): (r: seq<Quint>)
    requires |vs| == |ws|
    ensures |r| == |vs| && forall i :: 0 <= i < |r| ==> r[i] == XorBits(vs[i], ws[i])
  {
    seq(|vs|, i requires 0 <= i < |vs| => XorBits(vs[i], ws[i]))
  }

  function Zeros(n: nat): (r: seq<Quint>)
    ensures |r| == n && forall i :: 0 <= i < n ==> r[i] == NO_BITS
  {
    seq(n, _ => NO_BITS)
  }

  lemma XorFacts(s: seq<bool>, t: seq<bool>)
    requires |s| == |t|
    ensures XorBits(s, AllZero(|s|)) == s && XorBits(AllZero(|s|), s) == s
    ensures XorBits(s, t) == AllZero(|s|) <==> s == t
    ensures XorBits(XorBits(s, t), t) == s && XorBits(s, XorBits(s, t)) == t
  {
    if XorBits(s, t) == AllZero(|s|) {
      forall i | 0 <= i < |s| ensures s[i] == t[i] {
        assert !XorBits(s, t)[i];
      }
    }
  }

  lemma {:induction false} RunLinear(c: State, vs: seq<Quint>, d: State, ws: seq<Quint>)
    requires |vs| == |ws|
    ensures Run(XorBits(c, d), XorAll(vs, ws)) == XorBits(Run(c, vs), Run(d, ws))
  {
    hide Step;
    if vs != [] {
      var n := |vs| - 1;
      RunLinear(c, vs[..n], d, ws[..n]);
      assert XorAll(vs, ws)[..n] == XorAll(vs[..n], ws[..n]);
      StepLinear(Run(c, vs[..n]), vs[n], Run(d, ws[..n]), ws[n]);
    }
  }

  lemma {:induction false} RunConcat(c: State, s: seq<Quint>, t: seq<Quint>)
    ensures Run(c, s + t) == Run(Run(c, s), t)
  {
    hide Step;
    if t == [] {
      assert s + t == s;
    } else {
      var n := |t| - 1;
      RunConcat(c, s, t[..n]);
      assert (s + t)[..|s| + n] == s + t[..n];
    }
  }

  lemma {:induction false} RunZeros(c: State, n: nat)
    requires Run(c, Zeros(n)) == ZERO
    ensures c == ZERO
  {
    hide Step;
    if n > 0 {
      assert Zeros(n)[..n - 1] == Zeros(n - 1);
      StepZero(Run(c, Zeros(n - 1)));
      RunZeros(c, n - 1);
    }
  }

  /** Different states stay different, whatever symbols follow. */
  lemma RunInjective(c: State, d: State, vs: seq<Quint>)
    requires Run(c, vs) == Run(d, vs)
    ensures c == d
  {
    hide Run;
    RunLinear(c, vs, d, vs);
    XorFacts(Run(c, vs), Run(d, vs));
    assert XorAll(vs, vs) == Zeros(|vs|) by {
      forall i | 0 <= i < |vs| ensures XorBits(vs[i], vs[i]) == NO_BITS {
        XorFacts(vs[i], vs[i]);
      }
    }
    RunZeros(XorBits(c, d), |vs|);
    XorFacts(c, d);
  }

  /** Up to six symbols as one number. */
  function Packed(vs: seq<Quint>): State
    requires |vs| <= 6
  {
    seq(30, i requires 0 <= i < 30 => PackedBit(vs, i))
  }

  predicate PackedBit(vs: seq<Quint>, i: nat) {
    i / 5 < |vs| && vs[|vs| - 1 - i / 5][i % 5]
  }

  /** From the zero state, six symbols are just collected. */
  lemma {:induction false} RunPacks(vs: seq<Quint>)
    requires |vs| <= 6
    ensures Run(ZERO, vs) == Packed(vs)
  {
    if vs != [] {
      var n := |vs| - 1;
      RunPacks(vs[..n]);
      PackStep(vs[..n], vs[n]);
      assert vs[..n] + [vs[n]] == vs;
    }
  }

  lemma PackStep(vs: seq<Quint>, v: Quint)
    requires |vs| < 6
    ensures Step(Packed(vs), v) == Packed(vs + [v])
  {
    var c := Packed(vs);
    hide Feedback;
    forall i | 0 <= i < 30 ensures Step(c, v)[i] == PackedBit(vs + [v], i) {
      NoFeedback(c, i);
      if i >= 5 {
        assert (i - 5) / 5 == i / 5 - 1 && (i - 5) % 5 == i % 5;
      }
    }
  }

  lemma PackedZero(vs: seq<Quint>)
    requires |vs| <= 6 && Packed(vs) == ZERO
    ensures forall k :: 0 <= k < |vs| ==> vs[k] == NO_BITS
  {
    forall k, j | 0 <= k < |vs| && 0 <= j < 5 ensures !vs[k][j] {
      var i := 5 * (|vs| - 1 - k) + j;
      DivUnique(i, 5, |vs| - 1 - k);
      assert !Packed(vs)[i] && PackedBit(vs, i) == vs[k][j];
    }
  }

  /** Six symbols can be told apart by the state after them. */
  lemma WindowUnique(c: State, e: seq<Quint>, f: seq<Quint>)
    requires |e| == |f| <= 6 && Run(c, e) == Run(c, f)
    ensures e == f
  {
    hide Run, Packed;
    RunLinear(c, e, c, f);
    XorFacts(c, c);
    XorFacts(Run(c, e), Run(c, f));
    RunPacks(XorAll(e, f));
    PackedZero(XorAll(e, f));
    forall i | 0 <= i < |e| ensures e[i] == f[i] {
      XorFacts(e[i], f[i]);
    }
  }

  /** Two runs that differ only inside a window of six symbols end differently. */
  lemma WindowDetected(c: State, a: seq<Quint>, e: seq<Quint>, f: seq<Quint>, b: seq<Quint>)
    requires |e| == |f| <= 6 && e != f
    ensures Run(c, a + e + b) != Run(c, a + f + b)
  {
    hide Run;
    var x := Run(c, a);
    RunConcat(c, a, e);
    RunConcat(c, a, f);
    RunConcat(c, a + e, b);
    RunConcat(c, a + f, b);
    if Run(c, a + e + b) == Run(c, a + f + b) {
      RunInjective(Run(x, e), Run(x, f), b);
      WindowUnique(x, e, f);
    }
  }

  // ----- The checksum

  function Quints(v: seq<Symbol>): (r: seq<Quint>)
    ensures |r| == |v| && forall i :: 0 <= i < |r| ==> r[i] == ToQuint(v[i])
  {
    seq(|v|, i requires 0 <= i < |v| => ToQuint(v[i]))
  }

  lemma QuintsConcat(v: seq<Symbol>, w: seq<Symbol>)
    ensures Quints(v + w) == Quints(v) + Quints(w)
  {
  }

  lemma QuintsInjective(v: seq<Symbol>, w: seq<Symbol>)
    requires Quints(v) == Quints(w)
    ensures v == w
  {
    hide ToQuint, FromQuint;
    assert |v| == |Quints(v)| == |w|;
    forall i | 0 <= i < |v| ensures v[i] == w[i] {
      assert Quints(v)[i] == Quints(w)[i];
      QuintOfSymbol(v[i]);
      QuintOfSymbol(w[i]);
    }
  }

  method PolyMod(v: seq<Symbol>) returns (c: State)
    ensures c == Run(One(), Quints(v))
  {
    hide Step, ToQuint;
    c := One();
    var i := 0;
    while i < |v|
      invariant 0 <= i <= |v| && c == Run(One(), Quints(v[..i]))
    {
      c := Step(c, ToQuint(v[i]));
      assert v[..i + 1] == v[..i] + [v[i]];
      QuintsConcat(v[..i], [v[i]]);
      assert Quints(v[..i + 1])[..i] == Quints(v[..i]);
      i := i + 1;
    }
    assert v[..|v|] == v;
  }

  type Code = c: int | 0 <= c < 256
  type Text = seq<Code>

  /** High bits of every character, a zero, low bits of every character. */
  function ExpandHrp(hrp: Text): seq<Symbol> {
    seq(|hrp|, i requires 0 <= i < |hrp| => High(hrp[i])) + [0] + seq(|hrp|, i requires 0 <= i < |hrp| => Low(hrp[i]))
  }

  function High(c: Code): Symbol {
    c / 32
  }

  function Low(c: Code): Symbol {
    c % 32
  }

  ghost predicate Verifies(hrp: Text, values: seq<Symbol>) {
    Run(One(), Quints(ExpandHrp(hrp) + values)) == One()
  }

  method VerifyChecksum(hrp: Text, values: seq<Symbol>) returns (ok: bool)
    ensures ok <==> Verifies(hrp, values)
  {
    var c := PolyMod(ExpandHrp(hrp) + values);
    ok := c == One();
  }

  /** The symbols a six-symbol number consists of, highest first. */
  function Unpacked(c: State): (r: seq<Quint>)
    ensures |r| == 6
  {
    [c[25..30], c[20..25], c[15..20], c[10..15], c[5..10], c[0..5]]
  }

  lemma PackUnpack(c: State)
    ensures Packed(Unpacked(c)) == c
  {
    forall i | 0 <= i < 30 ensures PackedBit(Unpacked(c), i) == c[i] {
      var k := i / 5;
      assert k == 0 || k == 1 || k == 2 || k == 3 || k == 4 || k == 5;
    }
  }

  method CreateChecksum(hrp: Text, values: seq<Symbol>) returns (ret: seq<Symbol>)
    ensures |ret| == 6 && Verifies(hrp, values + ret)
  {
    hide Run, Packed, FromQuint, ToQuint;
    var enc := ExpandHrp(hrp) + values;
    var c := PolyMod(enc + [0, 0, 0, 0, 0, 0]);
    var mod := XorBits(c, One());
    ret := [];
    var i := 0;
    while i < 6
      invariant 0 <= i <= 6 && |ret| == i
      invariant forall j :: 0 <= j < i ==> ret[j] == FromQuint(Unpacked(mod)[j])
    {
      ret := ret + [FromQuint(mod[5 * (5 - i)..5 * (5 - i) + 5])];
      i := i + 1;
    }
    ChecksumRight(enc, mod, ret);
    assert ExpandHrp(hrp) + (values + ret) == enc + ret;
  }

  /** Putting the number into the last six symbols turns the state into one. */
  lemma ChecksumRight(enc: seq<Symbol>, mod: State, ret: seq<Symbol>)
    requires mod == XorBits(Run(One(), Quints(enc + [0, 0, 0, 0, 0, 0])), One())
    requires |ret| == 6 && forall j :: 0 <= j < 6 ==> ret[j] == FromQuint(Unpacked(mod)[j])
    ensures Run(One(), Quints(enc + ret)) == One()
  {
    hide Run, Packed, FromQuint, ToQuint;
    var zeros: seq<Symbol> := [0, 0, 0, 0, 0, 0];
    var x, p := Run(One(), Quints(enc)), Run(One(), Quints(enc + zeros));
    QuintsConcat(enc, zeros);
    QuintsConcat(enc, ret);
    RunConcat(One(), Quints(enc), Quints(zeros));
    RunConcat(One(), Quints(enc), Quints(ret));
    assert Quints(ret) == Unpacked(mod) by {
      forall j | 0 <= j < 6 ensures ToQuint(ret[j]) == Unpacked(mod)[j] {
        SymbolOfQuint(Unpacked(mod)[j]);
      }
    }
    ZeroQuints(zeros);
    RunPacks(Quints(ret));
    PackUnpack(mod);
    RunLinear(x, Quints(zeros), ZERO, Quints(ret));
    XorFacts(x, ZERO);
    assert XorAll(Quints(zeros), Quints(ret)) == Quints(ret) by {
      forall j | 0 <= j < 6 ensures XorBits(Quints(zeros)[j], Quints(ret)[j]) == Quints(ret)[j] {
        XorFacts(Quints(ret)[j], Quints(ret)[j]);
      }
    }
    XorFacts(p, One());
  }

  lemma ZeroQuints(zeros: seq<Symbol>)
    requires forall j :: 0 <= j < |zeros| ==> zeros[j] == 0
    ensures forall j :: 0 <= j < |zeros| ==> Quints(zeros)[j] == NO_BITS
  {
    assert ToQuint(0) == NO_BITS;
  }

  /** A change inside a window of six data or checksum symbols never verifies, at any length. */
  lemma ErrorDetected(hrp: Text, a: seq<Symbol>, e: seq<Symbol>, f: seq<Symbol>, b: seq<Symbol>)
    requires |e| == |f| <= 6 && e != f && Verifies(hrp, a + e + b)
    ensures !Verifies(hrp, a + f + b)
  {
    hide Run, ToQuint;
    var pre := ExpandHrp(hrp) + a;
    assert ExpandHrp(hrp) + (a + e + b) == pre + e + b && ExpandHrp(hrp) + (a + f + b) == pre + f + b;
    QuintsConcat(pre, e);
    QuintsConcat(pre, f);
    QuintsConcat(pre + e, b);
    QuintsConcat(pre + f, b);
    if Quints(e) == Quints(f) {
      QuintsInjective(e, f);
    }
    WindowDetected(One(), Quints(pre), Quints(e), Quints(f), Quints(b));
  }

  /** In particular, changing a single symbol. */
  lemma SingleErrorDetected(hrp: Text, values: seq<Symbol>, i: nat, v: Symbol)
    requires i < |values| && v != values[i] && Verifies(hrp, values)
    ensures !Verifies(hrp, values[i := v])
  {
    var a, b := values[..i], values[i + 1..];
    assert values == a + [values[i]] + b && values[i := v] == a + [v] + b;
    ErrorDetected(hrp, a, [values[i]], [v], b);
  }

  // ----- Characters

  const SEPARATOR: Code := 49

  /** The character codes of the 32 symbols, in symbol order. */
  const CHARSET: Text := [
    113, 112, 122, 114, 121, 57, 120, 56, 103, 102, 50, 116, 118, 100, 119, 48,
    115, 51, 106, 110, 53, 52, 107, 104, 99, 101, 54, 109, 117, 97, 55, 108
  ]

  function LowerCase(c: Code): Code {
    if 65 <= c <= 90 then c + 32 else c
  }

  /** The symbol of a character of either case, or -1. */
  function CharsetRev(c: Code): (v: int)
    ensures -1 <= v < 32
  {
    if c < 33 || c > 126 then -1
    else
      var l := LowerCase(c);
      if l == 113 then 0 else if l == 112 then 1 else if l == 122 then 2 else if l == 114 then 3
      else if l == 121 then 4 else if l == 57 then 5 else if l == 120 then 6 else if l == 56 then 7
      else if l == 103 then 8 else if l == 102 then 9 else if l == 50 then 10 else if l == 116 then 11
      else if l == 118 then 12 else if l == 100 then 13 else if l == 119 then 14 else if l == 48 then 15
      else if l == 115 then 16 else if l == 51 then 17 else if l == 106 then 18 else if l == 110 then 19
      else if l == 53 then 20 else if l == 52 then 21 else if l == 107 then 22 else if l == 104 then 23
      else if l == 99 then 24 else if l == 101 then 25 else if l == 54 then 26 else if l == 109 then 27
      else if l == 117 then 28 else if l == 97 then 29 else if l == 55 then 30 else if l == 108 then 31
      else -1
  }

  lemma CharOfSymbol(v: Symbol)
    ensures CharsetRev(CHARSET[v]) == v
    ensures 33 <= CHARSET[v] <= 126 && CHARSET[v] != SEPARATOR && !(65 <= CHARSET[v] <= 90)
  {
  }

  lemma SymbolOfChar(c: Code)
    requires CharsetRev(c) >= 0
    ensures CHARSET[CharsetRev(c)] == LowerCase(c)
  {
  }

  // ----- Encoding and decoding

  function Chars(v: seq<Symbol>): (r: Text)
    ensures |r| == |v| && forall i :: 0 <= i < |r| ==> r[i] == CHARSET[v[i]]
  {
    seq(|v|, i requires 0 <= i < |v| => CHARSET[v[i]])
  }

  function Lowered(s: Text): (r: Text)
    ensures |r| == |s| && forall i :: 0 <= i < |r| ==> r[i] == LowerCase(s[i])
  {
    seq(|s|, i requires 0 <= i < |s| => LowerCase(s[i]))
  }

  /** The text of a human-readable part and values: with a checksum that verifies. */
  ghost predicate IsEncoding(hrp: Text, values: seq<Symbol>, s: Text) {
    exists cs: seq<Symbol> :: |cs| == 6 && Verifies(hrp, values + cs) && s == hrp + [SEPARATOR] + Chars(values + cs)
  }

  method Encode(hrp: Text, values: seq<Symbol>) returns (s: Text)
    ensures IsEncoding(hrp, values, s)
  {
    hide Verifies;
    var checksum := CreateChecksum(hrp, values);
    var combined := values + checksum;
    s := hrp + [SEPARATOR];
    var i := 0;
    while i < |combined|
      invariant 0 <= i <= |combined| && s == hrp + [SEPARATOR] + Chars(combined[..i])
    {
      s := s + [CHARSET[combined[i]]];
      assert Chars(combined[..i + 1]) == Chars(combined[..i]) + [CHARSET[combined[i]]];
      i := i + 1;
    }
    assert combined[..|combined|] == combined;
  }

  predicate Printable(s: Text) {
    forall i :: 0 <= i < |s| ==> 33 <= s[i] <= 126
  }

  predicate HasUpper(s: Text) {
    exists i :: 0 <= i < |s| && 65 <= s[i] <= 90
  }

  predicate HasLower(s: Text) {
    exists i :: 0 <= i < |s| && 97 <= s[i] <= 122
  }

  /** The last separator is at pos. */
  predicate LastSeparator(s: Text, pos: nat) {
    pos < |s| && s[pos] == SEPARATOR && forall i :: pos < i < |s| ==> s[i] != SEPARATOR
  }

  predicate AllSymbols(s: Text) {
    forall i :: 0 <= i < |s| ==> CharsetRev(s[i]) >= 0
  }

  function Symbols(s: Text): (r: seq<Symbol>)
    requires AllSymbols(s)
    ensures |r| == |s| && forall i :: 0 <= i < |r| ==> r[i] == CharsetRev(s[i])
  {
    seq(|s|, i requires 0 <= i < |s| => CharsetRev(s[i]))
  }

  /** The text decodes, with its separator at pos. */
  ghost predicate Accepted(s: Text, pos: nat) {
    && Printable(s) && !(HasLower(s) && HasUpper(s)) && |s| <= 90
    && LastSeparator(s, pos) && pos > 0 && pos + 7 <= |s|
    && AllSymbols(s[pos + 1..]) && Verifies(Lowered(s[..pos]), Symbols(s[pos + 1..]))
  }

  method CheckChars(s: Text) returns (ok: bool)
    ensures ok <==> Printable(s) && !(HasLower(s) && HasUpper(s))
  {
    var lower, upper := false, false;
    var i := 0;
    while i < |s|
      invariant 0 <= i <= |s| && forall j :: 0 <= j < i ==> 33 <= s[j] <= 126
      invariant lower <==> exists j :: 0 <= j < i && 97 <= s[j] <= 122
      invariant upper <==> exists j :: 0 <= j < i && 65 <= s[j] <= 90
    {
      if s[i] < 33 || s[i] > 126 {
        return false;
      }
      if 97 <= s[i] <= 122 {
        lower := true;
      }
      if 65 <= s[i] <= 90 {
        upper := true;
      }
      i := i + 1;
    }
    ok := !(lower && upper);
  }

  method FindLast(s: Text) returns (pos: int)
    ensures pos == -1 ==> forall i :: 0 <= i < |s| ==> s[i] != SEPARATOR
    ensures pos != -1 ==> 0 <= pos && LastSeparator(s, pos)
  {
    pos := |s| - 1;
    while pos >= 0 && s[pos] != SEPARATOR
      invariant -1 <= pos < |s| && forall i :: pos < i < |s| ==> s[i] != SEPARATOR
    {
      pos := pos - 1;
    }
  }

  method ReadSymbols(s: Text) returns (r: Option<seq<Symbol>>)
    ensures r.Some? <==> AllSymbols(s)
    ensures r.Some? ==> r.value == Symbols(s)
  {
    hide CharsetRev;
    var values := [];
    var i := 0;
    while i < |s|
      invariant 0 <= i <= |s| && |values| == i
      invariant forall j :: 0 <= j < i ==> CharsetRev(s[j]) >= 0 && values[j] == CharsetRev(s[j])
    {
      var rev := CharsetRev(s[i]);
      if rev == -1 {
        return None;
      }
      values := values + [rev];
      i := i + 1;
    }
    r := Some(values);
  }

  /** What a text with its separator at pos stands for. */
  function Parts(s: Text, pos: nat): (Text, seq<Symbol>)
    requires pos + 7 <= |s| && AllSymbols(s[pos + 1..])
  {
    (Lowered(s[..pos]), Symbols(s[pos + 1..])[..|s| - pos - 7])
  }

  method DecodeAt(s: Text, pos: nat) returns (r: Option<(Text, seq<Symbol>)>)
    requires pos + 7 <= |s|
    ensures r.Some? <==> AllSymbols(s[pos + 1..]) && Verifies(Lowered(s[..pos]), Symbols(s[pos + 1..]))
    ensures r.Some? ==> r.value == Parts(s, pos)
  {
    hide AllSymbols, Verifies, CharsetRev, LowerCase;
    var values := ReadSymbols(s[pos + 1..]);
    if values.None? {
      return None;
    }
    var hrp := LowerAll(s[..pos]);
    var ok := VerifyChecksum(hrp, values.value);
    if !ok {
      return None;
    }
    r := Some((hrp, values.value[..|values.value| - 6]));
  }

  method LowerAll(s: Text) returns (r: Text)
    ensures r == Lowered(s)
  {
    hide LowerCase;
    r := [];
    var i := 0;
    while i < |s|
      invariant 0 <= i <= |s| && |r| == i && forall j :: 0 <= j < i ==> r[j] == LowerCase(s[j])
    {
      r := r + [LowerCase(s[i])];
      i := i + 1;
    }
  }

  method Decode(s: Text) returns (r: Option<(Text, seq<Symbol>)>)
    ensures r.Some? <==> exists pos: nat :: Accepted(s, pos)
    ensures forall pos: nat :: Accepted(s, pos) ==> r == Some(Parts(s, pos))
  {
    hide Printable, HasLower, HasUpper, AllSymbols, Verifies, LastSeparator, Lowered, Symbols;
    var ok := CheckChars(s);
    if !ok {
      return None;
    }
    var pos := FindLast(s);
    forall p: nat | Accepted(s, p) ensures p == pos {
      SeparatorUnique(s, p, pos);
    }
    if |s| > 90 || pos == -1 || pos == 0 || pos + 7 > |s| {
      return None;
    }
    r := DecodeAt(s, pos);
    assert Accepted(s, pos) <==> r.Some?;
  }

  lemma SeparatorUnique(s: Text, p: nat, q: int)
    requires LastSeparator(s, p)
    requires q == -1 ==> forall i :: 0 <= i < |s| ==> s[i] != SEPARATOR
    requires q != -1 ==> 0 <= q && LastSeparator(s, q)
    ensures p == q
  {
  }

  // ----- Round trips

  /** The text of printable lower-case parts reads as those parts. */
  lemma EncodingReads(hrp: Text, values: seq<Symbol>, s: Text)
    requires hrp != [] && Printable(hrp) && !HasUpper(hrp) && IsEncoding(hrp, values, s)
    ensures |s| == |hrp| + |values| + 7 && LastSeparator(s, |hrp|)
    ensures |s| <= 90 ==> Accepted(s, |hrp|)
    ensures Lowered(s[..|hrp|]) == hrp
    ensures AllSymbols(s[|hrp| + 1..]) && Parts(s, |hrp|) == (hrp, values)
  {
    hide Verifies, CharsetRev, LowerCase;
    var cs :| |cs| == 6 && Verifies(hrp, values + cs) && s == hrp + [SEPARATOR] + Chars(values + cs);
    var all, n := values + cs, |hrp|;
    assert s[..n] == hrp && s[n + 1..] == Chars(all);
    forall i | 0 <= i < |all|
      ensures CharsetRev(s[n + 1..][i]) == all[i] && s[n + 1 + i] != SEPARATOR
      ensures 33 <= s[n + 1 + i] <= 126 && !(65 <= s[n + 1 + i] <= 90)
    {
      CharOfSymbol(all[i]);
    }
    forall j | n < j < |s| ensures s[j] != SEPARATOR && 33 <= s[j] <= 126 && !(65 <= s[j] <= 90) {
      assert s[j] == s[n + 1 + (j - n - 1)];
    }
    assert Symbols(s[n + 1..]) == all;
    NotUpper(hrp);
    assert Lowered(s[..n]) == hrp;
    assert forall j :: 0 <= j < n ==> s[j] == hrp[j];
    assert Printable(s) && !HasUpper(s);
  }

  lemma NotUpper(hrp: Text)
    requires !HasUpper(hrp)
    ensures Lowered(hrp) == hrp
  {
  }

  /** Decoding undoes encoding for every printable lower-case prefix, as long as the text is short enough. */
  method EncodeThenDecode(hrp: Text, values: seq<Symbol>) returns (r: Option<(Text, seq<Symbol>)>)
    requires hrp != [] && Printable(hrp) && !HasUpper(hrp)
    ensures r == if |hrp| + |values| + 7 <= 90 then Some((hrp, values)) else None
  {
    hide Verifies, CharsetRev, IsEncoding, Printable, HasUpper;
    var s := Encode(hrp, values);
    EncodingReads(hrp, values, s);
    r := Decode(s);
    if |s| > 90 {
      TooLong(s);
    }
  }

  lemma TooLong(s: Text)
    requires |s| > 90
    ensures forall pos: nat :: !Accepted(s, pos)
  {
  }

  /** Only one checksum verifies. */
  lemma ChecksumUnique(hrp: Text, values: seq<Symbol>, a: seq<Symbol>, b: seq<Symbol>)
    requires |a| == |b| == 6 && Verifies(hrp, values + a) && Verifies(hrp, values + b)
    ensures a == b
  {
    if a != b {
      assert values + a + [] == values + a && values + b + [] == values + b;
      ErrorDetected(hrp, values, a, b, []);
    }
  }

  lemma CharsOfSymbols(s: Text)
    requires AllSymbols(s)
    ensures Chars(Symbols(s)) == Lowered(s)
  {
    hide CharsetRev, LowerCase;
    forall i | 0 <= i < |s| ensures Chars(Symbols(s))[i] == LowerCase(s[i]) {
      SymbolOfChar(s[i]);
    }
  }

  lemma LoweredParts(s: Text, pos: nat)
    requires pos < |s| && s[pos] == SEPARATOR
    ensures Lowered(s) == Lowered(s[..pos]) + [SEPARATOR] + Lowered(s[pos + 1..])
  {
  }

  /** Encoding undoes decoding, up to case: there is no other text for the same parts. */
  lemma DecodedIsEncoding(s: Text, pos: nat, t: Text)
    requires Accepted(s, pos) && IsEncoding(Parts(s, pos).0, Parts(s, pos).1, t)
    ensures t == Lowered(s)
  {
    hide Verifies, CharsetRev, Chars, Lowered, Symbols, Printable, HasLower, HasUpper, AllSymbols;
    var hrp, all := Lowered(s[..pos]), Symbols(s[pos + 1..]);
    var n := |all| - 6;
    var values := all[..n];
    var cs: seq<Symbol> :| |cs| == 6 && Verifies(hrp, values + cs) && t == hrp + [SEPARATOR] + Chars(values + cs);
    assert values + all[n..] == all;
    ChecksumUnique(hrp, values, cs, all[n..]);
    CharsOfSymbols(s[pos + 1..]);
    LoweredParts(s, pos);
  }

  method DecodeThenEncode(s: Text) returns (t: Option<Text>)
    ensures t.Some? <==> exists pos: nat :: Accepted(s, pos)
    ensures t.Some? ==> t.value == Lowered(s)
  {
    hide IsEncoding, CharsetRev, Verifies, Parts;
    var r := Decode(s);
    if r.None? {
      return None;
    }
    ghost var pos: nat :| Accepted(s, pos);
    var e := Encode(r.value.0, r.value.1);
    DecodedIsEncoding(s, pos, e);
    t := Some(e);
  }
}
