/**
 A published string (BIP 173, section "Test vectors"): the empty data part of "a12uel5l" verifies.
 */
module Bech32Vectors {
  import opened Bech32
  import Distance = Bech32Distance

  const S1: State := [
    true, true, false, false, false, true, false, false, false, false, false, false, false, false, false,
    false, false, false, false, false, false, false, false, false, false, false, false, false, false, false
  ]

  const S2: State := [
    false, false, false, false, false, true, true, false, false, false, true, false, false, false, false,
    false, false, false, false, false, false, false, false, false, false, false, false, false, false, false
  ]

  const S3: State := [
    true, false, false, false, false, false, false, false, false, false, true, true, false, false, false,
    true, false, false, false, false, false, false, false, false, false, false, false, false, false, false
  ]

  const S4: State := [
    false, true, false, true, false, true, false, false, false, false, false, false, false, false, false,
    true, true, false, false, false, true, false, false, false, false, false, false, false, false, false
  ]

  const S5: State := [
    false, false, true, true, true, false, true, false, true, false, true, false, false, false, false,
    false, false, false, false, false, true, true, false, false, false, true, false, false, false, false
  ]

  const S6: State := [
    true, true, false, true, false, true, false, false, false, false, true, true, true, true, true,
    true, false, true, false, true, false, true, true, false, true, false, true, true, true, true
  ]

  const S7: State := [
    false, true, true, false, false, false, false, true, true, true, false, false, false, false, true,
    false, false, false, false, true, true, true, true, true, false, true, false, false, false, false
  ]

  const S8: State := [
    false, true, true, false, false, true, true, false, true, true, true, false, false, true, false,
    false, false, true, false, false, false, true, true, false, false, false, true, false, false, true
  ]

  lemma Step1()
    ensures Step(One(), ToQuint(3)) == S1
  {
    hide BitOf;
  }

  lemma Step2()
    ensures Step(S1, ToQuint(0)) == S2
  {
    hide BitOf;
  }

  lemma Step3()
    ensures Step(S2, ToQuint(1)) == S3
  {
    hide BitOf;
  }

  lemma Step4()
    ensures Step(S3, ToQuint(10)) == S4
  {
    hide BitOf;
  }

  lemma Step5()
    ensures Step(S4, ToQuint(28)) == S5
  {
    hide BitOf;
  }

  lemma Step6()
    ensures Step(S5, ToQuint(25)) == S6
  {
    Distance.TableBits0();
    hide BitOf;
  }

  lemma Step7Low()
    ensures forall i :: 0 <= i < 15 ==> Step(S6, ToQuint(31))[i] == S7[i]
  {
    Distance.TableBits1();
    Distance.TableBits2();
    Distance.TableBits3();
    Distance.TableBits4();
    hide BitOf;
  }

  lemma Step7High()
    ensures forall i :: 15 <= i < 30 ==> Step(S6, ToQuint(31))[i] == S7[i]
  {
    Distance.TableBits1();
    Distance.TableBits2();
    Distance.TableBits3();
    Distance.TableBits4();
    hide BitOf;
  }

  lemma Step7()
    ensures Step(S6, ToQuint(31)) == S7
  {
    Step7Low();
    Step7High();
    hide Step, ToQuint;
  }

  lemma Step8()
    ensures Step(S7, ToQuint(20)) == S8
  {
    Distance.TableBits0();
    hide BitOf;
  }

  lemma Step9()
    ensures Step(S8, ToQuint(31)) == One()
  {
    Distance.TableBits1();
    Distance.TableBits4();
    hide BitOf;
  }

  lemma RunPrefix(c: State, vs: seq<Quint>, k: nat)
    requires k < |vs|
    ensures Run(c, vs[..k + 1]) == Step(Run(c, vs[..k]), vs[k])
  {
    assert vs[..k + 1][..k] == vs[..k];
  }

  /** Nine symbols lead from one to one: the human-readable part "a" and the checksum "2uel5l". */
  lemma NineSteps(vs: seq<Quint>)
    requires |vs| == 9 && vs == Quints([3, 0, 1, 10, 28, 25, 31, 20, 31])
    ensures Run(One(), vs) == One()
  {
    Step1();
    Step2();
    Step3();
    Step4();
    Step5();
    Step6();
    Step7();
    Step8();
    Step9();
    hide Step, ToQuint, Run;
    assert vs[..9] == vs;
    RunNothing(One(), vs);
    RunPrefix(One(), vs, 0);
    RunPrefix(One(), vs, 1);
    RunPrefix(One(), vs, 2);
    RunPrefix(One(), vs, 3);
    RunPrefix(One(), vs, 4);
    RunPrefix(One(), vs, 5);
    RunPrefix(One(), vs, 6);
    RunPrefix(One(), vs, 7);
    RunPrefix(One(), vs, 8);
  }

  lemma RunNothing(c: State, vs: seq<Quint>)
    ensures Run(c, vs[..0]) == c
  {
  }

  const VECTOR: Text := [97, 49, 50, 117, 101, 108, 53, 108]
  const CHECKSUM: seq<Symbol> := [10, 28, 25, 31, 20, 31]

  lemma VectorVerifies()
    ensures Verifies([97], CHECKSUM)
  {
    hide Run, ToQuint;
    var w := ExpandHrp([97]) + CHECKSUM;
    assert High(97) == 3 && Low(97) == 1;
    assert w == [3, 0, 1, 10, 28, 25, 31, 20, 31];
    NineSteps(Quints(w));
  }

  lemma VectorText()
    ensures VECTOR == [97] + [SEPARATOR] + Chars(CHECKSUM) && VECTOR[2..] == Chars(CHECKSUM) && VECTOR[..1] == [97]
  {
  }

  lemma VectorShape()
    ensures Printable(VECTOR) && !HasUpper(VECTOR) && LastSeparator(VECTOR, 1) && |VECTOR| == 8
    ensures Lowered([97]) == [97]
  {
  }

  lemma CharsBack(v: seq<Symbol>)
    ensures AllSymbols(Chars(v)) && Symbols(Chars(v)) == v
  {
    hide CharsetRev;
    forall i | 0 <= i < |v| ensures CharsetRev(Chars(v)[i]) == v[i] {
      CharOfSymbol(v[i]);
    }
  }

  const UPPER: Text := [65, 49, 50, 85, 69, 76, 53, 76]

  lemma UpperShape()
    ensures Printable(UPPER) && !HasLower(UPPER) && LastSeparator(UPPER, 1) && |UPPER| == 8
    ensures Lowered(UPPER[..1]) == [97]
  {
  }

  lemma UpperSymbols()
    ensures AllSymbols(UPPER[2..]) && Symbols(UPPER[2..]) == CHECKSUM
  {
    assert CharsetRev(50) == 10 && CharsetRev(85) == 28 && CharsetRev(69) == 25 && CharsetRev(76) == 31
           && CharsetRev(53) == 20;
    hide CharsetRev;
    assert UPPER[2..] == [50, 85, 69, 76, 53, 76];
  }

  /** "a12uel5l" is the encoding of no data under "a"; it is accepted, and so is it all in upper case. */
  lemma PublishedString()
    ensures IsEncoding([97], [], VECTOR) && Accepted(VECTOR, 1) && Accepted(UPPER, 1)
  {
    VectorVerifies();
    VectorText();
    VectorShape();
    UpperShape();
    UpperSymbols();
    CharsBack(CHECKSUM);
    assert [] + CHECKSUM == CHECKSUM && |CHECKSUM| == 6;
    hide Verifies, Chars, AllSymbols, Symbols, Printable, HasUpper, HasLower, LastSeparator, VECTOR, UPPER;
  }

  /** The symbols in order are the characters of the published table. */
  lemma PublishedTable(v: Symbol)
    ensures "qpzry9x8gf2tvdw0s3jn54khce6mua7l"[v] as int == CHARSET[v]
  {
  }
}
