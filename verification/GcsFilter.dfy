/**
 Golomb-coded set filters (src/blockfilter.cpp; BIP 158, section "Golomb-Coded Sets").
 */
module GcsFilter {
  import opened BitStream
  import opened Numbers
  import opened Wrappers

  const WORD64: nat := WORD * WORD

  // ----- Golomb-Rice coding

  function Ones(n: nat): (r: seq<bool>)
    ensures |r| == n && forall i :: 0 <= i < n ==> r[i]
  {
    seq(n, _ => true)
  }

  /** The code of x: its high part in unary, a zero, and its p low bits. */
  function Golomb(x: nat, p: nat): seq<bool> {
    Ones(Shr(x, p)) + [false] + ToBits(x, p)
  }

  /** Its bits one by one: as many ones as 2^p goes into x, a zero, and the remainder, highest bit first. */
  lemma GolombBits(x: nat, p: nat)
    ensures var g, q := Golomb(x, p), x / Pow2(p);
      && |g| == q + 1 + p && (forall i :: 0 <= i < q ==> g[i]) && !g[q] && FromBits(g[q + 1..]) == x % Pow2(p)
  {
    hide ToBits, FromBits, Pow2;
    var g, q := Golomb(x, p), Shr(x, p);
    assert g[q + 1..] == ToBits(x, p);
    ToBitsLow(x, p);
    FromToBits(Low(x, p), p);
  }

  function LeadingOnes(bits: seq<bool>): (n: nat)
    ensures n <= |bits| && (forall i :: 0 <= i < n ==> bits[i]) && (n < |bits| ==> !bits[n])
  {
    if bits == [] || !bits[0] then 0 else 1 + LeadingOnes(bits[1..])
  }

  /** The number a bit string starts with, and what follows it; none if it ends too early. */
  function Decode(bits: seq<bool>, p: nat): Option<(nat, seq<bool>)> {
    var q := LeadingOnes(bits);
    if |bits| < q + 1 + p then None
    else Some(((Shl(q, p) % WORD64 + FromBits(bits[q + 1..q + 1 + p])) % WORD64, bits[q + 1 + p..]))
  }

  lemma OnesThenZero(n: nat, rest: seq<bool>)
    ensures LeadingOnes(Ones(n) + [false] + rest) == n
  {
    var bits := Ones(n) + [false] + rest;
    assert !bits[n] && forall i :: 0 <= i < n ==> bits[i];
  }

  /** Decoding undoes encoding, whatever follows. */
  lemma DecodeEncode(x: nat, p: nat, rest: seq<bool>)
    requires x < WORD64 && p < 64
    ensures Decode(Golomb(x, p) + rest, p) == Some((x, rest))
  {
    hide ToBits, FromBits, Shl, Shr, Low, Pow2, LeadingOnes, Ones;
    var q := Shr(x, p);
    var bits := Golomb(x, p) + rest;
    GolombParts(Ones(q), ToBits(x, p), rest);
    OnesThenZero(q, ToBits(x, p) + rest);
    ToBitsLow(x, p);
    FromToBits(Low(x, p), p);
    SplitAt(x, p);
  }

  lemma GolombParts(ones: seq<bool>, low: seq<bool>, rest: seq<bool>)
    ensures var bits, q := ones + [false] + low + rest, |ones|;
      && bits == ones + [false] + (low + rest) && |bits| == q + 1 + |low| + |rest|
      && bits[q + 1..q + 1 + |low|] == low && bits[q + 1 + |low|..] == rest
  {
  }

  /** Writes the code of x, the unary part in blocks of at most 64 bits. */
  method GolombRiceEncode(w: BitStreamWriter, p: nat, x: nat)
    requires w.Valid() && p < 64 && x < WORD64
    modifies w
    ensures w.Valid() && w.Bits() == old(w.Bits()) + Golomb(x, p) && old(w.out) <= w.out
  {
    hide AllBits, ToBits, Pow2, Shl, Shr, Low;
    var q := Shr(x, p);
    ghost var start, all := w.Bits(), Shr(x, p);
    while q > 0
      invariant 0 <= q <= all && w.Valid() && w.Bits() == start + Ones(all - q) && old(w.out) <= w.out
    {
      var nbits := if q <= 64 then q else 64;
      AllOnes(nbits);
      var ok := w.Write(WORD64 - 1, nbits);
      assert start + Ones(all - q) + Ones(nbits) == start + Ones(all - (q - nbits));
      q := q - nbits;
    }
    ZeroBit();
    var ok := w.Write(0, 1);
    ok := w.Write(x, p);
    assert start + Ones(all) + [false] + ToBits(x, p) == start + Golomb(x, p);
  }

  lemma AllOnes(n: nat)
    requires n <= 64
    ensures ToBits(WORD64 - 1, n) == Ones(n)
  {
    Pow2Word();
    Pow2Add(32, 32);
    OnesBelow(64, n);
  }

  lemma {:induction false} OnesBelow(k: nat, n: nat)
    requires n <= k
    ensures ToBits(Pow2(k) - 1, n) == Ones(n)
  {
    if n > 0 {
      var v := Pow2(k) - 1;
      assert v == 2 * (Pow2(k - 1) - 1) + 1;
      assert ToBits(v, n) == ToBits(v / 2, n - 1) + [v % 2 == 1];
      hide ToBits, Pow2;
      OnesBelow(k - 1, n - 1);
      assert Ones(n - 1) + [true] == Ones(n);
    }
  }

  lemma ZeroBit()
    ensures ToBits(0, 1) == [false]
  {
    assert ToBits(0, 0) == [];
  }

  lemma OneBit(b: bool)
    ensures FromBits([b]) == if b then 1 else 0
  {
    assert [b][..0] == [];
  }

  /** Counts ones up to and including the zero after them. */
  method ReadUnary(r: BitStreamReader) returns (q: Option<nat>)
    requires r.Valid()
    modifies r
    ensures r.Valid() && (old(r.offset) > 0 ==> r.offset > 0)
    ensures q.Some? <==> LeadingOnes(old(r.Rest())) < |old(r.Rest())|
    ensures q.Some? ==> q.value == LeadingOnes(old(r.Rest())) && r.Rest() == old(r.Rest())[q.value + 1..]
  {
    hide AllBits, ToBits, FromBits, LeadingOnes;
    ghost var all := r.Rest();
    var n := 0;
    var bit := r.Read(1);
    UnaryPart(all, 0);
    while bit == Some(1)
      invariant r.Valid() && n <= LeadingOnes(all) <= |all| && (old(r.offset) > 0 ==> r.offset > 0)
      invariant bit.Some? <==> n < |all|
      invariant bit.Some? ==> bit.value == (if all[n] then 1 else 0) && r.Rest() == all[n + 1..]
      decreases |all| - n
    {
      UnaryPart(all, n);
      n := n + 1;
      bit := r.Read(1);
      UnaryPart(all, n);
    }
    UnaryPart(all, n);
    q := if bit.None? then None else Some(n);
  }

  /** Reads one number; the end of the stream throws. */
  method GolombRiceDecode(r: BitStreamReader, p: nat) returns (x: Option<nat>)
    requires r.Valid() && p < 64
    modifies r
    ensures r.Valid() && (old(r.offset) > 0 ==> r.offset > 0)
    ensures x.Some? <==> Decode(old(r.Rest()), p).Some?
    ensures x.Some? ==> Decode(old(r.Rest()), p) == Some((x.value, r.Rest()))
  {
    hide AllBits, ToBits, FromBits, Shl, LeadingOnes;
    ghost var all := r.Rest();
    var q := ReadUnary(r);
    if q.None? {
      return None;
    }
    var rest := r.Read(p);
    if rest.None? {
      return None;
    }
    ghost var k := q.value + 1;
    assert all[k..][..p] == all[k..k + p] && all[k..][p..] == all[k + p..];
    x := Some((Shl(q.value, p) % WORD64 + rest.value) % WORD64);
  }

  lemma UnaryPart(all: seq<bool>, q: nat)
    requires q <= |all|
    ensures LeadingOnes(all) <= |all|
    ensures q < |all| ==> FromBits(all[q..][..1]) == (if all[q] then 1 else 0)
    ensures q < |all| ==> all[q..][1..] == all[q + 1..]
    ensures q <= LeadingOnes(all) && q < |all| && all[q] ==> q + 1 <= LeadingOnes(all)
    ensures q <= LeadingOnes(all) && (q == |all| || !all[q]) ==> LeadingOnes(all) == q
  {
    if q < |all| {
      OneBit(all[q]);
      assert all[q..][..1] == [all[q]];
    }
  }

  // ----- Mapping a hash into a range

  /** The upper half of the product of two numbers given by their halves, in 64-bit arithmetic. */
  function UpperOf(xhi: nat, xlo: nat, nhi: nat, nlo: nat): nat
    requires xhi < WORD && xlo < WORD && nhi < WORD && nlo < WORD
  {
    NoOverflow(xhi, xlo, nhi, nlo);
    var ac, ad, bc, bd := xhi * nhi, xhi * nlo, xlo * nhi, xlo * nlo;
    var mid34 := bd / WORD + bc % WORD + ad % WORD;
    ac + bc / WORD + ad / WORD + mid34 / WORD
  }

  /** The upper half of the 128-bit product. */
  function MapIntoRange(x: nat, n: nat): (r: nat)
    requires x < WORD64 && n < WORD64
    ensures r == x * n / WORD64
    ensures n > 0 ==> r < n
  {
    UpperHalf(x, n, x / WORD, x % WORD, n / WORD, n % WORD);
    InRange(x, n);
    UpperOf(x / WORD, x % WORD, n / WORD, n % WORD)
  }

  lemma UpperHalf(x: nat, n: nat, a: nat, b: nat, c: nat, d: nat)
    requires x == WORD * a + b && n == WORD * c + d && a < WORD && b < WORD && c < WORD && d < WORD
    ensures x * n / WORD64 == UpperOf(a, b, c, d)
  {
    NoOverflow(a, b, c, d);
    Expand(a, b, c, d);
    Regroup(x * n, a * c, a * d, b * c, b * d);
  }

  lemma Expand(a: nat, b: nat, c: nat, d: nat)
    ensures (WORD * a + b) * (WORD * c + d) == WORD64 * (a * c) + WORD * (a * d) + WORD * (b * c) + b * d
  {
    MulDist(WORD * a + b, WORD * c, d);
    MulDist(WORD * c, WORD * a, b);
    MulDist(d, WORD * a, b);
    assert (WORD * a) * (WORD * c) == WORD64 * (a * c);
  }

  lemma Regroup(prod: nat, ac: nat, ad: nat, bc: nat, bd: nat)
    requires prod == WORD64 * ac + WORD * ad + WORD * bc + bd
    ensures prod / WORD64 == ac + bc / WORD + ad / WORD + (bd / WORD + bc % WORD + ad % WORD) / WORD
  {
    var mid := bd / WORD + bc % WORD + ad % WORD;
    DivUnique(prod, WORD64, ac + bc / WORD + ad / WORD + mid / WORD);
  }

  /** Every intermediate result fits 64 bits. */
  lemma NoOverflow(a: nat, b: nat, c: nat, d: nat)
    requires a < WORD && b < WORD && c < WORD && d < WORD
    ensures 0 <= a * c < WORD64 && 0 <= a * d < WORD64 && 0 <= b * c < WORD64 && 0 <= b * d < WORD64
    ensures b * d / WORD + b * c % WORD + a * d % WORD < WORD64
  {
    HalfProduct(a, c);
    HalfProduct(a, d);
    HalfProduct(b, c);
    HalfProduct(b, d);
  }

  lemma HalfProduct(x: nat, y: nat)
    requires x < WORD && y < WORD
    ensures 0 <= x * y < WORD64
  {
    MulMono(x, 0, y);
    MulMono(x, y, WORD - 1);
    MulMono(WORD - 1, x, WORD - 1);
  }

  lemma InRange(x: nat, n: nat)
    requires x < WORD64
    ensures n > 0 ==> x * n / WORD64 < n
  {
    MulMono(n, x, WORD64 - 1);
    MulDist(n, WORD64, 1);
  }

  // ----- The element count in front of a filter

  const MAX_SIZE: nat := 0x0200_0000

  /** v in k bytes, lowest first. */
  function LittleEndian(v: nat, k: nat): (r: seq<Byte>)
    ensures |r| == k
  {
    if k == 0 then [] else [v % 256] + LittleEndian(v / 256, k - 1)
  }

  function FromLittleEndian(s: seq<Byte>): nat {
    if s == [] then 0 else s[0] + 256 * FromLittleEndian(s[1..])
  }

  lemma {:induction false} LittleEndianReads(v: nat, k: nat)
    requires v < Pow(256, k)
    ensures FromLittleEndian(LittleEndian(v, k)) == v
  {
    if k > 0 {
      LittleEndianReads(v / 256, k - 1);
      assert LittleEndian(v, k)[1..] == LittleEndian(v / 256, k - 1);
    }
  }

  function WriteCompactSize(n: nat): (r: seq<Byte>)
    ensures |r| > 0
  {
    if n < 253 then [n]
    else if n < 0x1_0000 then [253] + LittleEndian(n, 2)
    else if n < WORD then [254] + LittleEndian(n, 4)
    else [255] + LittleEndian(n, 8)
  }

  /** The form of a count: one byte below 253, else a mark and two, four or eight bytes, the shortest that hold it. */
  lemma CompactSizeForm(n: nat)
    requires n < WORD64
    ensures var r := WriteCompactSize(n);
      && (n <= 252 <==> |r| == 1) && (253 <= n <= 0xffff <==> |r| == 3)
      && (0x1_0000 <= n <= 0xffff_ffff <==> |r| == 5) && (0x1_0000_0000 <= n <==> |r| == 9)
      && (|r| == 1 ==> r[0] == n) && (|r| == 3 ==> r[0] == 0xfd)
      && (|r| == 5 ==> r[0] == 0xfe) && (|r| == 9 ==> r[0] == 0xff)
      && (|r| > 1 ==> FromLittleEndian(r[1..]) == n)
  {
    hide LittleEndian, FromLittleEndian, Pow;
    var r := WriteCompactSize(n);
    SmallPowers();
    if n >= 253 {
      assert r[1..] == LittleEndian(n, |r| - 1);
      LittleEndianReads(n, |r| - 1);
    }
  }

  lemma SmallPowers()
    ensures Pow(256, 2) == 0x1_0000 && Pow(256, 4) == WORD && Pow(256, 8) == WORD64
  {
    assert Pow(256, 2) == 0x1_0000;
    PowAdd(256, 2, 2);
    PowAdd(256, 4, 4);
  }

  /** The size and the number of bytes it took; a long form of a small size and too large a size throw. */
  function ReadCompactSize(s: seq<Byte>): (r: Option<(nat, nat)>)
    ensures r.Some? ==> r.value.1 <= |s|
  {
    if s == [] then None
    else
      var k := if s[0] < 253 then 0 else if s[0] == 253 then 2 else if s[0] == 254 then 4 else 8;
      var least := if k == 0 then 0 else if k == 2 then 253 else if k == 4 then 0x1_0000 else WORD;
      if |s| < 1 + k then None
      else
        var n := if k == 0 then s[0] as nat else FromLittleEndian(s[1..1 + k]);
        if n < least || n > MAX_SIZE then None else Some((n, 1 + k))
  }

  /** A size that was written can be read back exactly when it is within the limit. */
  lemma CompactSizeReads(n: nat, rest: seq<Byte>)
    requires n < WORD64
    ensures ReadCompactSize(WriteCompactSize(n) + rest)
         == if n <= MAX_SIZE then Some((n, |WriteCompactSize(n)|)) else None
  {
    var s := WriteCompactSize(n) + rest;
    if n >= 253 {
      var k := if n < 0x1_0000 then 2 else if n < WORD then 4 else 8;
      PowersOf256();
      assert s[1..1 + k] == LittleEndian(n, k);
      LittleEndianReads(n, k);
    }
  }

  lemma PowersOf256()
    ensures Pow(256, 2) == 0x1_0000 && Pow(256, 4) == WORD && Pow(256, 8) == WORD64
  {
    assert Pow(256, 2) == 0x1_0000;
    PowAdd(256, 2, 2);
    PowAdd(256, 4, 4);
  }

  // ----- Sorted hashes

  predicate Sorted(s: seq<nat>) {
    forall i, j :: 0 <= i < j < |s| ==> s[i] <= s[j]
  }

  /** Puts v into its place. */
  method InsertSorted(s: seq<nat>, v: nat) returns (r: seq<nat>)
    requires Sorted(s)
    ensures Sorted(r) && multiset(r) == multiset(s) + multiset{v} && |r| == |s| + 1
  {
    var i := 0;
    while i < |s| && s[i] < v
      invariant 0 <= i <= |s| && forall j :: 0 <= j < i ==> s[j] < v
    {
      i := i + 1;
    }
    hide Sorted;
    r := s[..i] + [v] + s[i..];
    InsertedMembers(s, i, v);
    InsertedSorted(s, i, v);
  }

  lemma InsertedMembers(s: seq<nat>, i: nat, v: nat)
    requires i <= |s|
    ensures multiset(s[..i] + [v] + s[i..]) == multiset(s) + multiset{v}
  {
    assert s == s[..i] + s[i..];
  }

  lemma InsertedSorted(s: seq<nat>, i: nat, v: nat)
    requires i <= |s| && Sorted(s) && (forall j :: 0 <= j < i ==> s[j] <= v) && (i < |s| ==> v <= s[i])
    ensures Sorted(s[..i] + [v] + s[i..])
  {
    forall j | i < j < |s| ensures v <= s[j] {
    }
  }

  /** The hashes of the elements, mapped into the range and sorted. */
  method BuildHashedSet<E>(hash: E -> nat, f: nat, elements: seq<E>) returns (r: seq<nat>)
    requires f < WORD64
    ensures Sorted(r) && multiset(r) == multiset(Hashes(hash, f, elements)) && |r| == |elements|
  {
    r := [];
    for i := 0 to |elements|
      invariant Sorted(r) && |r| == i && multiset(r) == multiset(Hashes(hash, f, elements[..i]))
    {
      assert elements[..i + 1] == elements[..i] + [elements[i]];
      HashesSnoc(hash, f, elements[..i], elements[i]);
      r := InsertSorted(r, HashToRange(hash, f, elements[i]));
    }
    assert elements[..|elements|] == elements;
  }

  function HashToRange<E>(hash: E -> nat, f: nat, e: E): nat
    requires f < WORD64
  {
    MapIntoRange(hash(e) % WORD64, f)
  }

  /** A 64-bit hash of e goes to v. */
  predicate GoesTo(x: nat, f: nat, v: nat)
    requires f < WORD64
  {
    x < WORD64 && HashToRange((y: nat) => y, f, x) == v
  }

  /** The 2^64 hashes are spread evenly over the range: 2^64 / f of them, or one more, for every value below f. */
  lemma HashToRangeFair(f: nat, v: nat) returns (lo: nat, hi: nat)
    requires 0 < f < WORD64 && v < f
    ensures forall x: nat :: GoesTo(x, f, v) <==> lo <= x < hi
    ensures 1 <= WORD64 / f <= hi - lo <= WORD64 / f + 1
  {
    hide IsScaledTo, GoesTo;
    lo, hi := ScaledFairly(WORD64, f, v);
    forall x: nat ensures GoesTo(x, f, v) <==> IsScaledTo(WORD64, x, f, v) {
      GoesToIs(x, f, v);
      ScaledIs(WORD64, x, f, v);
    }
  }

  lemma GoesToIs(x: nat, f: nat, v: nat)
    requires f < WORD64
    ensures GoesTo(x, f, v) <==> x < WORD64 && x * f / WORD64 == v
  {
  }

  /** Only the hash of an element counts, modulo 2^64. */
  lemma HashToRangeOf<E>(hash: E -> nat, f: nat, e: E)
    requires f < WORD64
    ensures GoesTo(hash(e) % WORD64, f, HashToRange(hash, f, e))
  {
    hide MapIntoRange;
  }

  function Hashes<E>(hash: E -> nat, f: nat, elements: seq<E>): (r: seq<nat>)
    requires f < WORD64
    ensures |r| == |elements| && forall i :: 0 <= i < |r| ==> r[i] == HashToRange(hash, f, elements[i])
  {
    seq(|elements|, i requires 0 <= i < |elements| => HashToRange(hash, f, elements[i]))
  }

  lemma HashesSnoc<E>(hash: E -> nat, f: nat, s: seq<E>, e: E)
    requires f < WORD64
    ensures Hashes(hash, f, s + [e]) == Hashes(hash, f, s) + [HashToRange(hash, f, e)]
  {
  }

  // ----- Filters

  datatype Filter = Filter(p: nat, m: nat, n: nat, f: nat, encoded: seq<Byte>)

  /** The codes of the differences of an ascending sequence. */
  function Codes(values: seq<nat>, last: nat, p: nat): seq<bool>
    requires Sorted([last] + values)
  {
    if values == [] then []
    else
      assert Sorted([values[0]] + values[1..]) by { TailSorted(values, last); }
      assert values[0] >= last by { assert ([last] + values)[1] >= ([last] + values)[0]; }
      Golomb(values[0] - last, p) + Codes(values[1..], values[0], p)
  }

  lemma TailSorted(values: seq<nat>, last: nat)
    requires values != [] && Sorted([last] + values)
    ensures Sorted([values[0]] + values[1..])
  {
    assert [values[0]] + values[1..] == ([last] + values)[1..];
  }

  ghost predicate AboveZero(values: seq<nat>) {
    Sorted(values) && Sorted([0] + values)
  }

  lemma SortedFromZero(values: seq<nat>)
    requires Sorted(values)
    ensures Sorted([0] + values)
  {
  }

  /** The filter holds these values: the count, the codes, and less than a byte of padding. */
  ghost predicate Encodes(filter: Filter, values: seq<nat>) {
    var prefix := WriteCompactSize(filter.n);
    && filter.p < 64 && filter.n < WORD && filter.f < WORD64
    && |values| == filter.n && AboveZero(values)
    && (forall v :: v in values ==> v < WORD64)
    && prefix <= filter.encoded
    && Codes(values, 0, filter.p) <= AllBits(filter.encoded[|prefix|..])
    && |AllBits(filter.encoded[|prefix|..])| < |Codes(values, 0, filter.p)| + 8
  }

  /** Writes the codes of an ascending sequence. */
  method WriteCodes(w: BitStreamWriter, p: nat, values: seq<nat>)
    requires w.Valid() && p < 64 && AboveZero(values) && forall v :: v in values ==> v < WORD64
    modifies w
    ensures w.Valid() && w.Bits() == old(w.Bits()) + Codes(values, 0, p) && old(w.out) <= w.out
  {
    hide AllBits, ToBits, Golomb, Sorted;
    var last: nat, i := 0, 0;
    ghost var start := w.Bits();
    assert values[0..] == values;
    while i < |values|
      invariant 0 <= i <= |values| && w.Valid() && old(w.out) <= w.out && last < WORD64
      invariant Sorted([last] + values[i..])
      invariant w.Bits() + Codes(values[i..], last, p) == start + Codes(values, 0, p)
    {
      NextCode(values[i..], last, p);
      assert values[i..][1..] == values[i + 1..];
      ghost var done := w.Bits();
      assert values[i] in values && values[i..][0] == values[i];
      var delta := values[i] - last;
      GolombRiceEncode(w, p, delta);
      last := values[i];
      assert done + Golomb(delta, p) + Codes(values[i + 1..], last, p)
          == done + (Golomb(delta, p) + Codes(values[i + 1..], last, p));
      i := i + 1;
    }
  }

  lemma NextCode(values: seq<nat>, last: nat, p: nat)
    requires values != [] && Sorted([last] + values)
    ensures values[0] >= last && Sorted([values[0]] + values[1..])
    ensures Codes(values, last, p) == Golomb(values[0] - last, p) + Codes(values[1..], values[0], p)
  {
    TailSorted(values, last);
    assert ([last] + values)[1] >= ([last] + values)[0];
  }

  /** Builds the filter of a set of elements; too many elements throw. */
  method Build<E>(hash: E -> nat, p: nat, m: nat, elements: seq<E>) returns (r: Option<Filter>, ghost values: seq<nat>)
    requires p < 64 && m < WORD
    ensures r.Some? <==> |elements| < WORD
    ensures r.Some? ==>
              && r.value.p == p && r.value.m == m && r.value.n == |elements| && r.value.f == |elements| * m
              && Encodes(r.value, values)
              && multiset(values) == multiset(Hashes(hash, r.value.f, elements))
  {
    hide AllBits, ToBits, Codes, WriteCompactSize, MapIntoRange;
    values := [];
    var n := |elements|;
    if n >= WORD {
      return None, values;
    }
    HalfProduct(n, m);
    var f := n * m;
    var prefix := WriteCompactSize(n);
    if n == 0 {
      EmptyFilter(p, m);
      return Some(Filter(p, m, n, f, prefix)), values;
    }
    var hashed := BuildHashedSet(hash, f, elements);
    values := hashed;
    SortedFromZero(values);
    HashesFit(hash, f, elements, values);
    var encoded := Encode(prefix, p, hashed);
    r := Some(Filter(p, m, n, f, encoded));
  }

  /** The given bytes followed by the codes of an ascending sequence. */
  method Encode(prefix: seq<Byte>, p: nat, values: seq<nat>) returns (encoded: seq<Byte>)
    requires p < 64 && AboveZero(values) && forall v :: v in values ==> v < WORD64
    ensures prefix <= encoded
    ensures Codes(values, 0, p) <= AllBits(encoded[|prefix|..])
    ensures |AllBits(encoded[|prefix|..])| < |Codes(values, 0, p)| + 8
  {
    hide AllBits, ToBits, Codes, Sorted;
    var w := new BitStreamWriter(prefix);
    WriteCodes(w, p, values);
    w.Finish();
    encoded := w.out;
    ghost var body := encoded[|prefix|..];
    assert encoded == prefix + body;
    AllBitsConcat(prefix, body);
    CutPrefix(AllBits(prefix), Codes(values, 0, p), AllBits(body));
  }

  lemma CutPrefix(a: seq<bool>, b: seq<bool>, c: seq<bool>)
    requires a + b <= a + c
    ensures b <= c
  {
    assert b == (a + b)[|a|..] && c == (a + c)[|a|..];
    assert forall i :: 0 <= i < |b| ==> b[i] == (a + b)[|a| + i] == (a + c)[|a| + i];
  }

  lemma HashesFit<E>(hash: E -> nat, f: nat, elements: seq<E>, values: seq<nat>)
    requires f < WORD64 && multiset(values) == multiset(Hashes(hash, f, elements))
    ensures forall v :: v in values ==> v < WORD64
  {
    hide MapIntoRange;
    forall v | v in values ensures v < WORD64 {
      assert v in multiset(values);
      assert v in Hashes(hash, f, elements);
      var i :| 0 <= i < |elements| && v == HashToRange(hash, f, elements[i]);
      MapFits(hash(elements[i]) % WORD64, f);
    }
  }

  lemma MapFits(x: nat, f: nat)
    requires x < WORD64 && f < WORD64
    ensures MapIntoRange(x, f) < WORD64
  {
    if f == 0 {
      assert x * f == 0;
    }
  }

  lemma EmptyFilter(p: nat, m: nat)
    requires p < 64
    ensures Encodes(Filter(p, m, 0, 0, WriteCompactSize(0)), [])
  {
    assert WriteCompactSize(0)[|WriteCompactSize(0)|..] == [];
  }

  // ----- Reading a filter

  /** The reader has the codes of the remaining values before it, and the padding. */
  ghost predicate Ahead(rest: seq<bool>, values: seq<nat>, last: nat, p: nat) {
    && Sorted([last] + values) && (forall v :: v in values ==> v < WORD64)
    && Codes(values, last, p) <= rest && |rest| < |Codes(values, last, p)| + 8
  }

  /** The next number read is the next difference. */
  lemma AheadNext(rest: seq<bool>, values: seq<nat>, last: nat, p: nat)
    requires values != [] && p < 64 && last < WORD64 && Ahead(rest, values, last, p)
    ensures values[0] >= last && values[0] < WORD64
    ensures var d := Decode(rest, p);
      d.Some? && d.value.0 == values[0] - last && Ahead(d.value.1, values[1..], values[0], p)
  {
    hide Golomb, Decode, Sorted;
    NextCode(values, last, p);
    assert values[0] in values;
    var code, more := Golomb(values[0] - last, p), Codes(values[1..], values[0], p);
    var tail := rest[|code|..];
    assert rest == code + tail by {
      assert rest[..|code|] == (code + more)[..|code|] == code;
    }
    DecodeEncode(values[0] - last, p, tail);
    assert more <= tail by {
      CutPrefix(code, more, tail);
    }
    assert forall v :: v in values[1..] ==> v in values;
    assert |rest| == |code| + |tail|;
  }

  /** The values n numbers stand for: each read number is added to the last value, modulo 2^64. */
  function Values(bits: seq<bool>, p: nat, n: nat, last: nat): (r: Option<seq<nat>>)
    ensures r.Some? ==> |r.value| == n
  {
    if n == 0 then Some([])
    else
      var d := Decode(bits, p);
      if d.None? then None
      else
        var v := (last + d.value.0) % WORD64;
        var more := Values(d.value.1, p, n - 1, v);
        if more.None? then None else Some([v] + more.value)
  }

  /** If the count can be read at all, it is the count of the filter and that many numbers follow. */
  predicate Readable(filter: Filter) {
    var size := ReadCompactSize(filter.encoded);
    && filter.p < 64 && filter.n < WORD && filter.f < WORD64
    && (size.Some? ==>
          && size.value.0 == filter.n
          && Values(AllBits(filter.encoded[size.value.1..]), filter.p, filter.n, 0).Some?)
  }

  /** The values in a filter, in the order they are read. */
  function Contents(filter: Filter): (r: seq<nat>)
    requires Readable(filter) && ReadCompactSize(filter.encoded).Some?
    ensures |r| == filter.n
  {
    Values(AllBits(filter.encoded[ReadCompactSize(filter.encoded).value.1..]), filter.p, filter.n, 0).value
  }

  /** A filter made of ascending values is readable and holds them. */
  lemma EncodesReads(filter: Filter, values: seq<nat>)
    requires Encodes(filter, values)
    ensures Readable(filter)
    ensures ReadCompactSize(filter.encoded).Some? <==> filter.n <= MAX_SIZE
    ensures filter.n <= MAX_SIZE ==> Contents(filter) == values
  {
    hide AllBits, Codes, ReadCompactSize, WriteCompactSize, Sorted, Values;
    var prefix := WriteCompactSize(filter.n);
    assert filter.encoded == prefix + filter.encoded[|prefix|..];
    CompactSizeReads(filter.n, filter.encoded[|prefix|..]);
    AheadValues(AllBits(filter.encoded[|prefix|..]), values, 0, filter.p);
  }

  lemma {:induction false} AheadValues(rest: seq<bool>, values: seq<nat>, last: nat, p: nat)
    requires p < 64 && last < WORD64 && Ahead(rest, values, last, p)
    ensures Values(rest, p, |values|, last) == Some(values)
    decreases |values|
  {
    hide Ahead, Decode;
    if values != [] {
      AheadNext(rest, values, last, p);
      AheadValues(Decode(rest, p).value.1, values[1..], values[0], p);
      assert values == [values[0]] + values[1..];
    }
  }

  /** Opens the stream behind the count; a count over the limit throws. */
  method Open(filter: Filter) returns (r: Option<BitStreamReader>)
    requires Readable(filter)
    ensures r.Some? <==> ReadCompactSize(filter.encoded).Some?
    ensures r.Some? ==>
              && fresh(r.value) && r.value.Valid() && r.value.bytes == filter.encoded
              && Values(r.value.Rest(), filter.p, filter.n, 0) == Some(Contents(filter))
  {
    hide AllBits, ToBits, ReadCompactSize, Values;
    var size := ReadCompactSize(filter.encoded);
    if size.None? {
      return None;
    }
    SizeWithin(filter.encoded);
    var reader := new BitStreamReader(filter.encoded, size.value.1);
    r := Some(reader);
  }

  // ----- Walking two sequences

  /** No value before the i-th is larger than it. */
  ghost predicate Peak(values: seq<nat>, i: nat)
    requires i < |values|
  {
    forall j :: 0 <= j < i ==> values[j] <= values[i]
  }

  /** Some query equals a value that no earlier value exceeds. */
  ghost predicate Hit(values: seq<nat>, queries: seq<nat>) {
    exists i: nat :: i < |values| && values[i] in queries && Peak(values, i)
  }

  /** On ascending values a hit is a common member. */
  lemma AscendingHit(values: seq<nat>, queries: seq<nat>)
    requires Sorted(values)
    ensures Hit(values, queries) <==> exists a :: 0 <= a < |queries| && queries[a] in values
  {
    if Hit(values, queries) {
      var i: nat :| i < |values| && values[i] in queries && Peak(values, i);
      var a :| 0 <= a < |queries| && queries[a] == values[i];
      assert queries[a] in values;
    }
    if exists a :: 0 <= a < |queries| && queries[a] in values {
      var a :| 0 <= a < |queries| && queries[a] in values;
      var i: nat :| i < |values| && values[i] == queries[a];
      assert Peak(values, i);
    }
  }

  /** No running sum of the numbers reaches 2^64. */
  predicate NoWrap(bits: seq<bool>, p: nat, n: nat, last: nat) {
    n == 0 ||
    var d := Decode(bits, p);
    d.Some? ==> last + d.value.0 < WORD64 && NoWrap(d.value.1, p, n - 1, last + d.value.0)
  }

  /** The values of a filter ascend exactly when no running sum wraps. */
  lemma {:induction false} AscendingIff(bits: seq<bool>, p: nat, n: nat, last: nat)
    requires last < WORD64 && Values(bits, p, n, last).Some?
    ensures Sorted([last] + Values(bits, p, n, last).value) <==> NoWrap(bits, p, n, last)
    decreases n
  {
    hide Sorted, Decode;
    var values := Values(bits, p, n, last).value;
    if n == 0 {
      SingleSorted(last);
      assert [last] + values == [last];
    } else {
      var d := Decode(bits, p).value;
      NumberFits(bits, p);
      var v := (last + d.0) % WORD64;
      WrapsBelow(last, d.0);
      AscendingIff(d.1, p, n - 1, v);
      var more := Values(d.1, p, n - 1, v).value;
      assert values == [v] + more;
      SortedStep(last, v, more);
      assert [last] + values == [last] + ([v] + more);
    }
  }

  lemma NumberFits(bits: seq<bool>, p: nat)
    requires Decode(bits, p).Some?
    ensures Decode(bits, p).value.0 < WORD64
  {
  }

  lemma WrapsBelow(x: nat, d: nat)
    requires x < WORD64 && d < WORD64
    ensures (x + d) % WORD64 < WORD64
    ensures x + d < WORD64 ==> (x + d) % WORD64 == x + d
    ensures x + d >= WORD64 ==> (x + d) % WORD64 == x + d - WORD64 < x
  {
  }

  lemma SingleSorted(x: nat)
    ensures Sorted([x])
  {
  }

  lemma SortedStep(x: nat, y: nat, more: seq<nat>)
    ensures Sorted([x] + ([y] + more)) <==> x <= y && Sorted([y] + more)
  {
    var s, t := [x] + ([y] + more), [y] + more;
    if Sorted(s) {
      assert s[0] <= s[1];
      forall i, j | 0 <= i < j < |t| ensures t[i] <= t[j] {
        assert s[i + 1] <= s[j + 1];
      }
    }
    if x <= y && Sorted(t) {
      forall i, j | 0 <= i < j < |s| ensures s[i] <= s[j] {
        assert i > 0 ==> t[i - 1] <= t[j - 1];
        assert j > 1 ==> t[0] <= t[j - 1];
      }
    }
  }

  /** Two numbers that pass 2^64 leave a value in the filter that no query finds. */
  lemma WrappedIsMissed(bits: seq<bool>)
    ensures Values(Golomb(5, 63) + (Golomb(WORD64 - 2, 63) + bits), 63, 2, 0) == Some([5, 3])
    ensures 3 in [5, 3] && !Hit([5, 3], [3])
  {
    hide Decode, Golomb;
    DecodeEncode(5, 63, Golomb(WORD64 - 2, 63) + bits);
    DecodeEncode(WORD64 - 2, 63, bits);
    var none: seq<nat> := [];
    assert Values(bits, 63, 0, 3) == Some(none) && [3] + none == [3];
    assert (5 + (WORD64 - 2)) % WORD64 == 3;
    assert Values(Golomb(WORD64 - 2, 63) + bits, 63, 1, 5) == Some([3]);
    assert [5] + [3] == [5, 3];
    assert !Peak([5, 3], 1) by {
      assert [5, 3][0] > [5, 3][1];
    }
  }

  /** Some value before the i-th is above x. */
  ghost predicate Under(x: nat, values: seq<nat>, i: nat) {
    exists b :: 0 <= b < i && b < |values| && x < values[b]
  }

  /** No hit among the first i values; the other queries lie above them, those before `index` are passed by. */
  ghost predicate Passed(queries: seq<nat>, values: seq<nat>, index: nat, i: nat, upTo: nat) {
    && index <= |queries| && i <= |values| && i <= upTo
    && (forall a :: 0 <= a < index ==> Under(queries[a], values, upTo))
    && (forall a, b :: index <= a < |queries| && 0 <= b < i ==> queries[a] > values[b])
    && (forall b: nat :: b < i && Peak(values, b) ==> values[b] !in queries)
  }

  lemma SkipQuery(queries: seq<nat>, values: seq<nat>, index: nat, i: nat)
    requires Passed(queries, values, index, i, i + 1)
    requires index < |queries| && i < |values| && queries[index] < values[i]
    ensures Passed(queries, values, index + 1, i, i + 1)
  {
  }

  /** A query under an earlier value is not hit by any later one. */
  lemma NotLater(queries: seq<nat>, values: seq<nat>, index: nat, i: nat, upTo: nat, b: nat, a: nat)
    requires Passed(queries, values, index, i, upTo)
    requires i <= b < |values| && upTo <= b + 1 && Peak(values, b) && a < index
    ensures queries[a] != values[b]
  {
    assert Under(queries[a], values, upTo);
    var c :| 0 <= c < upTo && c < |values| && queries[a] < values[c];
    assert c < b ==> values[c] <= values[b];
  }

  lemma StopAt(queries: seq<nat>, values: seq<nat>, index: nat, i: nat)
    requires Sorted(queries) && Passed(queries, values, index, i, i + 1)
    requires index < |queries| && i < |values| && queries[index] > values[i]
    ensures Passed(queries, values, index, i + 1, i + 1)
  {
    forall a | index <= a < |queries| ensures queries[a] > values[i] {
      assert a > index ==> queries[index] <= queries[a];
    }
    if Peak(values, i) {
      forall a: nat | a < index ensures queries[a] != values[i] {
        NotLater(queries, values, index, i, i + 1, i, a);
      }
    }
  }

  lemma NoneMatch(queries: seq<nat>, values: seq<nat>, index: nat, i: nat, upTo: nat)
    requires Passed(queries, values, index, i, upTo) && upTo <= i + 1
    requires index == |queries| || i == |values|
    ensures !Hit(values, queries)
  {
    if Hit(values, queries) {
      var b: nat :| b < |values| && values[b] in queries && Peak(values, b);
      var a: nat :| a < |queries| && queries[a] == values[b];
      assert b >= i;
      NotLater(queries, values, index, i, upTo, b, a);
      assert false;
    }
  }

  lemma FoundAt(queries: seq<nat>, values: seq<nat>, index: nat, i: nat)
    requires Passed(queries, values, index, i, i + 1)
    requires index < |queries| && i < |values| && queries[index] == values[i]
    ensures Hit(values, queries)
  {
    assert Peak(values, i);
  }

  lemma NextPassed(queries: seq<nat>, values: seq<nat>, index: nat, i: nat)
    requires Passed(queries, values, index, i, i)
    ensures Passed(queries, values, index, i, i + 1) && index <= |queries|
  {
    forall a | 0 <= a < index ensures Under(queries[a], values, i + 1) {
      assert Under(queries[a], values, i);
    }
  }

  lemma NonePassed(queries: seq<nat>, values: seq<nat>)
    ensures Passed(queries, values, 0, 0, 0)
  {
  }

  /** Walks the queries past one value. */
  method Advance(queries: seq<nat>, index0: nat, value: nat, ghost values: seq<nat>, ghost i: nat)
    returns (index: nat, answer: Option<bool>)
    requires Sorted(queries) && Passed(queries, values, index0, i, i)
    requires i < |values| && values[i] == value
    ensures answer == None ==> Passed(queries, values, index, i + 1, i + 1)
    ensures answer.Some? ==> (answer.value <==> Hit(values, queries))
  {
    hide Sorted, Passed, Hit;
    index := index0;
    NextPassed(queries, values, index, i);
    while true
      invariant Passed(queries, values, index, i, i + 1) && index <= |queries|
      decreases |queries| - index
    {
      if index == |queries| {
        NoneMatch(queries, values, index, i, i + 1);
        return index, Some(false);
      } else if queries[index] == value {
        FoundAt(queries, values, index, i);
        return index, Some(true);
      } else if queries[index] > value {
        StopAt(queries, values, index, i);
        break;
      }
      SkipQuery(queries, values, index, i);
      index := index + 1;
    }
    answer := None;
  }

  /** Whether sorted queries hit any readable filter; too long a filter throws. */
  method MatchInternal(filter: Filter, queries: seq<nat>) returns (r: Option<bool>)
    requires Readable(filter) && Sorted(queries)
    ensures r.Some? <==> ReadCompactSize(filter.encoded).Some?
    ensures r.Some? ==> (r.value <==> Hit(Contents(filter), queries))
  {
    hide AllBits, ToBits, Passed, Sorted, Decode, Readable, Contents, Hit, ReadCompactSize;
    var open := Open(filter);
    if open.None? {
      return None;
    }
    ReadableFits(filter);
    ghost var values := Contents(filter);
    var reader := open.value;
    var value: nat, index: nat, i := 0, 0, 0;
    NonePassed(queries, values);
    assert values[0..] == values;
    while i < filter.n
      invariant 0 <= i <= filter.n && fresh(reader) && reader.Valid() && value < WORD64
      invariant Values(reader.Rest(), filter.p, filter.n - i, value) == Some(values[i..])
      invariant Passed(queries, values, index, i, i)
    {
      var delta := GolombRiceDecode(reader, filter.p);
      value := (value + delta.value) % WORD64;
      assert values[i] == values[i..][0] == value && values[i + 1..] == values[i..][1..];
      var answer;
      index, answer := Advance(queries, index, value, values, i);
      if answer.Some? {
        return answer;
      }
      i := i + 1;
    }
    NoneMatch(queries, values, index, i, i);
    r := Some(false);
  }

  lemma ReadableFits(filter: Filter)
    requires Readable(filter)
    ensures filter.p < 64 && filter.n < WORD && filter.f < WORD64
  {
  }

  /** The elements of a query and of a filter that hash alike. */
  ghost predicate SomeAlike<E>(hash: E -> nat, f: nat, queries: seq<E>, elements: seq<E>)
    requires f < WORD64
  {
    exists i, j :: 0 <= i < |queries| && 0 <= j < |elements|
                && HashToRange(hash, f, queries[i]) == HashToRange(hash, f, elements[j])
  }

  /** Matching any readable filter: true exactly when the mapped hashes of the queries hit its values. */
  method MatchAny<E>(hash: E -> nat, filter: Filter, queries: seq<E>) returns (r: Option<bool>)
    requires Readable(filter)
    ensures filter.f < WORD64
    ensures r.Some? <==> ReadCompactSize(filter.encoded).Some?
    ensures r.Some? ==> (r.value <==> Hit(Contents(filter), Hashes(hash, filter.f, queries)))
  {
    hide MapIntoRange, Sorted, Readable, Contents, Hit, ReadCompactSize, Peak;
    ReadableFits(filter);
    var hashed := BuildHashedSet(hash, filter.f, queries);
    r := MatchInternal(filter, hashed);
    if r.Some? {
      HitMembers(Contents(filter), hashed, Hashes(hash, filter.f, queries));
    }
  }

  /** A single element, its one hash taken as it is. */
  method Match<E>(hash: E -> nat, filter: Filter, query: E) returns (r: Option<bool>)
    requires Readable(filter)
    ensures filter.f < WORD64
    ensures r.Some? <==> ReadCompactSize(filter.encoded).Some?
    ensures r.Some? ==> (r.value <==> Hit(Contents(filter), Hashes(hash, filter.f, [query])))
  {
    hide MapIntoRange, Readable, Contents, Hit, ReadCompactSize, Peak;
    ReadableFits(filter);
    var hashed := [HashToRange(hash, filter.f, query)];
    r := MatchInternal(filter, hashed);
    assert Hashes(hash, filter.f, [query]) == hashed;
  }

  /** A hit depends only on which queries there are. */
  lemma HitMembers(values: seq<nat>, queries: seq<nat>, others: seq<nat>)
    requires multiset(queries) == multiset(others)
    ensures Hit(values, queries) <==> Hit(values, others)
  {
    SameMembers(queries, others);
  }

  /** On a filter built from some elements a hit is two equal mapped hashes. */
  lemma BuiltHit<E>(hash: E -> nat, filter: Filter, queries: seq<E>, elements: seq<E>, values: seq<nat>)
    requires Encodes(filter, values) && filter.n <= MAX_SIZE
    requires multiset(values) == multiset(Hashes(hash, filter.f, elements))
    ensures Readable(filter) && ReadCompactSize(filter.encoded).Some?
    ensures Hit(Contents(filter), Hashes(hash, filter.f, queries)) <==> SomeAlike(hash, filter.f, queries, elements)
  {
    hide Codes, MapIntoRange, Hit, Readable, Contents, ReadCompactSize, SomeAlike, WriteCompactSize, AllBits;
    EncodesReads(filter, values);
    AscendingHit(values, Hashes(hash, filter.f, queries));
    AlikeIff(hash, filter.f, queries, elements, Hashes(hash, filter.f, queries), values);
  }

  lemma AlikeIff<E>(hash: E -> nat, f: nat, queries: seq<E>, elements: seq<E>, hashed: seq<nat>, values: seq<nat>)
    requires f < WORD64
    requires multiset(hashed) == multiset(Hashes(hash, f, queries))
    requires multiset(values) == multiset(Hashes(hash, f, elements))
    ensures (exists a :: 0 <= a < |hashed| && hashed[a] in values) <==> SomeAlike(hash, f, queries, elements)
  {
    hide HashToRange;
    var hq, he := Hashes(hash, f, queries), Hashes(hash, f, elements);
    SameMembers(hashed, hq);
    SameMembers(values, he);
    if exists a :: 0 <= a < |hashed| && hashed[a] in values {
      var a :| 0 <= a < |hashed| && hashed[a] in values;
      assert hashed[a] in hq && hashed[a] in he;
      CommonHash(hash, f, queries, elements, hashed[a]);
    }
    if SomeAlike(hash, f, queries, elements) {
      var h := HashInCommon(hash, f, queries, elements);
      assert h in hashed && h in values;
    }
  }

  lemma CommonHash<E>(hash: E -> nat, f: nat, queries: seq<E>, elements: seq<E>, h: nat)
    requires f < WORD64 && h in Hashes(hash, f, queries) && h in Hashes(hash, f, elements)
    ensures SomeAlike(hash, f, queries, elements)
  {
    hide HashToRange;
    var i :| 0 <= i < |queries| && Hashes(hash, f, queries)[i] == h;
    var j :| 0 <= j < |elements| && Hashes(hash, f, elements)[j] == h;
    assert HashToRange(hash, f, queries[i]) == HashToRange(hash, f, elements[j]);
  }

  lemma HashInCommon<E>(hash: E -> nat, f: nat, queries: seq<E>, elements: seq<E>) returns (h: nat)
    requires f < WORD64 && SomeAlike(hash, f, queries, elements)
    ensures h in Hashes(hash, f, queries) && h in Hashes(hash, f, elements)
  {
    hide HashToRange;
    var i, j :| 0 <= i < |queries| && 0 <= j < |elements|
                && HashToRange(hash, f, queries[i]) == HashToRange(hash, f, elements[j]);
    h := HashToRange(hash, f, queries[i]);
    assert Hashes(hash, f, queries)[i] == h && Hashes(hash, f, elements)[j] == h;
  }

  lemma SameMembers(s: seq<nat>, t: seq<nat>)
    requires multiset(s) == multiset(t)
    ensures forall x :: x in s <==> x in t
  {
    forall x ensures x in s <==> x in t {
      assert x in s <==> x in multiset(s);
      assert x in t <==> x in multiset(t);
    }
  }

  // ----- Loading an encoded filter

  /** What is left of the bits after reading n numbers. */
  function DecodeAll(bits: seq<bool>, p: nat, n: nat): Option<seq<bool>> {
    if n == 0 then Some(bits)
    else
      var d := Decode(bits, p);
      if d.None? then None else DecodeAll(d.value.1, p, n - 1)
  }

  /** The bytes hold a count within the limit, that many numbers, and nothing but padding after them. */
  predicate Loadable(encoded: seq<Byte>, p: nat) {
    var size := ReadCompactSize(encoded);
    && size.Some?
    && var rest := DecodeAll(AllBits(encoded[size.value.1..]), p, size.value.0);
      rest.Some? && |rest.value| < 8
  }

  /** Takes a filter as received; too little or too much data throws. */
  method Load(p: nat, m: nat, encoded: seq<Byte>) returns (r: Option<Filter>)
    requires p < 64 && m < WORD
    ensures r.Some? <==> Loadable(encoded, p)
    ensures r.Some? ==>
              && r.value.p == p && r.value.m == m && r.value.encoded == encoded
              && r.value.n == ReadCompactSize(encoded).value.0 && r.value.f == r.value.n * m
              && Readable(r.value)
  {
    hide AllBits, ReadCompactSize, Decode, Values;
    var size := ReadCompactSize(encoded);
    if size.None? {
      return None;
    }
    var n := size.value.0;
    SizeWithin(encoded);
    var reader := new BitStreamReader(encoded, size.value.1);
    ghost var bits := reader.Rest();
    var i := 0;
    while i < n
      invariant 0 <= i <= n && fresh(reader) && reader.Valid() && reader.offset > 0
      invariant DecodeAll(bits, p, n) == DecodeAll(reader.Rest(), p, n - i)
    {
      var x := GolombRiceDecode(reader, p);
      if x.None? {
        return None;
      }
      i := i + 1;
    }
    reader.EndIff();
    if reader.pos != |reader.bytes| {
      return None;
    }
    HalfProduct(n, m);
    ValuesIff(bits, p, n, 0);
    r := Some(Filter(p, m, n, n * m, encoded));
  }

  /** The values can be read exactly when the numbers can. */
  lemma {:induction false} ValuesIff(bits: seq<bool>, p: nat, n: nat, last: nat)
    ensures Values(bits, p, n, last).Some? <==> DecodeAll(bits, p, n).Some?
    decreases n
  {
    hide Decode;
    if n > 0 && Decode(bits, p).Some? {
      var d := Decode(bits, p).value;
      ValuesIff(d.1, p, n - 1, (last + d.0) % WORD64);
    }
  }

  lemma SizeWithin(encoded: seq<Byte>)
    requires ReadCompactSize(encoded).Some?
    ensures ReadCompactSize(encoded).value.0 <= MAX_SIZE
  {
  }

  /** A filter that was built loads again, unless it has too many elements to be read. */
  lemma BuiltLoads(filter: Filter, values: seq<nat>)
    requires Encodes(filter, values)
    ensures Loadable(filter.encoded, filter.p) <==> filter.n <= MAX_SIZE
    ensures filter.n <= MAX_SIZE ==> ReadCompactSize(filter.encoded).value.0 == filter.n
  {
    hide AllBits, Codes, ReadCompactSize, WriteCompactSize, Sorted, DecodeAll;
    var prefix := WriteCompactSize(filter.n);
    assert filter.encoded == prefix + filter.encoded[|prefix|..];
    CompactSizeReads(filter.n, filter.encoded[|prefix|..]);
    if filter.n <= MAX_SIZE {
      AllDecode(AllBits(filter.encoded[|prefix|..]), values, 0, filter.p);
    }
  }

  lemma {:induction false} AllDecode(rest: seq<bool>, values: seq<nat>, last: nat, p: nat)
    requires p < 64 && last < WORD64 && Ahead(rest, values, last, p)
    ensures DecodeAll(rest, p, |values|).Some? && |DecodeAll(rest, p, |values|).value| < 8
    decreases |values|
  {
    if values != [] {
      hide Ahead, Decode;
      AheadNext(rest, values, last, p);
      AllDecode(Decode(rest, p).value.1, values[1..], values[0], p);
    }
  }

  /** Building, sending, loading and matching: exact on mapped hashes, so never a false negative. */
  method QueryBuilt<E(==)>(hash: E -> nat, p: nat, m: nat, elements: seq<E>, queries: seq<E>) returns (r: Option<bool>)
    requires p < 64 && m < WORD
    ensures r.Some? <==> |elements| <= MAX_SIZE
    ensures r.Some? ==> |elements| * m < WORD64
    ensures r.Some? ==> (r.value <==> SomeAlike(hash, |elements| * m, queries, elements))
    ensures r.Some? && (exists e :: e in elements && e in queries) ==> r.value
  {
    hide SomeAlike, Encodes, Loadable, MapIntoRange, ReadCompactSize, Readable, Contents, Hit;
    var built, values := Build(hash, p, m, elements);
    if built.None? {
      return None;
    }
    BuiltLoads(built.value, values);
    EncodesFits(built.value, values);
    var loaded := Load(p, m, built.value.encoded);
    if loaded.None? {
      return None;
    }
    BuiltHit(hash, loaded.value, queries, elements, values);
    r := MatchAny(hash, loaded.value, queries);
    if e :| e in elements && e in queries {
      SharedIsAlike(hash, loaded.value.f, queries, elements, e);
    }
  }

  lemma EncodesFits(filter: Filter, values: seq<nat>)
    requires Encodes(filter, values)
    ensures filter.f < WORD64
  {
  }

  lemma SharedIsAlike<E>(hash: E -> nat, f: nat, queries: seq<E>, elements: seq<E>, e: E)
    requires f < WORD64 && e in queries && e in elements
    ensures SomeAlike(hash, f, queries, elements)
  {
    hide HashToRange;
    var i :| 0 <= i < |queries| && queries[i] == e;
    var j :| 0 <= j < |elements| && elements[j] == e;
    assert HashToRange(hash, f, queries[i]) == HashToRange(hash, f, elements[j]);
  }
}
