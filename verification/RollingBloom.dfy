/**
 The rolling Bloom filter (CRollingBloomFilter in src/bloom.h, src/bloom.cpp).

 Every cell holds a two-bit stamp: 0 for unset, or the number 1, 2 or 3 of the generation
 that last set it.  Starting a generation wipes the stamps that carry its number, which are
 three generations old.
 */
module RollingBloom {
  import opened Numbers
  import opened Words

  // ----- Stamps

  predicate LowBit(gen: nat) {
    gen % 2 == 1
  }

  predicate HighBit(gen: nat) {
    gen / 2 % 2 == 1
  }

  /** A cell: a pair of words and a bit position in them. */
  datatype Cell = Cell(pair: nat, bit: nat)

  predicate InRange(c: Cell, n: nat) {
    2 * c.pair + 1 < n && c.bit < 64
  }

  /** The two-bit stamp of a cell. */
  function Stamp(data: seq<Word>, c: Cell): (s: nat)
    requires InRange(c, |data|)
    ensures s <= 3
  {
    (if data[2 * c.pair][c.bit] then 1 else 0) + if data[2 * c.pair + 1][c.bit] then 2 else 0
  }

  function FastMod(x: nat, n: nat): nat {
    x * n / WORD
  }

  lemma FastModMonotone(x: nat, y: nat, n: nat)
    requires x <= y
    ensures FastMod(x, n) <= FastMod(y, n)
  {
    MulMono(n, x, y);
    DivAtLeast(y * n, WORD, x * n / WORD);
  }

  /** x is a 32-bit hash that goes to index p of n. */
  predicate GoesTo(x: nat, n: nat, p: nat) {
    x < WORD && FastMod(x, n) == p
  }

  /** The 2^32 hashes are spread evenly: an interval of 2^32 / n hashes, or one more, for every index below n. */
  lemma FastModFair(n: nat, p: nat) returns (lo: nat, hi: nat)
    requires 0 < n <= WORD && p < n
    ensures forall x: nat :: GoesTo(x, n, p) <==> lo <= x < hi
    ensures 1 <= WORD / n <= hi - lo <= WORD / n + 1
  {
    hide IsScaledTo;
    lo, hi := ScaledFairly(WORD, n, p);
    forall x: nat ensures GoesTo(x, n, p) <==> IsScaledTo(WORD, x, n, p) {
      ScaledIs(WORD, x, n, p);
    }
  }

  /** The cell of a 32-bit hash in a table of n words. */
  function CellOf(h: nat, n: nat): (c: Cell)
    requires h < WORD && n > 0 && n % 2 == 0
    ensures InRange(c, n)
  {
    ScaleInRange(h, n);
    Cell(FastMod(h, n) / 2, h % 64)
  }

  /** Two hashes share a cell of n words: the same bit of the same pair. */
  predicate SameCell(h: nat, h': nat, n: nat) {
    h % 64 == h' % 64 && h * n / WORD / 2 == h' * n / WORD / 2
  }

  /** The assignment that sets bit b of w to v. */
  function PutBit(w: Word, b: nat, v: bool): Word {
    Words.Or(And(w, Not(Shifted(true, b))), Shifted(v, b))
  }

  function Stamped(data: seq<Word>, c: Cell, gen: nat): seq<Word>
    requires InRange(c, |data|)
  {
    data[2 * c.pair := PutBit(data[2 * c.pair], c.bit, LowBit(gen))]
        [2 * c.pair + 1 := PutBit(data[2 * c.pair + 1], c.bit, HighBit(gen))]
  }

  lemma StampedAt(data: seq<Word>, c: Cell, gen: nat, d: Cell)
    requires InRange(c, |data|) && InRange(d, |data|) && 1 <= gen <= 3
    ensures Stamp(Stamped(data, c, gen), d) == if d == c then gen else Stamp(data, d)
  {
  }

  /** Word p of the pair p1, p2 after clearing the bits where the pair shows the masks' bits. */
  function Wiped(p: Word, p1: Word, p2: Word, m1: Word, m2: Word): Word {
    And(p, Words.Or(Xor(p1, m1), Xor(p2, m2)))
  }

  // ----- What the stamps record

  /** The hash functions of a filter and the size of its table. */
  datatype Table<!Key> = Table(hash: (nat, nat, Key) -> nat, funcs: nat, tweak: nat, words: nat)

  predicate TableOk<Key>(t: Table<Key>) {
    t.words > 0 && t.words % 2 == 0 && t.funcs > 0
  }

  function HashAt<Key>(t: Table<Key>, key: Key, n: nat): (h: nat)
    ensures h < WORD
  {
    t.hash(n, t.tweak, key) % WORD
  }

  function CellAt<Key>(t: Table<Key>, key: Key, n: nat): (c: Cell)
    requires TableOk(t)
    ensures InRange(c, t.words)
  {
    CellOf(HashAt(t, key, n), t.words)
  }

  /** Some hash of some key inserted at index `oldest` or later shares the cell of hash h. */
  ghost predicate Shared<Key>(t: Table<Key>, keys: seq<Key>, oldest: int, h: nat) {
    exists i, j :: 0 <= i < |keys| && oldest <= i && 0 <= j < t.funcs && SameCell(HashAt(t, keys[i], j), h, t.words)
  }

  /** What a filter answers for key when it remembers the keys from `oldest` on. */
  ghost predicate Remembers<Key>(t: Table<Key>, keys: seq<Key>, oldest: int, key: Key) {
    forall n :: 0 <= n < t.funcs ==> Shared(t, keys, oldest, HashAt(t, key, n))
  }

  /** The first key still remembered after so many inserts: three generations are, the last one included. */
  function Oldest(count: nat, size: nat): int
    requires size > 0
  {
    ((count - 1) / size - 2) * size
  }

  ghost predicate HitsBelow<Key>(t: Table<Key>, key: Key, n: nat, c: Cell)
    requires TableOk(t)
  {
    exists j :: 0 <= j < n && CellAt(t, key, j) == c
  }

  /** Inserting the key stamps cell c. */
  ghost predicate Hits<Key>(t: Table<Key>, key: Key, c: Cell)
    requires TableOk(t)
  {
    HitsBelow(t, key, t.funcs, c)
  }

  /** Hit cells, in terms of the hashes. */
  lemma HitIsShared<Key>(t: Table<Key>, keys: seq<Key>, oldest: int, key: Key, n: nat)
    requires TableOk(t)
    ensures HitSince(t, keys, oldest, CellAt(t, key, n)) <==> Shared(t, keys, oldest, HashAt(t, key, n))
  {
    hide HashAt;
    var c, h := CellAt(t, key, n), HashAt(t, key, n);
    if i :| 0 <= i < |keys| && oldest <= i && Hits(t, keys[i], c) {
      var j :| 0 <= j < t.funcs && CellAt(t, keys[i], j) == c;
      assert SameCell(HashAt(t, keys[i], j), h, t.words);
    }
    if i, j :| 0 <= i < |keys| && oldest <= i && 0 <= j < t.funcs && SameCell(HashAt(t, keys[i], j), h, t.words) {
      assert CellAt(t, keys[i], j) == c;
      assert Hits(t, keys[i], c);
    }
  }

  /** A key with a hash in a pair of words that no hash of the one key inserted leads to is not found. */
  lemma ElsewhereIsNotFound<Key>(t: Table<Key>, k: Key, oldest: int, key: Key, n: nat)
    requires n < t.funcs
    requires forall j :: 0 <= j < t.funcs ==>
               HashAt(t, k, j) * t.words / WORD / 2 != HashAt(t, key, n) * t.words / WORD / 2
    ensures !Remembers(t, [k], oldest, key)
  {
    hide HashAt;
    assert !Shared(t, [k], oldest, HashAt(t, key, n));
  }

  /** The index of the last key that stamped c, or -1. */
  ghost function LastHit<Key>(t: Table<Key>, keys: seq<Key>, c: Cell): (i: int)
    requires TableOk(t)
    ensures -1 <= i < |keys|
  {
    if keys == [] then -1
    else if Hits(t, keys[|keys| - 1], c) then |keys| - 1
    else LastHit(t, keys[..|keys| - 1], c)
  }

  /** Some key inserted at index `oldest` or later stamped c. */
  ghost predicate HitSince<Key>(t: Table<Key>, keys: seq<Key>, oldest: int, c: Cell)
    requires TableOk(t)
  {
    exists i :: 0 <= i < |keys| && oldest <= i && Hits(t, keys[i], c)
  }

  /** The first m cells of key were all stamped since then. */
  ghost predicate AllHit<Key>(t: Table<Key>, keys: seq<Key>, oldest: int, key: Key, m: nat)
    requires TableOk(t)
  {
    forall n :: 0 <= n < m ==> HitSince(t, keys, oldest, CellAt(t, key, n))
  }

  lemma AllHitNext<Key>(t: Table<Key>, keys: seq<Key>, oldest: int, key: Key, n: nat, m: nat)
    requires TableOk(t) && AllHit(t, keys, oldest, key, n) && n < m
    ensures HitSince(t, keys, oldest, CellAt(t, key, n)) ==> AllHit(t, keys, oldest, key, n + 1)
    ensures !HitSince(t, keys, oldest, CellAt(t, key, n)) ==> !AllHit(t, keys, oldest, key, m)
  {
    hide HitSince, CellAt;
  }

  lemma {:induction false} LastHitSince<Key>(t: Table<Key>, keys: seq<Key>, oldest: int, c: Cell)
    requires TableOk(t)
    ensures HitSince(t, keys, oldest, c) <==> LastHit(t, keys, c) >= oldest && LastHit(t, keys, c) >= 0
  {
    if keys != [] {
      var rest := keys[..|keys| - 1];
      LastHitSince(t, rest, oldest, c);
      assert HitSince(t, rest, oldest, c) ==> HitSince(t, keys, oldest, c) by {
        if HitSince(t, rest, oldest, c) {
          var i :| 0 <= i < |rest| && oldest <= i && Hits(t, rest[i], c);
          assert Hits(t, keys[i], c);
        }
      }
      if HitSince(t, keys, oldest, c) && !Hits(t, keys[|keys| - 1], c) {
        var i :| 0 <= i < |keys| && oldest <= i && Hits(t, keys[i], c);
        assert rest[i] == keys[i];
      }
    }
  }

  /** The stamp of a cell last hit at index i, during generation g of generations of n keys. */
  function StampFor(i: int, n: nat, g: nat): (s: nat)
    requires n > 0
    ensures s <= 3 && (s != 0 <==> i >= 0 && i >= (g - 2) * n)
  {
    if i < 0 then 0
    else
      DivAtLeast(i, n, g - 2);
      if i / n < g - 2 then 0 else i / n % 3 + 1
  }

  /** The wipe that starts generation g + 1 clears exactly the cells it no longer remembers. */
  lemma WipeForgets(i: int, n: nat, g: nat)
    requires n > 0 && i < (g + 1) * n
    ensures StampFor(i, n, g + 1) == if StampFor(i, n, g) == (g + 1) % 3 + 1 then 0 else StampFor(i, n, g)
  {
    if i >= 0 {
      DivAtLeast(i, n, g + 1);
    }
  }

  /** How the index count, the generation and the position inside it belong together. */
  predicate Counted(count: nat, n: nat, g: nat, entries: nat) {
    && entries == count - g * n
    && entries <= n
    && (entries == 0 ==> g == 0)
  }

  ghost predicate Recorded<Key>(t: Table<Key>, data: seq<Word>, keys: seq<Key>, n: nat, g: nat)
    requires TableOk(t) && n > 0
  {
    && |data| == t.words
    && forall c: Cell :: InRange(c, t.words) ==> Stamp(data, c) == StampFor(LastHit(t, keys, c), n, g)
  }

  /** Every cell after a wipe of the stamps of generation number gen. */
  ghost predicate WipedOf(before: seq<Word>, after: seq<Word>, gen: nat) {
    && |after| == |before|
    && forall c: Cell :: InRange(c, |before|) ==>
        Stamp(after, c) == if Stamp(before, c) == gen then 0 else Stamp(before, c)
  }

  /** Every cell after stamping the cells of the first m hashes of key. */
  ghost predicate MarkedOf<Key>(t: Table<Key>, key: Key, m: nat, before: seq<Word>, after: seq<Word>, gen: nat)
    requires TableOk(t)
  {
    && |after| == |before| == t.words
    && forall c: Cell :: InRange(c, t.words) ==>
        Stamp(after, c) == if HitsBelow(t, key, m, c) then gen else Stamp(before, c)
  }

  lemma RecordedWiped<Key>(t: Table<Key>, before: seq<Word>, after: seq<Word>, keys: seq<Key>, n: nat, g: nat)
    requires TableOk(t) && n > 0 && |keys| == (g + 1) * n
    requires Recorded(t, before, keys, n, g) && WipedOf(before, after, (g + 1) % 3 + 1)
    ensures Recorded(t, after, keys, n, g + 1)
  {
    hide Stamp, StampFor, LastHit;
    forall c: Cell | InRange(c, t.words)
      ensures Stamp(after, c) == StampFor(LastHit(t, keys, c), n, g + 1)
    {
      WipeForgets(LastHit(t, keys, c), n, g);
    }
  }

  lemma RecordedMarked<Key>(t: Table<Key>, before: seq<Word>, after: seq<Word>, keys: seq<Key>, key: Key,
                            n: nat, g: nat)
    requires TableOk(t) && n > 0 && g * n <= |keys| < (g + 1) * n
    requires Recorded(t, before, keys, n, g) && MarkedOf(t, key, t.funcs, before, after, g % 3 + 1)
    ensures Recorded(t, after, keys + [key], n, g)
  {
    hide Stamp, HitsBelow;
    assert (keys + [key])[..|keys|] == keys;
    DivAtLeast(|keys|, n, g);
    DivAtLeast(|keys|, n, g + 1);
  }

  lemma StepMarked<Key>(t: Table<Key>, key: Key, m: nat, before: seq<Word>, middle: seq<Word>, gen: nat)
    requires TableOk(t) && 1 <= gen <= 3 && MarkedOf(t, key, m, before, middle, gen)
    ensures MarkedOf(t, key, m + 1, before, Stamped(middle, CellAt(t, key, m), gen), gen)
  {
    hide Stamped, Stamp, CellAt;
    var after := Stamped(middle, CellAt(t, key, m), gen);
    assert |after| == |middle| by {
      StampedLength(middle, CellAt(t, key, m), gen);
    }
    forall c: Cell | InRange(c, t.words)
      ensures Stamp(after, c) == if HitsBelow(t, key, m + 1, c) then gen else Stamp(before, c)
    {
      StampedAt(middle, CellAt(t, key, m), gen, c);
      if HitsBelow(t, key, m, c) {
        var j :| 0 <= j < m && CellAt(t, key, j) == c;
        assert 0 <= j < m + 1;
        assert HitsBelow(t, key, m + 1, c);
      } else if CellAt(t, key, m) == c {
        assert HitsBelow(t, key, m + 1, c);
      }
    }
  }

  lemma StampedLength(data: seq<Word>, c: Cell, gen: nat)
    requires InRange(c, |data|)
    ensures |Stamped(data, c, gen)| == |data|
  {
  }

  /** A cell is set exactly when a key of the last three generations stamped it. */
  lemma SetIffRecent<Key>(t: Table<Key>, data: seq<Word>, keys: seq<Key>, n: nat, g: nat, c: Cell)
    requires TableOk(t) && n > 0 && Recorded(t, data, keys, n, g) && InRange(c, t.words)
    ensures Stamp(data, c) != 0 <==> HitSince(t, keys, (g - 2) * n, c)
  {
    LastHitSince(t, keys, (g - 2) * n, c);
  }

  // ----- The filter

  /** CRollingBloomFilter.  The floating-point sizing of the constructor is a parameter. */
  class RollingBloomFilter<Key> {
    const hash: (nat, nat, Key) -> nat
    const nHashFuncs: nat
    const nElements: nat
    const nEntriesPerGeneration: nat
    const data: array<Word>
    var nTweak: nat
    var nEntriesThisGeneration: nat
    var nGeneration: nat

    // The keys inserted since the last reset, and the number of generations completed since then.
    ghost var keys: seq<Key>
    ghost var g: nat

    ghost function Params(): Table<Key>
      reads this
    {
      Table(hash, nHashFuncs, nTweak, data.Length)
    }

    ghost predicate Valid()
      reads this, data
    {
      && 1 <= nElements < WORD - 1
      && nEntriesPerGeneration == (nElements + 1) / 2
      && nGeneration == g % 3 + 1
      && TableOk(Params())
      && Counted(|keys|, nEntriesPerGeneration, g, nEntriesThisGeneration)
      && Recorded(Params(), data[..], keys, nEntriesPerGeneration, g)
    }

    /** Creates a filter for n elements with the given number of hash functions and pairs of words. */
    constructor (hash: (nat, nat, Key) -> nat, n: nat, funcs: nat, pairs: nat, tweak: nat)
      requires 1 <= n < WORD - 1
      requires 1 <= funcs <= 50 && pairs > 0
      ensures Valid() && fresh(data) && keys == [] && nElements == n
      ensures this.hash == hash && nHashFuncs == funcs && data.Length == 2 * pairs && nTweak == tweak
    {
      this.hash := hash;
      nHashFuncs := funcs;
      nElements := n;
      nEntriesPerGeneration := (n + 1) % WORD / 2;
      data := new Word[2 * pairs];
      nTweak := tweak;
      new;
      Reset(tweak);
    }

    method Reset(tweak: nat)
      requires 1 <= nElements < WORD - 1 && nEntriesPerGeneration == (nElements + 1) / 2
      requires nHashFuncs > 0 && data.Length > 0 && data.Length % 2 == 0
      modifies this, data
      ensures Valid() && keys == [] && nTweak == tweak
      ensures forall c: Cell :: InRange(c, data.Length) ==> Stamp(data[..], c) == 0
    {
      nTweak := tweak;
      nEntriesThisGeneration := 0;
      nGeneration := 1;
      keys, g := [], 0;
      var i := 0;
      while i < data.Length
        modifies data
        invariant 0 <= i <= data.Length
        invariant forall j :: 0 <= j < i ==> data[j] == ZERO
      {
        data[i] := ZERO;
        i := i + 1;
      }
      ZeroStamps(data[..]);
    }

    /** Clears every stamp with the number of the current generation. */
    method Wipe()
      requires 1 <= nGeneration <= 3 && data.Length % 2 == 0
      modifies data
      ensures WipedOf(old(data[..]), data[..], nGeneration)
    {
      var mask1, mask2 := Filled(LowBit(nGeneration)), Filled(HighBit(nGeneration));
      ghost var before := data[..];
      var p := 0;
      while p < data.Length
        invariant 0 <= p <= data.Length && p % 2 == 0
        invariant forall j :: p <= j < data.Length ==> data[j] == before[j]
        invariant forall j :: 0 <= j < p / 2 ==> PairWiped(before, data[..], j, mask1, mask2)
      {
        hide Wiped, WipedOf;
        var p1, p2 := data[p], data[p + 1];
        ghost var middle := data[..];
        data[p] := Wiped(p1, p1, p2, mask1, mask2);
        data[p + 1] := Wiped(p2, p1, p2, mask1, mask2);
        forall j | 0 <= j < p / 2 + 1 ensures PairWiped(before, data[..], j, mask1, mask2) {
          if j < p / 2 {
            assert PairWiped(before, middle, j, mask1, mask2);
          }
        }
        p := p + 2;
      }
      WipedEverywhere(before, data[..], nGeneration);
    }

    /** Writes the stamp of the current generation for hash h. */
    method StampCell(h: nat)
      requires h < WORD && 1 <= nGeneration <= 3 && data.Length > 0 && data.Length % 2 == 0
      modifies data
      ensures data[..] == Stamped(old(data[..]), CellOf(h, data.Length), nGeneration)
    {
      hide PutBit;
      var bit := h % 64;
      ScaleInRange(h, data.Length);
      var pos := FastMod(h, data.Length);
      var even, odd := pos / 2 * 2, pos / 2 * 2 + 1;
      data[even] := PutBit(data[even], bit, LowBit(nGeneration));
      data[odd] := PutBit(data[odd], bit, HighBit(nGeneration));
    }

    /** Whether the cell of hash h carries any stamp. */
    method IsSet(h: nat) returns (hit: bool)
      requires h < WORD && data.Length > 0 && data.Length % 2 == 0
      ensures hit <==> Stamp(data[..], CellOf(h, data.Length)) != 0
    {
      var bit := h % 64;
      ScaleInRange(h, data.Length);
      var pos := FastMod(h, data.Length);
      hit := Words.Or(data[pos / 2 * 2], data[pos / 2 * 2 + 1])[bit];
    }

    /** Stamps the cells of key with the current generation. */
    method Mark(key: Key)
      requires 1 <= nGeneration <= 3 && TableOk(Params())
      modifies data
      ensures MarkedOf(Params(), key, nHashFuncs, old(data[..]), data[..], nGeneration)
    {
      ghost var before := data[..];
      var n := 0;
      NoneMarked(Params(), key, before, nGeneration);
      hide MarkedOf, Stamped, CellOf;
      while n < nHashFuncs
        invariant 0 <= n <= nHashFuncs
        invariant MarkedOf(Params(), key, n, before, data[..], nGeneration)
      {
        StepMarked(Params(), key, n, before, data[..], nGeneration);
        StampCell(hash(n, nTweak, key) % WORD);
        n := n + 1;
      }
    }

    method Insert(key: Key)
      requires Valid()
      modifies this, data
      ensures Valid() && nTweak == old(nTweak)
      ensures keys == old(keys) + [key]
    {
      hide Recorded, WipedOf, MarkedOf, Counted;
      ghost var t, size := Params(), nEntriesPerGeneration;
      CountNext(|keys|, size, g, nEntriesThisGeneration);
      if nEntriesThisGeneration == nEntriesPerGeneration {
        nEntriesThisGeneration := 0;
        nGeneration := nGeneration + 1;
        if nGeneration == 4 {
          nGeneration := 1;
        }
        ghost var before := data[..];
        Wipe();
        RecordedWiped(t, before, data[..], keys, size, g);
        g := g + 1;
      }
      nEntriesThisGeneration := nEntriesThisGeneration + 1;
      ghost var middle := data[..];
      Mark(key);
      RecordedMarked(t, middle, data[..], keys, key, size, g);
      keys := keys + [key];
    }

    /** True exactly when every cell of key was stamped by a key of the last three generations. */
    method Contains(key: Key) returns (found: bool)
      requires Valid()
      ensures found <==> AllHit(Params(), keys, (g - 2) * nEntriesPerGeneration, key, nHashFuncs)
      ensures found <==> Remembers(Params(), keys, Oldest(|keys|, nEntriesPerGeneration), key)
      ensures (exists i :: 0 <= i < |keys| && |keys| - nElements <= i && keys[i] == key) ==> found
    {
      ghost var t, oldest := Params(), (g - 2) * nEntriesPerGeneration;
      AllShared(t, keys, g, nEntriesPerGeneration, nEntriesThisGeneration, key);
      if exists i :: 0 <= i < |keys| && |keys| - nElements <= i && keys[i] == key {
        RecentIsFound(t, keys, nElements, nEntriesPerGeneration, g, nEntriesThisGeneration, key);
      }
      hide AllHit, Remembers, Oldest, HitSince, Recorded, Counted, CellOf, Stamp;
      NoneToHit(t, keys, oldest, key);
      var n := 0;
      while n < nHashFuncs
        invariant 0 <= n <= nHashFuncs
        invariant AllHit(t, keys, oldest, key, n)
      {
        SetIffRecent(t, data[..], keys, nEntriesPerGeneration, g, CellAt(t, key, n));
        AllHitNext(t, keys, oldest, key, n, nHashFuncs);
        var hit := IsSet(hash(n, nTweak, key) % WORD);
        if !hit {
          return false;
        }
        n := n + 1;
      }
      return true;
    }
  }

  lemma NoneToHit<Key>(t: Table<Key>, keys: seq<Key>, oldest: int, key: Key)
    requires TableOk(t)
    ensures AllHit(t, keys, oldest, key, 0)
  {
  }

  lemma AllShared<Key>(t: Table<Key>, keys: seq<Key>, g: nat, n: nat, entries: nat, key: Key)
    requires TableOk(t) && n > 0 && Counted(|keys|, n, g, entries)
    ensures AllHit(t, keys, (g - 2) * n, key, t.funcs) <==> Remembers(t, keys, Oldest(|keys|, n), key)
  {
    hide HitSince, Shared, CellAt, HashAt;
    forall m | 0 <= m < t.funcs
      ensures HitSince(t, keys, (g - 2) * n, CellAt(t, key, m)) <==>
              Shared(t, keys, Oldest(|keys|, n), HashAt(t, key, m))
    {
      HitIsShared(t, keys, (g - 2) * n, key, m);
      OldestIs(t, keys, g, n, entries, HashAt(t, key, m));
    }
  }

  lemma OldestIs<Key>(t: Table<Key>, keys: seq<Key>, g: nat, n: nat, entries: nat, h: nat)
    requires n > 0 && Counted(|keys|, n, g, entries)
    ensures Shared(t, keys, Oldest(|keys|, n), h) <==> Shared(t, keys, (g - 2) * n, h)
  {
    if keys != [] {
      DivUnique(|keys| - 1, n, g);
    }
  }

  lemma ZeroStamps(data: seq<Word>)
    requires forall j :: 0 <= j < |data| ==> data[j] == ZERO
    ensures forall c: Cell :: InRange(c, |data|) ==> Stamp(data, c) == 0
  {
  }

  ghost predicate PairWiped(before: seq<Word>, after: seq<Word>, j: nat, m1: Word, m2: Word)
    requires 2 * j + 1 < |before| == |after|
  {
    && after[2 * j] == Wiped(before[2 * j], before[2 * j], before[2 * j + 1], m1, m2)
    && after[2 * j + 1] == Wiped(before[2 * j + 1], before[2 * j], before[2 * j + 1], m1, m2)
  }

  lemma WipedEverywhere(before: seq<Word>, after: seq<Word>, gen: nat)
    requires 1 <= gen <= 3 && |after| == |before|
    requires forall j :: 0 <= j < |before| / 2 ==>
               PairWiped(before, after, j, Filled(LowBit(gen)), Filled(HighBit(gen)))
    ensures WipedOf(before, after, gen)
  {
    forall c: Cell | InRange(c, |before|)
      ensures Stamp(after, c) == if Stamp(before, c) == gen then 0 else Stamp(before, c)
    {
      assert PairWiped(before, after, c.pair, Filled(LowBit(gen)), Filled(HighBit(gen)));
    }
  }

  /** The last elements keys are never forgotten: two whole generations hold at least that many. */
  lemma RecentIsFound<Key>(t: Table<Key>, keys: seq<Key>, elements: nat, n: nat, g: nat, entries: nat, key: Key)
    requires TableOk(t) && n == (elements + 1) / 2 && Counted(|keys|, n, g, entries)
    requires exists i :: 0 <= i < |keys| && |keys| - elements <= i && keys[i] == key
    ensures AllHit(t, keys, (g - 2) * n, key, t.funcs)
  {
    var i :| 0 <= i < |keys| && |keys| - elements <= i && keys[i] == key;
    assert (g - 2) * n == g * n - 2 * n;
    forall m | 0 <= m < t.funcs
      ensures HitSince(t, keys, (g - 2) * n, CellAt(t, key, m))
    {
      assert Hits(t, keys[i], CellAt(t, key, m));
    }
  }

  /** Any sequence of inserts into a new filter: exactly what is found, and each of the last n keys in any case. */
  method InsertAllAndAsk<Key(==)>(hash: (nat, nat, Key) -> nat, n: nat, funcs: nat, pairs: nat, tweak: nat,
                                 keys: seq<Key>, key: Key)
    returns (found: bool)
    requires 1 <= n < WORD - 1 && 1 <= funcs <= 50 && pairs > 0
    ensures (exists i :: 0 <= i < |keys| && |keys| - n <= i && keys[i] == key) ==> found
    ensures found <==> Remembers(Table(hash, funcs, tweak, 2 * pairs), keys, Oldest(|keys|, (n + 1) / 2), key)
    ensures keys == [] ==> !found
  {
    hide AllHit, Shared, Oldest;
    var filter := new RollingBloomFilter(hash, n, funcs, pairs, tweak);
    var i := 0;
    while i < |keys|
      invariant 0 <= i <= |keys| && fresh(filter) && fresh(filter.data) && filter.Valid()
      invariant filter.keys == keys[..i] && filter.nElements == n
      invariant filter.Params() == Table(hash, funcs, tweak, 2 * pairs)
    {
      filter.Insert(keys[i]);
      i := i + 1;
    }
    assert keys[..i] == keys;
    found := filter.Contains(key);
    if keys == [] {
      NothingShared(filter.Params(), Oldest(0, (n + 1) / 2), HashAt(filter.Params(), key, 0));
    }
  }

  lemma NoneMarked<Key>(t: Table<Key>, key: Key, data: seq<Word>, gen: nat)
    requires TableOk(t) && |data| == t.words
    ensures MarkedOf(t, key, 0, data, data, gen)
  {
  }

  /** Where the next key falls: in a new generation when this one is full. */
  lemma CountNext(count: nat, n: nat, g: nat, entries: nat)
    requires n > 0 && Counted(count, n, g, entries)
    ensures entries == n ==> count == (g + 1) * n && count < (g + 1 + 1) * n && Counted(count + 1, n, g + 1, 1)
    ensures entries < n ==> g * n <= count < (g + 1) * n && Counted(count + 1, n, g, entries + 1)
    ensures entries <= n
  {
    MulDist(n, g, 1);
    MulDist(n, g + 1, 1);
  }

  lemma NothingShared<Key>(t: Table<Key>, oldest: int, h: nat)
    ensures !Shared(t, [], oldest, h)
  {
  }
}
