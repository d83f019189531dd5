/**
 Compact blocks (src/blockencodings.h, src/blockencodings.cpp; BIP 152, section
 "Short transaction IDs").

 A compact block lists a few transactions in full and the rest by short id.  The receiver
 puts them at their positions, fills the rest from its own transactions, asks for what is
 still missing and rebuilds the block.
 */
module CompactBlocks {
  import opened Wrappers

  // ----- Differential index coding

  const MAX_INDEX: nat := 0xFFFF

  predicate Increasing(s: seq<int>) {
    forall i, j :: 0 <= i < j < |s| ==> s[i] < s[j]
  }

  /** A small negative number becomes a huge unsigned one. */
  function Unsigned64(x: int): int {
    if x < 0 then x + 0x1_0000_0000_0000_0000 else x
  }

  /** An index less the one after its predecessor, as a request writes it: unsigned 64-bit. */
  function Difference(indexes: seq<int>, i: nat): int
    requires i < |indexes|
  {
    Unsigned64(indexes[i] - (if i == 0 then 0 else indexes[i - 1] + 1))
  }

  /** Turns the indexes of a request into differences. */
  method EncodeIndexes(indexes: seq<int>) returns (diffs: seq<int>)
    requires forall i :: 0 <= i < |indexes| ==> 0 <= indexes[i] <= MAX_INDEX
    ensures |diffs| == |indexes|
    ensures forall i :: 0 <= i < |indexes| ==> diffs[i] == Difference(indexes, i)
  {
    diffs := [];
    for i := 0 to |indexes|
      invariant |diffs| == i
      invariant forall j :: 0 <= j < i ==> diffs[j] == Difference(indexes, j)
    {
      diffs := diffs + [Difference(indexes, i)];
    }
  }

  /** The index that the first i + 1 differences add up to. */
  function Position(diffs: seq<int>, i: int): int
    requires -1 <= i < |diffs|
    decreases i
  {
    if i < 0 then -1 else Position(diffs, i - 1) + diffs[i] + 1
  }

  /** Reading back: the differences must be 16-bit, and so must the indexes they add up to. */
  method DecodeIndexes(diffs: seq<int>) returns (r: Option<seq<int>>)
    requires forall i :: 0 <= i < |diffs| ==> 0 <= diffs[i]
    ensures r.Some? <==> forall i :: 0 <= i < |diffs| ==> diffs[i] <= MAX_INDEX && Position(diffs, i) <= MAX_INDEX
    ensures r.Some? ==> |r.value| == |diffs|
    ensures r.Some? ==> forall i :: 0 <= i < |diffs| ==> r.value[i] == Position(diffs, i)
  {
    var indexes := diffs;
    for i := 0 to |diffs|
      invariant forall j :: 0 <= j < i ==> diffs[j] <= MAX_INDEX
    {
      if diffs[i] > MAX_INDEX {
        return None;
      }
    }
    var offset := 0;
    for j := 0 to |diffs|
      invariant |indexes| == |diffs|
      invariant offset == Position(diffs, j - 1) + 1
      invariant forall k :: 0 <= k < j ==> indexes[k] == Position(diffs, k) <= MAX_INDEX
      invariant forall k :: j <= k < |diffs| ==> indexes[k] == diffs[k]
    {
      if indexes[j] + offset > MAX_INDEX {
        assert Position(diffs, j) > MAX_INDEX;
        return None;
      }
      indexes := indexes[j := indexes[j] + offset];
      offset := indexes[j] + 1;
    }
    r := Some(indexes);
  }

  lemma {:induction false} PositionsIncrease(diffs: seq<int>, i: int, j: int)
    requires forall k :: 0 <= k < |diffs| ==> 0 <= diffs[k]
    requires -1 <= i < j < |diffs|
    ensures Position(diffs, i) < Position(diffs, j)
    decreases j
  {
    if i < j - 1 {
      PositionsIncrease(diffs, i, j - 1);
    }
  }

  lemma DifferenceOfIncreasing(indexes: seq<int>, i: nat)
    requires i < |indexes| && Increasing(indexes) && 0 <= indexes[0] && indexes[i] <= MAX_INDEX
    ensures 0 <= Difference(indexes, i) <= MAX_INDEX
    ensures Difference(indexes, i) == indexes[i] - if i == 0 then 0 else indexes[i - 1] + 1
  {
    if i > 0 {
      assert indexes[i - 1] < indexes[i];
      assert i - 1 > 0 ==> indexes[0] < indexes[i - 1];
    }
  }

  lemma {:induction false} PositionsOfDifferences(indexes: seq<int>, diffs: seq<int>, i: nat)
    requires |diffs| == |indexes| && i < |indexes| && Increasing(indexes)
    requires forall k :: 0 <= k < |indexes| ==> 0 <= indexes[k] <= MAX_INDEX && diffs[k] == Difference(indexes, k)
    ensures Position(diffs, i) == indexes[i] && 0 <= diffs[i] <= MAX_INDEX
  {
    hide Difference, Increasing;
    DifferenceOfIncreasing(indexes, i);
    if i > 0 {
      PositionsOfDifferences(indexes, diffs, i - 1);
    }
  }

  /** A request survives the wire exactly when its indexes increase. */
  method SendIndexes(indexes: seq<int>) returns (r: Option<seq<int>>)
    requires forall i :: 0 <= i < |indexes| ==> 0 <= indexes[i] <= MAX_INDEX
    ensures Increasing(indexes) ==> r == Some(indexes)
    ensures !Increasing(indexes) ==> r == None
  {
    var diffs := EncodeIndexes(indexes);
    r := DecodeIndexes(diffs);
    if Increasing(indexes) {
      forall i | 0 <= i < |indexes|
        ensures Position(diffs, i) == indexes[i] && 0 <= diffs[i] <= MAX_INDEX
      {
        PositionsOfDifferences(indexes, diffs, i);
      }
      assert r.value == indexes;
    } else {
      ghost var i := OneDecreases(indexes);
      assert diffs[i] > MAX_INDEX;
    }
  }

  lemma {:induction false} OneDecreases(s: seq<int>) returns (i: nat)
    requires !Increasing(s)
    ensures 0 < i < |s| && s[i] <= s[i - 1]
  {
    if forall k :: 0 < k < |s| ==> s[k - 1] < s[k] {
      forall i, j | 0 <= i < j < |s| ensures s[i] < s[j] {
        Chained(s, i, j);
      }
      assert false;
    }
    i :| 0 < i < |s| && s[i] <= s[i - 1];
  }

  lemma {:induction false} Chained(s: seq<int>, i: nat, j: nat)
    requires i < j < |s| && forall k :: 0 < k < |s| ==> s[k - 1] < s[k]
    ensures s[i] < s[j]
  {
    if i < j - 1 {
      Chained(s, i, j - 1);
    }
  }

  // ----- Messages

  /** Hashing as it is used here: of a transaction, and of a hash under the block's keys, cut down to 48 bits. */
  datatype Env<!Tx> = Env(hash: Tx -> nat, short: nat -> nat, isNull: Tx -> bool) {
    function ShortId(tx: Tx): nat {
      short(hash(tx)) % 0x1_0000_0000_0000
    }
  }

  /** Short ids have 48 bits, and are equal exactly when the keyed hashes agree in them. */
  lemma ShortIdsAgree<Tx>(env: Env<Tx>, t: Tx, u: Tx)
    ensures env.ShortId(t) < 0x1_0000_0000_0000
    ensures env.ShortId(t) == env.ShortId(u) <==>
            (env.short(env.hash(t)) - env.short(env.hash(u))) % 0x1_0000_0000_0000 == 0
    ensures env.short(env.hash(t)) < 0x1_0000_0000_0000 ==> env.ShortId(t) == env.short(env.hash(t))
  {
  }

  datatype Prefilled<Tx> = Prefilled(index: nat, tx: Tx)

  datatype Message<Tx> = Message(headerIsNull: bool, shorttxids: seq<nat>, prefilledtxn: seq<Prefilled<Tx>>) {
    function BlockTxCount(): nat {
      |shorttxids| + |prefilledtxn|
    }
  }

  function Indexes<Tx>(pre: seq<Prefilled<Tx>>): (d: seq<int>)
    ensures |d| == |pre| && forall i :: 0 <= i < |d| ==> d[i] == pre[i].index
  {
    seq(|pre|, i requires 0 <= i < |pre| => pre[i].index)
  }

  /** The block position of prefilled transaction i. */
  function PrefilledAt<Tx>(msg: Message<Tx>, i: int): int
    requires -1 <= i < |msg.prefilledtxn|
  {
    Position(Indexes(msg.prefilledtxn), i)
  }

  /** The checks on prefilled transaction i. */
  predicate PrefilledOk<Tx>(env: Env<Tx>, msg: Message<Tx>, i: nat)
    requires i < |msg.prefilledtxn|
  {
    && !env.isNull(msg.prefilledtxn[i].tx)
    && PrefilledAt(msg, i) <= MAX_INDEX
    && PrefilledAt(msg, i) <= |msg.shorttxids| + i
  }

  predicate WellFormed<Tx>(env: Env<Tx>, msg: Message<Tx>, maxTxs: nat) {
    && !msg.headerIsNull && 0 < msg.BlockTxCount() <= maxTxs
    && forall i :: 0 <= i < |msg.prefilledtxn| ==> PrefilledOk(env, msg, i)
  }

  /** Positions that increase leave room for those still to come. */
  lemma {:induction false} RoomBelow(diffs: seq<int>, i: int, j: int)
    requires forall k :: 0 <= k < |diffs| ==> 0 <= diffs[k]
    requires -1 <= i <= j < |diffs|
    ensures Position(diffs, i) + (j - i) <= Position(diffs, j)
    decreases j
  {
    if i < j {
      RoomBelow(diffs, i, j - 1);
    }
  }

  /**
   A message is well formed exactly when it has a header, an allowed number of transactions, no null
   one among those sent in full, and the last of these has a 16-bit position inside the block.
   */
  lemma WellFormedIff<Tx>(env: Env<Tx>, msg: Message<Tx>, maxTxs: nat)
    ensures WellFormed(env, msg, maxTxs) <==>
      var n, k := |msg.shorttxids| + |msg.prefilledtxn|, |msg.prefilledtxn| - 1;
      && !msg.headerIsNull && 1 <= n <= maxTxs
      && (forall i :: 0 <= i <= k ==> !env.isNull(msg.prefilledtxn[i].tx))
      && (k >= 0 ==> PrefilledAt(msg, k) < n && PrefilledAt(msg, k) <= 65535)
  {
    hide Position;
    var k := |msg.prefilledtxn| - 1;
    var d := Indexes(msg.prefilledtxn);
    forall i | 0 <= i <= k ensures PrefilledAt(msg, i) + (k - i) <= PrefilledAt(msg, k) {
      RoomBelow(d, i, k);
    }
    if WellFormed(env, msg, maxTxs) {
      forall i | 0 <= i <= k ensures !env.isNull(msg.prefilledtxn[i].tx) {
        assert PrefilledOk(env, msg, i);
      }
      assert k >= 0 ==> PrefilledOk(env, msg, k);
    }
  }

  // ----- Slots

  type Slots<Tx> = seq<Option<Tx>>

  /** How many slots are empty. */
  function Empty<Tx>(s: Slots<Tx>): (n: nat)
    ensures n <= |s|
  {
    if s == [] then 0 else Empty(s[..|s| - 1]) + if s[|s| - 1].None? then 1 else 0
  }

  lemma {:induction false} EmptyFilled<Tx>(s: Slots<Tx>, p: nat, tx: Tx)
    requires p < |s| && s[p].None?
    ensures Empty(s[p := Some(tx)]) == Empty(s) - 1
  {
    var t := s[p := Some(tx)];
    if p < |s| - 1 {
      EmptyFilled(s[..|s| - 1], p, tx);
      assert t[..|t| - 1] == s[..|s| - 1][p := Some(tx)];
    } else {
      assert t[..|t| - 1] == s[..|s| - 1];
    }
  }

  lemma EmptyCleared<Tx>(s: Slots<Tx>, p: nat)
    requires p < |s| && s[p].Some?
    ensures Empty(s[p := None]) == Empty(s) + 1
  {
    EmptyFilled(s[p := None], p, s[p].value);
    assert s[p := None][p := Some(s[p].value)] == s;
  }

  lemma {:induction false} AllEmpty<Tx>(s: Slots<Tx>)
    requires forall p :: 0 <= p < |s| ==> s[p].None?
    ensures Empty(s) == |s|
  {
    if s != [] {
      AllEmpty(s[..|s| - 1]);
    }
  }

  lemma {:induction false} EmptyPrefix<Tx>(s: Slots<Tx>, p: nat)
    requires p <= |s|
    ensures Empty(s[..p]) <= Empty(s)
    ensures (forall q :: p <= q < |s| ==> s[q].Some?) ==> Empty(s[..p]) == Empty(s)
  {
    if p == |s| {
      assert s[..p] == s;
    } else {
      EmptyPrefix(s[..|s| - 1], p);
      assert s[..|s| - 1][..p] == s[..p];
    }
  }

  lemma EmptyNext<Tx>(s: Slots<Tx>, p: nat)
    requires p < |s|
    ensures Empty(s[..p + 1]) == Empty(s[..p]) + if s[p].None? then 1 else 0
  {
    assert s[..p + 1][..p] == s[..p];
  }

  /** Slot p is the empty slot number i. */
  predicate IsFree<Tx>(s: Slots<Tx>, p: nat, i: nat) {
    p < |s| && s[p].None? && Empty(s[..p]) == i
  }

  lemma FreeNext<Tx>(s: Slots<Tx>, p: nat, i: nat)
    requires IsFree(s, p, i)
    ensures p < |s| && Empty(s[..p + 1]) == i + 1
  {
    EmptyNext(s, p);
  }

  lemma FreeIncreases<Tx>(s: Slots<Tx>, p: nat, q: nat)
    requires p < q <= |s| && s[p].None?
    ensures Empty(s[..p]) < Empty(s[..q])
  {
    EmptyNext(s, p);
    EmptyPrefix(s[..q], p + 1);
    assert s[..q][..p + 1] == s[..p + 1];
  }

  lemma FreeIsUnique<Tx>(s: Slots<Tx>, p: nat, q: nat, i: nat)
    requires IsFree(s, p, i) && IsFree(s, q, i)
    ensures p == q
  {
    if p < q {
      FreeIncreases(s, p, q);
    } else if q < p {
      FreeIncreases(s, q, p);
    }
  }

  // ----- Placing the prefilled transactions

  /** The slots after placing the first m prefilled transactions. */
  ghost predicate Placed<Tx>(msg: Message<Tx>, s: Slots<Tx>, m: nat) {
    && m <= |msg.prefilledtxn| && |s| == msg.BlockTxCount()
    && Empty(s) == |s| - m
    && (forall i :: 0 <= i < m ==>
          0 <= PrefilledAt(msg, i) < |s| && s[PrefilledAt(msg, i)] == Some(msg.prefilledtxn[i].tx))
    && (forall p :: PrefilledAt(msg, m - 1) < p < |s| ==> s[p].None?)
  }

  lemma PlaceNext<Tx>(env: Env<Tx>, msg: Message<Tx>, s: Slots<Tx>, m: nat)
    requires m < |msg.prefilledtxn| && Placed(msg, s, m) && PrefilledOk(env, msg, m)
    ensures 0 <= PrefilledAt(msg, m) < |s|
    ensures Placed(msg, s[PrefilledAt(msg, m) := Some(msg.prefilledtxn[m].tx)], m + 1)
  {
    var d, tx := Indexes(msg.prefilledtxn), msg.prefilledtxn[m].tx;
    PositionsIncrease(d, m - 1, m);
    PositionsFromStart(d, m);
    var p := PrefilledAt(msg, m);
    hide Position, Empty;
    EmptyFilled(s, p, tx);
    forall i | 0 <= i < m ensures PrefilledAt(msg, i) < p {
      PositionsIncrease(d, i, m);
    }
  }

  lemma PositionsFromStart(d: seq<int>, m: nat)
    requires m < |d| && forall k :: 0 <= k < |d| ==> 0 <= d[k]
    ensures Position(d, m) >= 0
  {
    PositionsIncrease(d, -1, m);
  }

  // ----- Mapping short ids to positions

  /** The first n short ids are distinct. */
  predicate Distinct(ids: seq<nat>, n: nat)
    requires n <= |ids|
  {
    forall i, j :: 0 <= i < j < n ==> ids[i] != ids[j]
  }

  /** After the first i short ids: each is mapped to its own empty slot, unless two were equal. */
  ghost predicate MappedTo<Tx>(short: seq<nat>, s: Slots<Tx>, ids: map<nat, nat>, i: nat) {
    && i <= |short| && |ids| <= i
    && (forall id :: id in ids ==> id in short[..i])
    && (forall j :: 0 <= j < i ==> short[j] in ids)
    && (|ids| == i <==> Distinct(short, i))
    && (|ids| == i ==> forall j :: 0 <= j < i ==> IsFree(s, ids[short[j]], j))
  }

  lemma MapNext<Tx>(short: seq<nat>, s: Slots<Tx>, ids: map<nat, nat>, i: nat, p: nat)
    requires i < |short| && MappedTo(short, s, ids, i) && IsFree(s, p, i)
    ensures MappedTo(short, s, ids[short[i] := p], i + 1)
  {
    hide IsFree;
    if short[i] in ids {
      MapAgain(short, s, ids, i, p);
    } else {
      MapFresh(short, s, ids, i, p);
    }
  }

  lemma MapAgain<Tx>(short: seq<nat>, s: Slots<Tx>, ids: map<nat, nat>, i: nat, p: nat)
    requires i < |short| && MappedTo(short, s, ids, i) && short[i] in ids
    ensures MappedTo(short, s, ids[short[i] := p], i + 1)
  {
    hide IsFree;
    SizeWith(ids, short[i], p);
    assert short[..i + 1] == short[..i] + [short[i]];
    var j :| 0 <= j < i && short[j] == short[i];
    assert !Distinct(short, i + 1);
  }

  lemma MapFresh<Tx>(short: seq<nat>, s: Slots<Tx>, ids: map<nat, nat>, i: nat, p: nat)
    requires i < |short| && MappedTo(short, s, ids, i) && IsFree(s, p, i) && short[i] !in ids
    ensures MappedTo(short, s, ids[short[i] := p], i + 1)
  {
    hide IsFree;
    SizeWith(ids, short[i], p);
    assert short[..i + 1] == short[..i] + [short[i]];
    DistinctNext(short, i);
    hide Distinct;
  }

  lemma DistinctNext(short: seq<nat>, i: nat)
    requires i < |short| && forall j :: 0 <= j < i ==> short[j] != short[i]
    ensures Distinct(short, i + 1) <==> Distinct(short, i)
  {
  }

  lemma SizeWith(ids: map<nat, nat>, id: nat, p: nat)
    ensures |ids[id := p]| == |ids| + if id in ids then 0 else 1
  {
    var ids' := ids[id := p];
    assert ids'.Keys == ids.Keys + {id};
    assert |ids'| == |ids'.Keys|;
    if id in ids {
      assert ids'.Keys == ids.Keys;
    }
  }

  // ----- Filling from known transactions

  /**
   While scanning: base is the slots after placing, s the slots now.  A slot of base that was
   empty and has not been matched is empty; one that is full holds a transaction whose short
   id leads there, one of the known ones; count is how many were filled.
   */
  ghost predicate Filled<Tx>(env: Env<Tx>, known: set<Tx>, base: Slots<Tx>, ids: map<nat, nat>, s: Slots<Tx>,
                             have: seq<bool>, count: int)
  {
    && |s| == |have| == |base|
    && (forall p :: 0 <= p < |base| && base[p].Some? ==> s[p] == base[p])
    && (forall p :: 0 <= p < |base| && base[p].None? && !have[p] ==> s[p].None?)
    && (forall p :: 0 <= p < |base| && base[p].None? && s[p].Some? ==>
          var id := env.ShortId(s[p].value); id in ids && ids[id] == p && s[p].value in known)
    && count == Empty(base) - Empty(s)
  }

  ghost predicate LeadsToEmpty<Tx>(base: Slots<Tx>, ids: map<nat, nat>) {
    forall id :: id in ids ==> ids[id] < |base| && base[ids[id]].None?
  }

  lemma FillSlot<Tx>(env: Env<Tx>, known: set<Tx>, base: Slots<Tx>, ids: map<nat, nat>, s: Slots<Tx>, have: seq<bool>,
                     count: int, tx: Tx)
    requires LeadsToEmpty(base, ids) && Filled(env, known, base, ids, s, have, count)
    requires tx in known && env.ShortId(tx) in ids && !have[ids[env.ShortId(tx)]]
    ensures var p := ids[env.ShortId(tx)]; Filled(env, known, base, ids, s[p := Some(tx)], have[p := true], count + 1)
  {
    hide Empty;
    EmptyFilled(s, ids[env.ShortId(tx)], tx);
  }

  lemma ClearSlot<Tx>(env: Env<Tx>, known: set<Tx>, base: Slots<Tx>, ids: map<nat, nat>, s: Slots<Tx>, have: seq<bool>,
                      count: int, p: nat)
    requires Filled(env, known, base, ids, s, have, count) && p < |base| && base[p].None? && s[p].Some?
    ensures Filled(env, known, base, ids, s[p := None], have, count - 1)
  {
    hide Empty;
    EmptyCleared(s, p);
  }

  lemma CountIsNatural<Tx>(env: Env<Tx>, known: set<Tx>, base: Slots<Tx>, ids: map<nat, nat>, s: Slots<Tx>,
                           have: seq<bool>, count: int)
    requires Filled(env, known, base, ids, s, have, count)
    ensures count >= 0
  {
    MoreFilled(base, s);
  }

  lemma {:induction false} MoreFilled<Tx>(base: Slots<Tx>, s: Slots<Tx>)
    requires |s| == |base| && forall p :: 0 <= p < |base| && base[p].Some? ==> s[p].Some?
    ensures Empty(s) <= Empty(base)
  {
    if s != [] {
      MoreFilled(base[..|base| - 1], s[..|s| - 1]);
    }
  }

  // ----- What a scan makes of one slot

  /** The short id of a transaction leads to this slot. */
  predicate Hits<Tx>(env: Env<Tx>, ids: map<nat, nat>, tx: Tx, p: nat) {
    env.ShortId(tx) in ids && ids[env.ShortId(tx)] == p
  }

  /** A slot with its mark that something matched. */
  datatype Cell<Tx> = Cell(tx: Option<Tx>, have: bool)

  /** A second match from the pool empties the slot, and it stays marked. */
  function PoolMatch<Tx>(c: Cell<Tx>, tx: Tx): Cell<Tx> {
    Cell(if c.have then None else Some(tx), true)
  }

  /** So does a second match from the extra transactions, unless it is the same transaction again. */
  function ExtraMatch<Tx>(env: Env<Tx>, c: Cell<Tx>, tx: Tx): Cell<Tx> {
    if !c.have then Cell(Some(tx), true)
    else if c.tx.Some? && env.hash(c.tx.value) != env.hash(tx) then Cell(None, true)
    else c
  }

  /** An empty slot after a scan of pool transactions. */
  ghost function AfterPool<Tx>(env: Env<Tx>, ids: map<nat, nat>, txs: seq<Tx>, p: nat): Cell<Tx> {
    if txs == [] then Cell(None, false)
    else
      var n := |txs| - 1;
      var c := AfterPool(env, ids, txs[..n], p);
      if Hits(env, ids, txs[n], p) then PoolMatch(c, txs[n]) else c
  }

  /** A slot after a scan of extra transactions. */
  ghost function AfterExtra<Tx>(env: Env<Tx>, ids: map<nat, nat>, c0: Cell<Tx>, txs: seq<Tx>, p: nat): Cell<Tx> {
    if txs == [] then c0
    else
      var n := |txs| - 1;
      var c := AfterExtra(env, ids, c0, txs[..n], p);
      if Hits(env, ids, txs[n], p) then ExtraMatch(env, c, txs[n]) else c
  }

  /** Number i is the only match. */
  ghost predicate OnlyMatch<Tx>(env: Env<Tx>, ids: map<nat, nat>, txs: seq<Tx>, p: nat, i: nat) {
    && i < |txs| && Hits(env, ids, txs[i], p)
    && forall j :: 0 <= j < |txs| && j != i ==> !Hits(env, ids, txs[j], p)
  }

  ghost predicate HasMatch<Tx>(env: Env<Tx>, ids: map<nat, nat>, txs: seq<Tx>, p: nat) {
    exists i :: 0 <= i < |txs| && Hits(env, ids, txs[i], p)
  }

  lemma NoMatches<Tx>(env: Env<Tx>, ids: map<nat, nat>, txs: seq<Tx>, p: nat)
    requires txs == []
    ensures !HasMatch(env, ids, txs, p) && forall i: nat :: !OnlyMatch(env, ids, txs, p, i)
  {
  }

  lemma MatchesNext<Tx>(env: Env<Tx>, ids: map<nat, nat>, txs: seq<Tx>, p: nat)
    requires txs != []
    ensures var n := |txs| - 1;
      var rest, last := txs[..n], Hits(env, ids, txs[n], p);
      && (HasMatch(env, ids, txs, p) <==> last || HasMatch(env, ids, rest, p))
      && (forall i: nat :: OnlyMatch(env, ids, txs, p, i) <==>
                           if last then i == n && !HasMatch(env, ids, rest, p) else OnlyMatch(env, ids, rest, p, i))
      && forall i: nat :: OnlyMatch(env, ids, rest, p, i) ==> i < n && rest[i] == txs[i]
  {
    hide Hits;
    var n := |txs| - 1;
    var rest := txs[..n];
    assert forall j :: 0 <= j < n ==> rest[j] == txs[j];
    if j :| 0 <= j < |rest| && Hits(env, ids, rest[j], p) {
      assert Hits(env, ids, txs[j], p);
    }
    if j :| 0 <= j < |txs| && Hits(env, ids, txs[j], p) {
      assert j < n ==> Hits(env, ids, rest[j], p);
    }
    forall i: nat
      ensures OnlyMatch(env, ids, txs, p, i) <==>
              if Hits(env, ids, txs[n], p) then i == n && !HasMatch(env, ids, rest, p)
              else OnlyMatch(env, ids, rest, p, i)
    {
      OnlyMatchNext(env, ids, txs, p, i);
    }
  }

  lemma OnlyMatchNext<Tx>(env: Env<Tx>, ids: map<nat, nat>, txs: seq<Tx>, p: nat, i: nat)
    requires txs != []
    ensures var n := |txs| - 1;
      OnlyMatch(env, ids, txs, p, i) <==>
      if Hits(env, ids, txs[n], p) then i == n && !HasMatch(env, ids, txs[..n], p)
      else OnlyMatch(env, ids, txs[..n], p, i)
  {
    hide Hits;
    var n := |txs| - 1;
    var rest := txs[..n];
    assert forall j :: 0 <= j < n ==> rest[j] == txs[j];
  }

  /** The pool fills a slot exactly when one of its transactions matches and no other does. */
  lemma {:induction false} PoolKeepsOnlyMatch<Tx>(env: Env<Tx>, ids: map<nat, nat>, txs: seq<Tx>, p: nat)
    ensures var c := AfterPool(env, ids, txs, p);
      && (c.have <==> HasMatch(env, ids, txs, p))
      && (c.tx.Some? <==> exists i: nat :: OnlyMatch(env, ids, txs, p, i))
      && forall i: nat :: OnlyMatch(env, ids, txs, p, i) ==> c.tx == Some(txs[i])
  {
    hide Hits, HasMatch, OnlyMatch;
    if txs == [] {
      NoMatches(env, ids, txs, p);
    } else {
      var n := |txs| - 1;
      var rest := txs[..n];
      PoolKeepsOnlyMatch(env, ids, rest, p);
      MatchesNext(env, ids, txs, p);
      if Hits(env, ids, txs[n], p) {
        assert !HasMatch(env, ids, rest, p) ==> OnlyMatch(env, ids, txs, p, n);
      } else if i: nat :| OnlyMatch(env, ids, rest, p, i) {
        assert OnlyMatch(env, ids, txs, p, i);
      }
    }
  }

  /** Where only one transaction can match, a pool that has it once fills the slot with it. */
  lemma {:induction false} PoolFills<Tx>(env: Env<Tx>, ids: map<nat, nat>, txs: seq<Tx>, p: nat, t: Tx)
    requires Hits(env, ids, t, p) && forall i :: 0 <= i < |txs| && Hits(env, ids, txs[i], p) ==> txs[i] == t
    requires forall i, j :: 0 <= i < j < |txs| ==> txs[i] != txs[j]
    ensures AfterPool(env, ids, txs, p) == if t in txs then Cell(Some(t), true) else Cell(None, false)
  {
    if txs != [] {
      hide Hits;
      var n := |txs| - 1;
      PoolFills(env, ids, txs[..n], p, t);
      assert txs == txs[..n] + [txs[n]];
      assert txs[n] == t ==> t !in txs[..n];
    }
  }

  /** The extra transactions fill it if the pool did not, and leave it alone if it did. */
  lemma {:induction false} ExtraFills<Tx>(env: Env<Tx>, ids: map<nat, nat>, c0: Cell<Tx>, txs: seq<Tx>, p: nat, t: Tx)
    requires Hits(env, ids, t, p) && forall i :: 0 <= i < |txs| && Hits(env, ids, txs[i], p) ==> txs[i] == t
    requires c0 == Cell(Some(t), true) || c0 == Cell(None, false)
    ensures AfterExtra(env, ids, c0, txs, p) == if c0.have || t in txs then Cell(Some(t), true) else c0
  {
    if txs != [] {
      hide Hits;
      var n := |txs| - 1;
      ExtraFills(env, ids, c0, txs[..n], p, t);
      assert txs == txs[..n] + [txs[n]];
    }
  }

  /** Every match is the transaction t, as far as hashes tell. */
  ghost predicate AllAgree<Tx>(env: Env<Tx>, ids: map<nat, nat>, txs: seq<Tx>, p: nat, t: Tx) {
    forall j :: 0 <= j < |txs| && Hits(env, ids, txs[j], p) ==> env.hash(txs[j]) == env.hash(t)
  }

  ghost predicate FirstMatch<Tx>(env: Env<Tx>, ids: map<nat, nat>, txs: seq<Tx>, p: nat, i: nat) {
    i < |txs| && Hits(env, ids, txs[i], p) && forall j :: 0 <= j < i ==> !Hits(env, ids, txs[j], p)
  }

  lemma AgreeNext<Tx>(env: Env<Tx>, ids: map<nat, nat>, txs: seq<Tx>, p: nat, t: Tx)
    requires txs != []
    ensures var n := |txs| - 1;
      AllAgree(env, ids, txs, p, t) <==>
      AllAgree(env, ids, txs[..n], p, t) && (Hits(env, ids, txs[n], p) ==> env.hash(txs[n]) == env.hash(t))
  {
    hide Hits;
    var n := |txs| - 1;
    var rest := txs[..n];
    assert forall j :: 0 <= j < n ==> rest[j] == txs[j];
    if AllAgree(env, ids, txs, p, t) {
      forall j | 0 <= j < n && Hits(env, ids, rest[j], p) ensures env.hash(rest[j]) == env.hash(t) {
        assert Hits(env, ids, txs[j], p);
      }
    }
  }

  lemma FirstNext<Tx>(env: Env<Tx>, ids: map<nat, nat>, txs: seq<Tx>, p: nat, i: nat)
    requires txs != [] && FirstMatch(env, ids, txs, p, i)
    ensures var rest := txs[..|txs| - 1];
      if i < |rest| then FirstMatch(env, ids, rest, p, i) && rest[i] == txs[i]
      else i == |rest| && !HasMatch(env, ids, rest, p)
  {
    hide Hits;
    var rest := txs[..|txs| - 1];
    assert forall j :: 0 <= j < |rest| ==> rest[j] == txs[j];
  }

  lemma NoMatchAgrees<Tx>(env: Env<Tx>, ids: map<nat, nat>, txs: seq<Tx>, p: nat, t: Tx)
    requires !HasMatch(env, ids, txs, p)
    ensures AllAgree(env, ids, txs, p, t)
  {
    hide Hits;
  }

  /** The extra transactions never touch a slot emptied by the pool, and empty a full one if a match differs from it. */
  lemma {:induction false} ExtraKeepsAgreed<Tx>(env: Env<Tx>, ids: map<nat, nat>, c0: Cell<Tx>, txs: seq<Tx>, p: nat)
    requires c0.have
    ensures AfterExtra(env, ids, c0, txs, p) ==
      if c0.tx.Some? && !AllAgree(env, ids, txs, p, c0.tx.value) then Cell(None, true) else c0
  {
    if txs != [] {
      hide Hits, AllAgree;
      ExtraKeepsAgreed(env, ids, c0, txs[..|txs| - 1], p);
      if c0.tx.Some? {
        AgreeNext(env, ids, txs, p, c0.tx.value);
      }
    } else if c0.tx.Some? {
      NoMatchAgrees(env, ids, txs, p, c0.tx.value);
    }
  }

  /** A slot the pool did not match gets the first match among the extra transactions, if all matches agree with it. */
  lemma {:induction false} ExtraTakesAgreed<Tx>(env: Env<Tx>, ids: map<nat, nat>, c0: Cell<Tx>, txs: seq<Tx>, p: nat)
    requires !c0.have
    ensures !HasMatch(env, ids, txs, p) ==> AfterExtra(env, ids, c0, txs, p) == c0
    ensures forall i: nat :: FirstMatch(env, ids, txs, p, i) ==>
              AfterExtra(env, ids, c0, txs, p) ==
              Cell(if AllAgree(env, ids, txs, p, txs[i]) then Some(txs[i]) else None, true)
  {
    if txs != [] {
      hide Hits, AllAgree, FirstMatch, HasMatch;
      var rest := txs[..|txs| - 1];
      ExtraTakesAgreed(env, ids, c0, rest, p);
      MatchesNext(env, ids, txs, p);
      forall i: nat | FirstMatch(env, ids, txs, p, i)
        ensures AfterExtra(env, ids, c0, txs, p) ==
                Cell(if AllAgree(env, ids, txs, p, txs[i]) then Some(txs[i]) else None, true)
      {
        FirstIsHit(env, ids, txs, p, i);
        FirstNext(env, ids, txs, p, i);
        AgreeNext(env, ids, txs, p, txs[i]);
        if i == |rest| {
          NoMatchAgrees(env, ids, rest, p, txs[i]);
        }
      }
    }
  }

  lemma FirstIsHit<Tx>(env: Env<Tx>, ids: map<nat, nat>, txs: seq<Tx>, p: nat, i: nat)
    requires FirstMatch(env, ids, txs, p, i)
    ensures i < |txs| && Hits(env, ids, txs[i], p)
  {
  }

  ghost predicate Full<Tx>(s: Slots<Tx>) {
    forall p :: 0 <= p < |s| ==> s[p].Some?
  }

  lemma {:induction false} FullIfNoneEmpty<Tx>(s: Slots<Tx>)
    requires Empty(s) == 0
    ensures Full(s)
  {
    if s != [] {
      FullIfNoneEmpty(s[..|s| - 1]);
      assert forall p :: 0 <= p < |s| - 1 ==> s[p] == s[..|s| - 1][p];
    }
  }

  /** The empty slots of base after the pool transactions txs. */
  ghost predicate PoolScanned<Tx>(env: Env<Tx>, base: Slots<Tx>, ids: map<nat, nat>, txs: seq<Tx>,
                                  s: Slots<Tx>, have: seq<bool>)
  {
    && |s| == |have| == |base|
    && forall p :: 0 <= p < |base| && base[p].None? ==> Cell(s[p], have[p]) == AfterPool(env, ids, txs, p)
  }

  /** Those slots after the extra transactions txs as well. */
  ghost predicate ExtraScanned<Tx>(env: Env<Tx>, base: Slots<Tx>, ids: map<nat, nat>, s0: Slots<Tx>, have0: seq<bool>,
                                   txs: seq<Tx>, s: Slots<Tx>, have: seq<bool>)
  {
    && |s| == |have| == |s0| == |have0| == |base|
    && forall p :: 0 <= p < |base| && base[p].None? ==>
        Cell(s[p], have[p]) == AfterExtra(env, ids, Cell(s0[p], have0[p]), txs, p)
  }

  /** How far the two scans went, and the slots and marks in between. */
  datatype Scan<Tx> = Scan(slots: Slots<Tx>, have: seq<bool>, pool: nat, extra: nat)

  /** Both scans, each to its end unless no slot is empty any more. */
  ghost predicate Scanned<Tx>(env: Env<Tx>, base: Slots<Tx>, ids: map<nat, nat>, pool: seq<Tx>, extra: seq<Tx>,
                              mid: Scan<Tx>, s: Slots<Tx>, have: seq<bool>)
  {
    && mid.pool <= |pool| && PoolScanned(env, base, ids, pool[..mid.pool], mid.slots, mid.have)
    && (mid.pool == |pool| || Full(mid.slots))
    && mid.extra <= |extra| && ExtraScanned(env, base, ids, mid.slots, mid.have, extra[..mid.extra], s, have)
    && (mid.extra == |extra| || Full(s))
  }

  lemma PoolScanStarts<Tx>(env: Env<Tx>, base: Slots<Tx>, ids: map<nat, nat>, have: seq<bool>)
    requires have == seq(|base|, _ => false)
    ensures PoolScanned(env, base, ids, [], base, have)
  {
  }

  lemma PoolScanStep<Tx>(env: Env<Tx>, base: Slots<Tx>, ids: map<nat, nat>, pool: seq<Tx>, i: nat,
                         s: Slots<Tx>, have: seq<bool>, s': Slots<Tx>, have': seq<bool>)
    requires i < |pool| && PoolScanned(env, base, ids, pool[..i], s, have)
    requires PoolMatched(env, ids, pool[i], s, have, s', have')
    ensures PoolScanned(env, base, ids, pool[..i + 1], s', have')
  {
    assert pool[..i + 1][..i] == pool[..i];
  }

  lemma ExtraScanStep<Tx>(env: Env<Tx>, base: Slots<Tx>, ids: map<nat, nat>, s0: Slots<Tx>, have0: seq<bool>,
                          extra: seq<Tx>, i: nat, s: Slots<Tx>, have: seq<bool>, s': Slots<Tx>, have': seq<bool>)
    requires i < |extra| && ExtraScanned(env, base, ids, s0, have0, extra[..i], s, have)
    requires ExtraMatched(env, ids, extra[i], s, have, s', have')
    ensures ExtraScanned(env, base, ids, s0, have0, extra[..i + 1], s', have')
  {
    assert extra[..i + 1][..i] == extra[..i];
  }

  /** A pool transaction meets the slot its short id leads to: a first match fills it, a second one empties it. */
  ghost predicate PoolMatched<Tx>(env: Env<Tx>, ids: map<nat, nat>, tx: Tx, s: Slots<Tx>, have: seq<bool>,
                                  s': Slots<Tx>, have': seq<bool>)
  {
    var id := env.ShortId(tx);
    if id !in ids then s' == s && have' == have
    else
      var p := ids[id];
      && p < |s| == |have|
      && s' == s[p := if have[p] then None else Some(tx)] && have' == have[p := true]
  }

  /** An extra transaction: the same one again is no second match. */
  ghost predicate ExtraMatched<Tx>(env: Env<Tx>, ids: map<nat, nat>, tx: Tx, s: Slots<Tx>, have: seq<bool>,
                                   s': Slots<Tx>, have': seq<bool>)
  {
    var id := env.ShortId(tx);
    if id !in ids then s' == s && have' == have
    else
      var p := ids[id];
      && p < |s| == |have| && have' == have[p := true]
      && s' == s[p := if !have[p] then Some(tx)
                      else if s[p].Some? && env.hash(s[p].value) != env.hash(tx) then None
                      else s[p]]
  }

  // ----- The receiver

  ghost function Members<Tx>(s: seq<Tx>): set<Tx> {
    set x | x in s
  }

  datatype Status = Ok | Invalid | Failed | CheckBlockFailed

  /** What InitData leaves behind when it succeeds. */
  ghost predicate Initialized<Tx>(env: Env<Tx>, known: set<Tx>, msg: Message<Tx>, base: Slots<Tx>, ids: map<nat, nat>,
                                  s: Slots<Tx>, have: seq<bool>, count: int)
  {
    && Placed(msg, base, |msg.prefilledtxn|)
    && MappedTo(msg.shorttxids, base, ids, |msg.shorttxids|) && |ids| == |msg.shorttxids|
    && Filled(env, known, base, ids, s, have, count)
  }

  class PartiallyDownloadedBlock<Tx(==)> {
    const env: Env<Tx>
    var headerIsNull: bool
    var txnAvailable: Slots<Tx>
    var prefilledCount: nat
    var mempoolCount: nat

    constructor (env: Env<Tx>)
      ensures this.env == env && headerIsNull && txnAvailable == [] && mempoolCount == 0
    {
      this.env := env;
      headerIsNull := true;
      txnAvailable := [];
      prefilledCount := 0;
      mempoolCount := 0;
    }

    /** Puts the prefilled transactions at their positions. */
    method PlacePrefilled(msg: Message<Tx>) returns (ok: bool)
      modifies `txnAvailable
      ensures ok <==> forall i :: 0 <= i < |msg.prefilledtxn| ==> PrefilledOk(env, msg, i)
      ensures ok ==> Placed(msg, txnAvailable, |msg.prefilledtxn|)
    {
      hide Position, Empty, Indexes;
      txnAvailable := seq(msg.BlockTxCount(), _ => None);
      PlacedNone(msg, txnAvailable);
      var last := -1;
      var i := 0;
      while i < |msg.prefilledtxn|
        invariant 0 <= i <= |msg.prefilledtxn| && last == PrefilledAt(msg, i - 1)
        invariant forall j :: 0 <= j < i ==> PrefilledOk(env, msg, j)
        invariant Placed(msg, txnAvailable, i)
      {
        hide Placed;
        var pre := msg.prefilledtxn[i];
        if env.isNull(pre.tx) {
          assert !PrefilledOk(env, msg, i);
          return false;
        }
        NextPosition(msg, i);
        last := last + pre.index + 1;
        if last > MAX_INDEX {
          assert !PrefilledOk(env, msg, i);
          return false;
        }
        if last > |msg.shorttxids| + i {
          assert !PrefilledOk(env, msg, i);
          return false;
        }
        PlaceNext(env, msg, txnAvailable, i);
        txnAvailable := txnAvailable[last := Some(pre.tx)];
        i := i + 1;
      }
      ok := true;
    }

    /** Maps the i-th short id to the i-th empty position; crowded stands for the bucket-size check. */
    method MapShortIds(short: seq<nat>, crowded: nat -> bool) returns (ok: bool, ids: map<nat, nat>)
      requires Empty(txnAvailable) == |short| && |txnAvailable| <= MAX_INDEX
      ensures ok <==> Distinct(short, |short|) && forall i :: 0 <= i < |short| ==> !crowded(i)
      ensures ok ==> MappedTo(short, txnAvailable, ids, |short|) && |ids| == |short|
    {
      hide MappedTo, Empty, Distinct, IsFree;
      ids := map[];
      var offset, i := 0, 0;
      NothingMapped(short, txnAvailable);
      while i < |short|
        invariant 0 <= i <= |short| && 0 <= offset && i + offset <= |txnAvailable|
        invariant Empty(txnAvailable[..i + offset]) == i
        invariant MappedTo(short, txnAvailable, ids, i)
        invariant forall j :: 0 <= j < i ==> !crowded(j)
      {
        offset := SkipFilled(i, offset, |short|);
        MapNext(short, txnAvailable, ids, i, i + offset);
        FreeNext(txnAvailable, i + offset, i);
        ids := ids[short[i] := i + offset];
        if crowded(i) {
          return false, ids;
        }
        i := i + 1;
      }
      AllMapped(short, txnAvailable, ids);
      ok := |ids| == |short|;
    }

    /** The inner loop: there is an empty slot ahead, so it stops inside the array. */
    method SkipFilled(i: nat, offset: nat, total: nat) returns (r: nat)
      requires i < total == Empty(txnAvailable) && i + offset <= |txnAvailable|
      requires Empty(txnAvailable[..i + offset]) == i
      ensures IsFree(txnAvailable, i + r, i)
    {
      hide Empty;
      r := offset;
      EmptyPrefix(txnAvailable, i + r);
      while txnAvailable[i + r].Some?
        invariant i + r < |txnAvailable| && Empty(txnAvailable[..i + r]) == i
        decreases |txnAvailable| - r
      {
        EmptyNext(txnAvailable, i + r);
        EmptyPrefix(txnAvailable, i + r + 1);
        r := r + 1;
      }
    }

    /** Fills slots from the memory pool; a second match empties the slot again for good. */
    method ScanPool(ids: map<nat, nat>, pool: seq<Tx>, have0: seq<bool>, ghost known: set<Tx>, ghost base: Slots<Tx>)
      returns (have: seq<bool>, ghost end: nat)
      requires LeadsToEmpty(base, ids) && Filled(env, known, base, ids, txnAvailable, have0, mempoolCount)
      requires forall tx :: tx in pool ==> tx in known
      requires PoolScanned(env, base, ids, [], txnAvailable, have0) && |ids| == Empty(base)
      modifies `txnAvailable, `mempoolCount
      ensures Filled(env, known, base, ids, txnAvailable, have, mempoolCount)
      ensures end <= |pool| && PoolScanned(env, base, ids, pool[..end], txnAvailable, have)
      ensures end == |pool| || Full(txnAvailable)
    {
      hide Empty, Filled, PoolScanned, PoolMatched, Full;
      have, end := have0, 0;
      var i := 0;
      assert pool[..0] == [];
      while i < |pool|
        invariant 0 <= i <= |pool| && end == i
        invariant Filled(env, known, base, ids, txnAvailable, have, mempoolCount)
        invariant PoolScanned(env, base, ids, pool[..i], txnAvailable, have)
      {
        ghost var s, h := txnAvailable, have;
        have := MatchPool(ids, pool[i], have, known, base);
        PoolScanStep(env, base, ids, pool, i, s, h, txnAvailable, have);
        end := i + 1;
        if mempoolCount == |ids| {
          FilledCount(env, known, base, ids, txnAvailable, have, mempoolCount);
          FullIfNoneEmpty(txnAvailable);
          break;
        }
        i := i + 1;
      }
    }

    method MatchPool(ids: map<nat, nat>, tx: Tx, have0: seq<bool>, ghost known: set<Tx>, ghost base: Slots<Tx>)
      returns (have: seq<bool>)
      requires LeadsToEmpty(base, ids) && Filled(env, known, base, ids, txnAvailable, have0, mempoolCount)
      requires tx in known
      modifies `txnAvailable, `mempoolCount
      ensures Filled(env, known, base, ids, txnAvailable, have, mempoolCount)
      ensures PoolMatched(env, ids, tx, old(txnAvailable), have0, txnAvailable, have)
    {
      hide Empty;
      have := have0;
      var id := env.ShortId(tx);
      if id in ids {
        if !have[ids[id]] {
          FillSlot(env, known, base, ids, txnAvailable, have, mempoolCount, tx);
          txnAvailable := txnAvailable[ids[id] := Some(tx)];
          have := have[ids[id] := true];
          mempoolCount := mempoolCount + 1;
        } else if txnAvailable[ids[id]].Some? {
          ClearSlot(env, known, base, ids, txnAvailable, have, mempoolCount, ids[id]);
          txnAvailable := txnAvailable[ids[id] := None];
          CountIsNatural(env, known, base, ids, txnAvailable, have, mempoolCount - 1);
          mempoolCount := mempoolCount - 1;
        }
      }
    }

    /** Fills slots from the extra transactions; the same transaction again is no second match. */
    method ScanExtra(ids: map<nat, nat>, extra: seq<Tx>, have0: seq<bool>, ghost known: set<Tx>, ghost base: Slots<Tx>)
      returns (have: seq<bool>, ghost end: nat)
      requires LeadsToEmpty(base, ids) && Filled(env, known, base, ids, txnAvailable, have0, mempoolCount)
      requires forall tx :: tx in extra ==> tx in known
      requires |ids| == Empty(base)
      modifies `txnAvailable, `mempoolCount
      ensures Filled(env, known, base, ids, txnAvailable, have, mempoolCount)
      ensures end <= |extra| && (end == |extra| || Full(txnAvailable))
      ensures ExtraScanned(env, base, ids, old(txnAvailable), have0, extra[..end], txnAvailable, have)
    {
      FilledCount(env, known, base, ids, txnAvailable, have0, mempoolCount);
      ghost var s0 := txnAvailable;
      assert extra[..0] == [] && ExtraScanned(env, base, ids, s0, have0, [], s0, have0);
      hide Empty, Filled, ExtraScanned, ExtraMatched, Full;
      have, end := have0, 0;
      var i := 0;
      while i < |extra|
        invariant 0 <= i <= |extra| && end == i
        invariant Filled(env, known, base, ids, txnAvailable, have, mempoolCount)
        invariant ExtraScanned(env, base, ids, s0, have0, extra[..i], txnAvailable, have)
      {
        ghost var s, h := txnAvailable, have;
        have := MatchExtra(ids, extra[i], have, known, base);
        ExtraScanStep(env, base, ids, s0, have0, extra, i, s, h, txnAvailable, have);
        end := i + 1;
        if mempoolCount == |ids| {
          FilledCount(env, known, base, ids, txnAvailable, have, mempoolCount);
          FullIfNoneEmpty(txnAvailable);
          break;
        }
        i := i + 1;
      }
    }

    method MatchExtra(ids: map<nat, nat>, tx: Tx, have0: seq<bool>, ghost known: set<Tx>, ghost base: Slots<Tx>)
      returns (have: seq<bool>)
      requires LeadsToEmpty(base, ids) && Filled(env, known, base, ids, txnAvailable, have0, mempoolCount)
      requires tx in known
      modifies `txnAvailable, `mempoolCount
      ensures Filled(env, known, base, ids, txnAvailable, have, mempoolCount)
      ensures ExtraMatched(env, ids, tx, old(txnAvailable), have0, txnAvailable, have)
    {
      hide Empty;
      have := have0;
      var id := env.ShortId(tx);
      if id in ids {
        if !have[ids[id]] {
          FillSlot(env, known, base, ids, txnAvailable, have, mempoolCount, tx);
          txnAvailable := txnAvailable[ids[id] := Some(tx)];
          have := have[ids[id] := true];
          mempoolCount := mempoolCount + 1;
        } else if txnAvailable[ids[id]].Some? && env.hash(txnAvailable[ids[id]].value) != env.hash(tx) {
          ClearSlot(env, known, base, ids, txnAvailable, have, mempoolCount, ids[id]);
          txnAvailable := txnAvailable[ids[id] := None];
          CountIsNatural(env, known, base, ids, txnAvailable, have, mempoolCount - 1);
          mempoolCount := mempoolCount - 1;
        }
      }
    }

    /**
     Reads a compact block.  The number of transactions of a received message fits 16 bits.
     */
    method InitData(msg: Message<Tx>, maxTxs: nat, pool: seq<Tx>, extra: seq<Tx>, crowded: nat -> bool)
      returns (status: Status, ghost base: Slots<Tx>, ghost ids: map<nat, nat>, ghost have: seq<bool>,
              ghost mid: Scan<Tx>)
      requires headerIsNull && txnAvailable == [] && mempoolCount == 0
      requires msg.BlockTxCount() <= MAX_INDEX
      modifies this
      ensures status == Invalid <==> !WellFormed(env, msg, maxTxs)
      ensures status == Ok <==>
                && WellFormed(env, msg, maxTxs) && Distinct(msg.shorttxids, |msg.shorttxids|)
                && forall i :: 0 <= i < |msg.shorttxids| ==> !crowded(i)
      ensures status != CheckBlockFailed
      ensures status == Ok ==>
                && Initialized(env, Members(pool + extra), msg, base, ids, txnAvailable, have, mempoolCount)
                && Scanned(env, base, ids, pool, extra, mid, txnAvailable, have)
                && prefilledCount == |msg.prefilledtxn| && !headerIsNull
                && mempoolCount == |txnAvailable| - Empty(txnAvailable) - prefilledCount
    {
      hide Empty, Distinct, MappedTo, IsFree, Position, Filled, PoolScanned, ExtraScanned, Full;
      ghost var known := Members(pool + extra);
      base, ids, have, mid := [], map[], [], Scan([], [], 0, 0);
      if msg.headerIsNull || (msg.shorttxids == [] && msg.prefilledtxn == []) {
        return Invalid, base, ids, have, mid;
      }
      if |msg.shorttxids| + |msg.prefilledtxn| > maxTxs {
        return Invalid, base, ids, have, mid;
      }
      headerIsNull := false;
      var ok := PlacePrefilled(msg);
      if !ok {
        return Invalid, base, ids, have, mid;
      }
      prefilledCount := |msg.prefilledtxn|;
      base := txnAvailable;
      var idMap;
      ok, idMap := MapShortIds(msg.shorttxids, crowded);
      if !ok {
        return Failed, base, ids, have, mid;
      }
      ids := idMap;
      var haveTxn := seq(|txnAvailable|, _ => false);
      StartFilling(env, known, base, ids, haveTxn, msg.shorttxids);
      PoolScanStarts(env, base, ids, haveTxn);
      ghost var i, j;
      haveTxn, i := ScanPool(idMap, pool, haveTxn, known, base);
      ghost var slots, marks := txnAvailable, haveTxn;
      haveTxn, j := ScanExtra(idMap, extra, haveTxn, known, base);
      have, mid := haveTxn, Scan(slots, marks, i, j);
      FilledCount(env, known, base, ids, txnAvailable, have, mempoolCount);
      status := Ok;
    }

    predicate IsTxAvailable(index: nat)
      requires index < |txnAvailable|
      reads this
    {
      txnAvailable[index].Some?
    }

    /** Rebuilds the block from the slots and the missing transactions; check is the block check's outcome. */
    method FillBlock(missing: seq<Tx>, check: Status) returns (status: Status, vtx: seq<Tx>)
      requires !headerIsNull && check != Invalid
      modifies this
      ensures status == if |missing| == Empty(old(txnAvailable)) then check else Invalid
      ensures headerIsNull <==> |missing| >= Empty(old(txnAvailable))
      ensures |missing| >= Empty(old(txnAvailable)) ==> Merged(old(txnAvailable), missing, vtx) && txnAvailable == []
    {
      hide Empty;
      ghost var s := txnAvailable;
      vtx := [];
      var used, i := 0, 0;
      assert s[..0] == [];
      NoneEmpty(s);
      while i < |txnAvailable|
        invariant |txnAvailable| == |s| && 0 <= i <= |s| && |vtx| == i && !headerIsNull
        invariant used == Empty(s[..i]) && used <= |missing|
        invariant forall p :: i <= p < |s| ==> txnAvailable[p] == s[p]
        invariant MergedUpTo(s, missing, vtx, i)
      {
        EmptyNext(s, i);
        EmptyPrefix(s, i + 1);
        if txnAvailable[i].None? {
          if |missing| <= used {
            return Invalid, vtx;
          }
          vtx := vtx + [missing[used]];
          used := used + 1;
        } else {
          vtx := vtx + [txnAvailable[i].value];
          txnAvailable := txnAvailable[i := None];
        }
        i := i + 1;
      }
      assert s[..i] == s;
      headerIsNull := true;
      txnAvailable := [];
      if |missing| != used {
        return Invalid, vtx;
      }
      status := check;
    }
  }

  lemma NoneEmpty<Tx>(s: Slots<Tx>)
    ensures Empty(s[..0]) == 0
  {
  }

  lemma StartFilling<Tx>(env: Env<Tx>, known: set<Tx>, base: Slots<Tx>, ids: map<nat, nat>, have: seq<bool>,
                         short: seq<nat>)
    requires MappedTo(short, base, ids, |short|) && |ids| == |short|
    requires have == seq(|base|, _ => false)
    ensures LeadsToEmpty(base, ids) && Filled(env, known, base, ids, base, have, 0)
  {
    forall id | id in ids ensures ids[id] < |base| && base[ids[id]].None? {
      assert id in short[..|short|];
      var j :| 0 <= j < |short| && short[j] == id;
      assert IsFree(base, ids[short[j]], j);
    }
  }

  lemma FilledCount<Tx>(env: Env<Tx>, known: set<Tx>, base: Slots<Tx>, ids: map<nat, nat>, s: Slots<Tx>,
                        have: seq<bool>, count: int)
    requires Filled(env, known, base, ids, s, have, count)
    ensures count == Empty(base) - Empty(s) && |s| == |base| == |have|
  {
  }

  // ----- Rebuilding

  ghost predicate MergedUpTo<Tx>(s: Slots<Tx>, missing: seq<Tx>, vtx: seq<Tx>, n: nat) {
    && n <= |s| && n <= |vtx|
    && forall p :: 0 <= p < n ==>
        && Empty(s[..p]) <= |missing|
        && (s[p].None? ==> Empty(s[..p]) < |missing|)
        && vtx[p] == if s[p].Some? then s[p].value else missing[Empty(s[..p])]
  }

  /** Full slots keep their transaction; the empty ones take the missing transactions in order. */
  ghost predicate Merged<Tx>(s: Slots<Tx>, missing: seq<Tx>, vtx: seq<Tx>) {
    |vtx| == |s| && MergedUpTo(s, missing, vtx, |s|)
  }

  lemma NothingMapped<Tx>(short: seq<nat>, s: Slots<Tx>)
    ensures MappedTo(short, s, map[], 0) && Empty(s[..0]) == 0
  {
  }

  lemma AllMapped<Tx>(short: seq<nat>, s: Slots<Tx>, ids: map<nat, nat>)
    requires MappedTo(short, s, ids, |short|)
    ensures |ids| == |short| <==> Distinct(short, |short|)
  {
  }

  lemma PlacedNone<Tx>(msg: Message<Tx>, s: Slots<Tx>)
    requires s == seq(msg.BlockTxCount(), _ => None)
    ensures Placed(msg, s, 0) && PrefilledAt(msg, -1) == -1
  {
    AllEmpty(s);
  }

  lemma NextPosition<Tx>(msg: Message<Tx>, i: nat)
    requires i < |msg.prefilledtxn|
    ensures PrefilledAt(msg, i) == PrefilledAt(msg, i - 1) + msg.prefilledtxn[i].index + 1
  {
  }

  // ----- From a block to itself

  /** The compact form of a block: the coinbase in full, the rest by short id. */
  method CompactForm<Tx>(env: Env<Tx>, block: seq<Tx>) returns (msg: Message<Tx>)
    requires |block| > 0
    ensures IsCompactForm(env, block, msg)
  {
    var short := [];
    for i := 1 to |block|
      invariant |short| == i - 1
      invariant forall j :: 0 <= j < i - 1 ==> short[j] == env.ShortId(block[j + 1])
    {
      short := short + [env.ShortId(block[i])];
    }
    msg := Message(false, short, [Prefilled(0, block[0])]);
  }

  ghost predicate IsCompactForm<Tx>(env: Env<Tx>, block: seq<Tx>, msg: Message<Tx>) {
    && |block| > 0 && !msg.headerIsNull
    && msg.prefilledtxn == [Prefilled(0, block[0])]
    && |msg.shorttxids| == |block| - 1
    && forall j :: 0 <= j < |block| - 1 ==> msg.shorttxids[j] == env.ShortId(block[j + 1])
  }

  /** No two different transactions among these have the same short id. */
  ghost predicate Injective<Tx(!new)>(env: Env<Tx>, txs: set<Tx>) {
    forall x, y :: x in txs && y in txs && env.ShortId(x) == env.ShortId(y) ==> x == y
  }

  /** In a compact form, the empty slot number j is position j + 1. */
  lemma FreeOfCompactForm<Tx>(env: Env<Tx>, block: seq<Tx>, msg: Message<Tx>, base: Slots<Tx>, p: nat)
    requires IsCompactForm(env, block, msg) && Placed(msg, base, 1) && 0 < p < |base|
    ensures base[0] == Some(block[0]) && IsFree(base, p, p - 1)
  {
    assert PrefilledAt(msg, 0) == 0;
    FirstFull(base[..p]);
  }

  lemma {:induction false} FirstFull<Tx>(s: Slots<Tx>)
    requires |s| > 0 && s[0].Some? && forall p :: 0 < p < |s| ==> s[p].None?
    ensures Empty(s) == |s| - 1
  {
    if |s| > 1 {
      FirstFull(s[..|s| - 1]);
    } else {
      assert s[..0] == [];
    }
  }

  /** Every filled slot holds the block's own transaction. */
  lemma FilledRight<Tx(!new)>(env: Env<Tx>, block: seq<Tx>, msg: Message<Tx>, known: set<Tx>, base: Slots<Tx>,
                              ids: map<nat, nat>, s: Slots<Tx>, have: seq<bool>, count: int, p: nat)
    requires IsCompactForm(env, block, msg) && Initialized(env, known, msg, base, ids, s, have, count)
    requires Injective(env, known + Members(block))
    requires p < |s| && s[p].Some?
    ensures |s| == |block| && s[p].value == block[p]
  {
    hide Empty, Distinct, Position, Env.ShortId, Injective;
    FreeOrFull(env, block, msg, base);
    if p > 0 {
      FreeOfCompactForm(env, block, msg, base, p);
      var id := env.ShortId(s[p].value);
      SlotOf(msg.shorttxids, base, ids, id, p - 1);
      assert block[p] in known + Members(block);
      SameTx(env, known + Members(block), s[p].value, block[p]);
    }
  }

  lemma SameTx<Tx(!new)>(env: Env<Tx>, txs: set<Tx>, x: Tx, y: Tx)
    requires Injective(env, txs) && x in txs && y in txs && env.ShortId(x) == env.ShortId(y)
    ensures x == y
  {
  }

  /** Only the short id number j leads to the empty slot number j. */
  lemma SlotOf<Tx>(short: seq<nat>, base: Slots<Tx>, ids: map<nat, nat>, id: nat, j: nat)
    requires MappedTo(short, base, ids, |short|) && |ids| == |short|
    requires id in ids && IsFree(base, ids[id], j)
    ensures j < |short| && short[j] == id
  {
    hide Empty;
    assert id in short[..|short|];
    var i :| 0 <= i < |short| && short[i] == id;
    assert IsFree(base, ids[short[i]], i);
  }

  lemma FreeOrFull<Tx>(env: Env<Tx>, block: seq<Tx>, msg: Message<Tx>, base: Slots<Tx>)
    requires IsCompactForm(env, block, msg) && Placed(msg, base, 1)
    ensures |base| == |block| && base[0] == Some(block[0])
  {
    assert PrefilledAt(msg, 0) == 0;
  }

  /** The block's transactions for the empty slots, in order. */
  function Needed<Tx>(s: Slots<Tx>, block: seq<Tx>): (r: seq<Tx>)
    requires |s| == |block|
    ensures |r| == Empty(s)
  {
    if s == [] then []
    else Needed(s[..|s| - 1], block[..|s| - 1]) + if s[|s| - 1].None? then [block[|s| - 1]] else []
  }

  lemma {:induction false} NeededAt<Tx>(s: Slots<Tx>, block: seq<Tx>, p: nat)
    requires |s| == |block| && p < |s| && s[p].None?
    ensures Empty(s[..p]) < Empty(s) && Needed(s, block)[Empty(s[..p])] == block[p]
  {
    var n := |s| - 1;
    FreeIncreases(s, p, n + 1);
    assert s[..n + 1] == s;
    if p < n {
      NeededAt(s[..n], block[..n], p);
      assert s[..n][..p] == s[..p];
    }
  }

  /** With every filled slot right, the missing transactions complete the block. */
  lemma Rebuilt<Tx>(s: Slots<Tx>, block: seq<Tx>, vtx: seq<Tx>)
    requires |s| == |block| && Merged(s, Needed(s, block), vtx)
    requires forall p :: 0 <= p < |s| && s[p].Some? ==> s[p].value == block[p]
    ensures vtx == block
  {
    hide Empty, Needed;
    forall p | 0 <= p < |s| ensures vtx[p] == block[p] {
      if s[p].None? {
        NeededAt(s, block, p);
      }
    }
  }

  /** Which transactions lead to slot p of a compact form: those with the short id of the block's own. */
  lemma HitsOwn<Tx>(env: Env<Tx>, block: seq<Tx>, msg: Message<Tx>, base: Slots<Tx>, ids: map<nat, nat>, p: nat, tx: Tx)
    requires IsCompactForm(env, block, msg) && Placed(msg, base, 1) && 0 < p < |block|
    requires MappedTo(msg.shorttxids, base, ids, |msg.shorttxids|) && |ids| == |msg.shorttxids|
    ensures |base| == |block| && base[p].None?
    ensures Hits(env, ids, tx, p) <==> env.ShortId(tx) == env.ShortId(block[p])
  {
    hide Empty, Distinct, Position;
    FreeOrFull(env, block, msg, base);
    FreeOfCompactForm(env, block, msg, base, p);
    var short := msg.shorttxids;
    assert short[p - 1] == env.ShortId(block[p]);
    assert IsFree(base, ids[short[p - 1]], p - 1);
    FreeIsUnique(base, ids[short[p - 1]], p, p - 1);
    if Hits(env, ids, tx, p) {
      SlotOf(short, base, ids, env.ShortId(tx), p - 1);
    }
  }

  /** A transaction of the block that the receiver knows is in its slot, if the pool holds none twice. */
  lemma KnownIsFilled<Tx(!new)>(env: Env<Tx>, block: seq<Tx>, msg: Message<Tx>, pool: seq<Tx>, extra: seq<Tx>,
                                base: Slots<Tx>, ids: map<nat, nat>, mid: Scan<Tx>, s: Slots<Tx>, have: seq<bool>,
                                count: int, p: nat)
    requires IsCompactForm(env, block, msg) && Initialized(env, Members(pool + extra), msg, base, ids, s, have, count)
    requires Scanned(env, base, ids, pool, extra, mid, s, have)
    requires Injective(env, Members(pool + extra) + Members(block))
    requires forall i, j :: 0 <= i < j < |pool| ==> pool[i] != pool[j]
    requires 0 < p < |block| && (block[p] in pool || block[p] in extra)
    ensures p < |s| && s[p].Some?
  {
    assert |msg.prefilledtxn| == 1;
    hide Empty, Distinct, Position, Placed, MappedTo, IsFree, IsCompactForm, Hits, AfterPool, AfterExtra;
    var t := block[p];
    forall tx | tx in pool + extra ensures Hits(env, ids, tx, p) ==> tx == t {
      HitsOwn(env, block, msg, base, ids, p, tx);
      assert tx in Members(pool + extra) && t in Members(block);
    }
    HitsOwn(env, block, msg, base, ids, p, t);
    if mid.extra == |extra| {
      var txs := pool[..mid.pool];
      assert forall i :: 0 <= i < |txs| ==> txs[i] == pool[i] && txs[i] in pool + extra;
      assert extra[..|extra|] == extra && forall i :: 0 <= i < |extra| ==> extra[i] in pool + extra;
      PoolFills(env, ids, txs, p, t);
      var c := Cell(mid.slots[p], mid.have[p]);
      ExtraFills(env, ids, c, extra, p, t);
      if mid.pool == |pool| {
        assert txs == pool;
      }
    }
  }

  /** The indexes of the empty slots, in order. */
  ghost predicate IsMissing<Tx>(s: Slots<Tx>, indexes: seq<int>, n: nat) {
    && n <= |s| && |indexes| == Empty(s[..n])
    && (forall k :: 0 <= k < |indexes| ==> 0 <= indexes[k] < n && s[indexes[k]].None?
                                           && Empty(s[..indexes[k]]) == k)
    && (forall p :: 0 <= p < n && s[p].None? ==> p in indexes)
  }

  lemma MissingNext<Tx>(s: Slots<Tx>, indexes: seq<int>, n: nat)
    requires n < |s| && IsMissing(s, indexes, n)
    ensures IsMissing(s, if s[n].None? then indexes + [n] else indexes, n + 1)
  {
    hide Empty;
    EmptyNext(s, n);
    var more := if s[n].None? then indexes + [n] else indexes;
    forall k | 0 <= k < |more|
      ensures 0 <= more[k] < n + 1 && s[more[k]].None? && Empty(s[..more[k]]) == k
    {
      if k < |indexes| {
        assert more[k] == indexes[k];
      }
    }
    forall p | 0 <= p < n + 1 && s[p].None? ensures p in more {
      if p < n {
        assert p in indexes;
      } else {
        assert more[|indexes|] == p;
      }
    }
  }

  lemma MissingIncrease<Tx>(s: Slots<Tx>, indexes: seq<int>)
    requires IsMissing(s, indexes, |s|)
    ensures Increasing(indexes)
  {
    hide Empty;
    forall i, j | 0 <= i < j < |indexes| ensures indexes[i] < indexes[j] {
      if indexes[i] > indexes[j] {
        FreeIncreases(s, indexes[j], indexes[i]);
      }
    }
  }

  /** The transactions at those indexes are the ones the empty slots need. */
  lemma MissingAreNeeded<Tx>(s: Slots<Tx>, block: seq<Tx>, indexes: seq<int>, txs: seq<Tx>)
    requires |s| == |block| && IsMissing(s, indexes, |s|)
    requires |txs| == |indexes|
    requires forall k :: 0 <= k < |indexes| ==> 0 <= indexes[k] < |block| && txs[k] == block[indexes[k]]
    ensures txs == Needed(s, block)
  {
    hide Empty, Needed;
    assert s[..|s|] == s;
    forall k | 0 <= k < |txs| ensures txs[k] == Needed(s, block)[k] {
      NeededAt(s, block, indexes[k]);
    }
  }

  /** What the receiver asks for: every transaction of the block it does not know, and no other if its pool is a set. */
  ghost predicate AsksRight<Tx(!new)>(block: seq<Tx>, pool: seq<Tx>, extra: seq<Tx>, indexes: seq<int>) {
    && Increasing(indexes) && (forall k :: 0 <= k < |indexes| ==> 0 < indexes[k] < |block|)
    && (forall p :: 0 < p < |block| && block[p] !in pool && block[p] !in extra ==> p in indexes)
    && ((forall i, j :: 0 <= i < j < |pool| ==> pool[i] != pool[j]) ==>
          forall p :: p in indexes ==> block[p] !in pool && block[p] !in extra)
  }

  lemma AskedFor<Tx(!new)>(env: Env<Tx>, block: seq<Tx>, msg: Message<Tx>, pool: seq<Tx>, extra: seq<Tx>,
                           base: Slots<Tx>, ids: map<nat, nat>, mid: Scan<Tx>, s: Slots<Tx>, have: seq<bool>,
                           count: int, indexes: seq<int>)
    requires IsCompactForm(env, block, msg) && Initialized(env, Members(pool + extra), msg, base, ids, s, have, count)
    requires Scanned(env, base, ids, pool, extra, mid, s, have)
    requires Injective(env, Members(pool + extra) + Members(block))
    requires |s| == |block| && IsMissing(s, indexes, |s|)
    ensures AsksRight(block, pool, extra, indexes)
  {
    hide Empty, Scanned, Injective, Distinct, Position;
    MissingIncrease(s, indexes);
    FreeOrFull(env, block, msg, base);
    forall p | 0 < p < |block| && block[p] !in pool && block[p] !in extra ensures s[p].None? {
      if s[p].Some? {
        FilledRight(env, block, msg, Members(pool + extra), base, ids, s, have, count, p);
        FreeOfCompactForm(env, block, msg, base, p);
        assert false;
      }
    }
    if forall i, j :: 0 <= i < j < |pool| ==> pool[i] != pool[j] {
      forall p | p in indexes ensures block[p] !in pool && block[p] !in extra {
        if block[p] in pool || block[p] in extra {
          KnownIsFilled(env, block, msg, pool, extra, base, ids, mid, s, have, count, p);
          assert false;
        }
      }
    }
  }

  /** Which transactions to ask for. */
  method Missing<Tx>(pdb: PartiallyDownloadedBlock<Tx>) returns (indexes: seq<int>)
    ensures IsMissing(pdb.txnAvailable, indexes, |pdb.txnAvailable|)
  {
    indexes := [];
    ghost var s := pdb.txnAvailable;
    NoneEmpty(s);
    for i := 0 to |pdb.txnAvailable|
      invariant IsMissing(s, indexes, i)
    {
      MissingNext(s, indexes, i);
      if !pdb.IsTxAvailable(i) {
        indexes := indexes + [i];
      }
    }
  }

  /** The transactions of a block at given indexes, as its sender answers a request. */
  method Answer<Tx>(block: seq<Tx>, indexes: seq<int>) returns (txs: seq<Tx>)
    requires forall k :: 0 <= k < |indexes| ==> 0 <= indexes[k] < |block|
    ensures |txs| == |indexes| && forall k :: 0 <= k < |indexes| ==> txs[k] == block[indexes[k]]
  {
    txs := [];
    for k := 0 to |indexes|
      invariant |txs| == k && forall i :: 0 <= i < k ==> txs[i] == block[indexes[i]]
    {
      txs := txs + [block[indexes[k]]];
    }
  }

  /**
   The whole exchange.  Whatever the receiver knows, if short ids tell all these transactions
   apart and the block has no transaction twice, the message is accepted, the request asks for
   what the receiver does not know, and the answer to it rebuilds the block.
   */
  method Exchange<Tx(==, !new)>(env: Env<Tx>, block: seq<Tx>, maxTxs: nat, pool: seq<Tx>, extra: seq<Tx>,
                               crowded: nat -> bool)
    returns (status: Status, vtx: seq<Tx>, indexes: seq<int>)
    requires 0 < |block| <= MAX_INDEX && |block| <= maxTxs && !env.isNull(block[0])
    requires Injective(env, Members(pool + extra) + Members(block))
    requires forall i, j :: 0 <= i < j < |block| ==> block[i] != block[j]
    ensures status == Ok ==> vtx == block && AsksRight(block, pool, extra, indexes)
    ensures status == Ok <==> forall i :: 0 <= i < |block| - 1 ==> !crowded(i)
    ensures status == Ok || status == Failed
  {
    hide Empty, Initialized, Scanned, Merged, Position, Needed, Injective, Members, IsMissing, AsksRight;
    vtx, indexes := [], [];
    var msg := CompactForm(env, block);
    FormIsAccepted(env, block, msg, Members(pool + extra), maxTxs);
    var pdb := new PartiallyDownloadedBlock(env);
    ghost var base, ids, have, mid;
    status, base, ids, have, mid := pdb.InitData(msg, maxTxs, pool, extra, crowded);
    if status != Ok {
      return;
    }
    ghost var s := pdb.txnAvailable;
    SlotCount(env, Members(pool + extra), msg, base, ids, s, have, pdb.mempoolCount);
    forall p | 0 <= p < |s| && s[p].Some? ensures s[p].value == block[p] {
      FilledRight(env, block, msg, Members(pool + extra), base, ids, s, have, pdb.mempoolCount, p);
    }
    indexes := Missing(pdb);
    AskedFor(env, block, msg, pool, extra, base, ids, mid, s, have, pdb.mempoolCount, indexes);
    InRange(s, indexes, block);
    MissingIncrease(s, indexes);
    var request := SendIndexes(indexes);
    var txs := Answer(block, request.value);
    MissingAreNeeded(s, block, indexes, txs);
    status, vtx := pdb.FillBlock(txs, Ok);
    Rebuilt(s, block, vtx);
  }

  lemma InRange<Tx>(s: Slots<Tx>, indexes: seq<int>, block: seq<Tx>)
    requires IsMissing(s, indexes, |s|) && |s| == |block| <= MAX_INDEX
    ensures forall k :: 0 <= k < |indexes| ==> 0 <= indexes[k] < |block| && indexes[k] <= MAX_INDEX
  {
  }

  lemma SlotCount<Tx>(env: Env<Tx>, known: set<Tx>, msg: Message<Tx>, base: Slots<Tx>, ids: map<nat, nat>,
                      s: Slots<Tx>, have: seq<bool>, count: int)
    requires Initialized(env, known, msg, base, ids, s, have, count)
    ensures |s| == msg.BlockTxCount()
  {
  }

  lemma FormIsAccepted<Tx(!new)>(env: Env<Tx>, block: seq<Tx>, msg: Message<Tx>, known: set<Tx>, maxTxs: nat)
    requires IsCompactForm(env, block, msg) && |block| <= MAX_INDEX && |block| <= maxTxs && !env.isNull(block[0])
    requires Injective(env, known + Members(block))
    requires forall i, j :: 0 <= i < j < |block| ==> block[i] != block[j]
    ensures WellFormed(env, msg, maxTxs) && Distinct(msg.shorttxids, |msg.shorttxids|)
  {
    assert PrefilledAt(msg, 0) == 0;
    assert PrefilledOk(env, msg, 0);
    forall i, j | 0 <= i < j < |msg.shorttxids| ensures msg.shorttxids[i] != msg.shorttxids[j] {
      assert block[i + 1] in Members(block) && block[j + 1] in Members(block);
    }
  }
}
