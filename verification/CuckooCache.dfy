/**
 The cuckoo cache (src/cuckoocache.h).

 A table with eight candidate slots per element.  Slots whose collection flag is set are
 garbage that may be overwritten; inserting into a full neighbourhood moves elements along
 a chain of evictions and may drop the last one.
 */
module CuckooCache {
  import opened Bits
  import opened Numbers
  import opened Wrappers

  const INVALID: nat := 0xFFFF_FFFF

  // ----- Bit-packed flags

  datatype Flags = Flags(mem: seq<bv8>) {
    predicate IsSet(s: nat)
      requires s < 8 * |mem|
    {
      Bit(mem, s)
    }

    function Set(s: nat): Flags
      requires s < 8 * |mem|
    {
      Flags(SetBit(mem, s))
    }

    function Unset(s: nat): Flags
      requires s < 8 * |mem|
    {
      Flags(UnsetBit(mem, s))
    }
  }

  /** All flags set, as after setup; the number of bytes is computed in 32 bits. */
  function AllSet(size: nat): Flags {
    Flags(seq((size + 7) % WORD / 8, _ => 0xFF))
  }

  /** There is a flag for every slot. */
  predicate Covers(f: Flags, size: nat) {
    size <= 8 * |f.mem|
  }

  /** Rounding up to bytes wraps around for the seven largest sizes, which then get no flags at all. */
  lemma FlagsCoverIff(size: nat)
    requires size < WORD
    ensures Covers(AllSet(size), size) <==> size <= WORD - 8
    ensures !Covers(AllSet(size), size) ==> AllSet(size).mem == []
  {
  }

  lemma NoFlagsAtAll()
    ensures AllSet(0xFFFF_FFF9).mem == [] && !Covers(AllSet(0xFFFF_FFF9), 0xFFFF_FFF9)
  {
    FlagsCoverIff(0xFFFF_FFF9);
  }

  /** What the packed flags say, slot by slot. */
  function Collected(f: Flags, size: nat): seq<bool>
    requires Covers(f, size)
  {
    seq(size, i requires 0 <= i < size => f.IsSet(i))
  }

  lemma AllSetCollected(size: nat)
    requires size <= WORD - 8
    ensures Covers(AllSet(size), size) && Collected(AllSet(size), size) == seq(size, _ => true)
  {
  }

  lemma SetCollected(f: Flags, size: nat, s: nat)
    requires s < size && Covers(f, size)
    ensures Collected(f.Set(s), size) == Collected(f, size)[s := true]
  {
    hide Bit;
    forall i | 0 <= i < size ensures f.Set(s).IsSet(i) == (i == s || f.IsSet(i)) {
      SetBitAt(f.mem, s, i);
    }
  }

  lemma UnsetCollected(f: Flags, size: nat, s: nat)
    requires s < size && Covers(f, size)
    ensures Collected(f.Unset(s), size) == Collected(f, size)[s := false]
  {
    hide Bit;
    forall i | 0 <= i < size ensures f.Unset(s).IsSet(i) == (i != s && f.IsSet(i)) {
      UnsetBitAt(f.mem, s, i);
    }
  }

  // ----- Slots

  /** The slot of a 32-bit hash: its share of the table. */
  function Slot(hash: nat, size: nat): nat {
    (hash % WORD) * size / WORD
  }

  lemma SlotInRange(hash: nat, size: nat)
    requires size > 0
    ensures Slot(hash, size) < size
  {
    ScaleInRange(hash % WORD, size);
  }

  predicate GoesTo(hash: nat, size: nat, slot: nat) {
    hash < WORD && Slot(hash, size) == slot
  }

  /** The slots share the 2^32 hashes evenly: to each goes an interval of 2^32 / size of them, or one more. */
  lemma SlotFair(size: nat, slot: nat) returns (lo: nat, hi: nat)
    requires 0 < size <= WORD && slot < size
    ensures forall h: nat :: GoesTo(h, size, slot) <==> lo <= h < hi
    ensures 1 <= WORD / size <= hi - lo <= WORD / size + 1
  {
    hide IsScaledTo;
    lo, hi := ScaledFairly(WORD, size, slot);
    forall h: nat ensures GoesTo(h, size, slot) <==> IsScaledTo(WORD, h, size, slot) {
      ScaledIs(WORD, h, size, slot);
    }
  }

  function Locs<E>(hash: (nat, E) -> nat, e: E, size: nat): (locs: seq<nat>)
    requires size > 0
    ensures |locs| == 8 && forall k :: 0 <= k < 8 ==> locs[k] < size
  {
    SlotInRange(hash(0, e), size);
    SlotInRange(hash(1, e), size);
    SlotInRange(hash(2, e), size);
    SlotInRange(hash(3, e), size);
    SlotInRange(hash(4, e), size);
    SlotInRange(hash(5, e), size);
    SlotInRange(hash(6, e), size);
    SlotInRange(hash(7, e), size);
    [Slot(hash(0, e), size), Slot(hash(1, e), size), Slot(hash(2, e), size), Slot(hash(3, e), size),
     Slot(hash(4, e), size), Slot(hash(5, e), size), Slot(hash(6, e), size), Slot(hash(7, e), size)]
  }

  /** Each of the eight hash functions gives one slot. */
  lemma LocsAre<E>(hash: (nat, E) -> nat, e: E, size: nat)
    requires size > 0
    ensures forall k :: 0 <= k < 8 ==> Locs(hash, e, size)[k] == Slot(hash(k, e), size)
  {
    hide Slot;
    var locs := Locs(hash, e, size);
    assert locs[0] == Slot(hash(0, e), size) && locs[1] == Slot(hash(1, e), size);
    assert locs[2] == Slot(hash(2, e), size) && locs[3] == Slot(hash(3, e), size);
    assert locs[4] == Slot(hash(4, e), size) && locs[5] == Slot(hash(5, e), size);
    assert locs[6] == Slot(hash(6, e), size) && locs[7] == Slot(hash(7, e), size);
  }

  /** Every slot that is not garbage holds an element that hashes to it. */
  predicate Placed<E>(hash: (nat, E) -> nat, table: seq<E>, collected: seq<bool>)
    requires |table| == |collected| && |table| > 0
  {
    forall i :: 0 <= i < |table| && !collected[i] ==> i in Locs(hash, table[i], |table|)
  }

  /** The elements in slots that are not garbage. */
  function Live<E(==)>(table: seq<E>, collected: seq<bool>): set<E>
    requires |table| == |collected|
  {
    set i | 0 <= i < |table| && !collected[i] :: table[i]
  }

  lemma LiveSwap<E>(table: seq<E>, collected: seq<bool>, i: nat, e: E)
    requires |table| == |collected| && i < |table| && !collected[i]
    ensures Live(table[i := e], collected) + {table[i]} == Live(table, collected) + {e}
  {
    var t := table[i := e];
    forall x | x in Live(t, collected) ensures x in Live(table, collected) + {e} {
      var j :| 0 <= j < |t| && !collected[j] && t[j] == x;
      assert j != i ==> table[j] == x;
    }
    forall x | x in Live(table, collected) ensures x in Live(t, collected) + {table[i]} {
      var j :| 0 <= j < |t| && !collected[j] && table[j] == x;
      assert j != i ==> t[j] == x;
    }
    assert t[i] == e;
  }

  lemma LivePut<E>(table: seq<E>, collected: seq<bool>, i: nat, e: E)
    requires |table| == |collected| && i < |table| && (collected[i] || table[i] == e)
    ensures Live(table[i := e], collected[i := false]) == Live(table, collected) + {e}
  {
    var t, c := table[i := e], collected[i := false];
    forall x | x in Live(t, c) ensures x in Live(table, collected) + {e} {
      var j :| 0 <= j < |t| && !c[j] && t[j] == x;
      assert j != i ==> table[j] == x && !collected[j];
    }
    forall x | x in Live(table, collected) ensures x in Live(t, c) {
      var j :| 0 <= j < |t| && !collected[j] && table[j] == x;
      assert t[j] == x && !c[j];
    }
    assert t[i] == e && !c[i];
  }

  /** Collecting slots loses only what sat in them. */
  lemma LiveFewer<E>(table: seq<E>, collected: seq<bool>, collected': seq<bool>)
    requires |table| == |collected| == |collected'|
    requires forall i :: 0 <= i < |table| && collected[i] ==> collected'[i]
    ensures Live(table, collected') <= Live(table, collected)
  {
  }

  // ----- Epochs

  /** The live slots of the current epoch. */
  function Current(epoch: seq<bool>, collected: seq<bool>): set<int>
    requires |epoch| == |collected|
  {
    set i | 0 <= i < |epoch| && epoch[i] && !collected[i]
  }

  /** The elements in slots of the current epoch that are not garbage. */
  function Recent<E(==)>(table: seq<E>, epoch: seq<bool>, collected: seq<bool>): set<E>
    requires |table| == |epoch| == |collected|
  {
    set i | 0 <= i < |table| && epoch[i] && !collected[i] :: table[i]
  }

  /** An element marked as current joins the recent ones, and the one it replaces leaves, unless it is elsewhere too. */
  lemma RecentUpdate<E>(table: seq<E>, epoch: seq<bool>, collected: seq<bool>, i: nat, e: E, v: bool)
    requires |table| == |epoch| == |collected| && i < |table|
    ensures Recent(table[i := e], epoch[i := v], collected[i := false]) +
              (if epoch[i] && !collected[i] then {table[i]} else {}) ==
            Recent(table, epoch, collected) + (if v then {e} else {})
    ensures v ==> e in Recent(table[i := e], epoch[i := v], collected[i := false])
  {
    var t, m, c := table[i := e], epoch[i := v], collected[i := false];
    forall x | x in Recent(t, m, c) ensures x in Recent(table, epoch, collected) + (if v then {e} else {}) {
      var j :| 0 <= j < |t| && m[j] && !c[j] && t[j] == x;
      assert j != i ==> table[j] == x && epoch[j] && !collected[j];
    }
    forall x | x in Recent(table, epoch, collected)
      ensures x in Recent(t, m, c) + (if epoch[i] && !collected[i] then {table[i]} else {})
    {
      var j :| 0 <= j < |t| && epoch[j] && !collected[j] && table[j] == x;
      assert j != i ==> t[j] == x && m[j] && !c[j];
    }
    assert t[i] == e && m[i] == v && !c[i];
  }

  lemma CurrentUpdate(epoch: seq<bool>, collected: seq<bool>, i: nat, v: bool, c: bool)
    requires |epoch| == |collected| && i < |epoch|
    ensures |Current(epoch[i := v], collected[i := c])| ==
      |Current(epoch, collected)| - (if epoch[i] && !collected[i] then 1 else 0) + if v && !c then 1 else 0
  {
    var a, b := Current(epoch, collected), Current(epoch[i := v], collected[i := c]);
    forall x ensures x != i ==> (x in a <==> x in b) {
    }
    assert (i in a <==> epoch[i] && !collected[i]) && (i in b <==> v && !c);
    hide Current;
    SameAside(a, b, i);
  }

  lemma SameAside(a: set<int>, b: set<int>, i: int)
    requires forall x :: x != i ==> (x in a <==> x in b)
    ensures |a| - (if i in a then 1 else 0) == |b| - if i in b then 1 else 0
  {
    forall x ensures x in a - {i} <==> x in b - {i} {
    }
    assert a - {i} == b - {i};
    assert i in a ==> |a| == |a - {i}| + 1;
    assert i in b ==> |b| == |b - {i}| + 1;
    assert i !in a ==> a - {i} == a;
    assert i !in b ==> b - {i} == b;
  }

  lemma CurrentPrefix(epoch: seq<bool>, collected: seq<bool>, i: nat)
    requires |epoch| == |collected| && i < |epoch|
    ensures |Current(epoch[..i + 1], collected[..i + 1])| ==
      |Current(epoch[..i], collected[..i])| + if epoch[i] && !collected[i] then 1 else 0
  {
    var a, b := Current(epoch[..i], collected[..i]), Current(epoch[..i + 1], collected[..i + 1]);
    if epoch[i] && !collected[i] {
      assert b == a + {i};
    } else {
      assert b == a;
    }
  }

  function EpochSlack(epochSize: nat): nat {
    if epochSize / 16 > 1 then epochSize / 16 else 1
  }

  /**
   The counter runs down by one per insert.  At zero it is set to a whole epoch if that many elements
   are of the current one, which ends then, or else to what is missing, or to a sixteenth or one if that is more.
   */
  predicate Ticks(counter: nat, current: nat, counter': nat, epochSize: nat) {
    && (counter > 0 ==> counter' == counter - 1)
    && (counter == 0 && current >= epochSize ==> counter' == epochSize)
    && (counter == 0 && current < epochSize ==>
          && counter' >= 1 && counter' >= epochSize / 16 && counter' >= epochSize - current
          && (counter' == 1 || counter' == epochSize / 16 || counter' == epochSize - current))
  }

  function Max(a: int, b: int): int {
    if a < b then b else a
  }

  /** Every slot that changed is in use now. */
  predicate Rewritten<E(==)>(before: seq<E>, after: seq<E>, collected: seq<bool>) {
    && |before| == |after| == |collected|
    && forall i :: 0 <= i < |after| && after[i] != before[i] ==> !collected[i]
  }

  lemma RewrittenSelf<E>(table: seq<E>, collected: seq<bool>)
    requires |table| == |collected|
    ensures Rewritten(table, table, collected)
  {
  }

  /** One of the slots of e holds it already or may be overwritten. */
  ghost predicate Fits<E>(hash: (nat, E) -> nat, table: seq<E>, collected: seq<bool>, e: E)
    requires |table| == |collected| && |table| > 0
  {
    exists k :: 0 <= k < 8 && (table[Locs(hash, e, |table|)[k]] == e || collected[Locs(hash, e, |table|)[k]])
  }

  /** More garbage leaves no less room. */
  lemma FitsAfter<E>(hash: (nat, E) -> nat, table: seq<E>, collected: seq<bool>, collected': seq<bool>, e: E)
    requires |table| == |collected| == |collected'| > 0
    requires forall i :: 0 <= i < |collected| && collected[i] ==> collected'[i]
    ensures Fits(hash, table, collected, e) ==> Fits(hash, table, collected', e)
  {
    hide Locs;
  }

  /** Number k is the first of the slots of e that holds it. */
  ghost predicate FirstHolding<E>(hash: (nat, E) -> nat, table: seq<E>, e: E, k: nat)
    requires |table| > 0
  {
    var locs := Locs(hash, e, |table|);
    k < 8 && table[locs[k]] == e && forall j :: 0 <= j < k ==> table[locs[j]] != e
  }

  // ----- Chains of evictions

  /** The table, the garbage and the slots of the current epoch. */
  datatype Content<E> = Content(table: seq<E>, garbage: seq<bool>, epoch: seq<bool>)

  predicate ContentOk<E>(c: Content<E>, size: nat) {
    |c.table| == |c.garbage| == |c.epoch| == size
  }

  /** A new epoch: what was not of the current one is garbage, and nothing is of the new one yet. */
  ghost predicate Aged<E>(c: Content<E>, c': Content<E>) {
    && c'.table == c.table && |c'.garbage| == |c.garbage| == |c.epoch| && c'.epoch == seq(|c.epoch|, _ => false)
    && forall i :: 0 <= i < |c.garbage| ==> (c'.garbage[i] <==> c.garbage[i] || !c.epoch[i])
  }

  /** The elements that change places, their epoch marks, and the slots they take one after the other. */
  datatype Chain<E> = Chain(moved: seq<E>, marks: seq<bool>, path: seq<nat>)

  /** s once moved[0], .., moved[n - 1] have been put into path[0], .., path[n - 1]. */
  function Shifted<T>(s: seq<T>, moved: seq<T>, path: seq<nat>, n: nat): (r: seq<T>)
    requires n <= |moved| && n <= |path| && forall i :: 0 <= i < n ==> path[i] < |s|
    ensures |r| == |s|
  {
    if n == 0 then s else Shifted(s, moved, path, n - 1)[path[n - 1] := moved[n - 1]]
  }

  /** What is put into slot i of the path pushes out what goes into the next one. */
  ghost predicate PushedAt<T>(s: seq<T>, moved: seq<T>, path: seq<nat>, i: nat)
    requires i < |path| && PathOk(s, moved, path)
  {
    moved[i + 1] == Shifted(s, moved, path, i)[path[i]]
  }

  predicate PathOk<T>(s: seq<T>, moved: seq<T>, path: seq<nat>) {
    |moved| == |path| + 1 && forall i :: 0 <= i < |path| ==> path[i] < |s|
  }

  ghost predicate PushesOn<T>(s: seq<T>, moved: seq<T>, path: seq<nat>) {
    PathOk(s, moved, path) && forall i :: 0 <= i < |path| ==> PushedAt(s, moved, path, i)
  }

  /** loc is the slot after the one an element was pushed out of, or the second when it was pushed out of none. */
  predicate IsNext(locs: seq<nat>, last: nat, loc: nat)
    requires |locs| == 8
  {
    && loc in locs && (last !in locs ==> loc == locs[1])
    && forall k :: 0 <= k < 8 && locs[k] == last && last !in locs[..k] ==> loc == locs[(k + 1) % 8]
  }

  /** The element pushed out of slot `last` finds no open slot, and loc is the next one. */
  ghost predicate GoesOn<E>(hash: (nat, E) -> nat, garbage: seq<bool>, e: E, last: nat, loc: nat)
    requires |garbage| > 0
  {
    var locs := Locs(hash, e, |garbage|);
    IsNext(locs, last, loc) && forall k :: 0 <= k < 8 ==> !garbage[locs[k]]
  }

  function LastOf(path: seq<nat>, i: nat): nat
    requires i <= |path|
  {
    if i == 0 then INVALID else path[i - 1]
  }

  /** Every element of the chain but the last found no open slot and took its next one. */
  ghost predicate NoneOpen<E>(hash: (nat, E) -> nat, garbage: seq<bool>, ch: Chain<E>)
    requires |garbage| > 0 && |ch.moved| == |ch.path| + 1
  {
    forall i :: 0 <= i < |ch.path| ==> GoesOn(hash, garbage, ch.moved[i], LastOf(ch.path, i), ch.path[i])
  }

  ghost predicate IsChain<E>(hash: (nat, E) -> nat, c: Content<E>, e: E, ch: Chain<E>) {
    && |c.table| == |c.garbage| == |c.epoch| > 0
    && PushesOn(c.table, ch.moved, ch.path) && PushesOn(c.epoch, ch.marks, ch.path) && NoneOpen(hash, c.garbage, ch)
    && ch.moved[0] == e && ch.marks[0]
  }

  /** What the table and the epoch marks are after the chain. */
  ghost predicate Moved<E>(c: Content<E>, ch: Chain<E>, table: seq<E>, epoch: seq<bool>) {
    && |ch.moved| == |ch.marks| == |ch.path| + 1
    && (forall i :: 0 <= i < |ch.path| ==> ch.path[i] < |c.table| == |c.epoch|)
    && table == Shifted(c.table, ch.moved, ch.path, |ch.path|)
    && epoch == Shifted(c.epoch, ch.marks, ch.path, |ch.path|)
  }

  /** Number k is the first of the slots of e that is open. */
  ghost predicate FirstOpen<E>(hash: (nat, E) -> nat, garbage: seq<bool>, e: E, k: nat)
    requires |garbage| > 0
  {
    var locs := Locs(hash, e, |garbage|);
    k < 8 && garbage[locs[k]] && forall j :: 0 <= j < k ==> !garbage[locs[j]]
  }

  /**
   Inserting an element that is not in the table: either the chain ends with an element that has an
   open slot and takes the first one, or it has reached its limit and its last element is dropped.
   */
  ghost predicate Displaced<E>(hash: (nat, E) -> nat, limit: nat, c: Content<E>, e: E, ch: Chain<E>, c': Content<E>) {
    && IsChain(hash, c, e, ch) && |ch.path| <= limit
    && if |ch.path| == limit then Moved(c, ch, c'.table, c'.epoch) && c'.garbage == c.garbage
       else exists k: nat :: FilledAt(hash, c, ch, k, c')
  }

  /** What a chain that reached its limit drops. */
  ghost function Dropped<E>(ch: Chain<E>, limit: nat): set<E> {
    if |ch.path| == limit && |ch.moved| > limit then {ch.moved[limit]} else {}
  }

  ghost predicate FilledAt<E>(hash: (nat, E) -> nat, c: Content<E>, ch: Chain<E>, k: nat, c': Content<E>)
    requires |ch.moved| > 0 && IsChain(hash, c, ch.moved[0], ch)
  {
    var n := |ch.path|;
    && FirstOpen(hash, c.garbage, ch.moved[n], k)
    && var loc := Locs(hash, ch.moved[n], |c.garbage|)[k];
    && c'.table == Shifted(c.table, ch.moved, ch.path, n)[loc := ch.moved[n]]
    && c'.epoch == Shifted(c.epoch, ch.marks, ch.path, n)[loc := ch.marks[n]]
    && c'.garbage == c.garbage[loc := false]
  }

  lemma GoOn<E>(hash: (nat, E) -> nat, garbage: seq<bool>, e: E, last: nat, loc: nat)
    requires |garbage| > 0
    requires var locs := Locs(hash, e, |garbage|);
      IsNext(locs, last, loc) && forall k :: 0 <= k < 8 ==> !garbage[locs[k]]
    ensures GoesOn(hash, garbage, e, last, loc)
  {
  }

  lemma FirstIsOpen<E>(hash: (nat, E) -> nat, c: Content<E>, e: E, ch: Chain<E>, table: seq<E>, epoch: seq<bool>,
                       open: nat)
    requires IsChain(hash, c, e, ch) && Moved(c, ch, table, epoch) && open < |table| == |epoch| == |c.garbage|
    requires var locs := Locs(hash, ch.moved[|ch.path|], |c.garbage|);
      exists k :: && 0 <= k < |locs| && open == locs[k] && c.garbage[open]
                  && forall j :: 0 <= j < k ==> !c.garbage[locs[j]]
    ensures var n := |ch.path|;
      var c' := Content(table[open := ch.moved[n]], c.garbage[open := false], epoch[open := ch.marks[n]]);
      exists k: nat :: FilledAt(hash, c, ch, k, c')
  {
    hide Locs, Shifted;
    var n := |ch.path|;
    var locs := Locs(hash, ch.moved[n], |c.garbage|);
    var k :| 0 <= k < |locs| && open == locs[k] && c.garbage[open] && forall j :: 0 <= j < k ==> !c.garbage[locs[j]];
    var c' := Content(table[open := ch.moved[n]], c.garbage[open := false], epoch[open := ch.marks[n]]);
    assert FilledAt(hash, c, ch, k, c');
  }

  /** An insert after the epoch check: the first slot holding the element is marked, or a chain starts with it. */
  ghost predicate InsertedAs<E>(hash: (nat, E) -> nat, limit: nat, c: Content<E>, e: E, chain: Option<Chain<E>>,
                                lost: set<E>, c': Content<E>)
    requires |c.table| == |c.garbage| == |c.epoch| > 0
  {
    match chain
    case Some(ch) =>
      && (forall k: nat :: !FirstHolding(hash, c.table, e, k))
      && Displaced(hash, limit, c, e, ch, c') && lost == Dropped(ch, limit)
    case None => lost == {} && exists k: nat :: MarkedAt(hash, c, e, k, c')
  }

  ghost predicate MarkedAt<E>(hash: (nat, E) -> nat, c: Content<E>, e: E, k: nat, c': Content<E>)
    requires |c.table| == |c.garbage| == |c.epoch| > 0
  {
    && FirstHolding(hash, c.table, e, k)
    && var loc := Locs(hash, e, |c.table|)[k];
    c' == c.(garbage := c.garbage[loc := false], epoch := c.epoch[loc := true])
  }

  /** The table holds nothing that was never inserted. */
  predicate Known<E(==)>(table: seq<E>, known: set<E>, blank: E) {
    forall i :: 0 <= i < |table| ==> table[i] in known || table[i] == blank
  }

  /** Live elements are where they belong. */
  ghost predicate Sane<E>(hash: (nat, E) -> nat, c: Content<E>, known: set<E>, blank: E) {
    |c.table| == |c.garbage| == |c.epoch| > 0 && Placed(hash, c.table, c.garbage) && Known(c.table, known, blank)
  }

  function RecentIn<E(==)>(c: Content<E>): set<E>
    requires |c.table| == |c.garbage| == |c.epoch|
  {
    Recent(c.table, c.epoch, c.garbage)
  }

  function CurrentIn<E>(c: Content<E>): nat
    requires |c.garbage| == |c.epoch|
  {
    |Current(c.epoch, c.garbage)|
  }

  /** The elements afterwards are those before and e, but for the lost one, and the same goes for the recent ones. */
  ghost predicate Settled<E>(hash: (nat, E) -> nat, c: Content<E>, e: E, known: set<E>, blank: E, lost: set<E>,
                             c': Content<E>)
  {
    && |c.table| == |c.garbage| == |c.epoch| == |c'.table| && Sane(hash, c', known, blank)
    && |lost| <= 1 && Live(c'.table, c'.garbage) + lost == Live(c.table, c.garbage) + {e}
    && RecentIn(c') <= RecentIn(c) + {e} <= RecentIn(c') + lost && CurrentIn(c') <= CurrentIn(c) + 1
    && Rewritten(c.table, c'.table, c'.garbage)
  }

  /** In the middle of a chain: the same with x, which is pushed out with its mark, as the only one missing. */
  ghost predicate Midway<E>(hash: (nat, E) -> nat, c: Content<E>, e: E, known: set<E>, blank: E, c': Content<E>,
                            x: E, mark: bool)
  {
    && |c.table| == |c.garbage| == |c.epoch| == |c'.table| && Sane(hash, c', known, blank)
    && (x in known || x == blank)
    && Live(c'.table, c'.garbage) + {x} == Live(c.table, c.garbage) + {e}
    && RecentIn(c') + (if mark then {x} else {}) == RecentIn(c) + {e}
    && CurrentIn(c') + (if mark then 1 else 0) == CurrentIn(c) + 1
    && Rewritten(c.table, c'.table, c'.garbage)
  }

  lemma PlacedUpdate<E>(hash: (nat, E) -> nat, table: seq<E>, garbage: seq<bool>, loc: nat, x: E)
    requires |table| == |garbage| > 0 && Placed(hash, table, garbage) && loc in Locs(hash, x, |table|)
    ensures Placed(hash, table[loc := x], garbage[loc := false])
  {
  }

  lemma MidwayStarts<E>(hash: (nat, E) -> nat, c: Content<E>, e: E, known: set<E>, blank: E)
    requires Sane(hash, c, known, blank) && e in known
    ensures Midway(hash, c, e, known, blank, c, e, true)
  {
    hide Placed, Live, Recent, Current;
  }

  lemma MidwayNext<E>(hash: (nat, E) -> nat, c: Content<E>, e: E, known: set<E>, blank: E, c1: Content<E>, x: E,
                      mark: bool, loc: nat)
    requires Midway(hash, c, e, known, blank, c1, x, mark) && loc in Locs(hash, x, |c1.table|) && !c1.garbage[loc]
    ensures var c2 := Content(c1.table[loc := x], c1.garbage, c1.epoch[loc := mark]);
      Midway(hash, c, e, known, blank, c2, c1.table[loc], c1.epoch[loc])
  {
    hide Placed, Live, Recent, Current, Locs;
    assert c1.garbage[loc := false] == c1.garbage;
    PlacedUpdate(hash, c1.table, c1.garbage, loc, x);
    LiveSwap(c1.table, c1.garbage, loc, x);
    RecentUpdate(c1.table, c1.epoch, c1.garbage, loc, x, mark);
    CurrentUpdate(c1.epoch, c1.garbage, loc, mark, false);
  }

  lemma MidwayEnds<E>(hash: (nat, E) -> nat, c: Content<E>, e: E, known: set<E>, blank: E, c1: Content<E>, x: E,
                      mark: bool, loc: nat)
    requires Midway(hash, c, e, known, blank, c1, x, mark) && loc in Locs(hash, x, |c1.table|) && c1.garbage[loc]
    ensures var c2 := Content(c1.table[loc := x], c1.garbage[loc := false], c1.epoch[loc := mark]);
      Settled(hash, c, e, known, blank, {}, c2)
  {
    hide Placed, Live, Recent, Current, Locs;
    PlacedUpdate(hash, c1.table, c1.garbage, loc, x);
    LivePut(c1.table, c1.garbage, loc, x);
    RecentUpdate(c1.table, c1.epoch, c1.garbage, loc, x, mark);
    CurrentUpdate(c1.epoch, c1.garbage, loc, mark, false);
  }

  lemma MidwayDrops<E>(hash: (nat, E) -> nat, c: Content<E>, e: E, known: set<E>, blank: E, c1: Content<E>, x: E,
                       mark: bool)
    requires Midway(hash, c, e, known, blank, c1, x, mark)
    ensures Settled(hash, c, e, known, blank, {x}, c1)
  {
    hide Sane, Live, Recent, Current;
  }

  /** Marking an element that is there already. */
  lemma Remarked<E>(hash: (nat, E) -> nat, c: Content<E>, e: E, known: set<E>, blank: E, loc: nat)
    requires Sane(hash, c, known, blank) && loc in Locs(hash, e, |c.table|) && c.table[loc] == e && e in known
    ensures var c' := Content(c.table, c.garbage[loc := false], c.epoch[loc := true]);
      Settled(hash, c, e, known, blank, {}, c')
  {
    hide Placed, Live, Recent, Current, Locs;
    assert c.table[loc := e] == c.table;
    PlacedUpdate(hash, c.table, c.garbage, loc, e);
    LivePut(c.table, c.garbage, loc, e);
    RecentUpdate(c.table, c.epoch, c.garbage, loc, e, true);
    CurrentUpdate(c.epoch, c.garbage, loc, true, false);
    RewrittenSelf(c.table, c.garbage[loc := false]);
  }

  /** The content when the first n elements of a chain have found their places. */
  function After<E>(c: Content<E>, ch: Chain<E>, n: nat): Content<E>
    requires n <= |ch.path| && PathOk(c.table, ch.moved, ch.path) && PathOk(c.epoch, ch.marks, ch.path)
  {
    Content(Shifted(c.table, ch.moved, ch.path, n), c.garbage, Shifted(c.epoch, ch.marks, ch.path, n))
  }

  lemma AfterNext<E>(hash: (nat, E) -> nat, c: Content<E>, e: E, ch: Chain<E>, n: nat)
    requires IsChain(hash, c, e, ch) && n < |ch.path|
    ensures var c1, loc := After(c, ch, n), ch.path[n];
      && After(c, ch, n + 1) == Content(c1.table[loc := ch.moved[n]], c1.garbage, c1.epoch[loc := ch.marks[n]])
      && ch.moved[n + 1] == c1.table[loc] && ch.marks[n + 1] == c1.epoch[loc]
      && loc in Locs(hash, ch.moved[n], |c.garbage|) && !c.garbage[loc]
  {
    hide Locs, Shifted;
    ShiftedNext(c.table, ch.moved, ch.path, n);
    ShiftedNext(c.epoch, ch.marks, ch.path, n);
    assert PushedAt(c.table, ch.moved, ch.path, n) && PushedAt(c.epoch, ch.marks, ch.path, n);
    assert GoesOn(hash, c.garbage, ch.moved[n], LastOf(ch.path, n), ch.path[n]);
  }

  /** A chain keeps every live element in one of its own slots, but for the one pushed out last. */
  lemma {:induction false} ChainKeeps<E>(hash: (nat, E) -> nat, c: Content<E>, e: E, known: set<E>, blank: E,
                                         ch: Chain<E>, n: nat)
    requires Sane(hash, c, known, blank) && e in known && IsChain(hash, c, e, ch) && n <= |ch.path|
    ensures Midway(hash, c, e, known, blank, After(c, ch, n), ch.moved[n], ch.marks[n])
  {
    hide Midway, Sane, GoesOn, PushedAt, Locs;
    if n == 0 {
      MidwayStarts(hash, c, e, known, blank);
    } else {
      ChainKeeps(hash, c, e, known, blank, ch, n - 1);
      AfterNext(hash, c, e, ch, n - 1);
      MidwayNext(hash, c, e, known, blank, After(c, ch, n - 1), ch.moved[n - 1], ch.marks[n - 1], ch.path[n - 1]);
    }
  }

  /** So does the whole insertion of an element that is not in the table. */
  lemma DisplacedSettles<E>(hash: (nat, E) -> nat, limit: nat, c: Content<E>, e: E, known: set<E>, blank: E,
                            ch: Chain<E>, c': Content<E>)
    requires Sane(hash, c, known, blank) && e in known && Displaced(hash, limit, c, e, ch, c')
    ensures Settled(hash, c, e, known, blank, Dropped(ch, limit), c')
    ensures limit > 0 && (exists k :: 0 <= k < 8 && c.garbage[Locs(hash, e, |c.garbage|)[k]]) ==>
              Dropped(ch, limit) == {}
  {
    hide Midway, Sane, PushedAt, Locs, Settled;
    var n := |ch.path|;
    ChainKeeps(hash, c, e, known, blank, ch, n);
    var c1 := After(c, ch, n);
    if n == limit {
      MidwayDrops(hash, c, e, known, blank, c1, ch.moved[n], ch.marks[n]);
      assert c' == c1;
      assert n > 0 ==> GoesOn(hash, c.garbage, ch.moved[0], LastOf(ch.path, 0), ch.path[0]);
    } else {
      var k: nat :| FilledAt(hash, c, ch, k, c');
      var loc := Locs(hash, ch.moved[n], |c.garbage|)[k];
      MidwayEnds(hash, c, e, known, blank, c1, ch.moved[n], ch.marks[n], loc);
      assert c' == Content(c1.table[loc := ch.moved[n]], c1.garbage[loc := false], c1.epoch[loc := ch.marks[n]]);
    }
  }

  /** Everything an insert does after the epoch check. */
  ghost predicate PutOk<E>(hash: (nat, E) -> nat, limit: nat, c: Content<E>, e: E, known: set<E>, blank: E,
                           chain: Option<Chain<E>>, lost: set<E>, c': Content<E>)
  {
    && Settled(hash, c, e, known, blank, lost, c') && |c.table| > 0
    && (Fits(hash, c.table, c.garbage, e) ==> lost == {})
    && InsertedAs(hash, limit, c, e, chain, lost, c')
  }

  lemma PutHeld<E>(hash: (nat, E) -> nat, limit: nat, c: Content<E>, e: E, known: set<E>, blank: E, loc: nat)
    requires Sane(hash, c, known, blank) && loc < |c.table| == |c.garbage| == |c.epoch| && e in known
    requires exists k: nat :: FirstHolding(hash, c.table, e, k) && loc == Locs(hash, e, |c.table|)[k]
    ensures var c' := Content(c.table, c.garbage[loc := false], c.epoch[loc := true]);
      PutOk(hash, limit, c, e, known, blank, None, {}, c')
  {
    hide Locs, Sane, Settled, MarkedAt, Fits;
    MarkHeld(hash, c, e, loc);
    Remarked(hash, c, e, known, blank, loc);
  }

  lemma PutDisplaced<E>(hash: (nat, E) -> nat, limit: nat, c: Content<E>, e: E, known: set<E>, blank: E,
                        ch: Chain<E>, c': Content<E>)
    requires Sane(hash, c, known, blank) && |c.table| == |c.garbage| == |c.epoch| > 0 && e in known && limit > 0
    requires forall k: nat :: !FirstHolding(hash, c.table, e, k)
    requires Displaced(hash, limit, c, e, ch, c')
    ensures PutOk(hash, limit, c, e, known, blank, Some(ch), Dropped(ch, limit), c')
  {
    hide Locs, Sane, Settled, FirstHolding, Displaced, Fits, Dropped;
    DisplacedSettles(hash, limit, c, e, known, blank, ch, c');
    OpenFits(hash, c, e);
  }

  lemma PutParts<E>(hash: (nat, E) -> nat, limit: nat, c: Content<E>, e: E, known: set<E>, blank: E,
                    chain: Option<Chain<E>>, lost: set<E>, c': Content<E>)
    requires PutOk(hash, limit, c, e, known, blank, chain, lost, c')
    ensures Settled(hash, c, e, known, blank, lost, c') && Sane(hash, c', known, blank) && |c.table| > 0
    ensures Fits(hash, c.table, c.garbage, e) ==> lost == {}
    ensures InsertedAs(hash, limit, c, e, chain, lost, c')
  {
    hide Fits, InsertedAs;
  }

  /** An element that fits and is nowhere to be found has an open slot. */
  lemma OpenFits<E>(hash: (nat, E) -> nat, c: Content<E>, e: E)
    requires |c.table| == |c.garbage| > 0
    ensures Fits(hash, c.table, c.garbage, e) && (forall k: nat :: !FirstHolding(hash, c.table, e, k)) ==>
              exists k :: 0 <= k < 8 && c.garbage[Locs(hash, e, |c.table|)[k]]
  {
    hide Locs;
    if Fits(hash, c.table, c.garbage, e) && forall k: nat :: !FirstHolding(hash, c.table, e, k) {
      var locs := Locs(hash, e, |c.table|);
      NotHeld(hash, c.table, e, 8);
    }
  }

  lemma {:induction false} NotHeld<E>(hash: (nat, E) -> nat, table: seq<E>, e: E, n: nat)
    requires |table| > 0 && n <= 8 && forall k: nat :: !FirstHolding(hash, table, e, k)
    ensures forall j :: 0 <= j < n ==> table[Locs(hash, e, |table|)[j]] != e
  {
    hide Locs;
    if n > 0 {
      NotHeld(hash, table, e, n - 1);
      assert !FirstHolding(hash, table, e, n - 1);
    }
  }

  lemma MarkHeld<E>(hash: (nat, E) -> nat, c: Content<E>, e: E, loc: nat)
    requires |c.table| == |c.garbage| == |c.epoch| > loc
    requires exists k: nat :: FirstHolding(hash, c.table, e, k) && loc == Locs(hash, e, |c.table|)[k]
    ensures var c' := Content(c.table, c.garbage[loc := false], c.epoch[loc := true]);
      exists k: nat :: MarkedAt(hash, c, e, k, c')
  {
    hide Locs;
    var k: nat :| FirstHolding(hash, c.table, e, k) && loc == Locs(hash, e, |c.table|)[k];
    assert MarkedAt(hash, c, e, k, Content(c.table, c.garbage[loc := false], c.epoch[loc := true]));
  }

  /** Extending a chain changes nothing about what it did so far. */
  lemma {:induction false} ShiftedPrefix<T>(s: seq<T>, moved: seq<T>, path: seq<nat>, x: T, loc: nat, n: nat)
    requires n <= |moved| && n <= |path| && forall i :: 0 <= i < n ==> path[i] < |s|
    ensures forall i :: 0 <= i < n ==> (path + [loc])[i] < |s|
    ensures Shifted(s, moved + [x], path + [loc], n) == Shifted(s, moved, path, n)
  {
    if n > 0 {
      ShiftedPrefix(s, moved, path, x, loc, n - 1);
    }
  }

  /** One more element pushed out. */
  lemma PushOn<T>(s: seq<T>, moved: seq<T>, path: seq<nat>, loc: nat, now: seq<T>)
    requires PushesOn(s, moved, path) && loc < |s| && now == Shifted(s, moved, path, |path|)
    ensures PushesOn(s, moved + [now[loc]], path + [loc])
    ensures Shifted(s, moved + [now[loc]], path + [loc], |path| + 1) == now[loc := moved[|path|]]
  {
    hide Shifted, PushedAt;
    var moved', path' := moved + [now[loc]], path + [loc];
    forall i | 0 <= i < |path'| ensures PushedAt(s, moved', path', i) {
      if i < |path| {
        StillPushed(s, moved, path, now[loc], loc, i);
      } else {
        JustPushed(s, moved, path, loc, now);
      }
    }
    ShiftedPrefix(s, moved, path, now[loc], loc, |path|);
    ShiftedNext(s, moved', path', |path|);
  }

  lemma StillPushed<T>(s: seq<T>, moved: seq<T>, path: seq<nat>, x: T, loc: nat, i: nat)
    requires PathOk(s, moved, path) && i < |path| && PushedAt(s, moved, path, i) && loc < |s|
    ensures PathOk(s, moved + [x], path + [loc]) && PushedAt(s, moved + [x], path + [loc], i)
  {
    hide Shifted;
    ShiftedPrefix(s, moved, path, x, loc, i);
  }

  lemma JustPushed<T>(s: seq<T>, moved: seq<T>, path: seq<nat>, loc: nat, now: seq<T>)
    requires PathOk(s, moved, path) && loc < |s| && now == Shifted(s, moved, path, |path|)
    ensures PathOk(s, moved + [now[loc]], path + [loc]) && PushedAt(s, moved + [now[loc]], path + [loc], |path|)
  {
    hide Shifted;
    ShiftedPrefix(s, moved, path, now[loc], loc, |path|);
  }

  lemma ShiftedNext<T>(s: seq<T>, moved: seq<T>, path: seq<nat>, n: nat)
    requires n < |moved| && n < |path| && forall i :: 0 <= i <= n ==> path[i] < |s|
    ensures Shifted(s, moved, path, n + 1) == Shifted(s, moved, path, n)[path[n] := moved[n]]
  {
  }

  lemma ChainStarts<E>(hash: (nat, E) -> nat, c: Content<E>, e: E)
    requires |c.table| == |c.garbage| == |c.epoch| > 0
    ensures var ch := Chain([e], [true], []); IsChain(hash, c, e, ch) && Moved(c, ch, c.table, c.epoch)
  {
  }

  lemma ChainGrows<E>(hash: (nat, E) -> nat, c: Content<E>, e: E, ch: Chain<E>, table: seq<E>,
                            epoch: seq<bool>, loc: nat)
    requires IsChain(hash, c, e, ch) && Moved(c, ch, table, epoch) && loc < |c.table|
    requires var n := |ch.path|; GoesOn(hash, c.garbage, ch.moved[n], LastOf(ch.path, n), loc)
    ensures var n := |ch.path|;
      var ch' := Chain(ch.moved + [table[loc]], ch.marks + [epoch[loc]], ch.path + [loc]);
      && IsChain(hash, c, e, ch') && Moved(c, ch', table[loc := ch.moved[n]], epoch[loc := ch.marks[n]])
  {
    hide GoesOn, Shifted;
    PushOn(c.table, ch.moved, ch.path, loc, table);
    PushOn(c.epoch, ch.marks, ch.path, loc, epoch);
  }

  // ----- The cache

  class Cache<E(==)> {
    const hash: (nat, E) -> nat
    const size: nat
    const epochSize: nat
    const depthLimit: nat
    const blank: E
    var table: seq<E>
    var flags: Flags
    var epochFlags: seq<bool>
    var epochHeuristicCounter: nat
    ghost var inserted: set<E>

    ghost predicate Shape()
      reads this
    {
      && 2 <= size < WORD && epochSize >= 1 && depthLimit >= 1
      && |table| == |epochFlags| == size && Covers(flags, size)
    }

    ghost function Garbage(): (c: seq<bool>)
      requires Shape()
      reads this
      ensures |c| == size
    {
      Collected(flags, size)
    }

    ghost function LiveSet(): set<E>
      requires Shape()
      reads this
    {
      Live(table, Garbage())
    }

    /** The live elements of the current epoch. */
    ghost function RecentSet(): set<E>
      requires Shape()
      reads this
    {
      Recent(table, epochFlags, Garbage())
    }

    ghost function Contents(): Content<E>
      requires Shape()
      reads this
    {
      Content(table, Garbage(), epochFlags)
    }

    ghost function CurrentCount(): nat
      requires Shape()
      reads this
    {
      |Current(epochFlags, Garbage())|
    }

    /** The next insert starts a new epoch. */
    ghost predicate Ages()
      requires Shape()
      reads this
    {
      epochHeuristicCounter == 0 && CurrentCount() >= epochSize
    }

    ghost predicate Valid()
      reads this
    {
      Core() && CurrentCount() + epochHeuristicCounter <= epochSize + EpochSlack(epochSize)
    }

    /** Live elements are where they belong, and the table holds nothing that was never inserted. */
    ghost predicate Core()
      reads this
    {
      && Shape()
      && Placed(hash, table, Garbage())
      && (forall i :: 0 <= i < size ==> table[i] in inserted || table[i] == blank)
    }

    /** setup; the depth limit is floor(log2(size)) computed in floating point, which is at least 1. */
    constructor (hash: (nat, E) -> nat, blank: E, newSize: nat, depthLimit: nat)
      requires newSize <= WORD - 8 && depthLimit >= 1
      ensures Valid() && LiveSet() == {} && inserted == {} && this.hash == hash && this.blank == blank
      ensures size == Max(2, newSize) && this.depthLimit == depthLimit
      ensures epochSize == epochHeuristicCounter == Max(1, 45 * size % WORD / 100)
    {
      var n := if newSize < 2 then 2 else newSize;
      this.hash, this.blank, this.depthLimit, size := hash, blank, depthLimit, n;
      table := seq(n, _ => blank);
      flags := AllSet(n);
      epochFlags := seq(n, _ => false);
      var share := (45 * n) % WORD / 100;
      epochSize := if share < 1 then 1 else share;
      epochHeuristicCounter := if share < 1 then 1 else share;
      inserted := {};
      new;
      AllSetCollected(n);
      assert Current(epochFlags, Garbage()) == {};
    }

    method AllowErase(n: nat)
      requires Shape() && n < size
      modifies this`flags
      ensures Shape() && Garbage() == old(Garbage())[n := true]
    {
      SetCollected(flags, size, n);
      flags := flags.Set(n);
    }

    method PleaseKeep(n: nat)
      requires Shape() && n < size
      modifies this`flags
      ensures Shape() && Garbage() == old(Garbage())[n := false]
    {
      UnsetCollected(flags, size, n);
      flags := flags.Unset(n);
    }

    method CountCurrent() returns (count: nat)
      requires Shape()
      ensures count == CurrentCount()
    {
      count := 0;
      ghost var c := Garbage();
      assert Current(epochFlags[..0], c[..0]) == {};
      for i := 0 to size
        invariant count == |Current(epochFlags[..i], c[..i])|
      {
        CurrentPrefix(epochFlags, c, i);
        hide Current, Bit;
        if epochFlags[i] && !flags.IsSet(i) {
          count := count + 1;
        }
      }
      assert epochFlags[..size] == epochFlags && c[..size] == c;
    }

    /** Starts a new epoch: the old epoch becomes garbage, the current one becomes the old one. */
    method AgeEpochs()
      requires Shape()
      modifies this`flags, this`epochFlags
      ensures Shape() && CurrentCount() == 0 && RecentSet() == {} && Aged(old(Contents()), Contents())
    {
      for i := 0 to size
        invariant Shape()
        invariant forall j :: 0 <= j < i ==> !epochFlags[j] && (Garbage()[j] <==> old(Garbage()[j] || !epochFlags[j]))
        invariant forall j :: i <= j < size ==> epochFlags[j] == old(epochFlags[j]) && Garbage()[j] == old(Garbage()[j])
      {
        if epochFlags[i] {
          epochFlags := epochFlags[i := false];
        } else {
          AllowErase(i);
        }
      }
      assert Current(epochFlags, Garbage()) == {};
      assert epochFlags == seq(size, _ => false);
    }

    /**
     Run before every insert.  Only elements of the old epoch are released, and only when the
     current epoch has grown to its size; afterwards there is room for one more element.
     */
    method EpochCheck()
      requires Valid()
      modifies this`flags, this`epochFlags, this`epochHeuristicCounter
      ensures Valid()
      ensures CurrentCount() + epochHeuristicCounter + 1 <= epochSize + EpochSlack(epochSize)
      ensures LiveSet() <= old(LiveSet())
      ensures old(RecentSet()) <= LiveSet()
      ensures forall i :: 0 <= i < size && old(Garbage()[i]) ==> Garbage()[i]
      ensures old(Ages()) ==> Aged(old(Contents()), Contents()) && RecentSet() == {}
      ensures !old(Ages()) ==> Contents() == old(Contents()) && RecentSet() == old(RecentSet())
      ensures Ticks(old(epochHeuristicCounter), old(CurrentCount()), epochHeuristicCounter, epochSize)
    {
      if epochHeuristicCounter != 0 {
        epochHeuristicCounter := epochHeuristicCounter - 1;
        return;
      }
      var epochUnusedCount := CountCurrent();
      if epochUnusedCount >= epochSize {
        AgeEpochs();
        LiveFewer(table, old(Garbage()), Garbage());
        epochHeuristicCounter := epochSize;
      } else {
        epochHeuristicCounter := Max(1, Max(epochSize / 16, epochSize - epochUnusedCount));
      }
    }

    /** The first of the slots that holds e, or -1. */
    method FindElement(e: E, locs: seq<nat>) returns (loc: int)
      requires Shape() && locs == Locs(hash, e, size)
      ensures loc != -1 ==> 0 <= loc < size && loc in locs && table[loc] == e
      ensures loc == -1 ==> forall k :: 0 <= k < |locs| ==> table[locs[k]] != e
      ensures forall k: nat :: FirstHolding(hash, table, e, k) ==> loc == locs[k]
      ensures loc != -1 ==> exists k: nat :: FirstHolding(hash, table, e, k) && loc == locs[k]
      ensures loc == -1 ==> forall k: nat :: !FirstHolding(hash, table, e, k)
    {
      for k := 0 to |locs|
        invariant forall j :: 0 <= j < k ==> table[locs[j]] != e
      {
        if table[locs[k]] == e {
          assert FirstHolding(hash, table, e, k);
          return locs[k];
        }
      }
      return -1;
    }

    /** The first of the slots that is garbage, or -1. */
    method FindOpen(locs: seq<nat>) returns (loc: int)
      requires Shape() && forall k :: 0 <= k < |locs| ==> locs[k] < size
      ensures loc != -1 ==> 0 <= loc < size && loc in locs && Garbage()[loc]
      ensures loc == -1 ==> forall k :: 0 <= k < |locs| ==> !Garbage()[locs[k]]
      ensures loc != -1 ==>
                exists k :: 0 <= k < |locs| && loc == locs[k] && forall j :: 0 <= j < k ==> !Garbage()[locs[j]]
    {
      for k := 0 to |locs|
        invariant forall j :: 0 <= j < k ==> !Garbage()[locs[j]]
      {
        if flags.IsSet(locs[k]) {
          return locs[k];
        }
      }
      return -1;
    }

    /** The slot after the last one looked at, or the second when none was. */
    method NextLoc(locs: seq<nat>, lastLoc: nat) returns (loc: nat)
      requires |locs| == 8
      ensures IsNext(locs, lastLoc, loc)
    {
      var k := 0;
      while k < 8 && locs[k] != lastLoc
        invariant 0 <= k <= 8 && lastLoc !in locs[..k]
      {
        k := k + 1;
      }
      loc := locs[(1 + k) % 8];
    }

    /** Stores an element in a slot and marks it as one to keep. */
    method Store(loc: nat, e: E, epoch: bool)
      requires Shape() && loc < size
      modifies this`table, this`flags, this`epochFlags
      ensures Shape() && table == old(table)[loc := e]
      ensures Garbage() == old(Garbage())[loc := false] && epochFlags == old(epochFlags)[loc := epoch]
    {
      table := table[loc := e];
      PleaseKeep(loc);
      epochFlags := epochFlags[loc := epoch];
    }

    /**
     Inserting loses at most one element beyond those the epoch check released, possibly the
     new one, and none if a slot of the new one was open or held it: `kept` are the elements live
     after the epoch check.  The new one and those of the current epoch stay in it unless lost.
     `mid` is the content after the epoch check; an element already there is marked, and any other
     one starts a chain of evictions.
     */
    method Insert(e: E)
      returns (ghost kept: set<E>, ghost lost: set<E>, ghost mid: Content<E>, ghost chain: Option<Chain<E>>)
      requires Valid()
      modifies this
      ensures Valid() && inserted == old(inserted) + {e}
      ensures kept <= old(LiveSet())
      ensures !old(Ages()) ==> kept == old(LiveSet())
      ensures |lost| <= 1 && LiveSet() + lost == kept + {e}
      ensures old(RecentSet()) <= kept
      ensures var young := if old(Ages()) then {} else old(RecentSet());
        RecentSet() <= young + {e} <= RecentSet() + lost
      ensures old(Fits(hash, table, Garbage(), e)) ==> lost == {}
      ensures Rewritten(old(table), table, Garbage())
      ensures if old(Ages()) then Aged(old(Contents()), mid) else mid == old(Contents())
      ensures ContentOk(mid, size) && InsertedAs(hash, depthLimit, mid, e, chain, lost, Contents())
      ensures Ticks(old(epochHeuristicCounter), old(CurrentCount()), epochHeuristicCounter, epochSize)
    {
      hide Live, Current, Placed, Collected, EpochSlack, Locs, Recent, Aged, InsertedAs, Fits, Rewritten, PutOk, Sane,
        Ticks;
      ghost var was := Garbage();
      EpochCheck();
      FitsAfter(hash, table, was, Garbage(), e);
      kept, mid := LiveSet(), Contents();
      inserted := inserted + {e};
      lost, chain := Put(e);
      PutParts(hash, depthLimit, mid, e, inserted, blank, chain, lost, Contents());
      SaneIsCore();
    }

    /** The rest of insert, after the epoch check. */
    method Put(e: E) returns (ghost lost: set<E>, ghost chain: Option<Chain<E>>)
      requires Core() && e in inserted
      modifies this`table, this`flags, this`epochFlags
      ensures Shape() && PutOk(hash, depthLimit, old(Contents()), e, inserted, blank, chain, lost, Contents())
    {
      IsSane();
      hide *;
      var locs := Locs(hash, e, size);
      var found := FindElement(e, locs);
      if found != -1 {
        Refresh(e, found);
        lost, chain := {}, None;
      } else {
        lost, chain := PutNew(e, locs);
      }
    }

    /** Insertion of an element that is in the table already, live or not. */
    method Refresh(e: E, loc: nat)
      requires Shape() && Sane(hash, Contents(), inserted, blank) && e in inserted && loc < size
      requires exists k: nat :: FirstHolding(hash, table, e, k) && loc == Locs(hash, e, size)[k]
      modifies this`table, this`flags, this`epochFlags
      ensures Shape() && PutOk(hash, depthLimit, old(Contents()), e, inserted, blank, None, {}, Contents())
    {
      hide Collected, Locs, PutOk, Sane;
      ghost var mid := Contents();
      assert mid.table[loc := e] == mid.table;
      PutHeld(hash, depthLimit, mid, e, inserted, blank, loc);
      Store(loc, e, true);
    }

    method PutNew(e: E, locs: seq<nat>) returns (ghost lost: set<E>, ghost chain: Option<Chain<E>>)
      requires Shape() && Sane(hash, Contents(), inserted, blank) && e in inserted && locs == Locs(hash, e, size)
      requires forall k: nat :: !FirstHolding(hash, table, e, k)
      modifies this`table, this`flags, this`epochFlags
      ensures Shape() && PutOk(hash, depthLimit, old(Contents()), e, inserted, blank, chain, lost, Contents())
    {
      hide Collected, Locs, Displaced, FirstHolding, PutOk, Sane;
      ghost var mid := Contents();
      ghost var ch := Displace(e, locs);
      PutDisplaced(hash, depthLimit, mid, e, inserted, blank, ch, Contents());
      return Dropped(ch, depthLimit), Some(ch);
    }

    lemma IsSane()
      requires Core()
      ensures Shape() && Sane(hash, Contents(), inserted, blank)
    {
    }

    lemma SaneIsCore()
      requires Shape() && Sane(hash, Contents(), inserted, blank)
      ensures Core()
    {
    }

    /** Swaps an element with the one in a slot, and its epoch mark with that one's. */
    method SwapIn(loc: nat, e: E, epoch: bool) returns (evicted: E, was: bool)
      requires Shape() && loc < size
      modifies this`table, this`epochFlags
      ensures Shape() && table == old(table)[loc := e] && epochFlags == old(epochFlags)[loc := epoch]
      ensures evicted == old(table[loc]) && was == old(epochFlags[loc])
    {
      evicted := table[loc];
      table := table[loc := e];
      was := epochFlags[loc];
      epochFlags := epochFlags[loc := epoch];
    }

    /** The eviction chain of insert. */
    method Displace(e0: E, locs0: seq<nat>) returns (ghost ch: Chain<E>)
      requires Shape() && locs0 == Locs(hash, e0, size)
      modifies this`table, this`flags, this`epochFlags
      ensures Shape() && Displaced(hash, depthLimit, old(Contents()), e0, ch, Contents())
    {
      ghost var c := Contents();
      ChainStarts(hash, c, e0);
      hide Collected, Locs, IsChain, Moved, GoesOn, FilledAt;
      var e, locs, lastLoc, lastEpoch := e0, locs0, INVALID, true;
      ch := Chain([e], [true], []);
      for depth := 0 to depthLimit
        invariant Shape() && flags == old(flags) && IsChain(hash, c, e0, ch) && Moved(c, ch, table, epochFlags)
        invariant |ch.moved| == |ch.marks| == depth + 1 && |ch.path| == depth && locs == Locs(hash, e, size)
        invariant e == ch.moved[depth] && lastEpoch == ch.marks[depth] && lastLoc == LastOf(ch.path, depth)
      {
        var open := FindOpen(locs);
        if open != -1 {
          FirstIsOpen(hash, c, e0, ch, table, epochFlags, open);
          Store(open, e, lastEpoch);
          return;
        }
        lastLoc := NextLoc(locs, lastLoc);
        GoOn(hash, c.garbage, e, LastOf(ch.path, depth), lastLoc);
        ChainGrows(hash, c, e0, ch, table, epochFlags, lastLoc);
        ch := Chain(ch.moved + [table[lastLoc]], ch.marks + [epochFlags[lastLoc]], ch.path + [lastLoc]);
        e, lastEpoch := SwapIn(lastLoc, e, lastEpoch);
        locs := Locs(hash, e, size);
      }
    }

    /**
     Looks in the table, garbage or not: a live element is always found, and what is found was
     inserted or is the blank element the table starts with.  Erasing only marks a slot.
     */
    method Contains(e: E, erase: bool) returns (found: bool)
      requires Valid()
      modifies this`flags
      ensures Valid()
      ensures found <==> exists k :: 0 <= k < 8 && table[Locs(hash, e, size)[k]] == e
      ensures e in old(LiveSet()) ==> found
      ensures found ==> e in inserted || e == blank
      ensures old(LiveSet()) - {e} <= LiveSet() <= old(LiveSet())
      ensures old(RecentSet()) - {e} <= RecentSet() <= old(RecentSet())
      ensures !erase || !found ==> flags == old(flags)
      ensures forall k: nat :: erase && FirstHolding(hash, table, e, k) ==>
                Garbage() == old(Garbage())[Locs(hash, e, size)[k] := true]
    {
      var locs := Locs(hash, e, size);
      var loc := FindElement(e, locs);
      found := loc != -1;
      if found && erase {
        CurrentUpdate(epochFlags, Garbage(), loc, epochFlags[loc], true);
        assert epochFlags[loc := epochFlags[loc]] == epochFlags;
        LiveFewer(table, Garbage(), Garbage()[loc := true]);
        LiveAside(table, Garbage(), loc);
        RecentAside(table, epochFlags, Garbage(), loc);
        AllowErase(loc);
      }
    }
  }

  lemma LiveAside<E>(table: seq<E>, collected: seq<bool>, i: nat)
    requires |table| == |collected| && i < |table|
    ensures Live(table, collected) - {table[i]} <= Live(table, collected[i := true])
  {
    forall x | x in Live(table, collected) && x != table[i] ensures x in Live(table, collected[i := true]) {
      var j :| 0 <= j < |table| && !collected[j] && table[j] == x;
      assert !collected[i := true][j];
    }
  }

  lemma RecentAside<E>(table: seq<E>, epoch: seq<bool>, collected: seq<bool>, i: nat)
    requires |table| == |epoch| == |collected| && i < |table|
    ensures Recent(table, epoch, collected) - {table[i]} <= Recent(table, epoch, collected[i := true])
    ensures Recent(table, epoch, collected[i := true]) <= Recent(table, epoch, collected)
  {
    var c := collected[i := true];
    forall x | x in Recent(table, epoch, collected) && x != table[i] ensures x in Recent(table, epoch, c) {
      var j :| 0 <= j < |table| && epoch[j] && !collected[j] && table[j] == x;
      assert !c[j];
    }
  }

  datatype Op<E> = Insert(e: E) | Contains(e: E, erase: bool)

  function Inserted<E(==)>(ops: seq<Op<E>>): set<E> {
    if ops == [] then {}
    else Inserted(ops[..|ops| - 1]) + match ops[|ops| - 1] { case Insert(e) => {e} case Contains(_, _) => {} }
  }

  lemma NoneInserted<E>(ops: seq<Op<E>>)
    ensures Inserted(ops[..0]) == {}
  {
  }

  lemma InsertedNext<E>(known: set<E>, ops: seq<Op<E>>, i: nat)
    requires i < |ops|
    ensures known + Inserted(ops[..i]) + Inserted([ops[i]]) == known + Inserted(ops[..i + 1])
  {
    OneInserted(ops, i);
    OneInserted([ops[i]], 0);
    assert [ops[i]][..1] == [ops[i]];
    NoneInserted([ops[i]]);
  }

  lemma JustInserted<E>(op: Op<E>)
    ensures Inserted([op]) == match op { case Insert(e) => {e} case Contains(_, _) => {} }
  {
    OneInserted([op], 0);
    NoneInserted([op]);
    assert [op][..1] == [op];
  }

  lemma OneInserted<E>(ops: seq<Op<E>>, i: nat)
    requires i < |ops|
    ensures Inserted(ops[..i + 1]) ==
            Inserted(ops[..i]) + match ops[i] { case Insert(e) => {e} case Contains(_, _) => {} }
  {
    assert ops[..i + 1][..i] == ops[..i];
  }

  /**
   What a run shows of a cache: its slots and which of them are garbage, its live elements, those
   of the current epoch, and the epoch counters.
   */
  datatype View<E> = View(table: seq<E>, garbage: seq<bool>, live: set<E>, recent: set<E>, current: nat, counter: nat)

  /** The next insert starts a new epoch. */
  predicate Ages<E>(v: View<E>, epochSize: nat) {
    v.counter == 0 && v.current >= epochSize
  }

  /** The elements of the current epoch once the epoch check of the next insert is done. */
  function Young<E>(v: View<E>, epochSize: nat): set<E> {
    if Ages(v, epochSize) then {} else v.recent
  }

  ghost function ViewOf<E>(cache: Cache<E>): (v: View<E>)
    requires cache.Shape()
    reads cache
    ensures |v.table| == |v.garbage| == cache.size
  {
    View(cache.table, cache.Garbage(), cache.LiveSet(), cache.RecentSet(), cache.CurrentCount(),
         cache.epochHeuristicCounter)
  }

  /**
   One operation.  An insert adds its element; of the elements live before and the new one at most
   one is missing afterwards, or at most one of the current epoch when the old epoch was released,
   and none if a slot of the new one was open or held it.  The new one and those of the current
   epoch are of the current epoch afterwards, but for at most one.  A lookup finds every live
   element and nothing that was never inserted, moves nothing, and releases at most its own.
   */
  ghost predicate StepOk<E>(hash: (nat, E) -> nat, op: Op<E>, before: View<E>, found: bool, after: View<E>,
                            epochSize: nat, known: set<E>, blank: E)
    requires |before.table| == |before.garbage| > 0
  {
    match op
    case Insert(e) =>
      && after.live <= before.live + {e} && Rewritten(before.table, after.table, after.garbage)
      && |before.recent + {e} - after.live| <= 1
      && (!Ages(before, epochSize) ==> |before.live + {e} - after.live| <= 1)
      && after.recent <= Young(before, epochSize) + {e}
      && |Young(before, epochSize) + {e} - after.recent| <= 1
      && (Fits(hash, before.table, before.garbage, e) ==> Kept(before, e, after, epochSize))
      && Ticks(before.counter, before.current, after.counter, epochSize)
    case Contains(e, erase) =>
      && (e in before.live ==> found) && (found ==> e in known || e == blank)
      && before.live - {e} <= after.live <= before.live && after.table == before.table
      && before.recent - {e} <= after.recent <= before.recent && after.counter == before.counter
      && (!erase ==> after == before)
  }

  /** The new element is live, and nothing is missing but what the epoch check released. */
  ghost predicate Kept<E>(before: View<E>, e: E, after: View<E>, epochSize: nat) {
    && e in after.live && before.recent <= after.live && Young(before, epochSize) + {e} <= after.recent
    && (!Ages(before, epochSize) ==> before.live <= after.live)
  }

  lemma LostAtMostOne<E>(before: set<E>, kept: set<E>, lost: set<E>, after: set<E>, e: E)
    requires before <= kept && |lost| <= 1 && after + lost == kept + {e}
    ensures |before + {e} - after| <= 1
  {
    var missing := before + {e} - after;
    assert missing <= lost;
    assert lost == missing + (lost - missing);
  }

  lemma InsertOk<E>(hash: (nat, E) -> nat, e: E, before: View<E>, after: View<E>, kept: set<E>, lost: set<E>,
                    epochSize: nat, known: set<E>, blank: E)
    requires |before.table| == |before.garbage| > 0
    requires kept <= before.live && before.recent <= kept && |lost| <= 1 && after.live + lost == kept + {e}
    requires !Ages(before, epochSize) ==> kept == before.live
    requires after.recent <= Young(before, epochSize) + {e} <= after.recent + lost
    requires Fits(hash, before.table, before.garbage, e) ==> lost == {}
    requires Rewritten(before.table, after.table, after.garbage)
    requires Ticks(before.counter, before.current, after.counter, epochSize)
    ensures StepOk(hash, Insert(e), before, false, after, epochSize, known, blank)
  {
    hide Fits, Rewritten, Young, Ticks;
    LostAtMostOne(before.recent, kept, lost, after.live, e);
    if before.live <= kept {
      LostAtMostOne(before.live, kept, lost, after.live, e);
    }
    MissingOne(Young(before, epochSize) + {e}, after.recent, lost);
    assert lost == {} ==> after.live == kept + {e};
  }

  lemma MissingOne<E>(s: set<E>, t: set<E>, lost: set<E>)
    requires s <= t + lost && |lost| <= 1
    ensures |s - t| <= 1
  {
    assert lost == (s - t) + (lost - (s - t));
  }

  method Step<E(==)>(cache: Cache<E>, op: Op<E>) returns (found: bool)
    requires cache.Valid()
    modifies cache
    ensures cache.Valid() && cache.inserted == old(cache.inserted) + Inserted([op])
    ensures StepOk(cache.hash, op, old(ViewOf(cache)), found, ViewOf(cache), cache.epochSize, old(cache.inserted),
                   cache.blank)
  {
    CacheShape(cache);
    JustInserted(op);
    hide *;
    match op {
      case Insert(e) =>
        InsertStep(cache, e);
        found := false;
      case Contains(e, erase) =>
        found := ContainsStep(cache, e, erase);
    }
  }

  method InsertStep<E(==)>(cache: Cache<E>, e: E)
    requires cache.Valid()
    modifies cache
    ensures cache.Valid() && cache.inserted == old(cache.inserted) + {e}
    ensures StepOk(cache.hash, Insert(e), old(ViewOf(cache)), false, ViewOf(cache), cache.epochSize,
                   old(cache.inserted), cache.blank)
  {
    CacheShape(cache);
    hide EpochSlack, Live, Current, Placed, Collected, Locs, Recent, Rewritten, Fits, InsertedAs, Aged, StepOk,
      Ticks, Cache.Core;
    ghost var before, known := ViewOf(cache), cache.inserted;
    ghost var kept, lost, mid, chain;
    kept, lost, mid, chain := cache.Insert(e);
    InsertOk(cache.hash, e, before, ViewOf(cache), kept, lost, cache.epochSize, known, cache.blank);
  }

  method ContainsStep<E(==)>(cache: Cache<E>, e: E, erase: bool) returns (found: bool)
    requires cache.Valid()
    modifies cache`flags
    ensures cache.Valid() && cache.inserted == old(cache.inserted)
    ensures StepOk(cache.hash, Op.Contains(e, erase), old(ViewOf(cache)), found, ViewOf(cache), cache.epochSize,
                   old(cache.inserted), cache.blank)
  {
    CacheShape(cache);
    hide EpochSlack, Live, Current, Placed, Collected, Locs, Recent, Rewritten, Fits, FirstHolding;
    found := cache.Contains(e, erase);
  }

  /** Every operation did what it should, and no epoch outgrew its bound. */
  ghost predicate IsRun<E>(hash: (nat, E) -> nat, size: nat, epochSize: nat, known: set<E>, blank: E, ops: seq<Op<E>>,
                           answers: seq<bool>, views: seq<View<E>>)
  {
    && |answers| == |ops| && |views| == |ops| + 1 && size > 0
    && (forall i :: 0 <= i < |views| ==>
          |views[i].table| == |views[i].garbage| == size && views[i].current <= epochSize + EpochSlack(epochSize))
    && forall i :: 0 <= i < |ops| ==>
        StepOk(hash, ops[i], views[i], answers[i], views[i + 1], epochSize, known + Inserted(ops[..i]), blank)
  }

  lemma RunStarts<E>(hash: (nat, E) -> nat, size: nat, epochSize: nat, known: set<E>, blank: E, ops: seq<Op<E>>,
                     v: View<E>)
    requires |v.table| == |v.garbage| == size > 0 && v.current <= epochSize + EpochSlack(epochSize)
    ensures IsRun(hash, size, epochSize, known, blank, ops[..0], [], [v])
  {
  }

  lemma RunGoesOn<E>(hash: (nat, E) -> nat, size: nat, epochSize: nat, known: set<E>, blank: E, ops: seq<Op<E>>,
                     i: nat, answers: seq<bool>, views: seq<View<E>>, a: bool, v: View<E>)
    requires i < |ops| && IsRun(hash, size, epochSize, known, blank, ops[..i], answers, views)
    requires |v.table| == |v.garbage| == size && v.current <= epochSize + EpochSlack(epochSize)
    requires StepOk(hash, ops[i], views[i], a, v, epochSize, known + Inserted(ops[..i]), blank)
    ensures IsRun(hash, size, epochSize, known, blank, ops[..i + 1], answers + [a], views + [v])
  {
    hide StepOk, EpochSlack, Inserted;
    var more := ops[..i + 1];
    assert forall j :: 0 <= j <= i ==> more[..j] == ops[..j];
    forall j | 0 <= j < |more|
      ensures StepOk(hash, more[j], (views + [v])[j], (answers + [a])[j], (views + [v])[j + 1], epochSize,
                     known + Inserted(more[..j]), blank)
    {
      if j < i {
        assert ops[..i][..j] == ops[..j];
      }
    }
  }

  /** Carries out operations on a cache. */
  method Perform<E(==)>(cache: Cache<E>, ops: seq<Op<E>>) returns (answers: seq<bool>, ghost views: seq<View<E>>)
    requires cache.Valid()
    modifies cache
    ensures cache.Valid() && cache.inserted == old(cache.inserted) + Inserted(ops)
    ensures IsRun(cache.hash, cache.size, cache.epochSize, old(cache.inserted), cache.blank, ops, answers, views)
    ensures views[0] == old(ViewOf(cache)) && views[|ops|] == ViewOf(cache)
  {
    ViewBound(cache);
    hide *;
    answers, views := [], [ViewOf(cache)];
    ghost var known := cache.inserted;
    NoneInserted(ops);
    RunStarts(cache.hash, cache.size, cache.epochSize, known, cache.blank, ops, ViewOf(cache));
    for i := 0 to |ops|
      invariant cache.Valid() && cache.Shape() && cache.inserted == known + Inserted(ops[..i])
      invariant |answers| == i && |views| == i + 1 && views[0] == old(ViewOf(cache)) && views[i] == ViewOf(cache)
      invariant IsRun(cache.hash, cache.size, cache.epochSize, known, cache.blank, ops[..i], answers, views)
    {
      var a := Step(cache, ops[i]);
      InsertedNext(known, ops, i);
      ViewBound(cache);
      RunGoesOn(cache.hash, cache.size, cache.epochSize, known, cache.blank, ops, i, answers, views, a, ViewOf(cache));
      answers, views := answers + [a], views + [ViewOf(cache)];
    }
    assert ops[..|ops|] == ops;
  }

  lemma ViewBound<E>(cache: Cache<E>)
    requires cache.Valid()
    ensures cache.Shape() && cache.size > 0
    ensures var v := ViewOf(cache); v.current <= cache.epochSize + EpochSlack(cache.epochSize)
  {
    hide EpochSlack;
  }

  /** In every reachable state the current epoch is bounded, and every operation did what it should. */
  method Run<E(==)>(hash: (nat, E) -> nat, blank: E, newSize: nat, depthLimit: nat, ops: seq<Op<E>>)
    returns (cache: Cache<E>, found: seq<bool>, ghost views: seq<View<E>>)
    requires newSize <= WORD - 8 && depthLimit >= 1
    ensures fresh(cache) && cache.Valid() && cache.hash == hash && cache.blank == blank
    ensures cache.size == Max(2, newSize) && cache.inserted == Inserted(ops)
    ensures IsRun(hash, cache.size, cache.epochSize, {}, blank, ops, found, views)
    ensures cache.epochSize == Max(1, 45 * cache.size % WORD / 100)
    ensures views[0].live == {} && views[0].counter == cache.epochSize && views[|ops|] == ViewOf(cache)
  {
    hide EpochSlack, Inserted, Live, Current, Placed, Collected, IsRun, Recent;
    cache := new Cache(hash, blank, newSize, depthLimit);
    found, views := Perform(cache, ops);
  }

  function InsertCount<E>(ops: seq<Op<E>>, i: nat, j: nat): (n: nat)
    requires i <= j <= |ops|
  {
    if i == j then 0 else InsertCount(ops, i, j - 1) + if ops[j - 1].Insert? then 1 else 0
  }

  /** The operation does not erase e, and if it inserts something, there is room for it. */
  ghost predicate Spares<E>(hash: (nat, E) -> nat, op: Op<E>, v: View<E>, e: E)
    requires |v.table| == |v.garbage| > 0
  {
    match op
    case Insert(x) => Fits(hash, v.table, v.garbage, x)
    case Contains(x, erase) => erase ==> x != e
  }

  /** e is live, and of the current epoch or protected for some more inserts, n having passed. */
  ghost predicate Lasting<E>(v: View<E>, e: E, epochSize: nat, n: nat) {
    e in v.live && (e in v.recent || v.counter + n >= epochSize + 1)
  }

  lemma LastsOn<E>(hash: (nat, E) -> nat, op: Op<E>, before: View<E>, found: bool, after: View<E>, epochSize: nat,
                   known: set<E>, blank: E, e: E, n: nat)
    requires |before.table| == |before.garbage| > 0
    requires StepOk(hash, op, before, found, after, epochSize, known, blank) && Spares(hash, op, before, e)
    requires Lasting(before, e, epochSize, n) && (op.Insert? ==> n <= epochSize)
    ensures Lasting(after, e, epochSize, n + if op.Insert? then 1 else 0)
  {
    hide Fits, Rewritten;
  }

  /** While there is room, an element outlives the next epochSize + 1 inserts, however the epochs fall. */
  lemma {:induction false} InsertedLasts<E>(hash: (nat, E) -> nat, size: nat, epochSize: nat, known: set<E>, blank: E,
                                            ops: seq<Op<E>>, answers: seq<bool>, views: seq<View<E>>, i: nat, j: nat,
                                            e: E)
    requires IsRun(hash, size, epochSize, known, blank, ops, answers, views)
    requires i < j <= |ops| && ops[i] == Op.Insert(e)
    requires forall k :: i <= k < j ==> Spares(hash, ops[k], views[k], e)
    requires InsertCount(ops, i + 1, j) <= epochSize + 1
    ensures Lasting(views[j], e, epochSize, InsertCount(ops, i + 1, j))
  {
    hide Fits, Rewritten, Inserted, EpochSlack;
    if j == i + 1 {
      hide Ticks;
      assert StepOk(hash, ops[i], views[i], answers[i], views[j], epochSize, known + Inserted(ops[..i]), blank);
      assert Spares(hash, ops[i], views[i], e);
    } else {
      hide StepOk, Lasting, Spares;
      InsertedLasts(hash, size, epochSize, known, blank, ops, answers, views, i, j - 1, e);
      LastsOn(hash, ops[j - 1], views[j - 1], answers[j - 1], views[j], epochSize, known + Inserted(ops[..j - 1]),
              blank, e, InsertCount(ops, i + 1, j - 1));
    }
  }

  /** The slot holds e in all views up to number n. */
  ghost predicate HoldsUpTo<E>(views: seq<View<E>>, slot: nat, e: E, n: nat) {
    n < |views| && forall i :: 0 <= i <= n ==> slot < |views[i].table| && views[i].table[slot] == e
  }

  /** The first operation after which the slot holds something else is an insert. */
  ghost predicate TakenAt<E>(ops: seq<Op<E>>, views: seq<View<E>>, slot: nat, e: E, t: nat) {
    && t < |ops| && |views| == |ops| + 1 && ops[t].Insert? && HoldsUpTo(views, slot, e, t)
    && slot < |views[t + 1].table| && views[t + 1].table[slot] != e
  }

  lemma {:induction false} FirstTaken<E>(hash: (nat, E) -> nat, size: nat, epochSize: nat, known: set<E>, blank: E,
                                         ops: seq<Op<E>>, answers: seq<bool>, views: seq<View<E>>, slot: nat, e: E,
                                         n: nat) returns (taken: Option<nat>)
    requires IsRun(hash, size, epochSize, known, blank, ops, answers, views)
    requires slot < size && views[0].table[slot] == e && n <= |ops|
    ensures taken.None? ==> HoldsUpTo(views, slot, e, n)
    ensures taken.Some? ==> TakenAt(ops, views, slot, e, taken.value)
  {
    hide StepOk, EpochSlack, Inserted;
    if n == 0 {
      taken := None;
    } else {
      taken := FirstTaken(hash, size, epochSize, known, blank, ops, answers, views, slot, e, n - 1);
      if taken.None? && views[n].table[slot] != e {
        OnlyInsertsMove(hash, ops[n - 1], views[n - 1], answers[n - 1], views[n], epochSize,
                        known + Inserted(ops[..n - 1]), blank, slot);
        taken := Some(n - 1);
      }
    }
  }

  /**
   An erased element stays in its slot, whatever is looked up, erased or inserted, until an insert
   puts another element there: `taken` is the index of that insert, if there was one.
   */
  method EraseThenUse<E(==)>(cache: Cache<E>, e: E, ops: seq<Op<E>>)
    returns (found: bool, answers: seq<bool>, ghost views: seq<View<E>>, ghost slot: nat, ghost taken: Option<nat>)
    requires cache.Valid() && e in cache.LiveSet()
    modifies cache
    ensures cache.Valid() && slot < cache.size && slot in Locs(cache.hash, e, cache.size)
    ensures IsRun(cache.hash, cache.size, cache.epochSize, old(cache.inserted), cache.blank, ops, answers, views)
    ensures views[0].table == old(cache.table) && views[0].garbage == old(cache.Garbage())[slot := true]
    ensures views[|ops|].table == cache.table
    ensures taken.None? ==> found && HoldsUpTo(views, slot, e, |ops|)
    ensures taken.Some? ==> TakenAt(ops, views, slot, e, taken.value)
    ensures found <==> exists k :: 0 <= k < 8 && cache.table[Locs(cache.hash, e, cache.size)[k]] == e
  {
    CacheShape(cache);
    ghost var k := LiveIsHeld(cache, e);
    slot := Locs(cache.hash, e, cache.size)[k];
    assert slot < cache.size && cache.table[slot] == e;
    hide Live, Placed, Collected, Current, EpochSlack, Locs, StepOk, Recent, IsRun, HoldsUpTo, TakenAt;
    found := cache.Contains(e, true);
    ghost var known := cache.inserted;
    answers, views := Perform(cache, ops);
    RunLength(cache.hash, cache.size, cache.epochSize, known, cache.blank, ops, answers, views);
    taken := FirstTaken(cache.hash, cache.size, cache.epochSize, known, cache.blank, ops, answers, views, slot, e,
                        |ops|);
    StillThere(views, slot, e, |ops|);
    found := cache.Contains(e, false);
  }

  lemma RunLength<E>(hash: (nat, E) -> nat, size: nat, epochSize: nat, known: set<E>, blank: E, ops: seq<Op<E>>,
                     answers: seq<bool>, views: seq<View<E>>)
    requires IsRun(hash, size, epochSize, known, blank, ops, answers, views)
    ensures |answers| == |ops| && |views| == |ops| + 1
    ensures forall i :: 0 <= i < |views| ==> |views[i].table| == |views[i].garbage| == size
  {
  }

  lemma StillThere<E>(views: seq<View<E>>, slot: nat, e: E, n: nat)
    ensures HoldsUpTo(views, slot, e, n) ==> n < |views| && slot < |views[n].table| && views[n].table[slot] == e
  {
  }

  /** A live element is in one of its slots, and in a first one of them. */
  lemma LiveIsHeld<E>(cache: Cache<E>, e: E) returns (k: nat)
    requires cache.Valid() && e in cache.LiveSet()
    ensures FirstHolding(cache.hash, cache.table, e, k)
  {
    hide Locs, Slot;
    var i :| 0 <= i < cache.size && !cache.Garbage()[i] && cache.table[i] == e;
    var locs := Locs(cache.hash, e, cache.size);
    assert i in locs;
    var q :| 0 <= q < 8 && locs[q] == i;
    k := 0;
    while cache.table[locs[k]] != e
      invariant k <= q && forall j :: 0 <= j < k ==> cache.table[locs[j]] != e
      decreases 8 - k
    {
      k := k + 1;
    }
  }

  lemma CacheShape<E>(cache: Cache<E>)
    requires cache.Valid()
    ensures cache.Shape()
  {
  }

  /** Only an insert changes what a slot holds. */
  lemma OnlyInsertsMove<E>(hash: (nat, E) -> nat, op: Op<E>, before: View<E>, found: bool, after: View<E>,
                           epochSize: nat, known: set<E>, blank: E, slot: nat)
    requires |before.table| == |before.garbage| > 0 && slot < |before.table|
    requires StepOk(hash, op, before, found, after, epochSize, known, blank)
    ensures |after.table| == |before.table| && (after.table[slot] != before.table[slot] ==> op.Insert?)
  {
  }
}
