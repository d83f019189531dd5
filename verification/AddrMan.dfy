/**
 The address manager (src/addrman.h, src/addrman.cpp).

 Six indexes describe one set of addresses: the entries by id, the ids by address, a
 randomly ordered list of ids, the "new" and the "tried" tables, and two counters.  The
 invariant is the one Check_ spells out; the edits below are the only changes the
 operations make to the indexes.
 */
module AddrMan {
  import opened Numbers
  import opened Wrappers

  const TRIED_BUCKET_COUNT := 256
  const NEW_BUCKET_COUNT := 1024
  const BUCKET_SIZE := 64
  const TRIED_BUCKETS_PER_GROUP := 8
  const NEW_BUCKETS_PER_SOURCE_GROUP := 64
  const NEW_BUCKETS_PER_ADDRESS := 8
  const SET_TRIED_COLLISION_SIZE := 10
  const HORIZON_DAYS := 30
  const RETRIES := 3
  const MAX_FAILURES := 10
  const MIN_FAIL_DAYS := 7
  const REPLACEMENT_HOURS := 4
  const GETADDR_MAX_PCT := 23
  const GETADDR_MAX := 2500

  datatype Service = Service(ip: nat, port: nat)

  /** An address as a peer announces it. */
  datatype Address = Address(service: Service, services: set<nat>, nTime: int)

  datatype AddrInfo = AddrInfo(
    addr: Service,
    services: set<nat>,
    nTime: int,
    source: nat,
    nLastTry: int,
    nLastCountAttempt: int,
    nLastSuccess: int,
    nAttempts: int,
    nRefCount: int,
    fInTried: bool,
    nRandomPos: int)

  function NewInfo(a: Address, source: nat): AddrInfo {
    AddrInfo(a.service, a.services, a.nTime, source, 0, 0, 0, 0, 0, false, -1)
  }

  /**
   The keyed hashes, the address ranges and the address classification, which stay arbitrary.  The
   tried bucket of an address is hashed from its range and one of eight numbers, which its own hash
   picks; its new bucket from the range of the source and one of 64 numbers, which both ranges pick.
   */
  datatype Env = Env(
    discriminatePorts: bool,
    group: nat -> nat,
    keyHash: Service -> nat,
    triedHash: (nat, nat) -> nat,
    groupsHash: (nat, nat) -> nat,
    newHash: (nat, nat) -> nat,
    posHash: (bool, nat, Service) -> nat,
    isRoutable: Service -> bool,
    isValid: Service -> bool)

  function Norm(env: Env, a: Service): Service {
    if env.discriminatePorts then a else Service(a.ip, 0)
  }

  function TriedBucket(env: Env, a: Service): nat {
    env.triedHash(env.group(a.ip), env.keyHash(a) % TRIED_BUCKETS_PER_GROUP) % TRIED_BUCKET_COUNT
  }

  function NewBucket(env: Env, a: Service, source: nat): nat {
    var src := env.group(source);
    env.newHash(src, env.groupsHash(env.group(a.ip), src) % NEW_BUCKETS_PER_SOURCE_GROUP) % NEW_BUCKET_COUNT
  }

  function BucketPosition(env: Env, fNew: bool, bucket: nat, a: Service): nat {
    env.posHash(fNew, bucket, a) % BUCKET_SIZE
  }

  function IsTerrible(info: AddrInfo, now: int): bool {
    if info.nLastTry != 0 && info.nLastTry >= now - 60 then false
    else if info.nTime > now + 10 * 60 then true
    else if info.nTime == 0 || now - info.nTime > HORIZON_DAYS * 24 * 60 * 60 then true
    else if info.nLastSuccess == 0 && info.nAttempts >= RETRIES then true
    else now - info.nLastSuccess > MIN_FAIL_DAYS * 24 * 60 * 60 && info.nAttempts >= MAX_FAILURES
  }

  type Table = seq<seq<int>>

  predicate Dim(t: Table, buckets: nat) {
    |t| == buckets && forall b :: 0 <= b < buckets ==> |t[b]| == BUCKET_SIZE
  }

  function Set(t: Table, b: nat, p: nat, id: int): Table
    requires b < |t| && p < |t[b]|
  {
    t[b := t[b][p := id]]
  }

  /** The indexes of a manager. */
  datatype Mgr = Mgr(
    nIdCount: int,
    info: map<int, AddrInfo>,
    addr: map<Service, int>,
    random: seq<int>,
    nTried: int,
    tried: Table,
    nNew: int,
    new_: Table,
    collisions: set<int>)

  // ----- The invariant

  predicate RandomOk(info: map<int, AddrInfo>, random: seq<int>) {
    && (forall id :: id in info ==> 0 <= info[id].nRandomPos < |random| && random[info[id].nRandomPos] == id)
    && (forall i :: 0 <= i < |random| ==> random[i] in info && info[random[i]].nRandomPos == i)
  }

  predicate AddrOk(env: Env, info: map<int, AddrInfo>, addr: map<Service, int>) {
    && (forall id :: id in info ==> Norm(env, info[id].addr) in addr && addr[Norm(env, info[id].addr)] == id)
    && (forall a :: a in addr ==> addr[a] in info && Norm(env, info[addr[a]].addr) == a)
  }

  /** The buckets of the new table in which id, living at address a, has a slot. */
  function Slots(env: Env, t: Table, id: int, a: Service): set<int>
    requires Dim(t, NEW_BUCKET_COUNT)
  {
    set b | 0 <= b < NEW_BUCKET_COUNT && t[b][BucketPosition(env, true, b, a)] == id
  }

  predicate NewOk(env: Env, info: map<int, AddrInfo>, t: Table) {
    && Dim(t, NEW_BUCKET_COUNT)
    && (forall b, p :: 0 <= b < NEW_BUCKET_COUNT && 0 <= p < BUCKET_SIZE && t[b][p] != -1 ==>
          t[b][p] in info && p == BucketPosition(env, true, b, info[t[b][p]].addr))
    && (forall id :: id in info ==> info[id].nRefCount == |Slots(env, t, id, info[id].addr)|)
  }

  predicate Occupied(env: Env, t: Table, a: Service)
    requires Dim(t, TRIED_BUCKET_COUNT)
  {
    TriedSlot(env, t, a) != -1
  }

  function TriedSlot(env: Env, t: Table, a: Service): int
    requires Dim(t, TRIED_BUCKET_COUNT)
  {
    var b := TriedBucket(env, a);
    t[b][BucketPosition(env, false, b, a)]
  }

  predicate TriedOk(env: Env, info: map<int, AddrInfo>, t: Table) {
    && Dim(t, TRIED_BUCKET_COUNT)
    && (forall b, p :: 0 <= b < TRIED_BUCKET_COUNT && 0 <= p < BUCKET_SIZE && t[b][p] != -1 ==>
          && t[b][p] in info && info[t[b][p]].fInTried
          && b == TriedBucket(env, info[t[b][p]].addr)
          && p == BucketPosition(env, false, b, info[t[b][p]].addr))
    && (forall id :: id in info && info[id].fInTried ==> TriedSlot(env, t, info[id].addr) == id)
  }

  /** Entries in no table at all are confined to `loose`, which is empty between operations. */
  predicate EntriesOk(info: map<int, AddrInfo>, loose: set<int>) {
    forall id :: id in info ==>
      && info[id].nRefCount <= NEW_BUCKETS_PER_ADDRESS
      && (info[id].fInTried ==> info[id].nRefCount == 0)
      && (!info[id].fInTried && info[id].nRefCount == 0 ==> id in loose)
  }

  /** No time is negative, and a tried entry has succeeded once. */
  predicate TimesOk(info: map<int, AddrInfo>) {
    forall id :: id in info ==>
      info[id].nLastTry >= 0 && info[id].nLastSuccess >= 0 && (info[id].fInTried ==> info[id].nLastSuccess > 0)
  }

  function TriedIds(info: map<int, AddrInfo>): set<int> {
    set id | id in info && info[id].fInTried
  }

  function NewIds(info: map<int, AddrInfo>): set<int> {
    set id | id in info && !info[id].fInTried
  }

  /** Inside an operation `gap` entries may be missing from nNew. */
  predicate CountsOk(m: Mgr, gap: int) {
    m.nTried == |TriedIds(m.info)| && m.nNew == |NewIds(m.info)| - gap
  }

  predicate IdsOk(m: Mgr) {
    && m.nIdCount >= 0
    && (forall id :: id in m.info ==> 0 <= id < m.nIdCount)
    && (forall id :: id in m.collisions ==> 0 <= id < m.nIdCount)
  }

  /** A pending collision whose entry is still known is a collision with somebody. */
  predicate CollisionsOk(env: Env, m: Mgr)
    requires Dim(m.tried, TRIED_BUCKET_COUNT)
  {
    && |m.collisions| <= SET_TRIED_COLLISION_SIZE
    && forall id :: id in m.collisions && id in m.info ==> Occupied(env, m.tried, m.info[id].addr)
  }

  predicate Inv(env: Env, m: Mgr, loose: set<int>, gap: int) {
    Frame(env, m, gap) && NewOk(env, m.info, m.new_) && EntriesOk(m.info, loose)
  }

  /** The part of the invariant that reference counts and the new table play no role in. */
  predicate Frame(env: Env, m: Mgr, gap: int) {
    && IdsOk(m)
    && RandomOk(m.info, m.random)
    && AddrOk(env, m.info, m.addr)
    && TriedOk(env, m.info, m.tried)
    && CountsOk(m, gap)
  }

  predicate Sound(env: Env, m: Mgr) {
    Inv(env, m, {}, 0) && TimesOk(m.info) && CollisionsOk(env, m)
  }

  /** A manager that knows nobody. */
  function Empty(): Mgr {
    Mgr(0, map[], map[], [], 0, seq(TRIED_BUCKET_COUNT, _ => seq(BUCKET_SIZE, _ => -1)),
        0, seq(NEW_BUCKET_COUNT, _ => seq(BUCKET_SIZE, _ => -1)), {})
  }

  lemma EmptySound(env: Env)
    ensures Sound(env, Empty())
  {
    assert TriedIds(map[]) == {} && NewIds(map[]) == {};
  }

  // ----- Edits

  function WithInfo(m: Mgr, id: int, r: AddrInfo): Mgr {
    m.(info := m.info[id := r])
  }

  /** Clears one slot of the new table. */
  function ClearSlot(m: Mgr, b: nat, p: nat): Mgr
    requires b < |m.new_| && p < |m.new_[b]| && m.new_[b][p] in m.info
  {
    var x := m.new_[b][p];
    WithInfo(m, x, m.info[x].(nRefCount := m.info[x].nRefCount - 1)).(new_ := Set(m.new_, b, p, -1))
  }

  /** Puts an entry into an empty slot of the new table. */
  function FillSlot(m: Mgr, b: nat, p: nat, id: int): Mgr
    requires b < |m.new_| && p < |m.new_[b]| && id in m.info
  {
    WithInfo(m, id, m.info[id].(nRefCount := m.info[id].nRefCount + 1)).(new_ := Set(m.new_, b, p, id))
  }

  function Swapped(m: Mgr, i: nat, j: nat): Mgr
    requires i < |m.random| && j < |m.random| && m.random[i] in m.info && m.random[j] in m.info
  {
    var x, y := m.random[i], m.random[j];
    if i == j then m
    else
      var info := m.info[x := m.info[x].(nRandomPos := j)];
      var info := info[y := info[y].(nRandomPos := i)];
      m.(info := info, random := m.random[i := y][j := x])
  }

  /** Removal of the entry at the end of the random order. */
  function DropLast(env: Env, s: Mgr, id: int): Mgr
    requires id in s.info && |s.random| > 0
  {
    s.(random := s.random[..|s.random| - 1], info := s.info - {id},
       addr := s.addr - {Norm(env, s.info[id].addr)}, nNew := s.nNew - 1)
  }

  function Removed(env: Env, m: Mgr, id: int): Mgr
    requires id in m.info && RandomOk(m.info, m.random)
  {
    DropLast(env, Swapped(m, m.info[id].nRandomPos, |m.random| - 1), id)
  }

  function Created(env: Env, m: Mgr, r: AddrInfo): Mgr {
    var id := m.nIdCount;
    m.(nIdCount := id + 1, info := m.info[id := r.(nRandomPos := |m.random|)],
       addr := m.addr[Norm(env, r.addr) := id], random := m.random + [id])
  }

  function Untried(env: Env, m: Mgr, id: int): Mgr
    requires id in m.info && Dim(m.tried, TRIED_BUCKET_COUNT)
  {
    var b := TriedBucket(env, m.info[id].addr);
    WithInfo(m, id, m.info[id].(fInTried := false))
    .(tried := Set(m.tried, b, BucketPosition(env, false, b, m.info[id].addr), -1), nTried := m.nTried - 1)
  }

  function Tried(env: Env, m: Mgr, id: int): Mgr
    requires id in m.info && Dim(m.tried, TRIED_BUCKET_COUNT)
  {
    var b := TriedBucket(env, m.info[id].addr);
    WithInfo(m, id, m.info[id].(fInTried := true))
    .(tried := Set(m.tried, b, BucketPosition(env, false, b, m.info[id].addr), id), nTried := m.nTried + 1)
  }

  // ----- What the edits do to the invariant

  lemma SetSlot(env: Env, t: Table, b: nat, p: nat, v: int, id: int, a: Service)
    requires Dim(t, NEW_BUCKET_COUNT) && b < NEW_BUCKET_COUNT && p < BUCKET_SIZE
    ensures Dim(Set(t, b, p, v), NEW_BUCKET_COUNT)
    ensures Slots(env, Set(t, b, p, v), id, a) ==
      if p != BucketPosition(env, true, b, a) then Slots(env, t, id, a)
      else if v == id then Slots(env, t, id, a) + {b}
      else Slots(env, t, id, a) - {b}
  {
  }

  /** Replacing an entry without touching what the tables depend on. */
  predicate SameShape(r: AddrInfo, r': AddrInfo) {
    r'.addr == r.addr && r'.fInTried == r.fInTried && r'.nRandomPos == r.nRandomPos && r'.nRefCount == r.nRefCount
  }

  predicate SameStats(r: AddrInfo, r': AddrInfo) {
    && r'.services == r.services && r'.nTime == r.nTime && r'.source == r.source && r'.nLastTry == r.nLastTry
    && r'.nLastCountAttempt == r.nLastCountAttempt && r'.nLastSuccess == r.nLastSuccess && r'.nAttempts == r.nAttempts
  }

  lemma IdsUpdate(info: map<int, AddrInfo>, id: int, r: AddrInfo)
    requires id in info && info[id].fInTried == r.fInTried
    ensures TriedIds(info[id := r]) == TriedIds(info) && NewIds(info[id := r]) == NewIds(info)
  {
  }

  lemma UpdateRandomOk(info: map<int, AddrInfo>, random: seq<int>, id: int, r: AddrInfo)
    requires RandomOk(info, random) && id in info && r.nRandomPos == info[id].nRandomPos
    ensures RandomOk(info[id := r], random)
  {
  }

  lemma UpdateAddrOk(env: Env, info: map<int, AddrInfo>, addr: map<Service, int>, id: int, r: AddrInfo)
    requires AddrOk(env, info, addr) && id in info && r.addr == info[id].addr
    ensures AddrOk(env, info[id := r], addr)
  {
  }

  lemma UpdateNewOk(env: Env, info: map<int, AddrInfo>, t: Table, id: int, r: AddrInfo)
    requires NewOk(env, info, t) && id in info && r.addr == info[id].addr && r.nRefCount == info[id].nRefCount
    ensures NewOk(env, info[id := r], t)
  {
  }

  lemma UpdateTriedOk(env: Env, info: map<int, AddrInfo>, t: Table, id: int, r: AddrInfo)
    requires TriedOk(env, info, t) && id in info && r.addr == info[id].addr && r.fInTried == info[id].fInTried
    ensures TriedOk(env, info[id := r], t)
  {
  }

  lemma UpdateFrame(env: Env, m: Mgr, id: int, r: AddrInfo, t: Table, gap: int)
    requires Frame(env, m, gap) && id in m.info
    requires r.addr == m.info[id].addr && r.fInTried == m.info[id].fInTried && r.nRandomPos == m.info[id].nRandomPos
    ensures Frame(env, WithInfo(m, id, r).(new_ := t), gap)
  {
    hide RandomOk, AddrOk, TriedOk;
    IdsUpdate(m.info, id, r);
    UpdateRandomOk(m.info, m.random, id, r);
    UpdateAddrOk(env, m.info, m.addr, id, r);
    UpdateTriedOk(env, m.info, m.tried, id, r);
  }

  lemma RestatInv(env: Env, m: Mgr, id: int, r: AddrInfo, loose: set<int>, gap: int)
    requires Inv(env, m, loose, gap) && id in m.info && SameShape(m.info[id], r)
    ensures Inv(env, WithInfo(m, id, r), loose, gap)
  {
    hide Frame, NewOk;
    UpdateFrame(env, m, id, r, m.new_, gap);
    UpdateNewOk(env, m.info, m.new_, id, r);
  }

  lemma ClearSlotNewOk(env: Env, info: map<int, AddrInfo>, t: Table, b: nat, p: nat)
    requires NewOk(env, info, t) && -1 !in info
    requires b < NEW_BUCKET_COUNT && p < BUCKET_SIZE && t[b][p] != -1
    ensures info[t[b][p]].nRefCount > 0
    ensures NewOk(env, info[t[b][p] := info[t[b][p]].(nRefCount := info[t[b][p]].nRefCount - 1)], Set(t, b, p, -1))
  {
    var x := t[b][p];
    var info' := info[x := info[x].(nRefCount := info[x].nRefCount - 1)];
    assert b in Slots(env, t, x, info[x].addr);
    forall id | id in info' ensures info'[id].nRefCount == |Slots(env, Set(t, b, p, -1), id, info'[id].addr)| {
      SetSlot(env, t, b, p, -1, id, info[id].addr);
      if id != x && p == BucketPosition(env, true, b, info[id].addr) {
        assert b !in Slots(env, t, id, info[id].addr);
      }
    }
  }

  /** What the edits need to know of a manager, part by part. */
  lemma Parts(env: Env, m: Mgr, loose: set<int>, gap: int)
    requires Inv(env, m, loose, gap)
    ensures -1 !in m.info && Dim(m.tried, TRIED_BUCKET_COUNT) && Dim(m.new_, NEW_BUCKET_COUNT)
    ensures IdsOk(m) && RandomOk(m.info, m.random) && AddrOk(env, m.info, m.addr) && CountsOk(m, gap)
    ensures NewOk(env, m.info, m.new_) && TriedOk(env, m.info, m.tried) && EntriesOk(m.info, loose)
  {
    hide RandomOk, AddrOk, CountsOk, EntriesOk;
  }

  lemma SlotKnown(env: Env, info: map<int, AddrInfo>, t: Table, b: nat, p: nat)
    requires NewOk(env, info, t) && b < NEW_BUCKET_COUNT && p < BUCKET_SIZE
    ensures |t| == NEW_BUCKET_COUNT && |t[b]| == BUCKET_SIZE && (t[b][p] != -1 ==> t[b][p] in info)
  {
  }

  lemma ClearSlotEntriesOk(info: map<int, AddrInfo>, x: int, loose: set<int>)
    requires EntriesOk(info, loose) && x in info && info[x].nRefCount > 0
    ensures EntriesOk(info[x := info[x].(nRefCount := info[x].nRefCount - 1)], loose + {x})
  {
  }

  /** An entry with a slot in the new table is not tried. */
  lemma UntriedWithSlot(info: map<int, AddrInfo>, x: int, loose: set<int>)
    requires EntriesOk(info, loose) && x in info && info[x].nRefCount > 0
    ensures !info[x].fInTried
  {
  }

  lemma ClearSlotInv(env: Env, m: Mgr, b: nat, p: nat, loose: set<int>, gap: int)
    requires Inv(env, m, loose, gap)
    requires b < NEW_BUCKET_COUNT && p < BUCKET_SIZE && m.new_[b][p] != -1
    ensures m.info[m.new_[b][p]].nRefCount > 0
    ensures Inv(env, ClearSlot(m, b, p), loose + {m.new_[b][p]}, gap)
  {
    hide Frame, NewOk, EntriesOk, Dim;
    Parts(env, m, loose, gap);
    SlotKnown(env, m.info, m.new_, b, p);
    var x := m.new_[b][p];
    ClearSlotNewOk(env, m.info, m.new_, b, p);
    ClearSlotEntriesOk(m.info, x, loose);
    UpdateFrame(env, m, x, m.info[x].(nRefCount := m.info[x].nRefCount - 1), Set(m.new_, b, p, -1), gap);
  }

  lemma FillSlotNewOk(env: Env, info: map<int, AddrInfo>, t: Table, b: nat, id: int)
    requires NewOk(env, info, t) && -1 !in info && id in info && b < NEW_BUCKET_COUNT
    requires t[b][BucketPosition(env, true, b, info[id].addr)] == -1
    ensures NewOk(env, info[id := info[id].(nRefCount := info[id].nRefCount + 1)],
                  Set(t, b, BucketPosition(env, true, b, info[id].addr), id))
  {
    var p := BucketPosition(env, true, b, info[id].addr);
    var info' := info[id := info[id].(nRefCount := info[id].nRefCount + 1)];
    forall y | y in info' ensures info'[y].nRefCount == |Slots(env, Set(t, b, p, id), y, info'[y].addr)| {
      SetSlot(env, t, b, p, id, y, info[y].addr);
      if p == BucketPosition(env, true, b, info[y].addr) {
        assert b !in Slots(env, t, y, info[y].addr);
      }
    }
  }

  lemma FillSlotEntriesOk(info: map<int, AddrInfo>, id: int, loose: set<int>)
    requires EntriesOk(info, loose) && id in info && 0 <= info[id].nRefCount < NEW_BUCKETS_PER_ADDRESS
    requires !info[id].fInTried
    ensures EntriesOk(info[id := info[id].(nRefCount := info[id].nRefCount + 1)], loose - {id})
  {
  }

  lemma FillSlotInv(env: Env, m: Mgr, b: nat, id: int, loose: set<int>, gap: int)
    requires Inv(env, m, loose, gap) && id in m.info && b < NEW_BUCKET_COUNT
    requires !m.info[id].fInTried && m.info[id].nRefCount < NEW_BUCKETS_PER_ADDRESS
    requires m.new_[b][BucketPosition(env, true, b, m.info[id].addr)] == -1
    ensures Inv(env, FillSlot(m, b, BucketPosition(env, true, b, m.info[id].addr), id), loose - {id}, gap)
  {
    hide Frame, NewOk, EntriesOk, Dim;
    Parts(env, m, loose, gap);
    var p := BucketPosition(env, true, b, m.info[id].addr);
    SlotKnown(env, m.info, m.new_, b, p);
    SlotsCount(env, m, id);
    FillSlotNewOk(env, m.info, m.new_, b, id);
    FillSlotEntriesOk(m.info, id, loose);
    UpdateFrame(env, m, id, m.info[id].(nRefCount := m.info[id].nRefCount + 1), Set(m.new_, b, p, id), gap);
  }

  predicate SameAside(r: AddrInfo, r': AddrInfo) {
    r'.addr == r.addr && r'.fInTried == r.fInTried && r'.nRefCount == r.nRefCount && SameStats(r, r')
  }

  /** Two entry maps that differ only in the positions in the random order. */
  predicate OnlyPositionsDiffer(info: map<int, AddrInfo>, info': map<int, AddrInfo>) {
    && (forall id :: id in info ==> id in info' && SameAside(info[id], info'[id]))
    && (forall id :: id in info' ==> id in info && SameAside(info[id], info'[id]))
  }

  lemma PositionsAndIds(info: map<int, AddrInfo>, info': map<int, AddrInfo>)
    requires OnlyPositionsDiffer(info, info')
    ensures TriedIds(info') == TriedIds(info) && NewIds(info') == NewIds(info)
  {
    forall x
      ensures x in TriedIds(info') <==> x in TriedIds(info)
      ensures x in NewIds(info') <==> x in NewIds(info)
    {
      assert x in info ==> SameAside(info[x], info'[x]);
    }
  }

  lemma PositionsAndAddr(env: Env, info: map<int, AddrInfo>, info': map<int, AddrInfo>, addr: map<Service, int>)
    requires OnlyPositionsDiffer(info, info') && AddrOk(env, info, addr)
    ensures AddrOk(env, info', addr)
  {
    forall id | id in info' ensures Norm(env, info'[id].addr) in addr && addr[Norm(env, info'[id].addr)] == id {
      assert SameAside(info[id], info'[id]);
    }
    assert forall id :: id in info ==> id in info' && SameAside(info[id], info'[id]);
    forall a | a in addr ensures addr[a] in info' && Norm(env, info'[addr[a]].addr) == a {
      assert SameAside(info[addr[a]], info'[addr[a]]);
    }
  }

  lemma PositionsAndTables(env: Env, info: map<int, AddrInfo>, info': map<int, AddrInfo>, t: Table, u: Table)
    requires OnlyPositionsDiffer(info, info') && NewOk(env, info, t) && TriedOk(env, info, u)
    ensures NewOk(env, info', t) && TriedOk(env, info', u)
  {
    assert forall id :: id in info' ==> SameAside(info[id], info'[id]);
  }

  lemma PositionsAndEntries(info: map<int, AddrInfo>, info': map<int, AddrInfo>, loose: set<int>)
    requires OnlyPositionsDiffer(info, info') && EntriesOk(info, loose)
    ensures EntriesOk(info', loose) && forall id :: id in info' ==> id in info
  {
    assert forall id :: id in info' ==> SameAside(info[id], info'[id]);
  }

  lemma PositionsDoNotMatter(env: Env, m: Mgr, m': Mgr, loose: set<int>, gap: int)
    requires Inv(env, m, loose, gap)
    requires m' == m.(info := m'.info, random := m'.random)
    requires OnlyPositionsDiffer(m.info, m'.info) && RandomOk(m'.info, m'.random)
    ensures Inv(env, m', loose, gap)
  {
    hide AddrOk, NewOk, TriedOk, RandomOk, TriedIds, NewIds, EntriesOk, OnlyPositionsDiffer;
    PositionsAndIds(m.info, m'.info);
    PositionsAndAddr(env, m.info, m'.info, m.addr);
    PositionsAndTables(env, m.info, m'.info, m.new_, m.tried);
    PositionsAndEntries(m.info, m'.info, loose);
  }

  lemma SamePlaces(r: AddrInfo, i: int)
    ensures SameAside(r, r.(nRandomPos := i))
  {
  }

  lemma NoChange(info: map<int, AddrInfo>)
    ensures forall id :: id in info ==> SameAside(info[id], info[id])
  {
  }

  lemma SwapRandomOk(m: Mgr, i: nat, j: nat)
    requires RandomOk(m.info, m.random) && i < |m.random| && j < |m.random|
    ensures RandomOk(Swapped(m, i, j).info, Swapped(m, i, j).random)
    ensures OnlyPositionsDiffer(m.info, Swapped(m, i, j).info)
    ensures |Swapped(m, i, j).random| == |m.random| && Swapped(m, i, j).info[m.random[i]].nRandomPos == j
  {
    hide SameStats;
    if i != j {
      var info, info' := m.info, Swapped(m, i, j).info;
      var x, y := m.random[i], m.random[j];
      assert info'[x] == info[x].(nRandomPos := j) && info'[y] == info[y].(nRandomPos := i);
      assert forall id :: id in info <==> id in info';
      assert forall id :: id in info && id != x && id != y ==> info'[id] == info[id];
      SamePlaces(info[x], j);
      SamePlaces(info[y], i);
      NoChange(info);
    } else {
      NoChange(m.info);
    }
  }

  lemma SwappedInv(env: Env, m: Mgr, i: nat, j: nat, loose: set<int>, gap: int)
    requires Inv(env, m, loose, gap) && i < |m.random| && j < |m.random|
    ensures Inv(env, Swapped(m, i, j), loose, gap)
  {
    SwapRandomOk(m, i, j);
    PositionsDoNotMatter(env, m, Swapped(m, i, j), loose, gap);
  }

  lemma DropRandomOk(info: map<int, AddrInfo>, random: seq<int>, id: int)
    requires RandomOk(info, random) && id in info && info[id].nRandomPos == |random| - 1
    ensures RandomOk(info - {id}, random[..|random| - 1])
  {
  }

  lemma DropAddrOk(env: Env, info: map<int, AddrInfo>, addr: map<Service, int>, id: int)
    requires AddrOk(env, info, addr) && id in info
    ensures AddrOk(env, info - {id}, addr - {Norm(env, info[id].addr)})
  {
  }

  lemma DropNewOk(env: Env, info: map<int, AddrInfo>, t: Table, id: int)
    requires NewOk(env, info, t) && id in info && info[id].nRefCount == 0
    ensures NewOk(env, info - {id}, t)
  {
    assert Slots(env, t, id, info[id].addr) == {};
    forall b, p | 0 <= b < NEW_BUCKET_COUNT && 0 <= p < BUCKET_SIZE && t[b][p] != -1 ensures t[b][p] != id {
      assert b !in Slots(env, t, id, info[id].addr);
    }
  }

  lemma DropTriedOk(env: Env, info: map<int, AddrInfo>, t: Table, id: int)
    requires TriedOk(env, info, t) && id in info && !info[id].fInTried
    ensures TriedOk(env, info - {id}, t)
  {
  }

  lemma DropCounts(info: map<int, AddrInfo>, id: int)
    requires id in info && !info[id].fInTried
    ensures TriedIds(info - {id}) == TriedIds(info) && |NewIds(info - {id})| == |NewIds(info)| - 1
  {
    assert NewIds(info - {id}) == NewIds(info) - {id} && id in NewIds(info);
  }

  lemma DropEntriesOk(info: map<int, AddrInfo>, id: int, loose: set<int>)
    requires EntriesOk(info, loose)
    ensures EntriesOk(info - {id}, loose - {id})
  {
  }

  lemma DropLastInv(env: Env, s: Mgr, id: int, loose: set<int>, gap: int)
    requires Inv(env, s, loose, gap) && id in s.info && s.info[id].nRandomPos == |s.random| - 1
    requires !s.info[id].fInTried && s.info[id].nRefCount == 0
    ensures Inv(env, DropLast(env, s, id), loose - {id}, gap)
  {
    hide RandomOk, AddrOk, NewOk, TriedOk, EntriesOk, TriedIds, NewIds;
    DropCounts(s.info, id);
    DropEntriesOk(s.info, id, loose);
    DropRandomOk(s.info, s.random, id);
    DropAddrOk(env, s.info, s.addr, id);
    DropNewOk(env, s.info, s.new_, id);
    DropTriedOk(env, s.info, s.tried, id);
  }

  lemma RemovedInv(env: Env, m: Mgr, id: int, loose: set<int>, gap: int)
    requires Inv(env, m, loose, gap) && id in m.info
    requires !m.info[id].fInTried && m.info[id].nRefCount == 0
    ensures Inv(env, Removed(env, m, id), loose - {id}, gap)
  {
    hide Inv, RandomOk, Swapped, DropLast, OnlyPositionsDiffer;
    Parts(env, m, loose, gap);
    var i, last := m.info[id].nRandomPos, |m.random| - 1;
    RandomPlace(m, id);
    SwappedInv(env, m, i, last, loose, gap);
    DropLastInv(env, Swapped(m, i, last), id, loose, gap);
  }

  /** An entry swapped to the end of the random order is otherwise the same. */
  lemma RandomPlace(m: Mgr, id: int)
    requires RandomOk(m.info, m.random) && id in m.info
    ensures 0 <= m.info[id].nRandomPos < |m.random| && m.random[m.info[id].nRandomPos] == id
    ensures m.random[|m.random| - 1] in m.info
    ensures var s := Swapped(m, m.info[id].nRandomPos, |m.random| - 1);
      && id in s.info && SameAside(m.info[id], s.info[id])
      && s.info[id].nRandomPos == |s.random| - 1 && |s.random| == |m.random|
  {
    SwapRandomOk(m, m.info[id].nRandomPos, |m.random| - 1);
  }

  lemma CreateNewOk(env: Env, info: map<int, AddrInfo>, t: Table, id: int, r: AddrInfo)
    requires NewOk(env, info, t) && id !in info && id != -1 && r.nRefCount == 0
    ensures NewOk(env, info[id := r], t)
  {
    forall b | 0 <= b < NEW_BUCKET_COUNT ensures t[b][BucketPosition(env, true, b, r.addr)] != id {
    }
    assert Slots(env, t, id, r.addr) == {};
  }

  lemma CreateRandomOk(info: map<int, AddrInfo>, random: seq<int>, id: int, r: AddrInfo)
    requires RandomOk(info, random) && id !in info && r.nRandomPos == |random|
    ensures RandomOk(info[id := r], random + [id])
  {
  }

  lemma CreateAddrOk(env: Env, info: map<int, AddrInfo>, addr: map<Service, int>, id: int, r: AddrInfo)
    requires AddrOk(env, info, addr) && id !in info && Norm(env, r.addr) !in addr
    ensures AddrOk(env, info[id := r], addr[Norm(env, r.addr) := id])
  {
  }

  lemma CreateTriedOk(env: Env, info: map<int, AddrInfo>, t: Table, id: int, r: AddrInfo)
    requires TriedOk(env, info, t) && id !in info && !r.fInTried
    ensures TriedOk(env, info[id := r], t)
  {
  }

  lemma CreatedInv(env: Env, m: Mgr, r: AddrInfo, loose: set<int>, gap: int)
    requires Inv(env, m, loose, gap) && Norm(env, r.addr) !in m.addr
    requires !r.fInTried && r.nRefCount == 0
    ensures Inv(env, Created(env, m, r), loose + {m.nIdCount}, gap + 1)
  {
    hide RandomOk, AddrOk, NewOk, TriedOk;
    var id, m' := m.nIdCount, Created(env, m, r);
    assert CountsOk(m', gap + 1) by {
      assert NewIds(m'.info) == NewIds(m.info) + {id} && TriedIds(m'.info) == TriedIds(m.info);
    }
    CreateRandomOk(m.info, m.random, id, m'.info[id]);
    CreateAddrOk(env, m.info, m.addr, id, m'.info[id]);
    CreateNewOk(env, m.info, m.new_, id, m'.info[id]);
    CreateTriedOk(env, m.info, m.tried, id, m'.info[id]);
  }

  lemma UntryTriedOk(env: Env, m: Mgr, id: int)
    requires TriedOk(env, m.info, m.tried) && -1 !in m.info && id in m.info && m.info[id].fInTried
    ensures TriedOk(env, Untried(env, m, id).info, Untried(env, m, id).tried)
    ensures TriedSlot(env, Untried(env, m, id).tried, m.info[id].addr) == -1
  {
  }

  lemma MovesElement(a: set<int>, b: set<int>, x: int)
    requires x in a && x !in b && a - {x} == b
    ensures |a| == |b| + 1
  {
    assert a == b + {x};
  }

  lemma FlipIds(info: map<int, AddrInfo>, id: int, r: AddrInfo)
    requires id in info && r.fInTried != info[id].fInTried
    ensures |TriedIds(info[id := r])| == |TriedIds(info)| + (if r.fInTried then 1 else -1)
    ensures |NewIds(info[id := r])| == |NewIds(info)| + (if r.fInTried then -1 else 1)
  {
    var info' := info[id := r];
    var t, t', n, n' := TriedIds(info), TriedIds(info'), NewIds(info), NewIds(info');
    forall x
      ensures x != id ==> (x in t <==> x in t') && (x in n <==> x in n')
      ensures x == id ==> (x in t <==> !r.fInTried) && (x in n <==> r.fInTried)
      ensures x == id ==> (x in t' <==> r.fInTried) && (x in n' <==> !r.fInTried)
    {
    }
    hide TriedIds, NewIds;
    if r.fInTried {
      MovesElement(t', t, id);
      MovesElement(n, n', id);
    } else {
      MovesElement(t, t', id);
      MovesElement(n', n, id);
    }
  }

  lemma UntryEntriesOk(info: map<int, AddrInfo>, id: int, loose: set<int>)
    requires EntriesOk(info, loose) && id in info && info[id].fInTried
    ensures EntriesOk(info[id := info[id].(fInTried := false)], loose + {id})
  {
  }

  lemma UntriedInv(env: Env, m: Mgr, id: int, loose: set<int>, gap: int)
    requires Inv(env, m, loose, gap) && id in m.info && m.info[id].fInTried
    ensures Inv(env, Untried(env, m, id), loose + {id}, gap + 1)
  {
    hide Dim, TriedIds, NewIds, RandomOk, AddrOk, NewOk, TriedOk, EntriesOk;
    Parts(env, m, loose, gap);
    var m' := Untried(env, m, id);
    UntryTriedOk(env, m, id);
    UntryEntriesOk(m.info, id, loose);
    FlipIds(m.info, id, m'.info[id]);
    UpdateRandomOk(m.info, m.random, id, m'.info[id]);
    UpdateAddrOk(env, m.info, m.addr, id, m'.info[id]);
    UpdateNewOk(env, m.info, m.new_, id, m'.info[id]);
  }

  lemma TryTriedOk(env: Env, m: Mgr, id: int)
    requires TriedOk(env, m.info, m.tried) && -1 !in m.info && id in m.info && !m.info[id].fInTried
    requires TriedSlot(env, m.tried, m.info[id].addr) == -1
    ensures TriedOk(env, Tried(env, m, id).info, Tried(env, m, id).tried)
  {
  }

  lemma TryEntriesOk(info: map<int, AddrInfo>, id: int, loose: set<int>)
    requires EntriesOk(info, loose) && id in info && info[id].nRefCount == 0
    ensures EntriesOk(info[id := info[id].(fInTried := true)], loose - {id})
  {
  }

  lemma TriedInv(env: Env, m: Mgr, id: int, loose: set<int>, gap: int)
    requires Inv(env, m, loose, gap) && id in m.info && !m.info[id].fInTried
    requires m.info[id].nRefCount == 0
    requires TriedSlot(env, m.tried, m.info[id].addr) == -1
    ensures Inv(env, Tried(env, m, id), loose - {id}, gap - 1)
  {
    hide Dim, TriedIds, NewIds, RandomOk, AddrOk, NewOk, TriedOk, EntriesOk;
    Parts(env, m, loose, gap);
    var m' := Tried(env, m, id);
    TryTriedOk(env, m, id);
    TryEntriesOk(m.info, id, loose);
    FlipIds(m.info, id, m'.info[id]);
    UpdateRandomOk(m.info, m.random, id, m'.info[id]);
    UpdateAddrOk(env, m.info, m.addr, id, m'.info[id]);
    UpdateNewOk(env, m.info, m.new_, id, m'.info[id]);
  }

  // ----- Composite edits

  /** ClearNew: empties a slot of the new table and forgets the entry if that was its last one. */
  function ClearedNew(env: Env, m: Mgr, b: nat, p: nat): Mgr
    requires NewOk(env, m.info, m.new_) && RandomOk(m.info, m.random) && b < NEW_BUCKET_COUNT && p < BUCKET_SIZE
  {
    var x := m.new_[b][p];
    if x == -1 then m
    else
      var c := ClearSlot(m, b, p);
      UpdateRandomOk(m.info, m.random, x, c.info[x]);
      if c.info[x].nRefCount == 0 then Removed(env, c, x) else c
  }

  /** Everything an edit of the new table leaves alone about the other entries. */
  predicate KeepsOthers(m: Mgr, m': Mgr, x: int) {
    && m'.tried == m.tried && m'.nTried == m.nTried && m'.nIdCount == m.nIdCount && m'.collisions == m.collisions
    && (forall y :: y in m'.info ==>
          y in m.info && m'.info[y].addr == m.info[y].addr && SameStats(m.info[y], m'.info[y]))
    && (forall y :: y in m.info && y != x ==> y in m'.info && SameAside(m.info[y], m'.info[y]))
  }

  lemma ClearedNewInv(env: Env, m: Mgr, b: nat, p: nat, loose: set<int>, gap: int)
    requires Inv(env, m, loose, gap) && b < NEW_BUCKET_COUNT && p < BUCKET_SIZE
    ensures Inv(env, ClearedNew(env, m, b, p), loose, gap)
  {
    var x := m.new_[b][p];
    if x != -1 {
      ClearSlotInv(env, m, b, p, loose, gap);
      var c := ClearSlot(m, b, p);
      if c.info[x].nRefCount == 0 {
        RemovedInv(env, c, x, loose + {x}, gap);
      }
      hide Frame, NewOk, Removed;
    }
  }

  lemma SwappedFrame(c: Mgr, i: nat, j: nat)
    requires RandomOk(c.info, c.random) && i < |c.random| && j < |c.random|
    ensures var s := Swapped(c, i, j); s == c.(info := s.info, random := s.random) && c.random[i] in s.info
  {
  }

  lemma RemovedEffect(env: Env, c: Mgr, x: int)
    requires RandomOk(c.info, c.random) && x in c.info
    ensures Removed(env, c, x).new_ == c.new_
    ensures KeepsOthers(c, Removed(env, c, x), x)
  {
    hide Swapped, KeepsOthers, OnlyPositionsDiffer, DropLast;
    var i, last := c.info[x].nRandomPos, |c.random| - 1;
    SwapRandomOk(c, i, last);
    SwappedFrame(c, i, last);
    DropEffect(env, c, Swapped(c, i, last), x);
  }

  lemma DropEffect(env: Env, c: Mgr, s: Mgr, x: int)
    requires s == c.(info := s.info, random := s.random) && OnlyPositionsDiffer(c.info, s.info)
    requires x in s.info && |s.random| > 0
    ensures DropLast(env, s, x).new_ == c.new_ && KeepsOthers(c, DropLast(env, s, x), x)
  {
    hide SameStats;
    assert forall y :: y in s.info ==> y in c.info && SameAside(c.info[y], s.info[y]);
    assert forall y :: y in c.info ==> y in s.info && SameAside(c.info[y], s.info[y]);
  }

  lemma ClearSlotEffect(m: Mgr, b: nat, p: nat)
    requires b < |m.new_| && p < |m.new_[b]| && m.new_[b][p] in m.info
    ensures ClearSlot(m, b, p).new_ == Set(m.new_, b, p, -1) && KeepsOthers(m, ClearSlot(m, b, p), m.new_[b][p])
  {
  }

  lemma KeepsOthersChain(a: Mgr, b: Mgr, c: Mgr, x: int)
    requires KeepsOthers(a, b, x) && KeepsOthers(b, c, x)
    ensures KeepsOthers(a, c, x)
  {
  }

  lemma ClearSlotRandomOk(m: Mgr, b: nat, p: nat)
    requires b < |m.new_| && p < |m.new_[b]| && m.new_[b][p] in m.info && RandomOk(m.info, m.random)
    ensures var c := ClearSlot(m, b, p); RandomOk(c.info, c.random) && m.new_[b][p] in c.info
  {
    var x := m.new_[b][p];
    UpdateRandomOk(m.info, m.random, x, ClearSlot(m, b, p).info[x]);
  }

  lemma NothingChanges(m: Mgr, x: int)
    ensures KeepsOthers(m, m, x)
  {
  }

  lemma ClearedNewEffect(env: Env, m: Mgr, b: nat, p: nat)
    requires NewOk(env, m.info, m.new_) && RandomOk(m.info, m.random) && b < NEW_BUCKET_COUNT && p < BUCKET_SIZE
    ensures ClearedNew(env, m, b, p).new_ == Set(m.new_, b, p, -1)
    ensures KeepsOthers(m, ClearedNew(env, m, b, p), m.new_[b][p])
  {
    hide NewOk, RandomOk, ClearSlot, Removed, KeepsOthers;
    SlotKnown(env, m.info, m.new_, b, p);
    var x := m.new_[b][p];
    if x != -1 {
      var c := ClearSlot(m, b, p);
      ClearSlotEffect(m, b, p);
      ClearSlotRandomOk(m, b, p);
      if c.info[x].nRefCount == 0 {
        RemovedEffect(env, c, x);
        KeepsOthersChain(m, c, Removed(env, c, x), x);
      }
    } else {
      assert m.new_[b][p := -1] == m.new_[b];
      NothingChanges(m, x);
    }
  }

  /** The scan of MakeTried that takes an entry out of the first k new buckets. */
  function Unslotted(env: Env, m: Mgr, id: int, k: nat): (u: Mgr)
    requires Dim(m.new_, NEW_BUCKET_COUNT) && id in m.info && k <= NEW_BUCKET_COUNT
    ensures Dim(u.new_, NEW_BUCKET_COUNT) && id in u.info && u.info[id].addr == m.info[id].addr
  {
    if k == 0 then m
    else
      var u := Unslotted(env, m, id, k - 1);
      var p := BucketPosition(env, true, k - 1, m.info[id].addr);
      if u.new_[k - 1][p] == id then ClearSlot(u, k - 1, p) else u
  }

  lemma {:induction false} UnslottedEffect(env: Env, m: Mgr, id: int, k: nat)
    requires Dim(m.new_, NEW_BUCKET_COUNT) && id in m.info && k <= NEW_BUCKET_COUNT
    ensures var u := Unslotted(env, m, id, k);
      u == m.(new_ := u.new_, info := m.info[id := m.info[id].(nRefCount := u.info[id].nRefCount)])
  {
    if k > 0 {
      UnslottedEffect(env, m, id, k - 1);
    } else {
      assert m.info == m.info[id := m.info[id].(nRefCount := m.info[id].nRefCount)];
    }
  }

  lemma NoSlotThere(env: Env, t: Table, b: nat, id: int, a: Service)
    requires Dim(t, NEW_BUCKET_COUNT) && b < NEW_BUCKET_COUNT && t[b][BucketPosition(env, true, b, a)] != id
    ensures b !in Slots(env, t, id, a)
  {
  }

  lemma DimAt(t: Table, buckets: nat, b: nat)
    requires Dim(t, buckets) && b < buckets
    ensures |t| == buckets && |t[b]| == BUCKET_SIZE
  {
  }

  lemma ClearSlotTable(m: Mgr, b: nat, p: nat)
    requires b < |m.new_| && p < |m.new_[b]| && m.new_[b][p] in m.info
    ensures ClearSlot(m, b, p).new_ == Set(m.new_, b, p, -1)
  {
  }

  lemma LooserInv(env: Env, m: Mgr, loose: set<int>, looser: set<int>, gap: int)
    requires Inv(env, m, loose, gap) && loose <= looser
    ensures Inv(env, m, looser, gap)
  {
    hide Frame, NewOk;
  }

  lemma {:induction false} UnslottedInv(env: Env, m: Mgr, id: int, k: nat, loose: set<int>, gap: int)
    requires Inv(env, m, loose, gap) && id in m.info && k <= NEW_BUCKET_COUNT
    ensures Inv(env, Unslotted(env, m, id, k), loose + {id}, gap)
    ensures forall b :: 0 <= b < k ==> b !in Slots(env, Unslotted(env, m, id, k).new_, id, m.info[id].addr)
  {
    hide Inv, Slots, Dim, ClearSlot;
    Parts(env, m, loose, gap);
    if k == 0 {
      LooserInv(env, m, loose, loose + {id}, gap);
    } else {
      UnslottedInv(env, m, id, k - 1, loose, gap);
      var u := Unslotted(env, m, id, k - 1);
      var a := m.info[id].addr;
      var p := BucketPosition(env, true, k - 1, a);
      DimAt(u.new_, NEW_BUCKET_COUNT, k - 1);
      if u.new_[k - 1][p] == id {
        ClearSlotInv(env, u, k - 1, p, loose + {id}, gap);
        SetSlot(env, u.new_, k - 1, p, -1, id, a);
        assert loose + {id} + {id} == loose + {id};
        assert Unslotted(env, m, id, k) == ClearSlot(u, k - 1, p);
        ClearSlotTable(u, k - 1, p);
      } else {
        NoSlotThere(env, u.new_, k - 1, id, a);
      }
    }
  }

  lemma SlotIsNeither(env: Env, m: Mgr, b: nat, p: nat, id: int)
    requires NewOk(env, m.info, m.new_) && id in m.info && m.info[id].nRefCount == 0 && -1 !in m.info
    requires b < NEW_BUCKET_COUNT && p < BUCKET_SIZE
    ensures m.new_[b][p] != id
  {
    assert b !in Slots(env, m.new_, id, m.info[id].addr);
  }

  /** The slot of the new table an entry's own source leads to. */
  function HomeBucket(env: Env, r: AddrInfo): (b: nat)
    ensures b < NEW_BUCKET_COUNT
  {
    NewBucket(env, r.addr, r.source)
  }

  function HomePosition(env: Env, r: AddrInfo): (p: nat)
    ensures p < BUCKET_SIZE
  {
    BucketPosition(env, true, HomeBucket(env, r), r.addr)
  }

  /** An entry in neither table, once the slot it goes to is cleared. */
  lemma RefillReady(env: Env, t: Mgr, out: int)
    requires NewOk(env, t.info, t.new_) && RandomOk(t.info, t.random) && -1 !in t.info
    requires out in t.info && t.info[out].nRefCount == 0
    ensures var b, p := HomeBucket(env, t.info[out]), HomePosition(env, t.info[out]);
      && |t.new_| == NEW_BUCKET_COUNT && |t.new_[b]| == BUCKET_SIZE && t.new_[b][p] != out
      && var c := ClearedNew(env, t, b, p);
      && KeepsOthers(t, c, t.new_[b][p]) && out in c.info && SameAside(t.info[out], c.info[out])
      && |c.new_| == NEW_BUCKET_COUNT && |c.new_[b]| == BUCKET_SIZE && c.new_[b][p] == -1
  {
    hide NewOk, RandomOk, ClearedNew, SameStats;
    var b, p := HomeBucket(env, t.info[out]), HomePosition(env, t.info[out]);
    SlotKnown(env, t.info, t.new_, b, p);
    ClearedNewEffect(env, t, b, p);
    SlotIsNeither(env, t, b, p, out);
  }

  /** An entry in neither table goes to the new table, clearing the slot it needs there. */
  function Refilled(env: Env, t: Mgr, out: int): Mgr
    requires NewOk(env, t.info, t.new_) && RandomOk(t.info, t.random) && -1 !in t.info
    requires out in t.info && t.info[out].nRefCount == 0
  {
    RefillReady(env, t, out);
    var b, p := HomeBucket(env, t.info[out]), HomePosition(env, t.info[out]);
    var f := FillSlot(ClearedNew(env, t, b, p), b, p, out);
    f.(nNew := f.nNew + 1)
  }

  lemma RefilledInv(env: Env, t: Mgr, out: int, loose: set<int>, gap: int)
    requires Inv(env, t, loose, gap) && -1 !in t.info && out in t.info
    requires !t.info[out].fInTried && t.info[out].nRefCount == 0
    ensures NewOk(env, t.info, t.new_) && RandomOk(t.info, t.random)
    ensures Inv(env, Refilled(env, t, out), loose - {out}, gap - 1)
  {
    hide Inv, NewOk, RandomOk, ClearedNew, FillSlot, SameStats, KeepsOthers;
    Parts(env, t, loose, gap);
    RefillReady(env, t, out);
    var b, p := HomeBucket(env, t.info[out]), HomePosition(env, t.info[out]);
    ClearedNewInv(env, t, b, p, loose, gap);
    var c := ClearedNew(env, t, b, p);
    FillSlotInv(env, c, b, out, loose, gap);
    Recounted(env, FillSlot(c, b, p, out), loose - {out}, gap, 1);
  }

  lemma RefilledEffect(env: Env, t: Mgr, out: int, id: int)
    requires NewOk(env, t.info, t.new_) && RandomOk(t.info, t.random) && -1 !in t.info
    requires out in t.info && t.info[out].nRefCount == 0
    requires id in t.info && id != out && t.info[id].nRefCount == 0
    ensures var e := Refilled(env, t, out);
      && KeepsEntries(t, e) && e.tried == t.tried
      && id in e.info && SameAside(t.info[id], e.info[id])
      && out in e.info && e.info[out].fInTried == t.info[out].fInTried && e.info[out].nRefCount == 1
  {
    hide NewOk, RandomOk, ClearedNew, SameStats, KeepsOthers, KeepsEntries, SameAside, FillSlot;
    RefillReady(env, t, out);
    var b, p := HomeBucket(env, t.info[out]), HomePosition(env, t.info[out]);
    SlotIsNeither(env, t, b, p, id);
    FillEffect(t, ClearedNew(env, t, b, p), t.new_[b][p], b, p, out, id);
  }

  lemma FillEffect(t: Mgr, c: Mgr, x: int, b: nat, p: nat, out: int, id: int)
    requires KeepsOthers(t, c, x) && b < |c.new_| && p < |c.new_[b]|
    requires out in t.info && id in t.info && id != out && x != out && x != id && t.info[out].nRefCount == 0
    ensures out in c.info
    ensures var f := FillSlot(c, b, p, out);
      var e := f.(nNew := f.nNew + 1);
      && KeepsEntries(t, e) && e.tried == t.tried && id in e.info && SameAside(t.info[id], e.info[id])
      && out in e.info && e.info[out].fInTried == t.info[out].fInTried && e.info[out].nRefCount == 1
  {
    assert SameAside(t.info[out], c.info[out]) && SameAside(t.info[id], c.info[id]);
  }

  /** A tried entry out of its slot. */
  lemma UntriedParts(env: Env, u: Mgr, out: int, loose: set<int>, gap: int)
    requires Inv(env, u, loose, gap) && out in u.info && u.info[out].fInTried
    ensures Dim(u.tried, TRIED_BUCKET_COUNT)
    ensures var t := Untried(env, u, out);
      && Inv(env, t, loose + {out}, gap + 1) && -1 !in t.info
      && t.info == u.info[out := u.info[out].(fInTried := false)] && t.info[out].nRefCount == 0
      && t.nIdCount == u.nIdCount && t.collisions == u.collisions
      && NewOk(env, t.info, t.new_) && RandomOk(t.info, t.random)
  {
    hide Frame, NewOk, RandomOk, Dim;
    Parts(env, u, loose, gap);
    UntriedInv(env, u, out, loose, gap);
    Parts(env, Untried(env, u, out), loose + {out}, gap + 1);
  }

  /** The displaced occupant of a tried slot goes back to the new table. */
  function Evicted(env: Env, u: Mgr, out: int, id: int): Mgr
    requires Inv(env, u, {id}, 1) && out in u.info && u.info[out].fInTried
  {
    UntriedParts(env, u, out, {id}, 1);
    Refilled(env, Untried(env, u, out), out)
  }

  lemma EvictedInv(env: Env, u: Mgr, out: int, id: int)
    requires Inv(env, u, {id}, 1) && out in u.info && u.info[out].fInTried
    ensures Inv(env, Evicted(env, u, out, id), {id} - {out}, 1)
  {
    hide Inv, NewOk, RandomOk, Untried, Refilled, Dim;
    UntriedParts(env, u, out, {id}, 1);
    RefilledInv(env, Untried(env, u, out), out, {id} + {out}, 2);
    assert {id} + {out} - {out} == {id} - {out};
  }

  /** No entry appears, and those that stay keep their address. */
  predicate KeepsAddresses(m: Mgr, m': Mgr) {
    && m'.nIdCount == m.nIdCount && m'.collisions == m.collisions
    && forall y :: y in m'.info ==> y in m.info && m'.info[y].addr == m.info[y].addr
  }

  /** What edits of the tables leave of the entries that stay. */
  predicate KeepsEntries(m: Mgr, m': Mgr) {
    KeepsAddresses(m, m') && forall y :: y in m'.info && y in m.info ==> SameStats(m.info[y], m'.info[y])
  }

  lemma EvictedEffect(env: Env, u: Mgr, out: int, id: int)
    requires Inv(env, u, {id}, 1) && out in u.info && u.info[out].fInTried
    requires id in u.info && id != out && u.info[id].nRefCount == 0
    ensures Dim(u.tried, TRIED_BUCKET_COUNT)
    ensures var e := Evicted(env, u, out, id);
      && KeepsEntries(u, e)
      && e.tried == Untried(env, u, out).tried
      && id in e.info && SameAside(u.info[id], e.info[id])
      && out in e.info && !e.info[out].fInTried && e.info[out].nRefCount == 1
  {
    hide Inv, NewOk, RandomOk, Untried, Refilled, Dim, KeepsEntries;
    UntriedParts(env, u, out, {id}, 1);
    var t := Untried(env, u, out);
    RefilledEffect(env, t, out, id);
    UntriedKeepsEntries(u, t, out, Refilled(env, t, out));
  }

  lemma UntriedKeepsEntries(u: Mgr, t: Mgr, out: int, e: Mgr)
    requires out in u.info && t.info == u.info[out := u.info[out].(fInTried := false)]
    requires t.nIdCount == u.nIdCount && t.collisions == u.collisions && KeepsEntries(t, e)
    ensures KeepsEntries(u, e)
  {
  }

  /** The manager once an entry is out of all its new buckets. */
  function OutOfNew(env: Env, m: Mgr, id: int): Mgr
    requires Dim(m.new_, NEW_BUCKET_COUNT) && id in m.info
  {
    var u := Unslotted(env, m, id, NEW_BUCKET_COUNT);
    u.(nNew := u.nNew - 1)
  }

  lemma NoSlotsLeft(env: Env, m: Mgr, id: int)
    requires NewOk(env, m.info, m.new_) && id in m.info
    requires forall b :: 0 <= b < NEW_BUCKET_COUNT ==> b !in Slots(env, m.new_, id, m.info[id].addr)
    ensures m.info[id].nRefCount == 0
  {
    assert Slots(env, m.new_, id, m.info[id].addr) == {};
  }

  lemma OneCountKeepsEntries(m: Mgr, u: Mgr, id: int, n: int)
    requires id in m.info && u.info == m.info[id := m.info[id].(nRefCount := n)]
    requires u.nIdCount == m.nIdCount && u.collisions == m.collisions
    ensures KeepsEntries(m, u)
  {
  }

  lemma OutOfNewReady(env: Env, m: Mgr, id: int)
    requires Inv(env, m, {}, 0) && id in m.info && !m.info[id].fInTried
    ensures Dim(m.new_, NEW_BUCKET_COUNT)
    ensures var u := OutOfNew(env, m, id);
      && Inv(env, u, {id}, 1) && u.tried == m.tried && KeepsEntries(m, u) && id in u.info
      && u.info[id].addr == m.info[id].addr && u.info[id].nRefCount == 0 && !u.info[id].fInTried
  {
    hide Inv, NewOk, Slots, Unslotted, Dim, KeepsEntries;
    Parts(env, m, {}, 0);
    UnslottedInv(env, m, id, NEW_BUCKET_COUNT, {}, 0);
    UnslottedEffect(env, m, id, NEW_BUCKET_COUNT);
    var n := Unslotted(env, m, id, NEW_BUCKET_COUNT);
    assert {} + {id} == {id};
    Parts(env, n, {id}, 0);
    NoSlotsLeft(env, n, id);
    Recounted(env, n, {id}, 0, -1);
    OneCountKeepsEntries(m, OutOfNew(env, m, id), id, 0);
  }

  lemma Occupant(env: Env, u: Mgr, id: int)
    requires TriedOk(env, u.info, u.tried) && id in u.info && !u.info[id].fInTried && -1 !in u.info
    requires TriedSlot(env, u.tried, u.info[id].addr) != -1
    ensures var out := TriedSlot(env, u.tried, u.info[id].addr);
      var b := TriedBucket(env, u.info[id].addr);
      && out != id && out in u.info && u.info[out].fInTried
      && b == TriedBucket(env, u.info[out].addr)
      && BucketPosition(env, false, b, u.info[id].addr) == BucketPosition(env, false, b, u.info[out].addr)
      && Untried(env, u, out).tried == Set(u.tried, b, BucketPosition(env, false, b, u.info[id].addr), -1)
  {
  }

  /** The manager once the tried slot of an entry is empty. */
  function Freed(env: Env, u: Mgr, id: int): Mgr
    requires Inv(env, u, {id}, 1) && id in u.info && !u.info[id].fInTried && u.info[id].nRefCount == 0
  {
    Parts(env, u, {id}, 1);
    var out := TriedSlot(env, u.tried, u.info[id].addr);
    if out == -1 then u
    else
      Occupant(env, u, id);
      Evicted(env, u, out, id)
  }

  /** The slot is empty, and its occupant is back in the new table. */
  lemma FreedEffect(env: Env, u: Mgr, id: int)
    requires Inv(env, u, {id}, 1) && id in u.info && !u.info[id].fInTried && u.info[id].nRefCount == 0
    ensures Dim(u.tried, TRIED_BUCKET_COUNT)
    ensures var f := Freed(env, u, id);
      var b := TriedBucket(env, u.info[id].addr);
      var out := TriedSlot(env, u.tried, u.info[id].addr);
      && Inv(env, f, {id}, 1) && KeepsEntries(u, f) && id in f.info && SameAside(u.info[id], f.info[id])
      && f.tried == Set(u.tried, b, BucketPosition(env, false, b, u.info[id].addr), -1)
      && (out != -1 ==> out != id && out in f.info && !f.info[out].fInTried && f.info[out].nRefCount == 1)
  {
    hide Inv, TriedOk, Evicted, Untried, KeepsEntries;
    Parts(env, u, {id}, 1);
    var b := TriedBucket(env, u.info[id].addr);
    var p := BucketPosition(env, false, b, u.info[id].addr);
    var out := TriedSlot(env, u.tried, u.info[id].addr);
    if out == -1 {
      assert u.tried[b][p := -1] == u.tried[b];
      NothingKeepsEntries(u);
    } else {
      Occupant(env, u, id);
      EvictedEffect(env, u, out, id);
      EvictedInv(env, u, out, id);
      assert {id} - {out} == {id};
    }
  }

  lemma NothingKeepsEntries(m: Mgr)
    ensures KeepsEntries(m, m)
  {
  }

  lemma EmptiedSlot(env: Env, t: Table, t': Table, a: Service)
    requires Dim(t, TRIED_BUCKET_COUNT)
    requires var b := TriedBucket(env, a); t' == Set(t, b, BucketPosition(env, false, b, a), -1)
    ensures Dim(t', TRIED_BUCKET_COUNT) && TriedSlot(env, t', a) == -1
  {
  }

  /** MakeTried: out of every new bucket, then into the tried slot once that is free. */
  function MadeTried(env: Env, m: Mgr, id: int): Mgr
    requires Inv(env, m, {}, 0) && id in m.info && !m.info[id].fInTried
  {
    OutOfNewReady(env, m, id);
    var u := OutOfNew(env, m, id);
    FreedEffect(env, u, id);
    EmptiedSlot(env, u.tried, Freed(env, u, id).tried, u.info[id].addr);
    Tried(env, Freed(env, u, id), id)
  }

  /** Becoming tried, in three steps. */
  lemma MadeTriedSteps(env: Env, m: Mgr, id: int)
    requires Inv(env, m, {}, 0) && id in m.info && !m.info[id].fInTried
    ensures Dim(m.new_, NEW_BUCKET_COUNT)
    ensures var u := OutOfNew(env, m, id);
      && Inv(env, u, {id}, 1) && id in u.info && !u.info[id].fInTried && u.info[id].nRefCount == 0
      && var f := Freed(env, u, id);
      && Dim(f.tried, TRIED_BUCKET_COUNT) && id in f.info && f.info[id].addr == u.info[id].addr
      && TriedSlot(env, f.tried, u.info[id].addr) == -1
      && MadeTried(env, m, id) == Tried(env, f, id)
  {
    hide Inv, OutOfNew, Freed, Tried, Dim, TriedSlot, KeepsEntries, SameStats;
    OutOfNewReady(env, m, id);
    var u := OutOfNew(env, m, id);
    FreedEffect(env, u, id);
    EmptiedSlot(env, u.tried, Freed(env, u, id).tried, u.info[id].addr);
  }

  lemma MadeTriedInv(env: Env, m: Mgr, id: int)
    requires Inv(env, m, {}, 0) && id in m.info && !m.info[id].fInTried
    ensures Inv(env, MadeTried(env, m, id), {}, 0)
  {
    hide Inv, OutOfNew, Freed, Tried, Dim, TriedSlot, KeepsEntries, SameStats;
    MadeTriedSteps(env, m, id);
    var u := OutOfNew(env, m, id);
    FreedEffect(env, u, id);
    TriedInv(env, Freed(env, u, id), id, {id}, 1);
    assert {id} - {id} == {};
  }

  /** A move of id into its tried slot, which sends the occupant back to the new table. */
  predicate MovesToTried(env: Env, m: Mgr, id: int, m': Mgr)
    requires Dim(m.tried, TRIED_BUCKET_COUNT) && id in m.info
  {
    var b := TriedBucket(env, m.info[id].addr);
    var out := TriedSlot(env, m.tried, m.info[id].addr);
    && KeepsEntries(m, m') && id in m'.info && m'.info[id].fInTried
    && m'.tried == Set(m.tried, b, BucketPosition(env, false, b, m.info[id].addr), id)
    && (out != -1 ==> out in m'.info && !m'.info[out].fInTried && m'.info[out].nRefCount == 1)
  }

  lemma TriedEffect(env: Env, m: Mgr, e: Mgr, id: int, v: int)
    requires Dim(m.tried, TRIED_BUCKET_COUNT) && id in m.info && KeepsEntries(m, e) && id in e.info
    requires var b := TriedBucket(env, m.info[id].addr);
      e.tried == Set(m.tried, b, BucketPosition(env, false, b, m.info[id].addr), v)
    requires var out := TriedSlot(env, m.tried, m.info[id].addr);
      out != -1 ==> out != id && out in e.info && !e.info[out].fInTried && e.info[out].nRefCount == 1
    ensures Dim(e.tried, TRIED_BUCKET_COUNT) && MovesToTried(env, m, id, Tried(env, e, id))
  {
    var b := TriedBucket(env, m.info[id].addr);
    var p := BucketPosition(env, false, b, m.info[id].addr);
    assert m.tried[b][p := v][p := id] == m.tried[b][p := id];
  }

  lemma KeepsEntriesChain(a: Mgr, b: Mgr, c: Mgr)
    requires KeepsEntries(a, b) && KeepsEntries(b, c)
    ensures KeepsEntries(a, c)
  {
  }

  lemma MadeTriedEffect(env: Env, m: Mgr, id: int)
    requires Inv(env, m, {}, 0) && id in m.info && !m.info[id].fInTried
    ensures MovesToTried(env, m, id, MadeTried(env, m, id))
  {
    hide Inv, OutOfNew, Freed, Tried, TriedSlot, KeepsEntries, SameStats, MadeTried;
    MadeTriedSteps(env, m, id);
    OutOfNewReady(env, m, id);
    var u := OutOfNew(env, m, id);
    FreedEffect(env, u, id);
    KeepsEntriesChain(m, u, Freed(env, u, id));
    TriedEffect(env, m, Freed(env, u, id), id, -1);
  }

  // ----- Operations

  function FindId(env: Env, m: Mgr, a: Service): Option<int> {
    var n := Norm(env, a);
    if n in m.addr && m.addr[n] in m.info then Some(m.addr[n]) else None
  }

  /** The entry found for an address, if it is the very same address, port included. */
  function FindExact(env: Env, m: Mgr, a: Service): Option<int> {
    var f := FindId(env, m, a);
    if f.Some? && m.info[f.value].addr == a then f else None
  }

  /** A good entry becomes tried, or a pending collision if its slot is taken and that is to be tested first. */
  function Promoted(env: Env, m: Mgr, id: int, testBeforeEvict: bool): Mgr
    requires Inv(env, m, {}, 0) && id in m.info && !m.info[id].fInTried
  {
    Parts(env, m, {}, 0);
    if testBeforeEvict && Occupied(env, m.tried, m.info[id].addr) then
      if |m.collisions| < SET_TRIED_COLLISION_SIZE then m.(collisions := m.collisions + {id}) else m
    else MadeTried(env, m, id)
  }

  function GoodInfo(r: AddrInfo, nTime: int): AddrInfo {
    r.(nLastSuccess := nTime, nLastTry := nTime, nAttempts := 0)
  }

  function GoodSpec(env: Env, m: Mgr, a: Service, testBeforeEvict: bool, nTime: int): Mgr
    requires Inv(env, m, {}, 0)
  {
    match FindExact(env, m, a)
    case None => m
    case Some(id) =>
      RestatInv(env, m, id, GoodInfo(m.info[id], nTime), {}, 0);
      var m1 := WithInfo(m, id, GoodInfo(m.info[id], nTime));
      if m.info[id].fInTried then m1 else Promoted(env, m1, id, testBeforeEvict)
  }

  lemma KeepsCollisions(env: Env, m: Mgr, m': Mgr)
    requires Dim(m.tried, TRIED_BUCKET_COUNT) && CollisionsOk(env, m) && KeepsAddresses(m, m')
    requires m'.tried == m.tried
    ensures CollisionsOk(env, m')
  {
  }

  lemma MoveKeepsCollisions(env: Env, m: Mgr, id: int, m': Mgr)
    requires Dim(m.tried, TRIED_BUCKET_COUNT) && id in m.info && id != -1
    requires CollisionsOk(env, m) && MovesToTried(env, m, id, m')
    ensures Dim(m'.tried, TRIED_BUCKET_COUNT) && CollisionsOk(env, m')
  {
    forall x | x in m'.collisions && x in m'.info ensures Occupied(env, m'.tried, m'.info[x].addr) {
      assert Occupied(env, m.tried, m.info[x].addr);
    }
  }

  lemma CollideKeepsCollisions(env: Env, m: Mgr, id: int)
    requires Dim(m.tried, TRIED_BUCKET_COUNT) && id in m.info && CollisionsOk(env, m)
    requires |m.collisions| < SET_TRIED_COLLISION_SIZE && Occupied(env, m.tried, m.info[id].addr)
    ensures CollisionsOk(env, m.(collisions := m.collisions + {id}))
  {
    assert |m.collisions + {id}| <= |m.collisions| + 1;
  }

  /** Edits that add at most one entry to the tried table keep the times right if that one's are. */
  lemma TimesKept(env: Env, m: Mgr, m': Mgr, id: int)
    requires TimesOk(m.info) && -1 !in m.info && TriedOk(env, m.info, m.tried) && TriedOk(env, m'.info, m'.tried)
    requires KeepsEntries(m, m')
    requires id in m'.info ==> m'.info[id].fInTried ==> m'.info[id].nLastSuccess > 0
    requires m'.tried == m.tried ||
             (id in m.info && var b := TriedBucket(env, m.info[id].addr);
              m'.tried == Set(m.tried, b, BucketPosition(env, false, b, m.info[id].addr), id))
    ensures TimesOk(m'.info)
  {
    forall y | y in m'.info && m'.info[y].fInTried && y != id ensures m.info[y].fInTried {
      assert TriedSlot(env, m'.tried, m'.info[y].addr) == y;
    }
  }
  lemma GoodKeepsTimes(info: map<int, AddrInfo>, id: int, nTime: int)
    requires TimesOk(info) && id in info && nTime >= 0
    ensures nTime > 0 || !info[id].fInTried ==> TimesOk(info[id := GoodInfo(info[id], nTime)])
  {
  }

  /** What promoting an entry does to the indexes, the pending collisions and the times. */
  lemma PromotedInv(env: Env, m: Mgr, id: int, testBeforeEvict: bool)
    requires Inv(env, m, {}, 0) && id in m.info && !m.info[id].fInTried
    requires Dim(m.tried, TRIED_BUCKET_COUNT) && CollisionsOk(env, m)
    ensures var m' := Promoted(env, m, id, testBeforeEvict);
      && Inv(env, m', {}, 0) && Dim(m'.tried, TRIED_BUCKET_COUNT) && CollisionsOk(env, m')
      && id in m'.info && m'.info[id].addr == m.info[id].addr && SameStats(m.info[id], m'.info[id])
      && (m'.info[id].fInTried <==> !testBeforeEvict || !Occupied(env, m.tried, m.info[id].addr))
      && (!testBeforeEvict ==> m'.collisions == m.collisions)
    ensures var m' := Promoted(env, m, id, testBeforeEvict);
      TimesOk(m.info) && (m.info[id].nLastSuccess > 0 || !m'.info[id].fInTried) ==> TimesOk(m'.info)
  {
    hide Inv, MadeTried, CollisionsOk, TimesOk, Dim, Occupied, SameStats;
    Parts(env, m, {}, 0);
    if testBeforeEvict && Occupied(env, m.tried, m.info[id].addr) {
      if |m.collisions| < SET_TRIED_COLLISION_SIZE {
        CollideKeepsCollisions(env, m, id);
        SameIndexes(env, m, m.collisions + {id}, id);
      }
      SameStatsSelf(m.info[id]);
    } else {
      MadeTriedInv(env, m, id);
      MadeTriedEffect(env, m, id);
      MoveKeepsCollisions(env, m, id, MadeTried(env, m, id));
      if TimesOk(m.info) && m.info[id].nLastSuccess > 0 {
        GoodMoves(env, m, id);
      }
    }
  }

  lemma SameStatsSelf(r: AddrInfo)
    ensures SameStats(r, r)
  {
  }

  /**
   What Good does to a sound manager: the indexes stay consistent whatever the time; without
   test-before-evict a known address ends up in the tried table, with the time as its last success.
   */
  lemma GoodInv(env: Env, m: Mgr, a: Service, testBeforeEvict: bool, nTime: int)
    requires Sound(env, m)
    ensures var m' := GoodSpec(env, m, a, testBeforeEvict, nTime);
      Inv(env, m', {}, 0) && CollisionsOk(env, m')
    ensures FindExact(env, m, a).Some? ==>
      var id := FindExact(env, m, a).value;
      var m' := GoodSpec(env, m, a, testBeforeEvict, nTime);
      && id in m'.info && m'.info[id].addr == a && m'.info[id].nLastTry == m'.info[id].nLastSuccess == nTime
      && (m'.info[id].fInTried <==> m.info[id].fInTried || !testBeforeEvict || !Occupied(env, m.tried, a))
      && (!testBeforeEvict ==> m'.collisions == m.collisions)
    ensures FindExact(env, m, a).Some? && nTime >= 0 ==>
      var id := FindExact(env, m, a).value;
      var m' := GoodSpec(env, m, a, testBeforeEvict, nTime);
      nTime > 0 || !m'.info[id].fInTried ==> TimesOk(m'.info)
  {
    hide Inv, Promoted, CollisionsOk, TimesOk, Dim, Occupied;
    Parts(env, m, {}, 0);
    if FindExact(env, m, a).Some? {
      var id := FindExact(env, m, a).value;
      var r := GoodInfo(m.info[id], nTime);
      RestatInv(env, m, id, r, {}, 0);
      RestatKeepsCollisions(env, m, id, r);
      var m1 := WithInfo(m, id, r);
      if nTime >= 0 {
        GoodKeepsTimes(m.info, id, nTime);
      }
      if !m.info[id].fInTried {
        PromotedInv(env, m1, id, testBeforeEvict);
      }
    }
  }

  lemma KeptStats(m: Mgr, m': Mgr, id: int)
    requires KeepsEntries(m, m') && id in m.info && id in m'.info
    ensures m'.info[id].nLastSuccess == m.info[id].nLastSuccess
  {
  }

  lemma GoodMoves(env: Env, m1: Mgr, id: int)
    requires Inv(env, m1, {}, 0) && TimesOk(m1.info) && id in m1.info && !m1.info[id].fInTried
    requires m1.info[id].nLastSuccess > 0
    ensures TimesOk(MadeTried(env, m1, id).info)
  {
    hide Inv, MadeTried, TriedOk, TimesOk;
    Parts(env, m1, {}, 0);
    MadeTriedInv(env, m1, id);
    MadeTriedEffect(env, m1, id);
    Parts(env, MadeTried(env, m1, id), {}, 0);
    KeptStats(m1, MadeTried(env, m1, id), id);
    TimesKept(env, m1, MadeTried(env, m1, id), id);
  }

  /** The times that Good leaves right: a positive one, or zero where the address only meets a collision. */
  predicate GoodKeeps(env: Env, m: Mgr, a: Service, testBeforeEvict: bool, nTime: int)
    requires Dim(m.tried, TRIED_BUCKET_COUNT)
  {
    || nTime > 0
    || FindExact(env, m, a).None?
    || (nTime == 0 && !m.info[FindExact(env, m, a).value].fInTried && testBeforeEvict && Occupied(env, m.tried, a))
  }

  /** Good keeps the manager sound exactly for those times. */
  lemma GoodSoundIff(env: Env, m: Mgr, a: Service, testBeforeEvict: bool, nTime: int)
    requires Sound(env, m)
    ensures Sound(env, GoodSpec(env, m, a, testBeforeEvict, nTime)) <==> GoodKeeps(env, m, a, testBeforeEvict, nTime)
  {
    hide Frame, NewOk, EntriesOk, CollisionsOk, GoodSpec, Occupied;
    GoodInv(env, m, a, testBeforeEvict, nTime);
    if FindExact(env, m, a).None? {
      UnknownIsIgnored(env, m, a, testBeforeEvict, nTime);
    }
  }

  lemma UnknownIsIgnored(env: Env, m: Mgr, a: Service, testBeforeEvict: bool, nTime: int)
    requires Inv(env, m, {}, 0) && FindExact(env, m, a).None?
    ensures GoodSpec(env, m, a, testBeforeEvict, nTime) == m
  {
  }

  lemma SameIndexes(env: Env, m: Mgr, collisions: set<int>, id: int)
    requires Inv(env, m, {}, 0) && id in m.info && collisions <= m.collisions + {id}
    ensures Inv(env, m.(collisions := collisions), {}, 0)
  {
    hide RandomOk, AddrOk, NewOk, EntriesOk, TriedOk;
  }

  function Max0(x: int): int {
    if x < 0 then 0 else x
  }

  /** Add on an entry already known: a fresher time and more services. */
  function Touched(r: AddrInfo, a: Address, penalty: int, now: int): AddrInfo {
    var interval := if now - a.nTime < 24 * 60 * 60 then 60 * 60 else 24 * 60 * 60;
    var t := if a.nTime != 0 && (r.nTime == 0 || r.nTime < a.nTime - interval - penalty) then Max0(a.nTime - penalty)
             else r.nTime;
    r.(nTime := t, services := r.services + a.services)
  }

  /** Why Add may leave a known entry's slots alone; `roll` is the random number of the stochastic test. */
  predicate NothingToAdd(r: AddrInfo, a: Address, roll: nat) {
    || a.nTime == 0 || (r.nTime != 0 && a.nTime <= r.nTime)
    || r.fInTried
    || r.nRefCount == NEW_BUCKETS_PER_ADDRESS
    || (r.nRefCount > 0 && roll % Pow2(r.nRefCount) != 0)
  }

  /** The second half of Add: the slot for this source, unless a better entry holds it. */
  function Placed(env: Env, m: Mgr, id: int, source: nat, now: int): Mgr
    requires NewOk(env, m.info, m.new_) && RandomOk(m.info, m.random) && id in m.info
  {
    var r := m.info[id];
    var b := NewBucket(env, r.addr, source);
    var p := BucketPosition(env, true, b, r.addr);
    var x := m.new_[b][p];
    if x == id then m
    else if x == -1 || IsTerrible(m.info[x], now) || (m.info[x].nRefCount > 1 && r.nRefCount == 0) then
      ClearedNewEffect(env, m, b, p);
      FillSlot(ClearedNew(env, m, b, p), b, p, id)
    else if r.nRefCount == 0 then Removed(env, m, id)
    else m
  }

  /** An entry with a slot is not a loose one. */
  lemma SlottedInv(env: Env, m: Mgr, id: int, gap: int)
    requires Inv(env, m, {id}, gap) && id in m.info && m.info[id].nRefCount != 0
    ensures Inv(env, m, {}, gap)
  {
    hide Frame, NewOk;
  }

  lemma PlacedInv(env: Env, m: Mgr, id: int, source: nat, now: int)
    requires Inv(env, m, {id}, 0) && id in m.info
    requires !m.info[id].fInTried && m.info[id].nRefCount < NEW_BUCKETS_PER_ADDRESS
    ensures Inv(env, Placed(env, m, id, source, now), {}, 0)
  {
    hide Inv, NewOk, RandomOk, Removed, ClearedNew, IsTerrible, FillSlot, KeepsOthers, SameStats;
    Parts(env, m, {id}, 0);
    var r := m.info[id];
    var b := NewBucket(env, r.addr, source);
    var p := BucketPosition(env, true, b, r.addr);
    SlotKnown(env, m.info, m.new_, b, p);
    var x := m.new_[b][p];
    assert {id} - {id} == {};
    if x == id {
      ClearSlotInv(env, m, b, p, {id}, 0);
      SlottedInv(env, m, id, 0);
    } else if x == -1 || IsTerrible(m.info[x], now) || (m.info[x].nRefCount > 1 && r.nRefCount == 0) {
      ClearedNewInv(env, m, b, p, {id}, 0);
      ClearedNewEffect(env, m, b, p);
      var c := ClearedNew(env, m, b, p);
      OtherStays(m, c, x, id);
      FillSlotInv(env, c, b, id, {id}, 0);
    } else if r.nRefCount == 0 {
      RemovedInv(env, m, id, {id}, 0);
    } else {
      SlottedInv(env, m, id, 0);
    }
  }

  lemma OthersAreEntries(m: Mgr, m': Mgr, x: int)
    requires KeepsOthers(m, m', x)
    ensures KeepsEntries(m, m') && m'.tried == m.tried
  {
    hide SameStats;
  }

  lemma OtherStays(m: Mgr, m': Mgr, x: int, y: int)
    requires KeepsOthers(m, m', x) && y in m.info && y != x
    ensures y in m'.info && SameAside(m.info[y], m'.info[y])
  {
    hide SameStats;
  }

  lemma PlacedEffect(env: Env, m: Mgr, id: int, source: nat, now: int)
    requires NewOk(env, m.info, m.new_) && RandomOk(m.info, m.random) && id in m.info
    ensures KeepsEntries(m, Placed(env, m, id, source, now)) && Placed(env, m, id, source, now).tried == m.tried
  {
    hide NewOk, RandomOk, Removed, ClearedNew, IsTerrible, FillSlot, KeepsEntries, KeepsOthers;
    var r := m.info[id];
    var b := NewBucket(env, r.addr, source);
    var p := BucketPosition(env, true, b, r.addr);
    SlotKnown(env, m.info, m.new_, b, p);
    var x := m.new_[b][p];
    if x != id && (x == -1 || IsTerrible(m.info[x], now) || (m.info[x].nRefCount > 1 && r.nRefCount == 0)) {
      ClearedNewEffect(env, m, b, p);
      var c := ClearedNew(env, m, b, p);
      OthersAreEntries(m, c, x);
      OtherStays(m, c, x, id);
      FillKeepsEntries(m, c, b, p, id);
    } else {
      RemovedEffect(env, m, id);
      OthersAreEntries(m, Removed(env, m, id), id);
      NothingKeepsEntries(m);
    }
  }

  lemma FillKeepsEntries(m: Mgr, c: Mgr, b: nat, p: nat, id: int)
    requires KeepsEntries(m, c) && id in c.info && b < |c.new_| && p < |c.new_[b]|
    ensures KeepsEntries(m, FillSlot(c, b, p, id)) && FillSlot(c, b, p, id).tried == c.tried
  {
  }

  function AddKnown(env: Env, m: Mgr, id: int, a: Address, source: nat, penalty: int, now: int, later: int,
                    roll: nat): Mgr
    requires Inv(env, m, {}, 0) && id in m.info
  {
    var r := Touched(m.info[id], a, penalty, now);
    RestatInv(env, m, id, r, {}, 0);
    var m1 := WithInfo(m, id, r);
    if NothingToAdd(r, a, roll) then m1 else Placed(env, m1, id, source, later)
  }

  function AddUnknown(env: Env, m: Mgr, a: Address, source: nat, penalty: int, later: int): Mgr
    requires Inv(env, m, {}, 0) && FindId(env, m, a.service).None?
  {
    var r := NewInfo(a, source).(nTime := Max0(a.nTime - penalty));
    CreatedInv(env, m, r, {}, 0);
    var c := Created(env, m, r);
    Placed(env, c.(nNew := c.nNew + 1), m.nIdCount, source, later)
  }

  /** Add, with the clock read twice: the manager and whether the address was new to it. */
  function AddSpec(env: Env, m: Mgr, a: Address, source: nat, nTimePenalty: int, now: int, later: int, roll: nat)
    : (Mgr, bool)
    requires Inv(env, m, {}, 0)
  {
    if !env.isRoutable(a.service) then (m, false)
    else
      var penalty := if a.service.ip == source then 0 else nTimePenalty;
      match FindId(env, m, a.service)
      case Some(id) => (AddKnown(env, m, id, a, source, penalty, now, later, roll), false)
      case None => (AddUnknown(env, m, a, source, penalty, later), true)
  }

  lemma AddSound(env: Env, m: Mgr, a: Address, source: nat, nTimePenalty: int, now: int, later: int, roll: nat)
    requires Sound(env, m)
    ensures Sound(env, AddSpec(env, m, a, source, nTimePenalty, now, later, roll).0)
  {
    hide Frame, NewOk, EntriesOk, CollisionsOk, AddKnown, AddUnknown;
    if env.isRoutable(a.service) {
      var penalty := if a.service.ip == source then 0 else nTimePenalty;
      if FindId(env, m, a.service).Some? {
        AddKnownSound(env, m, FindId(env, m, a.service).value, a, source, penalty, now, later, roll);
      } else {
        AddUnknownSound(env, m, a, source, penalty, later);
      }
    }
  }

  lemma TouchedShape(r: AddrInfo, a: Address, penalty: int, now: int)
    ensures var r' := Touched(r, a, penalty, now);
      SameShape(r, r') && r'.nLastTry == r.nLastTry && r'.nLastSuccess == r.nLastSuccess
  {
  }

  lemma RestatKeepsTimes(info: map<int, AddrInfo>, id: int, r: AddrInfo)
    requires TimesOk(info) && id in info && r.fInTried == info[id].fInTried
    requires r.nLastTry == info[id].nLastTry && r.nLastSuccess == info[id].nLastSuccess
    ensures TimesOk(info[id := r])
  {
  }

  /** An entry that Add goes on with is not tried and may have one more slot. */
  lemma RoomLeft(env: Env, m: Mgr, id: int, a: Address, roll: nat)
    requires Inv(env, m, {}, 0) && id in m.info && !NothingToAdd(m.info[id], a, roll)
    ensures !m.info[id].fInTried && m.info[id].nRefCount < NEW_BUCKETS_PER_ADDRESS
  {
    hide Frame, NewOk;
  }

  lemma PlacedSound(env: Env, m: Mgr, id: int, source: nat, now: int)
    requires Inv(env, m, {id}, 0) && id in m.info && Dim(m.tried, TRIED_BUCKET_COUNT)
    requires !m.info[id].fInTried && m.info[id].nRefCount < NEW_BUCKETS_PER_ADDRESS
    requires TimesOk(m.info) && CollisionsOk(env, m)
    ensures NewOk(env, m.info, m.new_) && RandomOk(m.info, m.random)
    ensures Sound(env, Placed(env, m, id, source, now))
  {
    hide Inv, NewOk, RandomOk, TriedOk, Placed, CollisionsOk, TimesOk, Dim;
    Parts(env, m, {id}, 0);
    PlacedInv(env, m, id, source, now);
    PlacedEffect(env, m, id, source, now);
    var p := Placed(env, m, id, source, now);
    Parts(env, p, {}, 0);
    KeepsCollisions(env, m, p);
    TimesKept(env, m, p, -1);
  }

  lemma AddKnownSound(env: Env, m: Mgr, id: int, a: Address, source: nat, penalty: int, now: int, later: int,
                      roll: nat)
    requires Sound(env, m) && id in m.info
    ensures Sound(env, AddKnown(env, m, id, a, source, penalty, now, later, roll))
  {
    hide Inv, Placed, CollisionsOk, NothingToAdd, Touched, TimesOk, Dim;
    Parts(env, m, {}, 0);
    var r := Touched(m.info[id], a, penalty, now);
    TouchedShape(m.info[id], a, penalty, now);
    RestatInv(env, m, id, r, {}, 0);
    RestatKeepsCollisions(env, m, id, r);
    RestatKeepsTimes(m.info, id, r);
    var m1 := WithInfo(m, id, r);
    if !NothingToAdd(r, a, roll) {
      LooserInv(env, m1, {}, {id}, 0);
      RoomLeft(env, m1, id, a, roll);
      PlacedSound(env, m1, id, source, later);
    }
  }

  lemma Recounted(env: Env, c: Mgr, loose: set<int>, gap: int, d: int)
    requires Inv(env, c, loose, gap)
    ensures Inv(env, c.(nNew := c.nNew + d), loose, gap - d)
  {
    hide RandomOk, AddrOk, NewOk, EntriesOk, TriedOk;
  }

  lemma CreatedKeepsCollisions(env: Env, m: Mgr, r: AddrInfo)
    requires IdsOk(m) && Dim(m.tried, TRIED_BUCKET_COUNT) && CollisionsOk(env, m)
    ensures CollisionsOk(env, Created(env, m, r).(nNew := m.nNew + 1))
  {
    var m' := Created(env, m, r).(nNew := m.nNew + 1);
    forall x | x in m'.collisions && x in m'.info ensures Occupied(env, m'.tried, m'.info[x].addr) {
      assert x != m.nIdCount && Occupied(env, m.tried, m.info[x].addr);
    }
  }

  lemma NotFound(env: Env, m: Mgr, a: Service)
    requires AddrOk(env, m.info, m.addr) && FindId(env, m, a).None?
    ensures Norm(env, a) !in m.addr
  {
  }

  lemma CreatedKeepsTimes(env: Env, m: Mgr, r: AddrInfo)
    requires TimesOk(m.info) && r.nLastTry >= 0 && r.nLastSuccess >= 0 && !r.fInTried && r.nRefCount == 0
    ensures var c := Created(env, m, r);
      && TimesOk(c.info) && c.nNew == m.nNew
      && m.nIdCount in c.info && !c.info[m.nIdCount].fInTried && c.info[m.nIdCount].nRefCount == 0
  {
  }

  lemma AddUnknownSound(env: Env, m: Mgr, a: Address, source: nat, penalty: int, later: int)
    requires Sound(env, m) && FindId(env, m, a.service).None?
    ensures Sound(env, AddUnknown(env, m, a, source, penalty, later))
  {
    hide Inv, Placed, CollisionsOk, TimesOk, FindId, Created, Dim;
    Parts(env, m, {}, 0);
    var r := NewInfo(a, source).(nTime := Max0(a.nTime - penalty));
    CreatedKeepsCollisions(env, m, r);
    NotFound(env, m, a.service);
    CreatedInv(env, m, r, {}, 0);
    var id, c := m.nIdCount, Created(env, m, r);
    CreatedKeepsTimes(env, m, r);
    assert {} + {id} == {id};
    Recounted(env, c, {id}, 1, 1);
    Parts(env, c.(nNew := c.nNew + 1), {id}, 0);
    PlacedSound(env, c.(nNew := c.nNew + 1), id, source, later);
  }

  // ----- What Add comes to, slot by slot and entry by entry

  /** The entry r but for its position in the random order, with this reference count. */
  predicate SameWithCount(r: AddrInfo, r': AddrInfo, n: int) {
    r'.addr == r.addr && r'.fInTried == r.fInTried && SameStats(r, r') && r'.nRefCount == n
  }

  /** All entries but id stay as they are, except that x has one reference less and is gone if that was its last one. */
  ghost predicate LeavesOut(m: Mgr, m': Mgr, id: int, x: int) {
    && (forall y :: y in m'.info ==> y == id || y in m.info)
    && (forall y :: y in m.info && y != id ==> (y in m'.info <==> y != x || m.info[x].nRefCount > 1))
    && (forall y :: y in m.info && y in m'.info && y != id ==>
          SameWithCount(m.info[y], m'.info[y], m.info[y].nRefCount - if y == x then 1 else 0))
  }

  /** Nothing but the new table and the entries may differ. */
  predicate SameElse(m: Mgr, m': Mgr) {
    m'.tried == m.tried && m'.nTried == m.nTried && m'.collisions == m.collisions
  }

  lemma ClearedNewHolder(env: Env, m: Mgr, b: nat, p: nat)
    requires NewOk(env, m.info, m.new_) && RandomOk(m.info, m.random) && -1 !in m.info
    requires b < NEW_BUCKET_COUNT && p < BUCKET_SIZE && m.new_[b][p] != -1
    ensures var x, c := m.new_[b][p], ClearedNew(env, m, b, p);
      && x in m.info && (x in c.info <==> m.info[x].nRefCount > 1)
      && (x in c.info ==> c.info[x] == m.info[x].(nRefCount := m.info[x].nRefCount - 1))
  {
    hide RandomOk, Swapped, KeepsOthers;
    SlotKnown(env, m.info, m.new_, b, p);
    ClearSlotNewOk(env, m.info, m.new_, b, p);
    ClearSlotRandomOk(m, b, p);
  }

  lemma ClearedLeavesOut(env: Env, m: Mgr, b: nat, p: nat, id: int)
    requires NewOk(env, m.info, m.new_) && RandomOk(m.info, m.random) && -1 !in m.info
    requires b < NEW_BUCKET_COUNT && p < BUCKET_SIZE && id in m.info && m.new_[b][p] != id
    ensures var x, c := m.new_[b][p], ClearedNew(env, m, b, p);
      && LeavesOut(m, c, id, x) && SameElse(m, c) && c.new_ == Set(m.new_, b, p, -1)
      && id in c.info && SameAside(m.info[id], c.info[id])
  {
    hide NewOk, RandomOk, ClearedNew, SameStats;
    SlotKnown(env, m.info, m.new_, b, p);
    var x, c := m.new_[b][p], ClearedNew(env, m, b, p);
    ClearedNewEffect(env, m, b, p);
    if x != -1 {
      ClearedNewHolder(env, m, b, p);
    }
    OtherStays(m, c, x, id);
  }

  /** The entry takes its slot from nobody, from a terrible entry, or, having none yet, from one with other slots. */
  ghost predicate Takes(m: Mgr, id: int, x: int, now: int)
    requires id in m.info && (x != -1 ==> x in m.info)
  {
    x != id && (x == -1 || IsTerrible(m.info[x], now) || (m.info[x].nRefCount > 1 && m.info[id].nRefCount == 0))
  }

  lemma PlacedOutcome(env: Env, m: Mgr, id: int, source: nat, now: int)
    requires NewOk(env, m.info, m.new_) && RandomOk(m.info, m.random) && id in m.info && -1 !in m.info
    ensures var b := NewBucket(env, m.info[id].addr, source);
      var p := BucketPosition(env, true, b, m.info[id].addr);
      && b < |m.new_| && p < |m.new_[b]|
      && var x, m' := m.new_[b][p], Placed(env, m, id, source, now);
      && (x != -1 ==> x in m.info) && SameElse(m, m')
      && (Takes(m, id, x, now) ==>
            && m'.new_ == Set(m.new_, b, p, id) && LeavesOut(m, m', id, x)
            && id in m'.info && SameWithCount(m.info[id], m'.info[id], m.info[id].nRefCount + 1))
      && (!Takes(m, id, x, now) && (x == id || m.info[id].nRefCount != 0) ==> m' == m)
      && (!Takes(m, id, x, now) && x != id && m.info[id].nRefCount == 0 ==>
            m'.new_ == m.new_ && LeavesOut(m, m', id, -1) && id !in m'.info)
  {
    hide NewOk, RandomOk, Removed, ClearedNew, IsTerrible, SameStats;
    var r := m.info[id];
    var b := NewBucket(env, r.addr, source);
    var p := BucketPosition(env, true, b, r.addr);
    SlotKnown(env, m.info, m.new_, b, p);
    var x := m.new_[b][p];
    if Takes(m, id, x, now) {
      ClearedLeavesOut(env, m, b, p, id);
      FilledOutcome(m, ClearedNew(env, m, b, p), b, p, id, x);
    } else if x != id && r.nRefCount == 0 {
      RemovedEffect(env, m, id);
      RemovedIsGone(env, m, id);
    }
  }

  lemma FilledOutcome(m: Mgr, c: Mgr, b: nat, p: nat, id: int, x: int)
    requires b < |m.new_| && p < |m.new_[b]| && c.new_ == Set(m.new_, b, p, -1)
    requires LeavesOut(m, c, id, x) && SameElse(m, c)
    requires id in m.info && id in c.info && SameAside(m.info[id], c.info[id])
    ensures var m' := FillSlot(c, b, p, id);
      && m'.new_ == Set(m.new_, b, p, id) && LeavesOut(m, m', id, x) && SameElse(m, m')
      && id in m'.info && SameWithCount(m.info[id], m'.info[id], m.info[id].nRefCount + 1)
  {
    assert m.new_[b][p := -1][p := id] == m.new_[b][p := id];
  }

  lemma RemovedIsGone(env: Env, m: Mgr, id: int)
    requires RandomOk(m.info, m.random) && id in m.info
    ensures id !in Removed(env, m, id).info
  {
    SwapRandomOk(m, m.info[id].nRandomPos, |m.random| - 1);
  }

  /**
   Adding an unknown address.  It takes its slot if that is empty, or its holder is terrible or has
   another slot, and is forgotten at once otherwise; the holder goes only with its last slot.
   */
  ghost predicate UnknownAdded(env: Env, m: Mgr, a: Address, source: nat, penalty: int, later: int, m': Mgr)
    requires Dim(m.new_, NEW_BUCKET_COUNT)
  {
    var id := m.nIdCount;
    var b := NewBucket(env, a.service, source);
    var p := BucketPosition(env, true, b, a.service);
    var x := m.new_[b][p];
    && SameElse(m, m') && (x != -1 ==> x in m.info)
    && if x == -1 || IsTerrible(m.info[x], later) || m.info[x].nRefCount > 1 then
         && m'.new_ == Set(m.new_, b, p, id) && LeavesOut(m, m', id, x) && id in m'.info
         && var r := m'.info[id];
         && r.addr == a.service && r.services == a.services && r.source == source && r.nRefCount == 1 && !r.fInTried
         && r.nTime == (if a.nTime < penalty then 0 else a.nTime - penalty)
         && r.nLastTry == r.nLastSuccess == r.nLastCountAttempt == r.nAttempts == 0
       else m'.new_ == m.new_ && LeavesOut(m, m', id, -1) && id !in m'.info
  }

  /** The time of a known entry after an announcement: renewed when it is an hour old, or a day for peers not online. */
  function RenewedTime(t: int, a: Address, penalty: int, now: int): int {
    if a.nTime != 0 && (t == 0 || t + penalty + (if now - a.nTime < 86400 then 3600 else 86400) < a.nTime)
    then (if a.nTime < penalty then 0 else a.nTime - penalty)
    else t
  }

  /**
   Adding a known address.  Its services and its time are updated; if the announcement is fresher
   still, the entry is not tried, has less than eight slots and wins the draw, it takes one more
   slot, from nobody or from a terrible entry.
   */
  ghost predicate KnownAdded(env: Env, m: Mgr, id: int, a: Address, source: nat, penalty: int, now: int, later: int,
                             roll: nat, m': Mgr)
    requires Dim(m.new_, NEW_BUCKET_COUNT) && id in m.info && m.info[id].nRefCount >= 0
  {
    var r := m.info[id];
    var b := NewBucket(env, r.addr, source);
    var p := BucketPosition(env, true, b, r.addr);
    var x := m.new_[b][p];
    var t := RenewedTime(r.nTime, a, penalty, now);
    var takes := && a.nTime != 0 && (t == 0 || t < a.nTime) && !r.fInTried && r.nRefCount < 8
                 && roll % Pow2(r.nRefCount) == 0
                 && x != id && (x == -1 || (x in m.info && IsTerrible(m.info[x], later)));
    && SameElse(m, m') && (x != -1 ==> x in m.info)
    && m'.new_ == (if takes then Set(m.new_, b, p, id) else m.new_)
    && LeavesOut(m, m', id, if takes then x else -1) && id in m'.info
    && SameWithCount(r.(nTime := t, services := r.services + a.services), m'.info[id],
                     r.nRefCount + if takes then 1 else 0)
  }

  /** All that Add does. */
  ghost predicate AddOutcome(env: Env, m: Mgr, a: Address, source: nat, nTimePenalty: int, now: int, later: int,
                             roll: nat, m': Mgr, fNew: bool)
    requires Sound(env, m)
  {
    if !env.isRoutable(a.service) then m' == m && !fNew
    else
      var penalty := if a.service.ip == source then 0 else nTimePenalty;
      var n := if env.discriminatePorts then a.service else Service(a.service.ip, 0);
      SoundCounts(env, m);
      if n in m.addr then !fNew && KnownAdded(env, m, m.addr[n], a, source, penalty, now, later, roll, m')
      else fNew && UnknownAdded(env, m, a, source, penalty, later, m')
  }

  lemma SoundCounts(env: Env, m: Mgr)
    requires Sound(env, m)
    ensures Dim(m.new_, NEW_BUCKET_COUNT) && forall a :: a in m.addr ==> m.addr[a] in m.info
    ensures forall id :: id in m.info ==>
              m.info[id].nRefCount >= 0 && (m.info[id].nRefCount > 0 <==> !m.info[id].fInTried)
  {
    hide TimesOk, CollisionsOk, RandomOk, CountsOk;
  }

  lemma UnknownOutcome(env: Env, m: Mgr, a: Address, source: nat, penalty: int, later: int)
    requires Sound(env, m) && FindId(env, m, a.service).None?
    ensures Dim(m.new_, NEW_BUCKET_COUNT)
    ensures UnknownAdded(env, m, a, source, penalty, later, AddUnknown(env, m, a, source, penalty, later))
  {
    hide Inv, TimesOk, CollisionsOk, IsTerrible, NewOk, RandomOk, TriedOk, EntriesOk, CountsOk, FindId, Placed,
         LeavesOut;
    Parts(env, m, {}, 0);
    NotFound(env, m, a.service);
    var r := NewInfo(a, source).(nTime := Max0(a.nTime - penalty));
    CreatedInv(env, m, r, {}, 0);
    var id, c := m.nIdCount, Created(env, m, r);
    var c1 := c.(nNew := c.nNew + 1);
    assert {} + {id} == {id};
    Parts(env, c, {id}, 1);
    PlacedOutcome(env, c1, id, source, later);
    NewSlotIsOld(env, m, NewBucket(env, a.service, source), a.service);
    CreatedOutcome(env, m, r, Placed(env, c1, id, source, later));
  }

  lemma NewSlotIsOld(env: Env, m: Mgr, b: nat, a: Service)
    requires NewOk(env, m.info, m.new_) && IdsOk(m) && b < NEW_BUCKET_COUNT
    ensures Dim(m.new_, NEW_BUCKET_COUNT)
    ensures var x := m.new_[b][BucketPosition(env, true, b, a)]; x != m.nIdCount && (x != -1 ==> x in m.info)
  {
  }

  /** What becomes of the entries when one is created first. */
  lemma CreatedOutcome(env: Env, m: Mgr, r: AddrInfo, m': Mgr)
    requires IdsOk(m)
    ensures var c := Created(env, m, r).(nNew := Created(env, m, r).nNew + 1);
      var id := m.nIdCount;
      && (forall x :: LeavesOut(c, m', id, x) && x != id ==> LeavesOut(m, m', id, x))
      && (SameElse(c, m') ==> SameElse(m, m'))
      && id !in m.info && id in c.info && c.info[id] == r.(nRandomPos := |m.random|)
      && forall x :: x in m.info ==> x in c.info && c.info[x] == m.info[x]
  {
    hide SameStats;
  }

  lemma KnownOutcome(env: Env, m: Mgr, id: int, a: Address, source: nat, penalty: int, now: int, later: int, roll: nat)
    requires Sound(env, m) && id in m.info
    ensures Dim(m.new_, NEW_BUCKET_COUNT) && m.info[id].nRefCount >= 0
    ensures KnownAdded(env, m, id, a, source, penalty, now, later, roll,
                       AddKnown(env, m, id, a, source, penalty, now, later, roll))
  {
    hide Inv, TimesOk, CollisionsOk, IsTerrible, NewOk, RandomOk, TriedOk, CountsOk, Placed;
    Parts(env, m, {}, 0);
    SoundCounts(env, m);
    var r := Touched(m.info[id], a, penalty, now);
    TouchedIs(m.info[id], a, penalty, now);
    TouchedShape(m.info[id], a, penalty, now);
    hide Touched, LeavesOut, RenewedTime;
    RestatInv(env, m, id, r, {}, 0);
    var m1 := WithInfo(m, id, r);
    Parts(env, m1, {}, 0);
    PlacedOutcome(env, m1, id, source, later);
    SlotKnown(env, m.info, m.new_, NewBucket(env, r.addr, source),
              BucketPosition(env, true, NewBucket(env, r.addr, source), r.addr));
    RestatLeavesOut(m, id, r, AddKnown(env, m, id, a, source, penalty, now, later, roll));
  }

  /** What becomes of the other entries when one is rewritten first. */
  lemma RestatLeavesOut(m: Mgr, id: int, r: AddrInfo, m': Mgr)
    requires id in m.info && -1 !in m.info
    ensures LeavesOut(m, WithInfo(m, id, r), id, -1)
    ensures forall x :: LeavesOut(WithInfo(m, id, r), m', id, x) && x != id ==> LeavesOut(m, m', id, x)
  {
  }

  lemma TouchedIs(r: AddrInfo, a: Address, penalty: int, now: int)
    ensures Touched(r, a, penalty, now) ==
            r.(nTime := RenewedTime(r.nTime, a, penalty, now), services := r.services + a.services)
  {
  }

  lemma AddDoes(env: Env, m: Mgr, a: Address, source: nat, nTimePenalty: int, now: int, later: int, roll: nat)
    requires Sound(env, m)
    ensures var s := AddSpec(env, m, a, source, nTimePenalty, now, later, roll);
      AddOutcome(env, m, a, source, nTimePenalty, now, later, roll, s.0, s.1)
  {
    hide Frame, NewOk, EntriesOk, CollisionsOk, TimesOk, AddKnown, AddUnknown, KnownAdded, UnknownAdded;
    SoundCounts(env, m);
    if env.isRoutable(a.service) {
      var penalty := if a.service.ip == source then 0 else nTimePenalty;
      if FindId(env, m, a.service).Some? {
        KnownOutcome(env, m, FindId(env, m, a.service).value, a, source, penalty, now, later, roll);
      } else {
        UnknownOutcome(env, m, a, source, penalty, later);
      }
    }
  }

  /** Add never costs an entry that is not terrible its place: whatever is announced, it stays known. */
  lemma HealthyStays(env: Env, m: Mgr, a: Address, source: nat, nTimePenalty: int, now: int, later: int, roll: nat,
                     x: int)
    requires Sound(env, m) && x in m.info && !IsTerrible(m.info[x], later)
    ensures var m' := AddSpec(env, m, a, source, nTimePenalty, now, later, roll).0;
      x in m'.info && m'.info[x].addr == m.info[x].addr
  {
    hide Sound, AddSpec, IsTerrible, SameStats, Set;
    AddDoes(env, m, a, source, nTimePenalty, now, later, roll);
    SoundCounts(env, m);
    SoundAddr(env, m);
  }

  /** An unknown address whose slot is held by an entry that is not terrible and has no other slot is not taken up. */
  lemma NewcomerYields(env: Env, m: Mgr, a: Address, source: nat, nTimePenalty: int, now: int, later: int, roll: nat)
    requires Sound(env, m) && FindId(env, m, a.service).None? && Dim(m.new_, NEW_BUCKET_COUNT)
    requires var b := NewBucket(env, a.service, source);
      var x := m.new_[b][BucketPosition(env, true, b, a.service)];
      x in m.info && !IsTerrible(m.info[x], later) && m.info[x].nRefCount == 1
    ensures var m' := AddSpec(env, m, a, source, nTimePenalty, now, later, roll).0;
      FindId(env, m', a.service).None? && m'.new_ == m.new_
  {
    var m' := AddSpec(env, m, a, source, nTimePenalty, now, later, roll).0;
    hide Sound, AddSpec, IsTerrible, SameStats, Set, Dim, AddrOk, LeavesOut, FindId;
    FoundIff(env, m, a.service);
    AddDoes(env, m, a, source, nTimePenalty, now, later, roll);
    AddSound(env, m, a, source, nTimePenalty, now, later, roll);
    SoundAddr(env, m);
    SoundAddr(env, m');
    FoundBefore(env, m, m', a.service);
  }

  lemma FoundIff(env: Env, m: Mgr, a: Service)
    requires Sound(env, m)
    ensures FindId(env, m, a).None? <==> (if env.discriminatePorts then a else Service(a.ip, 0)) !in m.addr
  {
    SoundCounts(env, m);
    hide Sound;
  }

  /** Where no entry was added, an address that is found was found before. */
  lemma FoundBefore(env: Env, m: Mgr, m': Mgr, a: Service)
    requires AddrOk(env, m.info, m.addr) && AddrOk(env, m'.info, m'.addr)
    ensures LeavesOut(m, m', m.nIdCount, -1) && m.nIdCount !in m'.info && FindId(env, m', a).Some? ==>
              FindId(env, m, a).Some?
  {
    hide SameStats;
    if LeavesOut(m, m', m.nIdCount, -1) && m.nIdCount !in m'.info && FindId(env, m', a).Some? {
      var id := FindId(env, m', a).value;
      assert id in m.info && SameWithCount(m.info[id], m'.info[id], m.info[id].nRefCount - if id == -1 then 1 else 0);
    }
  }

  lemma SoundAddr(env: Env, m: Mgr)
    requires Sound(env, m)
    ensures AddrOk(env, m.info, m.addr) && -1 !in m.info && m.nIdCount !in m.info
  {
    hide TimesOk, CollisionsOk, AddrOk, RandomOk, CountsOk, TriedOk;
  }

  // ----- What Good comes to, slot by slot and entry by entry

  /** Every slot that id had is empty, and the rest is as it was. */
  ghost predicate Vacated(t: Table, t': Table, id: int, buckets: nat) {
    && Dim(t, NEW_BUCKET_COUNT) && Dim(t', NEW_BUCKET_COUNT)
    && forall i, j :: 0 <= i < NEW_BUCKET_COUNT && 0 <= j < BUCKET_SIZE ==>
        t'[i][j] == if i < buckets && t[i][j] == id then -1 else t[i][j]
  }

  lemma {:induction false} UnslottedTable(env: Env, m: Mgr, id: int, k: nat)
    requires NewOk(env, m.info, m.new_) && id in m.info && id != -1 && k <= NEW_BUCKET_COUNT
    ensures Vacated(m.new_, Unslotted(env, m, id, k).new_, id, k)
  {
    if k > 0 {
      UnslottedTable(env, m, id, k - 1);
      hide Unslotted, NewOk, Vacated;
      VacateNext(env, m, id, k);
    }
  }

  lemma VacateNext(env: Env, m: Mgr, id: int, k: nat)
    requires NewOk(env, m.info, m.new_) && id in m.info && id != -1 && 0 < k <= NEW_BUCKET_COUNT
    requires Vacated(m.new_, Unslotted(env, m, id, k - 1).new_, id, k - 1)
    ensures Vacated(m.new_, Unslotted(env, m, id, k).new_, id, k)
  {
    var u, v := Unslotted(env, m, id, k - 1), Unslotted(env, m, id, k);
    var p := BucketPosition(env, true, k - 1, m.info[id].addr);
    assert v.new_ == if u.new_[k - 1][p] == id then Set(u.new_, k - 1, p, -1) else u.new_;
    hide Unslotted;
  }

  /** All slots as they were, but those of id are empty and one holds `out`. */
  ghost predicate Exchanged(t: Table, t': Table, id: int, b: nat, p: nat, out: int) {
    && Dim(t, NEW_BUCKET_COUNT) && Dim(t', NEW_BUCKET_COUNT)
    && forall i, j :: 0 <= i < NEW_BUCKET_COUNT && 0 <= j < BUCKET_SIZE ==>
        t'[i][j] == if i == b && j == p then out else if t[i][j] == id then -1 else t[i][j]
  }

  /**
   An entry that moves to its tried slot leaves all its new buckets.  Whoever held the slot goes to
   the new bucket its own source leads to; the entry there loses that slot, and goes with its last one.
   */
  ghost predicate MoveOutcome(env: Env, m: Mgr, id: int, m': Mgr)
    requires Dim(m.tried, TRIED_BUCKET_COUNT) && Dim(m.new_, NEW_BUCKET_COUNT) && id in m.info
  {
    var r := m.info[id];
    var b := TriedBucket(env, r.addr);
    var p := BucketPosition(env, false, b, r.addr);
    var out := m.tried[b][p];
    && m'.tried == Set(m.tried, b, p, id) && m'.collisions == m.collisions && m'.nIdCount == m.nIdCount
    && id in m'.info && SameWithCount(r.(fInTried := true), m'.info[id], 0)
    && (forall y :: y in m'.info ==> y in m.info)
    && if out == -1 then
         && Vacated(m.new_, m'.new_, id, NEW_BUCKET_COUNT)
         && forall y :: y in m.info && y != id ==> y in m'.info && SameAside(m.info[y], m'.info[y])
       else
         && out in m.info && out in m'.info && SameWithCount(m.info[out].(fInTried := false), m'.info[out], 1)
         && var hb := NewBucket(env, m.info[out].addr, m.info[out].source);
         && var hp := BucketPosition(env, true, hb, m.info[out].addr);
         && Exchanged(m.new_, m'.new_, id, hb, hp, out)
         && Demotes(m, m', id, out, m.new_[hb][hp])
  }

  /** Of the other entries only z, unless that is id, loses a reference. */
  ghost predicate Demotes(m: Mgr, m': Mgr, id: int, out: int, z: int) {
    forall y :: y in m.info && y != id && y != out ==>
      && (y in m'.info <==> y != z || m.info[z].nRefCount > 1)
      && (y in m'.info ==> SameWithCount(m.info[y], m'.info[y], m.info[y].nRefCount - if y == z then 1 else 0))
  }

  lemma RefilledOutcome(env: Env, t: Mgr, out: int)
    requires NewOk(env, t.info, t.new_) && RandomOk(t.info, t.random) && -1 !in t.info
    requires out in t.info && t.info[out].nRefCount == 0
    ensures var b := NewBucket(env, t.info[out].addr, t.info[out].source);
      var p := BucketPosition(env, true, b, t.info[out].addr);
      && b < |t.new_| && p < |t.new_[b]|
      && var x, m' := t.new_[b][p], Refilled(env, t, out);
      && m'.new_ == Set(t.new_, b, p, out) && LeavesOut(t, m', out, x) && x != out && m'.tried == t.tried
      && m'.collisions == t.collisions && out in m'.info && SameWithCount(t.info[out], m'.info[out], 1)
  {
    hide NewOk, RandomOk, ClearedNew, SameStats, FillSlot, LeavesOut;
    RefillReady(env, t, out);
    var b, p := HomeBucket(env, t.info[out]), HomePosition(env, t.info[out]);
    ClearedLeavesOut(env, t, b, p, out);
    var c := ClearedNew(env, t, b, p);
    FilledOutcome(t, c, b, p, out, t.new_[b][p]);
    Uncounted(t, FillSlot(c, b, p, out), out, t.new_[b][p]);
  }

  lemma Uncounted(t: Mgr, f: Mgr, out: int, x: int)
    requires LeavesOut(t, f, out, x)
    ensures LeavesOut(t, f.(nNew := f.nNew + 1), out, x)
  {
  }

  lemma FreedOutcome(env: Env, u: Mgr, id: int)
    requires Inv(env, u, {id}, 1) && id in u.info && !u.info[id].fInTried && u.info[id].nRefCount == 0
    ensures Dim(u.tried, TRIED_BUCKET_COUNT) && Dim(u.new_, NEW_BUCKET_COUNT)
    ensures var out, f := TriedSlot(env, u.tried, u.info[id].addr), Freed(env, u, id);
      && (out == -1 ==> f == u)
      && (out != -1 ==>
            && out in u.info && out != id && out in f.info
            && SameWithCount(u.info[out].(fInTried := false), f.info[out], 1)
            && var b := NewBucket(env, u.info[out].addr, u.info[out].source);
            && var p := BucketPosition(env, true, b, u.info[out].addr);
            && f.new_ == Set(u.new_, b, p, out) && f.collisions == u.collisions
            && LeavesOut(u, f, out, u.new_[b][p]))
  {
    hide Inv, NewOk, RandomOk, TriedOk, Untried, Refilled, LeavesOut, SameStats;
    Parts(env, u, {id}, 1);
    var out := TriedSlot(env, u.tried, u.info[id].addr);
    if out != -1 {
      Occupant(env, u, id);
      UntriedParts(env, u, out, {id}, 1);
      var t := Untried(env, u, out);
      RefilledOutcome(env, t, out);
      UntriedNew(env, u, out);
      var b, p := HomeBucket(env, t.info[out]), HomePosition(env, t.info[out]);
      UntriedLeavesOut(u, t, Refilled(env, t, out), out, t.new_[b][p]);
    }
  }

  lemma UntriedNew(env: Env, u: Mgr, out: int)
    requires out in u.info && Dim(u.tried, TRIED_BUCKET_COUNT)
    ensures Untried(env, u, out).new_ == u.new_
  {
  }

  lemma UntriedLeavesOut(u: Mgr, t: Mgr, f: Mgr, out: int, x: int)
    requires out in u.info && t.info == u.info[out := u.info[out].(fInTried := false)] && LeavesOut(t, f, out, x)
    requires x != out
    ensures LeavesOut(u, f, out, x)
  {
    hide SameStats;
  }

  lemma OutOfNewOutcome(env: Env, m: Mgr, id: int)
    requires Inv(env, m, {}, 0) && id in m.info && !m.info[id].fInTried
    ensures Dim(m.new_, NEW_BUCKET_COUNT)
    ensures var u := OutOfNew(env, m, id);
      && u.info == m.info[id := m.info[id].(nRefCount := 0)] && u.tried == m.tried && u.collisions == m.collisions
      && u.nIdCount == m.nIdCount && Vacated(m.new_, u.new_, id, NEW_BUCKET_COUNT)
  {
    hide Inv, NewOk, Unslotted, Vacated, KeepsEntries;
    Parts(env, m, {}, 0);
    OutOfNewReady(env, m, id);
    UnslottedEffect(env, m, id, NEW_BUCKET_COUNT);
    UnslottedTable(env, m, id, NEW_BUCKET_COUNT);
  }

  /** The three steps together. */
  lemma ComposeMove(env: Env, m: Mgr, id: int, u: Mgr, f: Mgr, m': Mgr)
    requires Dim(m.tried, TRIED_BUCKET_COUNT) && Dim(m.new_, NEW_BUCKET_COUNT) && id in m.info && -1 !in m.info
    requires u.info == m.info[id := m.info[id].(nRefCount := 0)] && Vacated(m.new_, u.new_, id, NEW_BUCKET_COUNT)
    requires id in f.info && m'.info == f.info[id := f.info[id].(fInTried := true)] && m'.new_ == f.new_
    requires m'.nIdCount == m.nIdCount && m'.collisions == m.collisions
    requires var b := TriedBucket(env, m.info[id].addr);
      m'.tried == Set(m.tried, b, BucketPosition(env, false, b, m.info[id].addr), id)
    requires var out := TriedSlot(env, m.tried, m.info[id].addr);
      && (out == -1 ==> f == u)
      && (out != -1 ==>
            && out in u.info && out != id && out in f.info
            && SameWithCount(u.info[out].(fInTried := false), f.info[out], 1)
            && var b := NewBucket(env, u.info[out].addr, u.info[out].source);
            && var p := BucketPosition(env, true, b, u.info[out].addr);
            && f.new_ == Set(u.new_, b, p, out) && LeavesOut(u, f, out, u.new_[b][p]) && u.new_[b][p] != id)
    ensures MoveOutcome(env, m, id, m')
  {
  }

  /** MakeTried does that. */
  lemma MadeTriedOutcome(env: Env, m: Mgr, id: int)
    requires Inv(env, m, {}, 0) && id in m.info && !m.info[id].fInTried
    ensures Dim(m.tried, TRIED_BUCKET_COUNT) && Dim(m.new_, NEW_BUCKET_COUNT)
    ensures MoveOutcome(env, m, id, MadeTried(env, m, id))
  {
    hide Inv, NewOk, RandomOk, TriedOk, OutOfNew, Freed, KeepsEntries, Vacated, LeavesOut, SameStats, MoveOutcome,
         MadeTried;
    Parts(env, m, {}, 0);
    MadeTriedSteps(env, m, id);
    MadeTriedEffect(env, m, id);
    OutOfNewOutcome(env, m, id);
    var u := OutOfNew(env, m, id);
    OutOfNewReady(env, m, id);
    FreedOutcome(env, u, id);
    FreedEffect(env, u, id);
    var f := Freed(env, u, id);
    var out := TriedSlot(env, u.tried, u.info[id].addr);
    if out != -1 {
      Parts(env, u, {id}, 1);
      SlotIsNeither(env, u, HomeBucket(env, u.info[out]), HomePosition(env, u.info[out]), id);
    }
    KeptCounts(m, MadeTried(env, m, id));
    ComposeMove(env, m, id, u, f, MadeTried(env, m, id));
  }

  lemma KeptCounts(m: Mgr, m': Mgr)
    requires KeepsEntries(m, m')
    ensures m'.nIdCount == m.nIdCount && m'.collisions == m.collisions
  {
  }

  /** All that Good does but for the time of the last success anywhere. */
  ghost predicate GoodOutcome(env: Env, m: Mgr, a: Service, testBeforeEvict: bool, nTime: int, m': Mgr)
    requires Sound(env, m)
  {
    SoundCounts(env, m);
    var n := if env.discriminatePorts then a else Service(a.ip, 0);
    if n !in m.addr || m.info[m.addr[n]].addr != a then m' == m
    else
      var id := m.addr[n];
      var m1 := m.(info := m.info[id := m.info[id].(nLastSuccess := nTime, nLastTry := nTime, nAttempts := 0)]);
      var b := TriedBucket(env, a);
      if m.info[id].fInTried then m' == m1
      else if testBeforeEvict && m.tried[b][BucketPosition(env, false, b, a)] != -1 then
        m' == m1.(collisions := if |m.collisions| < 10 then m.collisions + {id} else m.collisions)
      else MoveOutcome(env, m1, id, m')
  }

  lemma GoodDoes(env: Env, m: Mgr, a: Service, testBeforeEvict: bool, nTime: int)
    requires Sound(env, m)
    ensures GoodOutcome(env, m, a, testBeforeEvict, nTime, GoodSpec(env, m, a, testBeforeEvict, nTime))
  {
    hide Inv, TimesOk, CollisionsOk, MadeTried, MoveOutcome;
    Parts(env, m, {}, 0);
    SoundCounts(env, m);
    if FindExact(env, m, a).Some? {
      var id := FindExact(env, m, a).value;
      RestatInv(env, m, id, GoodInfo(m.info[id], nTime), {}, 0);
      var m1 := WithInfo(m, id, GoodInfo(m.info[id], nTime));
      if !m.info[id].fInTried {
        MadeTriedOutcome(env, m1, id);
      }
    }
  }

  // ----- Terrible entries and their statistics

  /**
   An entry is terrible when it was not tried within the last minute and has a time more than ten
   minutes ahead, none or one older than thirty days, or three failures and no success ever, or ten
   failures and no success for a week.
   */
  lemma TerribleIff(r: AddrInfo, now: int)
    ensures IsTerrible(r, now) <==>
      && (r.nLastTry == 0 || r.nLastTry < now - 60)
      && (|| r.nTime > now + 600 || r.nTime == 0 || r.nTime < now - 2592000
          || (r.nAttempts >= 3 && r.nLastSuccess == 0) || (r.nAttempts >= 10 && r.nLastSuccess < now - 604800))
  {
  }

  /** An address just tried is not terrible for a minute, so no announcement can push it out meanwhile. */
  lemma AttemptSpares(env: Env, m: Mgr, lastGood: int, a: Service, fCountFailure: bool, nTime: int, b: Address,
                      source: nat, nTimePenalty: int, now: int, later: int, roll: nat)
    requires Sound(env, m) && FindExact(env, m, a).Some? && 0 < nTime && later <= nTime + 60
    ensures var m1 := AttemptSpec(env, m, lastGood, a, fCountFailure, nTime);
      && Sound(env, m1)
      && FindExact(env, AddSpec(env, m1, b, source, nTimePenalty, now, later, roll).0, a) == FindExact(env, m, a)
  {
    hide Inv, CollisionsOk, TimesOk, AddSpec, Norm;
    var id := FindExact(env, m, a).value;
    var m1 := AttemptSpec(env, m, lastGood, a, fCountFailure, nTime);
    RestatSoundIff(env, m, id, m1.info[id]);
    TerribleIff(m1.info[id], later);
    HealthyStays(env, m1, b, source, nTimePenalty, now, later, roll, id);
    AddSound(env, m1, b, source, nTimePenalty, now, later, roll);
    OwnAddress(env, AddSpec(env, m1, b, source, nTimePenalty, now, later, roll).0, id);
  }

  /** Failures are counted once until some address succeeds again, and only when they are to be counted. */
  lemma AttemptsCountOnce(env: Env, m: Mgr, lastGood: int, a: Service, f1: bool, t1: int, f2: bool, t2: int)
    requires AddrOk(env, m.info, m.addr) && FindExact(env, m, a).Some? && t1 >= lastGood
    ensures var id := FindExact(env, m, a).value;
      var m1 := AttemptSpec(env, m, lastGood, a, f1, t1);
      var m2 := AttemptSpec(env, m1, lastGood, a, f2, t2);
      var due := m.info[id].nLastCountAttempt < lastGood;
      && id in m1.info && id in m2.info && m1.info[id].nLastTry == t1 && m2.info[id].nLastTry == t2
      && m1.info[id].nAttempts == m.info[id].nAttempts + (if f1 && due then 1 else 0)
      && m2.info[id].nAttempts == m.info[id].nAttempts + (if (f1 || f2) && due then 1 else 0)
      && SameShape(m.info[id], m2.info[id]) && m2.info[id].nLastSuccess == m.info[id].nLastSuccess
      && m2.info[id].nTime == m.info[id].nTime && m2.info[id].services == m.info[id].services
      && m2 == m.(info := m.info[id := m2.info[id]])
  {
  }

  /** After a connection the time of an address is at most twenty minutes old, and is moved only for that. */
  lemma ConnectedIsFresh(env: Env, m: Mgr, a: Service, nTime: int)
    ensures FindExact(env, m, a).None? ==> ConnectedSpec(env, m, a, nTime) == m
    ensures FindExact(env, m, a).Some? ==>
      var id, m' := FindExact(env, m, a).value, ConnectedSpec(env, m, a, nTime);
      && id in m'.info && m' == m.(info := m.info[id := m.info[id].(nTime := m'.info[id].nTime)])
      && nTime - m'.info[id].nTime <= 1200
      && (m'.info[id].nTime == m.info[id].nTime || (m'.info[id].nTime == nTime && nTime - m.info[id].nTime > 1200))
  {
    if FindExact(env, m, a).Some? {
      var id := FindExact(env, m, a).value;
      assert m.info == m.info[id := m.info[id]];
    }
  }

  /** The services of a known address are replaced, and nothing else. */
  lemma ServicesAreSet(env: Env, m: Mgr, a: Service, services: set<nat>)
    ensures FindExact(env, m, a).None? ==> SetServicesSpec(env, m, a, services) == m
    ensures FindExact(env, m, a).Some? ==>
      var id, m' := FindExact(env, m, a).value, SetServicesSpec(env, m, a, services);
      && id in m'.info && m'.info[id].services == services
      && m == m'.(info := m'.info[id := m'.info[id].(services := m.info[id].services)])
  {
    if FindExact(env, m, a).Some? {
      var id := FindExact(env, m, a).value;
      assert m.info == m.info[id := m.info[id]];
    }
  }

  /** Between operations an entry that is not tried has a slot in the new table. */
  lemma HasSlot(env: Env, m: Mgr, id: int)
    requires Inv(env, m, {}, 0) && id in m.info && !m.info[id].fInTried && Dim(m.new_, NEW_BUCKET_COUNT)
    ensures Slots(env, m.new_, id, m.info[id].addr) != {}
  {
    hide Frame;
  }

  lemma SlotsCount(env: Env, m: Mgr, id: int)
    requires NewOk(env, m.info, m.new_) && id in m.info
    ensures m.info[id].nRefCount >= 0
  {
  }

  /** Attempt: the time of the try, and a failure counted once per success elsewhere. */
  function AttemptSpec(env: Env, m: Mgr, lastGood: int, a: Service, fCountFailure: bool, nTime: int): Mgr {
    match FindExact(env, m, a)
    case None => m
    case Some(id) =>
      var r := m.info[id].(nLastTry := nTime);
      WithInfo(m, id,
        if fCountFailure && r.nLastCountAttempt < lastGood then
          r.(nLastCountAttempt := nTime, nAttempts := r.nAttempts + 1)
        else r)
  }

  function ConnectedSpec(env: Env, m: Mgr, a: Service, nTime: int): Mgr {
    match FindExact(env, m, a)
    case None => m
    case Some(id) =>
      var r := m.info[id];
      WithInfo(m, id, if nTime - r.nTime > 20 * 60 then r.(nTime := nTime) else r)
  }

  function SetServicesSpec(env: Env, m: Mgr, a: Service, services: set<nat>): Mgr {
    match FindExact(env, m, a)
    case None => m
    case Some(id) => WithInfo(m, id, m.info[id].(services := services))
  }
  lemma RestatKeepsCollisions(env: Env, m: Mgr, id: int, r: AddrInfo)
    requires Dim(m.tried, TRIED_BUCKET_COUNT) && CollisionsOk(env, m) && id in m.info && r.addr == m.info[id].addr
    ensures CollisionsOk(env, WithInfo(m, id, r))
  {
  }

  /** Rewriting statistics of an entry leaves a sound manager sound exactly when the new try time is not negative. */
  lemma RestatSoundIff(env: Env, m: Mgr, id: int, r: AddrInfo)
    requires Sound(env, m) && id in m.info && SameShape(m.info[id], r) && r.nLastSuccess == m.info[id].nLastSuccess
    ensures Sound(env, WithInfo(m, id, r)) <==> r.nLastTry >= 0
  {
    hide Inv, CollisionsOk, Dim;
    Parts(env, m, {}, 0);
    RestatInv(env, m, id, r, {}, 0);
    RestatKeepsCollisions(env, m, id, r);
    assert r.nLastTry >= 0 ==> forall x :: x in m.info[id := r] ==> x == id || x in m.info;
    assert WithInfo(m, id, r).info[id] == r;
  }

  // ----- Pending collisions

  /** A manager with the time of the last success anywhere. */
  datatype State = State(m: Mgr, lastGood: int)

  function Dropped(s: State, id: int): State {
    s.(m := s.m.(collisions := s.m.collisions - {id}))
  }

  /** One pending collision looked at, with the clock readings made meanwhile. */
  datatype Visit = Visit(id: int, now1: int, now2: int, now3: int, now4: int)

  /** Who holds the tried slot a pending collision wants. */
  function Holder(env: Env, m: Mgr, id: int): (out: int)
    requires Sound(env, m) && id in m.collisions && id in m.info
    ensures out in m.info && m.info[out].fInTried
  {
    assert Occupied(env, m.tried, m.info[id].addr);
    TriedSlot(env, m.tried, m.info[id].addr)
  }

  /**
   A collision is dropped when its entry is gone or no longer valid, when the holder of the slot
   succeeded within four hours, or, after the swap, when the holder was tried within four hours but
   more than a minute ago.  Otherwise it stays pending.
   */
  function Visited(env: Env, s: State, v: Visit): State
    requires Sound(env, s.m) && v.id in s.m.collisions
  {
    if v.id !in s.m.info || !env.isValid(s.m.info[v.id].addr) then Dropped(s, v.id)
    else
      var r := s.m.info[Holder(env, s.m, v.id)];
      if v.now1 - r.nLastSuccess < REPLACEMENT_HOURS * 60 * 60 then Dropped(s, v.id)
      else if v.now2 - r.nLastTry < REPLACEMENT_HOURS * 60 * 60 && v.now3 - r.nLastTry > 60 then
        Dropped(State(GoodSpec(env, s.m, s.m.info[v.id].addr, false, v.now4), v.now4), v.id)
      else s
  }

  predicate VisitStep(env: Env, v: Visit, s: State, s': State) {
    Sound(env, s.m) && v.id in s.m.collisions && v.now4 > 0 && s' == Visited(env, s, v)
  }

  lemma VisitSound(env: Env, v: Visit, s: State, s': State)
    requires VisitStep(env, v, s, s')
    ensures Sound(env, s'.m) && s.m.collisions - {v.id} <= s'.m.collisions <= s.m.collisions
  {
    hide Inv, TimesOk, CollisionsOk, GoodSpec;
    FewerCollisions(env, s.m, s.m.collisions - {v.id});
    if v.id in s.m.info {
      var a := s.m.info[v.id].addr;
      OwnAddress(env, s.m, v.id);
      GoodSoundIff(env, s.m, a, false, v.now4);
      GoodInv(env, s.m, a, false, v.now4);
      var g := GoodSpec(env, s.m, a, false, v.now4);
      FewerCollisions(env, g, g.collisions - {v.id});
    }
  }

  /** No success for four hours, and a try within four hours but not the last minute; all in seconds. */
  predicate Loses(r: AddrInfo, v: Visit) {
    v.now1 - r.nLastSuccess >= 14400 && v.now2 - r.nLastTry < 14400 && v.now3 - r.nLastTry > 60
  }

  /**
   What one pending collision comes to: the entry takes over the tried slot it wants exactly when the
   holder loses it, and stays pending exactly when the holder neither succeeded nor failed a recent try.
   */
  ghost predicate VisitOutcome(env: Env, s: State, v: Visit, s': State)
    requires Sound(env, s.m) && v.id in s.m.collisions
  {
    SoundCounts(env, s.m);
    SoundTried(env, s.m);
    var m, m' := s.m, s'.m;
    var dropped := s.(m := m.(collisions := m.collisions - {v.id}));
    if v.id !in m.info || !env.isValid(m.info[v.id].addr) then s' == dropped
    else
      var a := m.info[v.id].addr;
      var b := TriedBucket(env, a);
      var p := BucketPosition(env, false, b, a);
      var h := m.tried[b][p];
      && h in m.info
      && var r := m.info[h];
      if v.now1 - r.nLastSuccess < 14400 then s' == dropped
      else if Loses(r, v) then
        && s'.lastGood == v.now4 && Dim(m'.tried, TRIED_BUCKET_COUNT) && m'.tried[b][p] == v.id
        && m'.collisions == m.collisions - {v.id}
        && GoodOutcome(env, m, a, false, v.now4, m'.(collisions := m.collisions))
      else s' == s
  }

  lemma SoundTried(env: Env, m: Mgr)
    requires Sound(env, m)
    ensures Dim(m.tried, TRIED_BUCKET_COUNT) && TriedOk(env, m.info, m.tried)
    ensures forall id :: id in m.collisions && id in m.info ==> TriedSlot(env, m.tried, m.info[id].addr) in m.info
  {
    hide TimesOk, RandomOk, AddrOk, CountsOk;
    forall id | id in m.collisions && id in m.info ensures TriedSlot(env, m.tried, m.info[id].addr) in m.info {
      assert Occupied(env, m.tried, m.info[id].addr);
    }
  }

  lemma VisitDoes(env: Env, v: Visit, s: State, s': State)
    requires VisitStep(env, v, s, s')
    ensures VisitOutcome(env, s, v, s')
  {
    hide Inv, TimesOk, CollisionsOk, GoodSpec, GoodOutcome, TriedOk;
    SoundTried(env, s.m);
    SoundCounts(env, s.m);
    if v.id in s.m.info {
      OwnAddress(env, s.m, v.id);
      var a := s.m.info[v.id].addr;
      GoodDoes(env, s.m, a, false, v.now4);
      GoodInv(env, s.m, a, false, v.now4);
      var g := GoodSpec(env, s.m, a, false, v.now4);
      SoundSlot(env, g, v.id);
      assert g.(collisions := g.collisions - {v.id}).(collisions := s.m.collisions) == g;
    }
  }

  /** A tried entry is in its slot. */
  lemma SoundSlot(env: Env, m: Mgr, id: int)
    requires Inv(env, m, {}, 0) && id in m.info && m.info[id].fInTried
    ensures Dim(m.tried, TRIED_BUCKET_COUNT) && TriedSlot(env, m.tried, m.info[id].addr) == id
  {
  }

  lemma OwnAddress(env: Env, m: Mgr, id: int)
    requires Sound(env, m) && id in m.info
    ensures FindExact(env, m, m.info[id].addr) == Some(id) && Dim(m.tried, TRIED_BUCKET_COUNT)
  {
  }

  /** A pass over all pending collisions, in ascending order. */
  ghost predicate IsPass(env: Env, visits: seq<Visit>, states: seq<State>) {
    && |states| == |visits| + 1
    && (forall i :: 0 <= i < |visits| ==> VisitStep(env, visits[i], states[i], states[i + 1]))
    && (forall i, j :: 0 <= i < j < |visits| ==> visits[i].id < visits[j].id)
    && Seen(visits, states[0].m.collisions)
  }

  ghost predicate Seen(visits: seq<Visit>, ids: set<int>) {
    forall id :: id in ids <==> exists i :: 0 <= i < |visits| && visits[i].id == id
  }

  lemma NoneSeen()
    ensures Seen([], {})
  {
  }

  lemma SeenOneMore(visits: seq<Visit>, v: Visit, ids: set<int>)
    requires Seen(visits, ids)
    ensures Seen(visits + [v], ids + {v.id})
  {
    var more := visits + [v];
    forall id ensures id in ids + {v.id} <==> exists i :: 0 <= i < |more| && more[i].id == id {
      if id == v.id {
        assert more[|visits|].id == id;
      } else if id in ids {
        var i :| 0 <= i < |visits| && visits[i].id == id;
        assert more[i].id == id;
      }
    }
  }

  lemma {:induction false} PassSound(env: Env, visits: seq<Visit>, states: seq<State>, k: nat)
    requires |states| == |visits| + 1 && k <= |visits| && Sound(env, states[0].m)
    requires forall i :: 0 <= i < |visits| ==> VisitStep(env, visits[i], states[i], states[i + 1])
    ensures Sound(env, states[k].m) && states[k].m.collisions <= states[0].m.collisions
  {
    if k > 0 {
      PassSound(env, visits, states, k - 1);
      VisitSound(env, visits[k - 1], states[k - 1], states[k]);
    }
  }

  /** Each visit does what VisitOutcome says. */
  ghost predicate PassOutcome(env: Env, visits: seq<Visit>, states: seq<State>)
    requires |states| == |visits| + 1
  {
    forall i :: 0 <= i < |visits| ==>
      VisitStep(env, visits[i], states[i], states[i + 1]) && VisitOutcome(env, states[i], visits[i], states[i + 1])
  }

  lemma PassDoes(env: Env, visits: seq<Visit>, states: seq<State>)
    requires |states| == |visits| + 1
    requires forall i :: 0 <= i < |visits| ==> VisitStep(env, visits[i], states[i], states[i + 1])
    ensures PassOutcome(env, visits, states)
  {
    hide VisitOutcome, Visited, Sound;
    forall i | 0 <= i < |visits| ensures VisitOutcome(env, states[i], visits[i], states[i + 1]) {
      VisitDoes(env, visits[i], states[i], states[i + 1]);
    }
  }

  /** Slot p of tried bucket b is held by h, with the same statistics as in r. */
  ghost predicate HeldBy(m: Mgr, b: nat, p: nat, h: int, r: AddrInfo) {
    && b < |m.tried| && p < |m.tried[b]| && m.tried[b][p] == h && h in m.info
    && m.info[h].addr == r.addr && SameStats(r, m.info[h])
  }

  lemma VisitKeepsHolder(env: Env, v: Visit, s: State, s': State, b: nat, p: nat, h: int, r: AddrInfo)
    requires VisitStep(env, v, s, s') && h != -1 && HeldBy(s.m, b, p, h, r) && !Loses(r, v)
    ensures HeldBy(s'.m, b, p, h, r)
  {
    hide Inv, TimesOk, CollisionsOk, GoodSpec, MoveOutcome;
    VisitDoes(env, v, s, s');
    VisitSound(env, v, s, s');
    SoundTried(env, s.m);
    SoundTried(env, s'.m);
    SoundCounts(env, s.m);
    if v.id in s.m.info {
      var a := s.m.info[v.id].addr;
      OwnAddress(env, s.m, v.id);
      var b1 := TriedBucket(env, a);
      var p1 := BucketPosition(env, false, b1, a);
      if b1 != b || p1 != p {
        ElsewhereHeld(env, s.m, a, v.now4, s'.m.(collisions := s.m.collisions), v.id, b, p, h, r);
      }
    }
  }

  /** A slot and its holder are the same after an entry with another slot is called good. */
  lemma ElsewhereHeld(env: Env, m: Mgr, a: Service, nTime: int, m': Mgr, id: int, b: nat, p: nat, h: int, r: AddrInfo)
    requires Sound(env, m) && id in m.info && m.info[id].addr == a && FindExact(env, m, a) == Some(id)
    requires h != -1 && HeldBy(m, b, p, h, r)
    requires b != TriedBucket(env, a) || p != BucketPosition(env, false, b, a)
    ensures GoodOutcome(env, m, a, false, nTime, m') ==> HeldBy(m', b, p, h, r)
  {
    hide Inv, TimesOk, CollisionsOk, Vacated, Exchanged, NewOk, RandomOk, AddrOk, CountsOk, EntriesOk, IdsOk;
    SoundTried(env, m);
    SoundCounts(env, m);
    Parts(env, m, {}, 0);
    assert h in m.info && h != id && m.info[h].nRefCount == 0 && m.info[h].fInTried;
    var b1 := TriedBucket(env, a);
    var p1 := BucketPosition(env, false, b1, a);
    var out := m.tried[b1][p1];
    assert out != h;
    var m1 := m.(info := m.info[id := m.info[id].(nLastSuccess := nTime, nLastTry := nTime, nAttempts := 0)]);
    if out != -1 {
      var hb := NewBucket(env, m1.info[out].addr, m1.info[out].source);
      SlotIsNeither(env, m, hb, BucketPosition(env, true, hb, m1.info[out].addr), h);
    }
  }

  /**
   Whatever a pass resolves, a holder of a tried slot that no clock reading of the pass makes lose it
   holds it afterwards: it succeeded within four hours, or was not tried in that time, or just now.
   */
  lemma {:induction false} PassKeepsHolder(env: Env, visits: seq<Visit>, states: seq<State>, k: nat, b: nat, p: nat,
                                           h: int, r: AddrInfo)
    requires |states| == |visits| + 1 && k <= |visits| && Sound(env, states[0].m)
    requires forall i :: 0 <= i < |visits| ==> VisitStep(env, visits[i], states[i], states[i + 1])
    requires h != -1 && HeldBy(states[0].m, b, p, h, r)
    requires forall i :: 0 <= i < |visits| ==> !Loses(r, visits[i])
    ensures HeldBy(states[k].m, b, p, h, r)
  {
    if k > 0 {
      hide HeldBy, Sound, Visited, Loses;
      PassKeepsHolder(env, visits, states, k - 1, b, p, h, r);
      VisitKeepsHolder(env, visits[k - 1], states[k - 1], states[k], b, p, h, r);
    }
  }

  // ----- The manager

  class AddrManager {
    const env: Env
    var nIdCount: int
    var mapInfo: map<int, AddrInfo>
    var mapAddr: map<Service, int>
    var vRandom: seq<int>
    var nTried: int
    var vvTried: Table
    var nNew: int
    var vvNew: Table
    var nLastGood: int
    var triedCollisions: set<int>

    ghost function Snap(): Mgr
      reads this
    {
      Mgr(nIdCount, mapInfo, mapAddr, vRandom, nTried, vvTried, nNew, vvNew, triedCollisions)
    }

    ghost function Whole(): State
      reads this
    {
      State(Snap(), nLastGood)
    }

    ghost predicate Valid()
      reads this
    {
      Sound(env, Snap())
    }

    constructor (env: Env)
      ensures Valid() && this.env == env && Whole() == State(Empty(), 1)
    {
      this.env := env;
      vvNew := seq(NEW_BUCKET_COUNT, _ => seq(BUCKET_SIZE, _ => -1));
      vvTried := seq(TRIED_BUCKET_COUNT, _ => seq(BUCKET_SIZE, _ => -1));
      vRandom, mapInfo, mapAddr := [], map[], map[];
      nIdCount, nTried, nNew, nLastGood := 0, 0, 0, 1;
      triedCollisions := {};
      new;
      EmptySound(env);
    }

    method SwapRandom(i: nat, j: nat)
      requires i < |vRandom| && j < |vRandom| && vRandom[i] in mapInfo && vRandom[j] in mapInfo
      modifies this
      ensures Snap() == Swapped(old(Snap()), i, j) && nLastGood == old(nLastGood)
    {
      if i == j {
        return;
      }
      var id1, id2 := vRandom[i], vRandom[j];
      mapInfo := mapInfo[id1 := mapInfo[id1].(nRandomPos := j)];
      mapInfo := mapInfo[id2 := mapInfo[id2].(nRandomPos := i)];
      vRandom := vRandom[i := id2];
      vRandom := vRandom[j := id1];
    }

    /** The entry must be in neither table. */
    method Delete(nId: int)
      requires nId in mapInfo && !mapInfo[nId].fInTried && mapInfo[nId].nRefCount == 0
      requires RandomOk(mapInfo, vRandom)
      modifies this
      ensures Snap() == Removed(env, old(Snap()), nId) && nLastGood == old(nLastGood)
    {
      var info := mapInfo[nId];
      SwapRandom(info.nRandomPos, |vRandom| - 1);
      ghost var s := Snap();
      assert s.info[nId].addr == info.addr;
      vRandom := vRandom[..|vRandom| - 1];
      mapAddr := mapAddr - {Norm(env, info.addr)};
      mapInfo := mapInfo - {nId};
      nNew := nNew - 1;
    }

    method ClearNew(b: nat, p: nat, ghost loose: set<int>, ghost gap: int)
      requires Inv(env, Snap(), loose, gap) && b < NEW_BUCKET_COUNT && p < BUCKET_SIZE
      modifies this
      ensures Snap() == ClearedNew(env, old(Snap()), b, p) && nLastGood == old(nLastGood)
    {
      hide Inv, NewOk, RandomOk, Removed, Dim;
      Parts(env, Snap(), loose, gap);
      SlotKnown(env, mapInfo, vvNew, b, p);
      if vvNew[b][p] != -1 {
        var nIdDelete := vvNew[b][p];
        ClearSlotInv(env, Snap(), b, p, loose, gap);
        Parts(env, ClearSlot(Snap(), b, p), loose + {nIdDelete}, gap);
        ghost var c := ClearSlot(Snap(), b, p);
        UntriedWithSlot(mapInfo, nIdDelete, loose);
        mapInfo := mapInfo[nIdDelete := mapInfo[nIdDelete].(nRefCount := mapInfo[nIdDelete].nRefCount - 1)];
        vvNew := Set(vvNew, b, p, -1);
        assert Snap() == c;
        if mapInfo[nIdDelete].nRefCount == 0 {
          Delete(nIdDelete);
        }
      }
    }

    /** The first part of MakeTried: the entry leaves every new bucket it is in. */
    method LeaveNewBuckets(nId: int)
      requires Dim(vvNew, NEW_BUCKET_COUNT) && nId in mapInfo
      modifies this
      ensures Snap() == Unslotted(env, old(Snap()), nId, NEW_BUCKET_COUNT) && nLastGood == old(nLastGood)
    {
      for bucket := 0 to NEW_BUCKET_COUNT
        invariant Snap() == Unslotted(env, old(Snap()), nId, bucket) && nLastGood == old(nLastGood)
      {
        var pos := BucketPosition(env, true, bucket, mapInfo[nId].addr);
        if vvNew[bucket][pos] == nId {
          vvNew := Set(vvNew, bucket, pos, -1);
          mapInfo := mapInfo[nId := mapInfo[nId].(nRefCount := mapInfo[nId].nRefCount - 1)];
        }
      }
    }

    /** Takes a tried entry out of its slot. */
    method Untry(nIdEvict: int, nKBucket: nat, nKBucketPos: nat)
      requires Dim(vvTried, TRIED_BUCKET_COUNT) && nIdEvict in mapInfo
      requires nKBucket == TriedBucket(env, mapInfo[nIdEvict].addr)
      requires nKBucketPos == BucketPosition(env, false, nKBucket, mapInfo[nIdEvict].addr)
      modifies this
      ensures Snap() == Untried(env, old(Snap()), nIdEvict) && nLastGood == old(nLastGood)
    {
      mapInfo := mapInfo[nIdEvict := mapInfo[nIdEvict].(fInTried := false)];
      vvTried := Set(vvTried, nKBucket, nKBucketPos, -1);
      nTried := nTried - 1;
    }

    /** Gives an entry in neither table a slot of the new table, clearing it first. */
    method Refill(nId: int, ghost loose: set<int>, ghost gap: int)
      requires Inv(env, Snap(), loose, gap) && nId in mapInfo && mapInfo[nId].nRefCount == 0
      requires NewOk(env, mapInfo, vvNew) && RandomOk(mapInfo, vRandom) && -1 !in mapInfo
      modifies this
      ensures Snap() == Refilled(env, old(Snap()), nId) && nLastGood == old(nLastGood)
    {
      hide Inv, NewOk, RandomOk, ClearedNew, KeepsOthers, SameStats;
      RefillReady(env, Snap(), nId);
      var nUBucket := NewBucket(env, mapInfo[nId].addr, mapInfo[nId].source);
      var nUBucketPos := BucketPosition(env, true, nUBucket, mapInfo[nId].addr);
      ClearNew(nUBucket, nUBucketPos, loose, gap);
      assert vvNew[nUBucket][nUBucketPos] == -1;
      mapInfo := mapInfo[nId := mapInfo[nId].(nRefCount := 1)];
      vvNew := Set(vvNew, nUBucket, nUBucketPos, nId);
      nNew := nNew + 1;
    }

    /** The middle part of MakeTried: the occupant of the tried slot is moved back to the new table. */
    method Evict(nIdEvict: int, nKBucket: nat, nKBucketPos: nat, ghost nId: int)
      requires Inv(env, Snap(), {nId}, 1) && nIdEvict in mapInfo && mapInfo[nIdEvict].fInTried
      requires nKBucket == TriedBucket(env, mapInfo[nIdEvict].addr)
      requires nKBucketPos == BucketPosition(env, false, nKBucket, mapInfo[nIdEvict].addr)
      modifies this
      ensures Snap() == Evicted(env, old(Snap()), nIdEvict, nId) && nLastGood == old(nLastGood)
    {
      hide Inv, NewOk, RandomOk, Untried, Refilled, Dim;
      UntriedParts(env, Snap(), nIdEvict, {nId}, 1);
      Untry(nIdEvict, nKBucket, nKBucketPos);
      Refill(nIdEvict, {nId} + {nIdEvict}, 2);
    }

    /** Empties the tried slot an entry is to go to. */
    method FreeTriedSlot(nId: int, nKBucket: nat, nKBucketPos: nat)
      requires Inv(env, Snap(), {nId}, 1) && nId in mapInfo && !mapInfo[nId].fInTried && mapInfo[nId].nRefCount == 0
      requires nKBucket == TriedBucket(env, mapInfo[nId].addr)
      requires nKBucketPos == BucketPosition(env, false, nKBucket, mapInfo[nId].addr)
      modifies this
      ensures Snap() == Freed(env, old(Snap()), nId) && nLastGood == old(nLastGood)
    {
      hide Inv, Evicted, TriedOk;
      Parts(env, Snap(), {nId}, 1);
      if vvTried[nKBucket][nKBucketPos] != -1 {
        Occupant(env, Snap(), nId);
        Evict(vvTried[nKBucket][nKBucketPos], nKBucket, nKBucketPos, nId);
      }
    }

    /** Puts an entry into its tried slot, which is empty. */
    method FillTriedSlot(nId: int, nKBucket: nat, nKBucketPos: nat)
      requires Dim(vvTried, TRIED_BUCKET_COUNT) && nId in mapInfo && nKBucket == TriedBucket(env, mapInfo[nId].addr)
      requires nKBucketPos == BucketPosition(env, false, nKBucket, mapInfo[nId].addr)
      requires vvTried[nKBucket][nKBucketPos] == -1
      modifies this
      ensures Snap() == Tried(env, old(Snap()), nId) && nLastGood == old(nLastGood)
    {
      vvTried := Set(vvTried, nKBucket, nKBucketPos, nId);
      nTried := nTried + 1;
      mapInfo := mapInfo[nId := mapInfo[nId].(fInTried := true)];
    }

    /** The last part of MakeTried: the tried slot is freed and taken. */
    method FreeAndFill(nId: int)
      requires Inv(env, Snap(), {nId}, 1) && nId in mapInfo && !mapInfo[nId].fInTried && mapInfo[nId].nRefCount == 0
      requires var f := Freed(env, Snap(), nId);
        && Dim(f.tried, TRIED_BUCKET_COUNT) && nId in f.info && f.info[nId].addr == mapInfo[nId].addr
        && TriedSlot(env, f.tried, mapInfo[nId].addr) == -1
      modifies this
      ensures nLastGood == old(nLastGood)
      ensures Snap() == Tried(env, Freed(env, old(Snap()), nId), nId)
    {
      hide Inv, Tried, Freed;
      var nKBucket := TriedBucket(env, mapInfo[nId].addr);
      var nKBucketPos := BucketPosition(env, false, nKBucket, mapInfo[nId].addr);
      FreeTriedSlot(nId, nKBucket, nKBucketPos);
      FillTriedSlot(nId, nKBucket, nKBucketPos);
    }

    method MakeTried(nId: int)
      requires Inv(env, Snap(), {}, 0) && nId in mapInfo && !mapInfo[nId].fInTried
      modifies this
      ensures Snap() == MadeTried(env, old(Snap()), nId) && nLastGood == old(nLastGood)
    {
      hide Inv, MadeTried, Tried, Freed, Unslotted, TriedSlot;
      ghost var m := Snap();
      MadeTriedSteps(env, m, nId);
      LeaveNewBuckets(nId);
      nNew := nNew - 1;
      assert Snap() == OutOfNew(env, m, nId);
      hide OutOfNew;
      FreeAndFill(nId);
    }

    method Find(a: Service) returns (found: Option<int>)
      ensures found == FindId(env, Snap(), a)
    {
      var n := Norm(env, a);
      found := None;
      if n in mapAddr {
        var nId := mapAddr[n];
        if nId in mapInfo {
          found := Some(nId);
        }
      }
    }

    /** Scans all new buckets from a random one on. */
    method FindNewBucket(nId: int, nRnd: nat) returns (nUBucket: int)
      requires Dim(vvNew, NEW_BUCKET_COUNT) && nId in mapInfo && nRnd < NEW_BUCKET_COUNT
      ensures nUBucket == -1 ==> Slots(env, vvNew, nId, mapInfo[nId].addr) == {}
      ensures nUBucket != -1 ==> nUBucket in Slots(env, vvNew, nId, mapInfo[nId].addr)
    {
      for n := 0 to NEW_BUCKET_COUNT
        invariant forall b :: 0 <= b < NEW_BUCKET_COUNT && (b + NEW_BUCKET_COUNT - nRnd) % NEW_BUCKET_COUNT < n ==>
          vvNew[b][BucketPosition(env, true, b, mapInfo[nId].addr)] != nId
      {
        var nB := (n + nRnd) % NEW_BUCKET_COUNT;
        var nBpos := BucketPosition(env, true, nB, mapInfo[nId].addr);
        if vvNew[nB][nBpos] == nId {
          return nB;
        }
      }
      return -1;
    }

    /** The second half of Good, for an entry that is not tried yet. */
    method Promote(nId: int, testBeforeEvict: bool, nRnd: nat)
      requires Inv(env, Snap(), {}, 0) && nId in mapInfo && !mapInfo[nId].fInTried && nRnd < NEW_BUCKET_COUNT
      modifies this
      ensures Snap() == Promoted(env, old(Snap()), nId, testBeforeEvict) && nLastGood == old(nLastGood)
    {
      hide Inv, MadeTried, Slots;
      Parts(env, Snap(), {}, 0);
      var nUBucket := FindNewBucket(nId, nRnd);
      assert nUBucket != -1 by {
        HasSlot(env, Snap(), nId);
      }
      var triedBucket := TriedBucket(env, mapInfo[nId].addr);
      var triedBucketPos := BucketPosition(env, false, triedBucket, mapInfo[nId].addr);
      if testBeforeEvict && vvTried[triedBucket][triedBucketPos] != -1 {
        if |triedCollisions| < SET_TRIED_COLLISION_SIZE {
          triedCollisions := triedCollisions + {nId};
        }
      } else {
        MakeTried(nId);
      }
    }

    method Good(a: Service, testBeforeEvict: bool, nTime: int, nRnd: nat)
      requires Valid() && nRnd < NEW_BUCKET_COUNT
      modifies this
      ensures Whole() == State(GoodSpec(env, old(Snap()), a, testBeforeEvict, nTime), nTime)
      ensures GoodOutcome(env, old(Snap()), a, testBeforeEvict, nTime, Snap())
      ensures Valid() <==> GoodKeeps(env, old(Snap()), a, testBeforeEvict, nTime)
    {
      hide Inv, GoodKeeps, Promoted, TimesOk, CollisionsOk, GoodOutcome;
      GoodDoes(env, Snap(), a, testBeforeEvict, nTime);
      GoodSoundIff(env, Snap(), a, testBeforeEvict, nTime);
      ghost var m := Snap();
      nLastGood := nTime;
      var found := Find(a);
      if found.None? {
        return;
      }
      var nId := found.value;
      if mapInfo[nId].addr != a {
        return;
      }
      RestatInv(env, m, nId, GoodInfo(m.info[nId], nTime), {}, 0);
      mapInfo := mapInfo[nId := mapInfo[nId].(nLastSuccess := nTime, nLastTry := nTime, nAttempts := 0)];
      assert Snap() == WithInfo(m, nId, GoodInfo(m.info[nId], nTime));
      if mapInfo[nId].fInTried {
        return;
      }
      Promote(nId, testBeforeEvict, nRnd);
    }

    method TakeSlot(b: nat, p: nat, nId: int)
      requires Inv(env, Snap(), {nId}, 0) && nId in mapInfo
      requires b < NEW_BUCKET_COUNT && p < BUCKET_SIZE && vvNew[b][p] != nId
      requires nId in ClearedNew(env, Snap(), b, p).info
      requires var c := ClearedNew(env, Snap(), b, p); b < |c.new_| && p < |c.new_[b]|
      modifies this
      ensures Snap() == FillSlot(ClearedNew(env, old(Snap()), b, p), b, p, nId) && nLastGood == old(nLastGood)
    {
      hide Inv, ClearedNew;
      ClearNew(b, p, {nId}, 0);
      mapInfo := mapInfo[nId := mapInfo[nId].(nRefCount := mapInfo[nId].nRefCount + 1)];
      vvNew := Set(vvNew, b, p, nId);
    }

    /** The last step of Add: take the slot, or give up and forget an entry that has none. */
    method Place(nId: int, source: nat, now: int)
      requires Inv(env, Snap(), {nId}, 0) && nId in mapInfo && !mapInfo[nId].fInTried
      modifies this
      ensures Snap() == Placed(env, old(Snap()), nId, source, now) && nLastGood == old(nLastGood)
    {
      hide Inv, NewOk, RandomOk, ClearedNew, Removed, IsTerrible, KeepsOthers;
      ghost var m := Snap();
      Parts(env, m, {nId}, 0);
      var nUBucket := NewBucket(env, mapInfo[nId].addr, source);
      var nUBucketPos := BucketPosition(env, true, nUBucket, mapInfo[nId].addr);
      SlotKnown(env, mapInfo, vvNew, nUBucket, nUBucketPos);
      var x := vvNew[nUBucket][nUBucketPos];
      if x != nId {
        var fInsert := x == -1;
        if !fInsert {
          var infoExisting := mapInfo[x];
          if IsTerrible(infoExisting, now) || (infoExisting.nRefCount > 1 && mapInfo[nId].nRefCount == 0) {
            fInsert := true;
          }
        }
        if fInsert {
          ClearedNewEffect(env, m, nUBucket, nUBucketPos);
          OtherStays(m, ClearedNew(env, m, nUBucket, nUBucketPos), x, nId);
          TakeSlot(nUBucket, nUBucketPos, nId);
        } else if mapInfo[nId].nRefCount == 0 {
          Delete(nId);
        }
      }
    }

    method Create(a: Address, source: nat) returns (nId: int)
      modifies this
      ensures nId == old(nIdCount) && Snap() == Created(env, old(Snap()), NewInfo(a, source))
              && nLastGood == old(nLastGood)
    {
      nId := nIdCount;
      nIdCount := nIdCount + 1;
      mapInfo := mapInfo[nId := NewInfo(a, source)];
      mapAddr := mapAddr[Norm(env, a.service) := nId];
      mapInfo := mapInfo[nId := mapInfo[nId].(nRandomPos := |vRandom|)];
      vRandom := vRandom + [nId];
    }

    /** The stochastic test: an entry with n slots gains another with probability 2^-n. */
    method Lucky(nRefCount: nat, roll: nat) returns (lucky: bool)
      ensures lucky <==> nRefCount == 0 || roll % Pow2(nRefCount) == 0
    {
      var nFactor := 1;
      for n := 0 to nRefCount
        invariant nFactor == Pow2(n)
      {
        nFactor := nFactor * 2;
      }
      lucky := !(nFactor > 1 && roll % nFactor != 0);
    }

    method Add(a: Address, source: nat, nTimePenalty: int, now: int, later: int, roll: nat) returns (fNew: bool)
      requires Valid()
      modifies this
      ensures Valid() && nLastGood == old(nLastGood)
      ensures (Snap(), fNew) == AddSpec(env, old(Snap()), a, source, nTimePenalty, now, later, roll)
      ensures AddOutcome(env, old(Snap()), a, source, nTimePenalty, now, later, roll, Snap(), fNew)
    {
      AddSound(env, Snap(), a, source, nTimePenalty, now, later, roll);
      AddDoes(env, Snap(), a, source, nTimePenalty, now, later, roll);
      hide AddOutcome;
      if !env.isRoutable(a.service) {
        return false;
      }
      var penalty := if a.service.ip == source then 0 else nTimePenalty;
      var found := Find(a.service);
      if found.Some? {
        AddToKnown(found.value, a, source, penalty, now, later, roll);
        return false;
      }
      AddToUnknown(a, source, penalty, later);
      return true;
    }

    /** A fresher time and more services for a known entry. */
    method Touch(nId: int, a: Address, penalty: int, now: int)
      requires nId in mapInfo
      modifies this
      ensures Snap() == WithInfo(old(Snap()), nId, Touched(old(mapInfo)[nId], a, penalty, now))
      ensures nLastGood == old(nLastGood)
    {
      var fCurrentlyOnline := now - a.nTime < 24 * 60 * 60;
      var nUpdateInterval := if fCurrentlyOnline then 60 * 60 else 24 * 60 * 60;
      var info := mapInfo[nId];
      if a.nTime != 0 && (info.nTime == 0 || info.nTime < a.nTime - nUpdateInterval - penalty) {
        info := info.(nTime := Max0(a.nTime - penalty));
      }
      info := info.(services := info.services + a.services);
      mapInfo := mapInfo[nId := info];
    }

    method AddToKnown(nId: int, a: Address, source: nat, penalty: int, now: int, later: int, roll: nat)
      requires Inv(env, Snap(), {}, 0) && nId in mapInfo
      modifies this
      ensures Snap() == AddKnown(env, old(Snap()), nId, a, source, penalty, now, later, roll)
              && nLastGood == old(nLastGood)
    {
      hide Inv, Touched, Placed;
      ghost var m := Snap();
      TouchedShape(m.info[nId], a, penalty, now);
      RestatInv(env, m, nId, Touched(m.info[nId], a, penalty, now), {}, 0);
      Touch(nId, a, penalty, now);
      var info := mapInfo[nId];
      if a.nTime == 0 || (info.nTime != 0 && a.nTime <= info.nTime) {
        return;
      }
      if info.fInTried {
        return;
      }
      if info.nRefCount == NEW_BUCKETS_PER_ADDRESS {
        return;
      }
      Parts(env, Snap(), {}, 0);
      SlotsCount(env, Snap(), nId);
      var lucky := Lucky(info.nRefCount, roll);
      if !lucky {
        return;
      }
      LooserInv(env, Snap(), {}, {nId}, 0);
      Place(nId, source, later);
    }

    method AddToUnknown(a: Address, source: nat, penalty: int, later: int)
      requires Inv(env, Snap(), {}, 0) && FindId(env, Snap(), a.service).None?
      modifies this
      ensures Snap() == AddUnknown(env, old(Snap()), a, source, penalty, later) && nLastGood == old(nLastGood)
    {
      ghost var m := Snap();
      ghost var r := NewInfo(a, source).(nTime := Max0(a.nTime - penalty));
      hide RandomOk, AddrOk, TriedOk, IdsOk, CountsOk, NewOk, Placed, EntriesOk, FindId;
      NotFound(env, m, a.service);
      CreatedInv(env, m, r, {}, 0);
      ghost var c := Created(env, m, r);
      var nId := Create(a, source);
      mapInfo := mapInfo[nId := mapInfo[nId].(nTime := Max0(mapInfo[nId].nTime - penalty))];
      nNew := nNew + 1;
      assert mapInfo == c.info;
      assert {} + {nId} == {nId};
      Recounted(env, c, {nId}, 1, 1);
      Place(nId, source, later);
    }

    method Attempt(a: Service, fCountFailure: bool, nTime: int)
      requires Valid()
      modifies this
      ensures Whole() == State(AttemptSpec(env, old(Snap()), old(nLastGood), a, fCountFailure, nTime), old(nLastGood))
      ensures Valid() <==> nTime >= 0 || FindExact(env, old(Snap()), a).None?
    {
      hide Sound;
      var found := Find(a);
      if found.Some? && mapInfo[found.value].addr == a {
        var info := mapInfo[found.value].(nLastTry := nTime);
        if fCountFailure && info.nLastCountAttempt < nLastGood {
          info := info.(nLastCountAttempt := nTime);
          info := info.(nAttempts := info.nAttempts + 1);
        }
        UpdateEntry(found.value, info);
      }
    }

    /** Writes statistics back to an entry. */
    method UpdateEntry(nId: int, info: AddrInfo)
      requires Valid() && nId in mapInfo && SameShape(mapInfo[nId], info)
      requires info.nLastSuccess == mapInfo[nId].nLastSuccess
      modifies this
      ensures Whole() == State(WithInfo(old(Snap()), nId, info), old(nLastGood))
      ensures Valid() <==> info.nLastTry >= 0
    {
      hide Sound;
      RestatSoundIff(env, Snap(), nId, info);
      mapInfo := mapInfo[nId := info];
    }

    method Connected(a: Service, nTime: int)
      requires Valid()
      modifies this
      ensures Valid() && Whole() == State(ConnectedSpec(env, old(Snap()), a, nTime), old(nLastGood))
    {
      hide Sound;
      var found := Find(a);
      if found.Some? && mapInfo[found.value].addr == a {
        var info := mapInfo[found.value];
        SoundTry(env, Snap(), found.value);
        if nTime - info.nTime > 20 * 60 {
          info := info.(nTime := nTime);
        }
        UpdateEntry(found.value, info);
      }
    }

    method SetServices(a: Service, services: set<nat>)
      requires Valid()
      modifies this
      ensures Valid() && Whole() == State(SetServicesSpec(env, old(Snap()), a, services), old(nLastGood))
    {
      hide Sound;
      var found := Find(a);
      if found.Some? && mapInfo[found.value].addr == a {
        SoundTry(env, Snap(), found.value);
        UpdateEntry(found.value, mapInfo[found.value].(services := services));
      }
    }

    /** A random sample of the entries that are not terrible: 23 percent and at most 2500, if there are as many. */
    method GetAddr(now: int) returns (vAddr: seq<Address>)
      requires Valid()
      modifies this
      ensures Valid() && nLastGood == old(nLastGood) && Shuffled(old(Snap()), Snap())
      ensures IsSample(Snap(), vAddr, now)
    {
      hide Sound, Shuffled, IsTerrible, SampledTo, RandomOk;
      var nNodes := GETADDR_MAX_PCT * |vRandom| / 100;
      if nNodes > GETADDR_MAX {
        nNodes := GETADDR_MAX;
      }
      vAddr := [];
      ghost var ids: seq<int>, done := [], 0;
      ShuffledSelf(env, Snap());
      NothingSampled(env, Snap(), now);
      for n := 0 to |vRandom|
        invariant Valid() && nLastGood == old(nLastGood) && Shuffled(old(Snap()), Snap()) && |vRandom| == old(|vRandom|)
        invariant |vAddr| <= nNodes && done == n && SampledTo(mapInfo, ids, vAddr, now, n)
      {
        if |vAddr| >= nNodes {
          break;
        }
        label before:
        var id := Draw(n, now, ids, vAddr);
        ShuffledChain(old(Snap()), old@before(Snap()), Snap());
        SampleStep(env, Snap(), ids, vAddr, now, n, id);
        if !IsTerrible(mapInfo[id], now) {
          vAddr := vAddr + [AsAddress(mapInfo[id])];
          ids := ids + [id];
        }
        done := n + 1;
      }
      SampleEnds(env, Snap(), ids, vAddr, now, done);
    }

    /** Swaps a random entry of the rest of the random order to place n. */
    method Draw(n: nat, now: int, ghost ids: seq<int>, ghost vAddr: seq<Address>) returns (id: int)
      requires Valid() && n < |vRandom| && SampledTo(mapInfo, ids, vAddr, now, n)
      modifies this
      ensures Valid() && nLastGood == old(nLastGood) && Shuffled(old(Snap()), Snap()) && |vRandom| == old(|vRandom|)
      ensures SampledTo(mapInfo, ids, vAddr, now, n) && id in mapInfo && mapInfo[id].nRandomPos == n
    {
      hide Sound, SampledTo, Swapped, OnlyPositionsDiffer;
      var nRndPos := RandomInt(|vRandom| - n);
      nRndPos := nRndPos + n;
      ghost var m := Snap();
      SoundRandom(env, m);
      SwapRandomOk(m, n, nRndPos);
      SwapKeepsSample(m, n, nRndPos, now, ids, vAddr);
      SwappedIsShuffled(m, n, nRndPos);
      ShuffledSound(env, m, Swapped(m, n, nRndPos));
      SwapRandom(n, nRndPos);
      id := vRandom[n];
    }

    /** Drops an id from the pending collisions. */
    method EraseCollision(id: int)
      requires Valid()
      modifies this
      ensures Valid() && Whole() == Dropped(old(Whole()), id)
    {
      FewerCollisions(env, Snap(), triedCollisions - {id});
      triedCollisions := triedCollisions - {id};
    }

    /** One pass over the pending collisions; the slot a known one wants is always occupied. */
    method ResolveCollisions() returns (ghost visits: seq<Visit>, ghost states: seq<State>)
      requires Valid()
      modifies this
      ensures Valid() && IsPass(env, visits, states) && PassOutcome(env, visits, states)
      ensures states[0] == old(Whole()) && states[|visits|] == Whole()
    {
      hide Sound, Visited, Seen, PassOutcome;
      NoneSeen();
      visits, states := [], [Whole()];
      var todo := triedCollisions;
      ghost var seen: set<int> := {};
      while todo != {}
        invariant Valid() && todo <= triedCollisions && seen + todo == old(triedCollisions)
        invariant |states| == |visits| + 1 && states[0] == old(Whole()) && states[|visits|] == Whole()
        invariant forall i :: 0 <= i < |visits| ==> VisitStep(env, visits[i], states[i], states[i + 1])
        invariant forall i, j :: 0 <= i < j < |visits| ==> visits[i].id < visits[j].id
        invariant forall i, y :: 0 <= i < |visits| && y in todo ==> visits[i].id < y
        invariant Seen(visits, seen)
      {
        HasLeast(todo);
        var idNew :| idNew in todo && forall y :: y in todo ==> idNew <= y;
        todo := todo - {idNew};
        ghost var before := Whole();
        ghost var v := VisitCollision(idNew);
        VisitSound(env, v, before, Whole());
        SeenOneMore(visits, v, seen);
        seen := seen + {idNew};
        visits, states := visits + [v], states + [Whole()];
      }
      PassDoes(env, visits, states);
    }

    method VisitCollision(idNew: int) returns (ghost v: Visit)
      requires Valid() && idNew in triedCollisions
      modifies this
      ensures Valid() && v.id == idNew && VisitStep(env, v, old(Whole()), Whole())
    {
      v := Visit(idNew, 1, 1, 1, 1);
      var erase := idNew !in mapInfo;
      if !erase {
        erase, v := ResolveCollision(idNew);
      }
      if erase {
        EraseCollision(idNew);
      }
    }

    /** What happens to one known collision, and whether it is to be dropped. */
    method ResolveCollision(idNew: int) returns (erase: bool, ghost v: Visit)
      requires Valid() && idNew in triedCollisions && idNew in mapInfo
      modifies this
      ensures Valid() && v.id == idNew && v.now4 > 0
      ensures Visited(env, old(Whole()), v) == if erase then Dropped(Whole(), idNew) else Whole()
    {
      v := Visit(idNew, 1, 1, 1, 1);
      var a := mapInfo[idNew].addr;
      var triedBucket := TriedBucket(env, a);
      var triedBucketPos := BucketPosition(env, false, triedBucket, a);
      if !env.isValid(a) {
        return true, v;
      }
      assert Occupied(env, vvTried, a);
      var idOld := vvTried[triedBucket][triedBucketPos];
      var infoOld := mapInfo[idOld];
      assert idOld == Holder(env, Snap(), idNew);
      OwnAddress(env, Snap(), idNew);
      hide Inv, GoodSpec;
      var now1 := AdjustedTime();
      v := v.(now1 := now1);
      if now1 - infoOld.nLastSuccess < REPLACEMENT_HOURS * 60 * 60 {
        return true, v;
      }
      var now2 := AdjustedTime();
      v := v.(now2 := now2);
      if now2 - infoOld.nLastTry < REPLACEMENT_HOURS * 60 * 60 {
        var now3 := AdjustedTime();
        v := v.(now3 := now3);
        if now3 - infoOld.nLastTry > 60 {
          var now4 := AdjustedTime();
          v := v.(now4 := now4);
          var nRnd := RandomInt(NEW_BUCKET_COUNT);
          Good(a, false, now4, nRnd);
          return true, v;
        }
      }
      return false, v;
    }

    /** The occupant that a random pending collision wants to evict; no entry is invented for it. */
    method SelectTriedCollision() returns (r: Option<AddrInfo>)
      requires Valid()
      modifies this
      ensures Valid() && Selected(env, old(Whole()), r, Whole())
    {
      if |triedCollisions| == 0 {
        return None;
      }
      HasLeast(triedCollisions);
      var id :| id in triedCollisions;
      if id !in mapInfo {
        EraseCollision(id);
        assert SelectedFor(env, old(Whole()), id, None, Whole());
        return None;
      }
      var triedBucket := TriedBucket(env, mapInfo[id].addr);
      var triedBucketPos := BucketPosition(env, false, triedBucket, mapInfo[id].addr);
      assert Occupied(env, vvTried, mapInfo[id].addr);
      var idOld := vvTried[triedBucket][triedBucketPos];
      r := Some(mapInfo[idOld]);
      assert SelectedFor(env, old(Whole()), id, r, Whole());
    }

    method RandomInt(n: nat) returns (r: nat)
      requires n > 0
      ensures r < n
    {
      r :| 0 <= r < n;
    }

    method AdjustedTime() returns (t: int)
      ensures t > 0
    {
      t :| t > 0;
    }
  }

  function AsAddress(r: AddrInfo): Address {
    Address(r.addr, r.services, r.nTime)
  }

  /** An entry sampled by GetAddr among the first n of the random order. */
  predicate Sampled(info: map<int, AddrInfo>, id: int, a: Address, now: int, n: int) {
    id in info && a == AsAddress(info[id]) && !IsTerrible(info[id], now) && info[id].nRandomPos < n
  }

  /** The sample holds exactly those of the first n entries of the random order that are not terrible. */
  ghost predicate SampledTo(info: map<int, AddrInfo>, ids: seq<int>, vAddr: seq<Address>, now: int, n: int) {
    && |ids| == |vAddr|
    && (forall i :: 0 <= i < |ids| ==> Sampled(info, ids[i], vAddr[i], now, n))
    && (forall i, j :: 0 <= i < j < |ids| ==> ids[i] != ids[j])
    && (forall id :: id in info && info[id].nRandomPos < n && !IsTerrible(info[id], now) ==> id in ids)
  }

  lemma SoundTry(env: Env, m: Mgr, id: int)
    requires Sound(env, m) && id in m.info
    ensures m.info[id].nLastTry >= 0
  {
    hide Inv, CollisionsOk;
  }

  lemma SoundRandom(env: Env, m: Mgr)
    requires Sound(env, m)
    ensures RandomOk(m.info, m.random)
  {
  }

  lemma NothingSampled(env: Env, m: Mgr, now: int)
    requires Sound(env, m)
    ensures SampledTo(m.info, [], [], now, 0)
  {
  }

  lemma SampleStep(env: Env, m: Mgr, ids: seq<int>, vAddr: seq<Address>, now: int, n: nat, id: int)
    requires Sound(env, m) && SampledTo(m.info, ids, vAddr, now, n) && id in m.info && m.info[id].nRandomPos == n
    ensures if IsTerrible(m.info[id], now) then SampledTo(m.info, ids, vAddr, now, n + 1)
            else SampledTo(m.info, ids + [id], vAddr + [AsAddress(m.info[id])], now, n + 1)
  {
    hide Sound, IsTerrible, AsAddress;
    SoundRandom(env, m);
    assert m.random[n] == id;
    assert forall x :: x in m.info && m.info[x].nRandomPos == n ==> x == id;
  }

  lemma SampleEnds(env: Env, m: Mgr, ids: seq<int>, vAddr: seq<Address>, now: int, n: nat)
    requires Sound(env, m) && SampledTo(m.info, ids, vAddr, now, n) && |vAddr| <= Share(|m.random|)
    requires n == |m.random| || |vAddr| == Share(|m.random|)
    ensures IsSample(m, vAddr, now)
  {
    hide Sound, IsTerrible;
    SoundRandom(env, m);
    assert IsSampleOf(m, vAddr, ids, now);
  }

  lemma SwapKeepsSample(m: Mgr, n: nat, j: nat, now: int, ids: seq<int>, vAddr: seq<Address>)
    requires RandomOk(m.info, m.random) && n <= j < |m.random| && SampledTo(m.info, ids, vAddr, now, n)
    ensures SampledTo(Swapped(m, n, j).info, ids, vAddr, now, n)
  {
    SwapRandomOk(m, n, j);
    var s := Swapped(m, n, j);
    forall id | id in m.info && m.info[id].nRandomPos < n ensures id in s.info && s.info[id] == m.info[id] {
      assert id != m.random[n] && id != m.random[j];
    }
    forall id | id in s.info && s.info[id].nRandomPos < n ensures id in m.info && s.info[id] == m.info[id] {
      assert s.random[s.info[id].nRandomPos] == id;
    }
    hide Swapped, RandomOk, IsTerrible, AsAddress;
  }

  lemma SwappedIsShuffled(m: Mgr, i: nat, j: nat)
    requires RandomOk(m.info, m.random) && i < |m.random| && j < |m.random|
    ensures Shuffled(m, Swapped(m, i, j))
    ensures |Swapped(m, i, j).random| == |m.random| && Swapped(m, i, j).random[i] == m.random[j]
    ensures Swapped(m, i, j).random[i] in Swapped(m, i, j).info
  {
    SwapRandomOk(m, i, j);
    hide RandomOk, OnlyPositionsDiffer;
  }

  /** Only the random order changed. */
  predicate Shuffled(m: Mgr, m': Mgr) {
    && m' == m.(info := m'.info, random := m'.random)
    && OnlyPositionsDiffer(m.info, m'.info) && RandomOk(m'.info, m'.random)
  }

  lemma ShuffledSelf(env: Env, m: Mgr)
    requires Sound(env, m)
    ensures Shuffled(m, m)
  {
  }

  lemma ShuffledChain(a: Mgr, b: Mgr, c: Mgr)
    requires Shuffled(a, b) && Shuffled(b, c)
    ensures Shuffled(a, c)
  {
    hide RandomOk;
    assert forall id :: id in a.info ==> id in b.info && SameAside(a.info[id], b.info[id]);
    assert forall id :: id in b.info ==> id in c.info && SameAside(b.info[id], c.info[id]);
    assert forall id :: id in c.info ==> id in b.info && SameAside(b.info[id], c.info[id]);
    assert forall id :: id in b.info ==> id in a.info && SameAside(a.info[id], b.info[id]);
  }

  lemma ShuffledSound(env: Env, m: Mgr, m': Mgr)
    requires Sound(env, m) && Shuffled(m, m')
    ensures Sound(env, m')
  {
    PositionsDoNotMatter(env, m, m', {}, 0);
    assert forall id :: id in m'.info ==> id in m.info && SameAside(m.info[id], m'.info[id]);
    KeepsCollisions(env, m, m');
    hide Inv, CollisionsOk, RandomOk;
  }

  /** How many addresses GetAddr is to return: as many as 23 percent allow, and at most 2500. */
  function Share(known: nat): (n: nat)
    ensures n * 100 <= 23 * known && n <= 2500
    ensures n == 2500 || (n + 1) * 100 > 23 * known
  {
    var n := GETADDR_MAX_PCT * known / 100;
    if n > GETADDR_MAX then GETADDR_MAX else n
  }

  ghost predicate IsSampleOf(m: Mgr, vAddr: seq<Address>, ids: seq<int>, now: int) {
    && |vAddr| == |ids| <= Share(|m.random|)
    && (|vAddr| == Share(|m.random|) || forall id :: id in m.info && !IsTerrible(m.info[id], now) ==> id in ids)
    && (forall i :: 0 <= i < |ids| ==>
          && ids[i] in m.info && !IsTerrible(m.info[ids[i]], now)
          && var r := m.info[ids[i]]; vAddr[i] == Address(r.addr, r.services, r.nTime))
    && (forall i, j :: 0 <= i < j < |ids| ==> ids[i] != ids[j])
  }

  /** Addresses of different entries that are not terrible: the allowed share of all, or else every one of them. */
  ghost predicate IsSample(m: Mgr, vAddr: seq<Address>, now: int) {
    exists ids :: IsSampleOf(m, vAddr, ids, now)
  }

  ghost predicate SelectedFor(env: Env, s: State, id: int, r: Option<AddrInfo>, s': State) {
    && Sound(env, s.m) && id in s.m.collisions
    && if id !in s.m.info then r == None && s' == Dropped(s, id)
       else r == Some(s.m.info[Holder(env, s.m, id)]) && s' == s
  }

  /** The holder of the slot some pending collision wants; a collision of an entry that is gone is dropped. */
  ghost predicate Selected(env: Env, s: State, r: Option<AddrInfo>, s': State) {
    if s.m.collisions == {} then r == None && s' == s else exists id :: SelectedFor(env, s, id, r, s')
  }

  lemma FewerCollisions(env: Env, m: Mgr, collisions: set<int>)
    requires Sound(env, m) && collisions <= m.collisions
    ensures Sound(env, m.(collisions := collisions))
  {
    hide RandomOk, AddrOk, NewOk, EntriesOk, TriedOk;
    SubsetSize(collisions, m.collisions);
  }

  lemma {:induction false} LeastElement(s: set<int>) returns (x: int)
    requires s != {}
    ensures x in s && forall y :: y in s ==> x <= y
  {
    NonEmpty(s);
    x :| x in s;
    var rest := s - {x};
    if rest != {} {
      var l := LeastElement(rest);
      assert forall y :: y in s ==> y == x || y in rest;
      if l < x {
        x := l;
      }
    } else {
      assert forall y :: y in s ==> y == x || y in rest;
    }
  }

  lemma HasLeast(s: set<int>)
    requires s != {}
    ensures exists x :: x in s && forall y :: y in s ==> x <= y
  {
    var x := LeastElement(s);
    assert x in s && forall y :: y in s ==> x <= y;
  }

  lemma NonEmpty(s: set<int>)
    requires s != {}
    ensures exists x :: x in s
  {
    if forall x :: x !in s {
      assert false;
    }
  }

  lemma SubsetSize(a: set<int>, b: set<int>)
    requires a <= b
    ensures |a| <= |b|
  {
    assert b == a + (b - a);
  }

  // ----- Check_

  /** The conditions of Check_, with the address map looked up under its normalised key. */
  ghost predicate Check(env: Env, m: Mgr) {
    && |m.random| == m.nTried + m.nNew
    && (forall id :: id in m.info ==> CheckEntry(env, m, id))
    && |TriedIds(m.info)| == m.nTried
    && |NewIds(m.info)| == m.nNew
    && Dim(m.tried, TRIED_BUCKET_COUNT) && Dim(m.new_, NEW_BUCKET_COUNT)
    && (forall b, p :: 0 <= b < TRIED_BUCKET_COUNT && 0 <= p < BUCKET_SIZE && m.tried[b][p] != -1 ==>
          && m.tried[b][p] in TriedIds(m.info)
          && b == TriedBucket(env, m.info[m.tried[b][p]].addr)
          && p == BucketPosition(env, false, b, m.info[m.tried[b][p]].addr))
    && (forall id :: id in TriedIds(m.info) ==> TriedSlot(env, m.tried, m.info[id].addr) == id)
    && (forall b, p :: 0 <= b < NEW_BUCKET_COUNT && 0 <= p < BUCKET_SIZE && m.new_[b][p] != -1 ==>
          && m.new_[b][p] in NewIds(m.info)
          && p == BucketPosition(env, true, b, m.info[m.new_[b][p]].addr))
    && (forall id :: id in NewIds(m.info) ==> m.info[id].nRefCount == |Slots(env, m.new_, id, m.info[id].addr)|)
  }

  predicate CheckEntry(env: Env, m: Mgr, id: int)
    requires id in m.info
  {
    var r := m.info[id];
    && (if r.fInTried then r.nLastSuccess != 0 && r.nRefCount == 0
        else 0 < r.nRefCount <= NEW_BUCKETS_PER_ADDRESS)
    && Norm(env, r.addr) in m.addr && m.addr[Norm(env, r.addr)] == id
    && 0 <= r.nRandomPos < |m.random| && m.random[r.nRandomPos] == id
    && r.nLastTry >= 0 && r.nLastSuccess >= 0
  }

  lemma {:induction false} DistinctSize(s: seq<int>)
    requires forall i, j :: 0 <= i < j < |s| ==> s[i] != s[j]
    ensures |set x | x in s| == |s|
  {
    if s != [] {
      var t := s[..|s| - 1];
      DistinctSize(t);
      assert (set x | x in s) == (set x | x in t) + {s[|s| - 1]};
    }
  }

  lemma RandomSize(info: map<int, AddrInfo>, random: seq<int>)
    requires RandomOk(info, random)
    ensures |random| == |TriedIds(info)| + |NewIds(info)|
  {
    DistinctSize(random);
    var ids := set x | x in random;
    forall id ensures id in ids <==> id in TriedIds(info) + NewIds(info) {
      assert id in info ==> random[info[id].nRandomPos] == id;
    }
    assert ids == TriedIds(info) + NewIds(info);
    assert TriedIds(info) !! NewIds(info);
  }

  /** Whatever the operations keep is at least what Check_ looks for. */
  lemma SoundPassesCheck(env: Env, m: Mgr)
    requires Sound(env, m)
    ensures Check(env, m)
  {
    RandomSize(m.info, m.random);
    forall b, p | 0 <= b < NEW_BUCKET_COUNT && 0 <= p < BUCKET_SIZE && m.new_[b][p] != -1
      ensures m.new_[b][p] in NewIds(m.info)
    {
      ClearSlotNewOk(env, m.info, m.new_, b, p);
    }
    forall id | id in m.info ensures CheckEntry(env, m, id) {
      SlotsCount(env, m, id);
    }
  }

  /** The lookup Check_ actually makes: by the full address, with 0 for a missing key. */
  predicate LiteralKeyCheck(m: Mgr) {
    forall id :: id in m.info ==> (if m.info[id].addr in m.addr then m.addr[m.info[id].addr] else 0) == id
  }

  /** Check_ passes its own address test exactly when no entry but entry 0 has an address that normalisation changes. */
  lemma LiteralKeyCheckIff(env: Env, m: Mgr)
    requires Sound(env, m)
    ensures LiteralKeyCheck(m)
            <==> forall id :: id in m.info ==> env.discriminatePorts || m.info[id].addr.port == 0 || id == 0
  {
    hide NewOk, TriedOk, EntriesOk, CountsOk, RandomOk;
    forall id | id in m.info
      ensures (if m.info[id].addr in m.addr then m.addr[m.info[id].addr] else 0) == id
        <==> env.discriminatePorts || m.info[id].addr.port == 0 || id == 0
    {
      var a := m.info[id].addr;
      if a in m.addr {
        assert Norm(env, m.info[m.addr[a]].addr) == a;
      }
    }
  }

  /** The address map after that lookup: a missing key is inserted, with the value 0. */
  function LookedUp(m: Mgr, id: int): map<Service, int>
    requires id in m.info
  {
    if m.info[id].addr in m.addr then m.addr else m.addr[m.info[id].addr := 0]
  }

  /** So the check, passing or not, leaves the map as it should be exactly where normalisation changes nothing. */
  lemma LookupDamagesIff(env: Env, m: Mgr, id: int)
    requires Sound(env, m) && id in m.info
    ensures AddrOk(env, m.info, LookedUp(m, id)) <==> env.discriminatePorts || m.info[id].addr.port == 0
  {
    hide NewOk, TriedOk, EntriesOk, CountsOk, RandomOk;
    var a := m.info[id].addr;
    if a in m.addr {
      assert Norm(env, m.info[m.addr[a]].addr) == a;
    } else {
      assert LookedUp(m, id)[a] == 0;
    }
  }

  /** After Good, Check_ passes exactly for the times that Good leaves right. */
  lemma GoodCheckIff(env: Env, m: Mgr, a: Service, testBeforeEvict: bool, nTime: int)
    requires Sound(env, m)
    ensures Check(env, GoodSpec(env, m, a, testBeforeEvict, nTime)) <==> GoodKeeps(env, m, a, testBeforeEvict, nTime)
  {
    GoodSoundIff(env, m, a, testBeforeEvict, nTime);
    GoodInv(env, m, a, testBeforeEvict, nTime);
    hide Inv, CollisionsOk, GoodSpec, Occupied;
    var m' := GoodSpec(env, m, a, testBeforeEvict, nTime);
    if GoodKeeps(env, m, a, testBeforeEvict, nTime) {
      SoundPassesCheck(env, m');
    } else {
      assert !CheckEntry(env, m', FindExact(env, m, a).value);
    }
  }

  /** Adding an unknown address whose slot is free. */
  lemma AddToFreeSlot(env: Env, m: Mgr, a: Address, source: nat, penalty: int, now: int, later: int, roll: nat)
    requires Sound(env, m) && env.isRoutable(a.service) && FindId(env, m, a.service).None?
    requires var b := NewBucket(env, a.service, source);
      m.new_[b][BucketPosition(env, true, b, a.service)] == -1
    ensures var (m', fNew) := AddSpec(env, m, a, source, penalty, now, later, roll);
      var id, b := m.nIdCount, NewBucket(env, a.service, source);
      && fNew && id in m'.info && m'.info[id].addr == a.service && !m'.info[id].fInTried
      && (forall x :: x in m.info ==> x in m'.info && m'.info[x].addr == m.info[x].addr)
      && m'.addr == m.addr[Norm(env, a.service) := id] && m'.tried == m.tried && m'.nIdCount == id + 1
      && m'.new_ == Set(m.new_, b, BucketPosition(env, true, b, a.service), id)
  {
    hide TriedOk, EntriesOk, CountsOk;
  }

  /** One address added to a fresh manager and then called good at time 0: Check_ fails. */
  lemma GoodAtZeroFails(env: Env, a: Address, source: nat)
    requires env.isRoutable(a.service)
    ensures var m := AddSpec(env, Empty(), a, source, 0, 0, 0, 0).0;
      Sound(env, m) && !Check(env, GoodSpec(env, m, a.service, false, 0))
  {
    EmptySound(env);
    AddToFreeSlot(env, Empty(), a, source, 0, 0, 0, 0);
    AddSound(env, Empty(), a, source, 0, 0, 0, 0);
    hide Sound, AddSpec, GoodSpec;
    var m := AddSpec(env, Empty(), a, source, 0, 0, 0, 0).0;
    assert m.addr[Norm(env, a.service)] == 0;
    GoodCheckIff(env, m, a.service, false, 0);
  }

  // ----- Whole runs

  datatype Op =
    | OpAdd(a: Address, source: nat, penalty: int, now: int, later: int, roll: nat)
    | OpGood(s: Service, testBeforeEvict: bool, nTime: int, rnd: nat)
    | OpAttempt(s: Service, fCountFailure: bool, nTime: int)
    | OpConnected(s: Service, nTime: int)
    | OpSetServices(s: Service, services: set<nat>)
    | OpGetAddr(now: int)
    | OpResolve
    | OpSelectCollision

  datatype Answer = Done | Added(fNew: bool) | Sample(vAddr: seq<Address>) | Candidate(r: Option<AddrInfo>)

  /** What one operation may answer and do, the random choices and clock readings inside it left open. */
  ghost predicate Step(env: Env, op: Op, s: State, answer: Answer, s': State) {
    && Sound(env, s.m)
    && match op
      case OpAdd(a, source, penalty, now, later, roll) =>
        var (m, fNew) := AddSpec(env, s.m, a, source, penalty, now, later, roll);
        s' == s.(m := m) && answer == Added(fNew)
      case OpGood(a, test, nTime, _) =>
        s' == State(GoodSpec(env, s.m, a, test, nTime), nTime) && answer == Done
      case OpAttempt(a, fail, nTime) =>
        s' == s.(m := AttemptSpec(env, s.m, s.lastGood, a, fail, nTime)) && answer == Done
      case OpConnected(a, nTime) =>
        s' == s.(m := ConnectedSpec(env, s.m, a, nTime)) && answer == Done
      case OpSetServices(a, services) =>
        s' == s.(m := SetServicesSpec(env, s.m, a, services)) && answer == Done
      case OpGetAddr(now) =>
        s'.lastGood == s.lastGood && Shuffled(s.m, s'.m) && answer.Sample? && IsSample(s'.m, answer.vAddr, now)
      case OpResolve =>
        answer == Done && Resolves(env, s, s')
      case OpSelectCollision =>
        answer.Candidate? && Selected(env, s, answer.r, s')
  }

  ghost predicate Resolves(env: Env, s: State, s': State) {
    exists visits, states ::
      IsPass(env, visits, states) && states[0] == s && states[|visits|] == s'
  }

  /** The times callers pass: Good is told of successes that happened, Attempt of tries. */
  predicate Timed(op: Op) {
    && (op.OpGood? ==> op.nTime > 0 && op.rnd < NEW_BUCKET_COUNT)
    && (op.OpAttempt? ==> op.nTime >= 0)
  }

  lemma StepSound(env: Env, op: Op, s: State, answer: Answer, s': State)
    requires Timed(op) && Step(env, op, s, answer, s')
    ensures Sound(env, s'.m)
  {
    hide Sound, AddSpec, GoodSpec, Shuffled, IsSample, IsPass, Dim;
    match op
    case OpAdd(a, source, penalty, now, later, roll) =>
      AddSound(env, s.m, a, source, penalty, now, later, roll);
    case OpGood(a, test, nTime, _) =>
      TriedDim(env, s.m);
      GoodSoundIff(env, s.m, a, test, nTime);
    case OpAttempt(a, _, _) =>
      RestatStep(env, s.m, a, s'.m);
    case OpConnected(a, _) =>
      RestatStep(env, s.m, a, s'.m);
    case OpSetServices(a, _) =>
      RestatStep(env, s.m, a, s'.m);
    case OpGetAddr(_) =>
      ShuffledSound(env, s.m, s'.m);
    case OpResolve =>
      ResolvesSound(env, s, s');
    case OpSelectCollision =>
      SelectedSound(env, s, answer.r, s');
  }

  lemma TriedDim(env: Env, m: Mgr)
    requires Sound(env, m)
    ensures Dim(m.tried, TRIED_BUCKET_COUNT)
  {
  }

  lemma RestatStep(env: Env, m: Mgr, a: Service, m': Mgr)
    requires Sound(env, m)
    requires FindExact(env, m, a).None? ==> m' == m
    requires FindExact(env, m, a).Some? ==>
      var id := FindExact(env, m, a).value;
      && id in m'.info && m' == WithInfo(m, id, m'.info[id]) && SameShape(m.info[id], m'.info[id])
      && m'.info[id].nLastSuccess == m.info[id].nLastSuccess
      && (m'.info[id].nLastTry >= 0 || m'.info[id].nLastTry == m.info[id].nLastTry)
    ensures Sound(env, m')
  {
    if FindExact(env, m, a).Some? {
      var id := FindExact(env, m, a).value;
      assert m.info[id].nLastTry >= 0;
      RestatSoundIff(env, m, id, m'.info[id]);
    }
  }

  lemma ResolvesSound(env: Env, s: State, s': State)
    requires Sound(env, s.m) && Resolves(env, s, s')
    ensures Sound(env, s'.m)
  {
    hide Sound;
    var visits, states :| IsPass(env, visits, states) && states[0] == s && states[|visits|] == s';
    PassSound(env, visits, states, |visits|);
  }

  lemma SelectedSound(env: Env, s: State, r: Option<AddrInfo>, s': State)
    requires Sound(env, s.m) && Selected(env, s, r, s')
    ensures Sound(env, s'.m)
  {
    hide Sound;
    if s.m.collisions != {} {
      var id :| SelectedFor(env, s, id, r, s');
      FewerCollisions(env, s.m, s.m.collisions - {id});
    }
  }

  /** A run from a fresh manager: the state before and after every operation, and its answer. */
  ghost predicate IsRun(env: Env, ops: seq<Op>, answers: seq<Answer>, trace: seq<State>) {
    && |answers| == |ops| && |trace| == |ops| + 1 && trace[0] == State(Empty(), 1)
    && forall i :: 0 <= i < |ops| ==> Step(env, ops[i], trace[i], answers[i], trace[i + 1])
  }

  /** Every state of every run is sound, and passes Check_. */
  lemma {:induction false} RunSound(env: Env, ops: seq<Op>, answers: seq<Answer>, trace: seq<State>, k: nat)
    requires IsRun(env, ops, answers, trace) && k <= |ops|
    requires forall i :: 0 <= i < |ops| ==> Timed(ops[i])
    ensures Sound(env, trace[k].m) && Check(env, trace[k].m)
  {
    hide Sound, Step, Check;
    if k == 0 {
      EmptySound(env);
    } else {
      RunSound(env, ops, answers, trace, k - 1);
      StepSound(env, ops[k - 1], trace[k - 1], answers[k - 1], trace[k]);
    }
    SoundPassesCheck(env, trace[k].m);
  }

  /** Any operations, carried out on a fresh manager, are such a run. */
  method Run(env: Env, ops: seq<Op>)
    returns (man: AddrManager, answers: seq<Answer>, ghost trace: seq<State>)
    requires forall i :: 0 <= i < |ops| ==> Timed(ops[i])
    ensures fresh(man) && man.env == env && IsRun(env, ops, answers, trace) && man.Whole() == trace[|ops|]
    ensures forall i :: 0 <= i < |trace| ==> Sound(env, trace[i].m) && Check(env, trace[i].m)
  {
    hide Sound, Step, Check;
    man := new AddrManager(env);
    answers, trace := [], [man.Whole()];
    for i := 0 to |ops|
      invariant fresh(man) && man.env == env && man.Valid()
      invariant |answers| == i && |trace| == i + 1 && trace[0] == State(Empty(), 1) && trace[i] == man.Whole()
      invariant forall j :: 0 <= j < i ==> Step(env, ops[j], trace[j], answers[j], trace[j + 1])
    {
      var answer := Perform(man, ops[i]);
      answers, trace := answers + [answer], trace + [man.Whole()];
    }
    forall i | 0 <= i < |trace| ensures Sound(env, trace[i].m) && Check(env, trace[i].m) {
      RunSound(env, ops, answers, trace, i);
    }
  }

  method Perform(man: AddrManager, op: Op) returns (answer: Answer)
    requires man.Valid() && Timed(op)
    modifies man
    ensures man.Valid() && Step(man.env, op, old(man.Whole()), answer, man.Whole())
  {
    hide Sound, AddSpec, GoodSpec, Shuffled, IsSample, IsPass, Dim;
    answer := Done;
    TriedDim(man.env, man.Snap());
    match op {
      case OpAdd(a, source, penalty, now, later, roll) =>
        var fNew := man.Add(a, source, penalty, now, later, roll);
        answer := Added(fNew);
      case OpGood(a, test, nTime, rnd) =>
        man.Good(a, test, nTime, rnd);
      case OpAttempt(a, fail, nTime) =>
        man.Attempt(a, fail, nTime);
      case OpConnected(a, nTime) =>
        man.Connected(a, nTime);
      case OpSetServices(a, services) =>
        man.SetServices(a, services);
      case OpGetAddr(now) =>
        var vAddr := man.GetAddr(now);
        answer := Sample(vAddr);
      case OpResolve =>
        ghost var visits, states;
        visits, states := man.ResolveCollisions();
      case OpSelectCollision =>
        var r := man.SelectTriedCollision();
        answer := Candidate(r);
    }
  }

  /** Ports do not count, everything is routable, and every address has a bucket of its own. */
  function Portless(): Env {
    Env(false, ip => ip, _ => 0, (_, _) => 0, (range, _) => range, (_, k) => k, (_, _, _) => 0, _ => true, _ => true)
  }

  function Peer(ip: nat): Address {
    Address(Service(ip, 8333), {}, 0)
  }

  function AddPeer(m: Mgr, ip: nat): (Mgr, bool)
    requires Sound(Portless(), m)
  {
    AddSpec(Portless(), m, Peer(ip), 0, 0, 0, 0, 0)
  }

  lemma FirstSlotFree()
    ensures FindId(Portless(), Empty(), Service(1, 8333)).None? && NewBucket(Portless(), Service(1, 8333), 0) == 1
    ensures BucketPosition(Portless(), true, 1, Service(1, 8333)) == 0
    ensures |Empty().new_| == NEW_BUCKET_COUNT && |Empty().new_[1]| == BUCKET_SIZE && Empty().new_[1][0] == -1
    ensures Empty().nIdCount == 0 && Empty().addr == map[]
  {
  }

  lemma FirstPeer()
    ensures Sound(Portless(), Empty())
    ensures var (m, fNew) := AddPeer(Empty(), 1);
      && fNew && Sound(Portless(), m) && m.nIdCount == 1 && m.addr == map[Service(1, 0) := 0]
      && m.new_ == Set(Empty().new_, 1, 0, 0)
  {
    hide Sound, AddSpec, Empty, FindId, NewBucket, BucketPosition;
    EmptySound(Portless());
    FirstSlotFree();
    AddToFreeSlot(Portless(), Empty(), Peer(1), 0, 0, 0, 0, 0);
    AddSound(Portless(), Empty(), Peer(1), 0, 0, 0, 0, 0);
  }

  lemma FreeSlotLeft()
    ensures var t := Set(Empty().new_, 1, 0, 0); Dim(t, NEW_BUCKET_COUNT) && t[2][0] == -1
    ensures NewBucket(Portless(), Service(2, 8333), 0) == 2
    ensures BucketPosition(Portless(), true, 2, Service(2, 8333)) == 0
  {
  }

  lemma SecondPeer(m: Mgr)
    requires Sound(Portless(), m) && m.nIdCount == 1 && m.addr == map[Service(1, 0) := 0]
    requires m.new_ == Set(Empty().new_, 1, 0, 0)
    ensures var (m', fNew) := AddPeer(m, 2);
      fNew && Sound(Portless(), m') && 1 in m'.info && m'.info[1].addr == Service(2, 8333)
  {
    hide Sound, AddSpec;
    AddSound(Portless(), m, Peer(2), 0, 0, 0, 0, 0);
    FreeSlotLeft();
    assert FindId(Portless(), m, Service(2, 8333)).None?;
    AddToFreeSlot(Portless(), m, Peer(2), 0, 0, 0, 0, 0);
  }

  /** Two addresses with ports added to a fresh manager: a run after which the lookup by full address fails. */
  lemma LiteralKeyCheckFails()
    ensures var ops := [OpAdd(Peer(1), 0, 0, 0, 0, 0), OpAdd(Peer(2), 0, 0, 0, 0, 0)];
      exists trace: seq<State> ::
        IsRun(Portless(), ops, [Added(true), Added(true)], trace) && !LiteralKeyCheck(trace[2].m)
  {
    hide Sound, AddSpec, Empty, Portless, Set;
    var ops := [OpAdd(Peer(1), 0, 0, 0, 0, 0), OpAdd(Peer(2), 0, 0, 0, 0, 0)];
    FirstPeer();
    var m1 := AddPeer(Empty(), 1).0;
    SecondPeer(m1);
    var m2 := AddPeer(m1, 2).0;
    var trace := [State(Empty(), 1), State(m1, 1), State(m2, 1)];
    assert IsRun(Portless(), ops, [Added(true), Added(true)], trace);
    PortsIgnored();
    LiteralKeyCheckIff(Portless(), m2);
  }

  lemma PortsIgnored()
    ensures !Portless().discriminatePorts
  {
  }
}
