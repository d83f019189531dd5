/**
 How much of the address manager one address range can fill (src/addrman.h, src/addrman.cpp).

 The buckets an address may get into depend on few hashed numbers per range: eight for the tried
 buckets of addresses in one range, 64 for the new buckets of whatever sources in one range announce.
 */
module AddrManGroups {
  import opened Wrappers
  import opened AddrMan

  // ----- Buckets

  /** The buckets that a range and a number below n are hashed to. */
  function Buckets(hash: (nat, nat) -> nat, g: nat, n: nat, count: nat): set<nat>
    requires count > 0
  {
    set k | 0 <= k < n :: hash(g, k) % count
  }

  lemma {:induction false} BucketsSize(hash: (nat, nat) -> nat, g: nat, n: nat, count: nat)
    requires count > 0
    ensures |Buckets(hash, g, n, count)| <= n
  {
    if n > 0 {
      BucketsSize(hash, g, n - 1, count);
      assert Buckets(hash, g, n, count) == Buckets(hash, g, n - 1, count) + {hash(g, n - 1) % count};
    } else {
      assert Buckets(hash, g, n, count) == {};
    }
  }

  lemma InBuckets(hash: (nat, nat) -> nat, g: nat, n: nat, count: nat, k: nat)
    requires count > 0 && k < n
    ensures hash(g, k) % count in Buckets(hash, g, n, count)
  {
  }

  /** The tried buckets of a range: eight at most. */
  function TriedBuckets(env: Env, g: nat): set<nat> {
    Buckets(env.triedHash, g, 8, 256)
  }

  /** The new buckets that announcements from a range lead to: 64 at most. */
  function SourceBuckets(env: Env, g: nat): set<nat> {
    Buckets(env.newHash, g, 64, 1024)
  }

  lemma TriedBucketsOfGroup(env: Env, g: nat)
    ensures |TriedBuckets(env, g)| <= 8
    ensures forall a: Service :: env.group(a.ip) == g ==> TriedBucket(env, a) in TriedBuckets(env, g)
  {
    BucketsSize(env.triedHash, g, 8, 256);
    forall a: Service | env.group(a.ip) == g ensures TriedBucket(env, a) in TriedBuckets(env, g) {
      InBuckets(env.triedHash, g, 8, 256, env.keyHash(a) % 8);
    }
  }

  lemma NewBucketsOfGroup(env: Env, g: nat)
    ensures |SourceBuckets(env, g)| <= 64
    ensures forall a: Service, source: nat :: env.group(source) == g ==>
              NewBucket(env, a, source) in SourceBuckets(env, g)
  {
    BucketsSize(env.newHash, g, 64, 1024);
    forall a: Service, source: nat | env.group(source) == g ensures NewBucket(env, a, source) in SourceBuckets(env, g) {
      InBuckets(env.newHash, g, 64, 1024, env.groupsHash(env.group(a.ip), g) % 64);
    }
  }

  /** Which of them it is: the residue of the address's own hash, or of the hash of both ranges, decides. */
  lemma BucketsAre(env: Env, a: Service, source: nat, k: nat, j: nat, fNew: bool, b: nat, p: nat)
    requires k < 8 && env.keyHash(a) % 8 == k
    requires j < 64 && env.groupsHash(env.group(a.ip), env.group(source)) % 64 == j
    requires p < 64 && env.posHash(fNew, b, a) % 64 == p
    ensures TriedBucket(env, a) == env.triedHash(env.group(a.ip), k) % 256
    ensures NewBucket(env, a, source) == env.newHash(env.group(source), j) % 1024
    ensures BucketPosition(env, fNew, b, a) == p
  {
  }

  // ----- Tried entries of one range

  /** The ids in the first n places of a bucket. */
  function Front(bucket: seq<int>, n: nat): set<int>
    requires n <= |bucket|
  {
    set p | 0 <= p < n :: bucket[p]
  }

  lemma {:induction false} FrontSize(bucket: seq<int>, n: nat)
    requires n <= |bucket|
    ensures |Front(bucket, n)| <= n
  {
    if n > 0 {
      FrontSize(bucket, n - 1);
      assert Front(bucket, n) == Front(bucket, n - 1) + {bucket[n - 1]};
    }
  }

  /** The ids in some buckets of the tried table. */
  function IdsIn(t: Table, buckets: set<nat>): set<int>
    requires Dim(t, TRIED_BUCKET_COUNT)
  {
    set b, p | b in buckets && 0 <= b < TRIED_BUCKET_COUNT && 0 <= p < BUCKET_SIZE :: t[b][p]
  }

  lemma {:induction false} IdsInSize(t: Table, buckets: set<nat>)
    requires Dim(t, TRIED_BUCKET_COUNT)
    ensures |IdsIn(t, buckets)| <= 64 * |buckets|
    decreases buckets
  {
    if buckets != {} {
      var b :| b in buckets;
      var rest := buckets - {b};
      IdsInSize(t, rest);
      if b < TRIED_BUCKET_COUNT {
        FrontSize(t[b], BUCKET_SIZE);
        assert IdsIn(t, buckets) == IdsIn(t, rest) + Front(t[b], BUCKET_SIZE);
      } else {
        assert IdsIn(t, buckets) == IdsIn(t, rest);
      }
    } else {
      assert IdsIn(t, buckets) == {};
    }
  }

  /** The tried entries with an address in range g. */
  function TriedOfGroup(env: Env, m: Mgr, g: nat): set<int> {
    set id | id in m.info && m.info[id].fInTried && env.group(m.info[id].addr.ip) == g
  }

  lemma SubsetSize(s: set<int>, t: set<int>)
    requires s <= t
    ensures |s| <= |t|
  {
    assert t == s + (t - s);
  }

  /** One range never holds more than 512 of the 16384 tried slots. */
  lemma GroupShareOfTried(env: Env, m: Mgr, g: nat)
    requires Sound(env, m)
    ensures |TriedOfGroup(env, m, g)| <= 512
  {
    SoundTried(env, m);
    hide Sound;
    TriedBucketsOfGroup(env, g);
    var buckets := TriedBuckets(env, g);
    forall id | id in TriedOfGroup(env, m, g) ensures id in IdsIn(m.tried, buckets) {
      var a := m.info[id].addr;
      var b := TriedBucket(env, a);
      assert b in buckets && m.tried[b][BucketPosition(env, false, b, a)] == id;
    }
    SubsetSize(TriedOfGroup(env, m, g), IdsIn(m.tried, buckets));
    IdsInSize(m.tried, buckets);
  }

  // ----- Announcements from one range

  /** An address announced by a source, with the clock readings and the draw of Add. */
  datatype Announcement = Announcement(a: Address, source: nat, penalty: int, now: int, later: int, roll: nat)

  ghost predicate AddStep(env: Env, n: Announcement, m: Mgr, m': Mgr) {
    Sound(env, m) && m' == AddSpec(env, m, n.a, n.source, n.penalty, n.now, n.later, n.roll).0
  }

  /** The tried table and all other new buckets are the same. */
  ghost predicate SameOutside(m: Mgr, m': Mgr, buckets: set<nat>) {
    && m'.tried == m.tried && |m'.new_| == |m.new_|
    && forall b: nat :: b < |m.new_| && b !in buckets ==> m'.new_[b] == m.new_[b]
  }

  lemma AddStaysInside(env: Env, n: Announcement, m: Mgr, m': Mgr, g: nat)
    requires AddStep(env, n, m, m') && env.group(n.source) == g
    ensures Sound(env, m') && SameOutside(m, m', SourceBuckets(env, g))
  {
    hide IsTerrible, LeavesOut, SameStats, SourceBuckets, NewBucket, AddSpec, Inv, TimesOk, CollisionsOk, SameOutside;
    AddSound(env, m, n.a, n.source, n.penalty, n.now, n.later, n.roll);
    AddDoes(env, m, n.a, n.source, n.penalty, n.now, n.later, n.roll);
    SoundCounts(env, m);
    NewBucketsOfGroup(env, g);
    OutsideSame(m, SourceBuckets(env, g));
    if env.isRoutable(n.a.service) {
      var key := if env.discriminatePorts then n.a.service else Service(n.a.service.ip, 0);
      var a := if key in m.addr then m.info[m.addr[key]].addr else n.a.service;
      var b := NewBucket(env, a, n.source);
      BucketBound(env, a, n.source);
      OutsideSet(m, m', SourceBuckets(env, g), b);
    }
  }

  lemma BucketBound(env: Env, a: Service, source: nat)
    ensures NewBucket(env, a, source) < NEW_BUCKET_COUNT
  {
  }

  lemma OutsideSame(m: Mgr, buckets: set<nat>)
    ensures SameOutside(m, m, buckets)
  {
  }

  lemma OutsideSet(m: Mgr, m': Mgr, buckets: set<nat>, b: nat)
    requires b in buckets && m'.tried == m.tried && b < |m.new_|
    requires m'.new_ == m.new_ || (exists p: nat, id :: p < |m.new_[b]| && m'.new_ == Set(m.new_, b, p, id))
    ensures SameOutside(m, m', buckets)
  {
  }

  /**
   Whatever sources in one range announce, and however often: at least 960 of the 1024 new buckets
   and the whole tried table stay as they are.
   */
  lemma {:induction false} GroupStaysInside(env: Env, ns: seq<Announcement>, ms: seq<Mgr>, g: nat, k: nat)
    requires |ms| == |ns| + 1 && k <= |ns| && Sound(env, ms[0])
    requires forall i :: 0 <= i < |ns| ==> AddStep(env, ns[i], ms[i], ms[i + 1]) && env.group(ns[i].source) == g
    ensures Sound(env, ms[k]) && SameOutside(ms[0], ms[k], SourceBuckets(env, g)) && |SourceBuckets(env, g)| <= 64
  {
    hide AddStep, Sound, SourceBuckets;
    NewBucketsOfGroup(env, g);
    if k > 0 {
      GroupStaysInside(env, ns, ms, g, k - 1);
      AddStaysInside(env, ns[k - 1], ms[k - 1], ms[k], g);
    }
  }
}
