/**
 The database transaction and its merging iterator (CDBTransaction and
 CDBTransactionIterator in src/dbwrapper.h).

 A transaction keeps pending writes and deletes over a parent, which is a store or another
 transaction.  It reads like the one map its overlay stands for, and its iterator walks that
 map in key order by merging the cursor over the writes with the iterator of the parent.
 */
module DbTransaction {
  import opened Numbers
  import opened Wrappers

  type Key = seq<Byte>

  // ----- The key order

  /** Lexicographic comparison of the bytes. */
  predicate Less(a: Key, b: Key) {
    b != [] && (a == [] || a[0] < b[0] || (a[0] == b[0] && Less(a[1..], b[1..])))
  }

  predicate AtMost(a: Key, b: Key) {
    a == b || Less(a, b)
  }

  lemma {:induction false} LessIrreflexive(a: Key)
    ensures !Less(a, a)
  {
    if a != [] {
      LessIrreflexive(a[1..]);
    }
  }

  lemma {:induction false} LessTransitive(a: Key, b: Key, c: Key)
    requires Less(a, b) && Less(b, c)
    ensures Less(a, c)
  {
    if a != [] && a[0] == b[0] == c[0] {
      LessTransitive(a[1..], b[1..], c[1..]);
    }
  }

  lemma {:induction false} LessTotal(a: Key, b: Key)
    ensures a == b || Less(a, b) || Less(b, a)
  {
    if a != [] && b != [] && a[0] == b[0] {
      LessTotal(a[1..], b[1..]);
      assert a == [a[0]] + a[1..] && b == [b[0]] + b[1..];
    }
  }

  /** Up to place n the keys agree, and there a ends or has the smaller byte. */
  predicate SmallerAt(a: Key, b: Key, n: nat) {
    n <= |a| && n < |b| && a[..n] == b[..n] && (n == |a| || a[n] < b[n])
  }

  /** The order in which a database lists its keys. */
  ghost predicate Precedes(a: Key, b: Key) {
    exists n: nat :: SmallerAt(a, b, n)
  }

  /** The comparison finds the first place where two keys differ. */
  lemma {:induction false} LessIff(a: Key, b: Key)
    ensures Less(a, b) <==> Precedes(a, b)
  {
    if b == [] || a == [] || a[0] != b[0] {
      FirstPlace(a, b);
    } else {
      LessIff(a[1..], b[1..]);
      SamePlaceLater(a, b);
    }
  }

  lemma FirstPlace(a: Key, b: Key)
    requires b == [] || a == [] || a[0] != b[0]
    ensures Precedes(a, b) <==> b != [] && (a == [] || a[0] < b[0])
  {
    assert b != [] && (a == [] || a[0] < b[0]) ==> SmallerAt(a, b, 0);
    forall n: nat | 0 < n <= |a| && n < |b| ensures a[..n] != b[..n] {
      assert a[..n][0] == a[0] && b[..n][0] == b[0];
    }
  }

  lemma SamePlaceLater(a: Key, b: Key)
    requires a != [] && b != [] && a[0] == b[0]
    ensures Precedes(a, b) <==> Precedes(a[1..], b[1..])
  {
    if n: nat :| SmallerAt(a, b, n) {
      assert n > 0;
      OnePlaceLater(a, b, n - 1);
    }
    if n: nat :| SmallerAt(a[1..], b[1..], n) {
      OnePlaceLater(a, b, n);
    }
  }

  lemma OnePlaceLater(a: Key, b: Key, n: nat)
    requires a != [] && b != [] && a[0] == b[0]
    ensures SmallerAt(a, b, n + 1) <==> SmallerAt(a[1..], b[1..], n)
  {
    if n + 1 <= |a| && n + 1 < |b| {
      var s, t := a[1..][..n], b[1..][..n];
      assert a[..n + 1] == [a[0]] + s && b[..n + 1] == [b[0]] + t;
      assert s == ([a[0]] + s)[1..] && t == ([b[0]] + t)[1..];
      assert a[1..][n..] == a[n + 1..] && b[1..][n] == b[n + 1];
    }
  }

  // ----- Cursors

  /** The keys of s at or after k. */
  function From(s: set<Key>, k: Key): set<Key> {
    set x | x in s && AtMost(k, x)
  }

  /** The keys of s after k. */
  function After(s: set<Key>, k: Key): set<Key> {
    set x | x in s && Less(k, x)
  }

  /** The position of a cursor that has the keys of s before it: the least of them, or the end. */
  ghost predicate Least(s: set<Key>, pos: Option<Key>) {
    match pos
    case None => s == {}
    case Some(k) => k in s && forall x :: x in s ==> AtMost(k, x)
  }

  /** The least key of a set, as an ordered container keeps it at hand. */
  method LeastOf(s: set<Key>) returns (pos: Option<Key>)
    ensures Least(s, pos)
  {
    pos := None;
    var rest := s;
    while rest != {}
      invariant rest <= s && Least(s - rest, pos)
      decreases |rest|
    {
      hide Less;
      ghost var done := s - rest;
      var k :| k in rest;
      rest := rest - {k};
      assert s - rest == done + {k};
      ExtendLeast(done, pos, k);
      if pos == None || Less(k, pos.value) {
        pos := Some(k);
      }
    }
    assert s - rest == s;
  }

  lemma ExtendLeast(s: set<Key>, pos: Option<Key>, k: Key)
    requires Least(s, pos)
    ensures Least(s + {k}, if pos == None || Less(k, pos.value) then Some(k) else pos)
  {
    if pos.Some? {
      LessTotal(k, pos.value);
      if Less(k, pos.value) {
        forall x | x in s ensures AtMost(k, x) {
          if x != pos.value {
            LessTransitive(k, pos.value, x);
          }
        }
      }
    }
  }

  lemma LeastIsUnique(s: set<Key>, p: Option<Key>, q: Option<Key>)
    requires Least(s, p) && Least(s, q)
    ensures p == q
  {
    if p.Some? && q.Some? && p != q {
      LessTransitive(p.value, q.value, p.value);
      LessIrreflexive(p.value);
    }
  }

  /** Every key of s after a key of part is in part. */
  ghost predicate UpClosed(s: set<Key>, part: set<Key>) {
    part <= s && forall x, y :: x in part && y in s && Less(x, y) ==> y in part
  }

  lemma FromIsUpClosed(s: set<Key>, k: Key)
    ensures UpClosed(s, From(s, k))
  {
    forall x, y | x in From(s, k) && y in s && Less(x, y) ensures AtMost(k, y) {
      if x != k {
        LessTransitive(k, x, y);
      }
    }
  }

  /** Moving a cursor past its key leaves the keys after it. */
  lemma AfterLeast(s: set<Key>, part: set<Key>, k: Key)
    requires UpClosed(s, part) && Least(part, Some(k))
    ensures After(s, k) == part - {k} && UpClosed(s, part - {k})
  {
    hide Less;
    LessIrreflexive(k);
    forall x | x in part && Less(x, k) ensures false {
      LessTransitive(k, x, k);
    }
  }

  /** The least of two cursors is the least of both sets together. */
  lemma MergeLeast(s: set<Key>, t: set<Key>, p: Option<Key>, q: Option<Key>)
    requires Least(s, p) && Least(t, q)
    ensures Least(s + t, if p == None then q else if q == None || Less(p.value, q.value) then p else q)
  {
    if p.Some? && q.Some? {
      LessTotal(p.value, q.value);
      forall x | x in s + t
        ensures AtMost(if Less(p.value, q.value) then p.value else q.value, x)
      {
        if Less(p.value, q.value) && x in t && x != q.value {
          LessTransitive(p.value, q.value, x);
        }
        if Less(q.value, p.value) && x in s && x != p.value {
          LessTransitive(q.value, p.value, x);
        }
      }
    }
  }

  // ----- Memory accounting

  /** The sum of the values of a map. */
  ghost function Cost(m: map<Key, nat>): nat {
    if m == map[] then 0
    else
      var k :| k in m;
      m[k] + Cost(m - {k})
  }

  lemma {:induction false} CostWithout(m: map<Key, nat>, k: Key)
    requires k in m
    ensures Cost(m) == m[k] + Cost(m - {k})
    decreases |m|
  {
    var j :| j in m && Cost(m) == m[j] + Cost(m - {j});
    if j != k {
      CostWithout(m - {j}, k);
      CostWithout(m - {k}, j);
      assert m - {j} - {k} == m - {k} - {j};
    }
  }

  lemma CostWith(m: map<Key, nat>, k: Key, c: nat)
    requires k !in m
    ensures Cost(m[k := c]) == c + Cost(m)
  {
    CostWithout(m[k := c], k);
    assert m[k := c] - {k} == m;
  }

  /** A pending value with the memory it was charged for. */
  datatype Holder<V> = Holder(value: V, memoryUsage: nat)

  ghost function WriteCosts<V>(writes: map<Key, Holder<V>>): map<Key, nat> {
    map k | k in writes :: |k| + writes[k].memoryUsage
  }

  ghost function DeleteCosts(deletes: set<Key>): map<Key, nat> {
    map k | k in deletes :: |k|
  }

  ghost function Usage<V>(writes: map<Key, Holder<V>>, deletes: set<Key>): nat {
    Cost(WriteCosts(writes)) + Cost(DeleteCosts(deletes))
  }

  lemma UsageDropWrite<V>(writes: map<Key, Holder<V>>, deletes: set<Key>, k: Key)
    requires k in writes
    ensures Usage(writes, deletes) == |k| + writes[k].memoryUsage + Usage(writes - {k}, deletes)
  {
    CostWithout(WriteCosts(writes), k);
    assert WriteCosts(writes) - {k} == WriteCosts(writes - {k});
  }

  lemma UsageAddWrite<V>(writes: map<Key, Holder<V>>, deletes: set<Key>, k: Key, h: Holder<V>)
    requires k !in writes
    ensures Usage(writes[k := h], deletes) == |k| + h.memoryUsage + Usage(writes, deletes)
  {
    CostWith(WriteCosts(writes), k, |k| + h.memoryUsage);
    assert WriteCosts(writes)[k := |k| + h.memoryUsage] == WriteCosts(writes[k := h]);
  }

  lemma UsageDropDelete<V>(writes: map<Key, Holder<V>>, deletes: set<Key>, k: Key)
    requires k in deletes
    ensures Usage(writes, deletes) == |k| + Usage(writes, deletes - {k})
  {
    CostWithout(DeleteCosts(deletes), k);
    assert DeleteCosts(deletes) - {k} == DeleteCosts(deletes - {k});
  }

  // ----- The map a transaction stands for

  function Values<V>(writes: map<Key, Holder<V>>): map<Key, V> {
    map k | k in writes :: writes[k].value
  }

  function Overlay<V>(base: map<Key, V>, writes: map<Key, Holder<V>>, deletes: set<Key>): map<Key, V> {
    base - deletes + Values(writes)
  }

  /** The parent's keys that show through. */
  function Visible<V>(base: map<Key, V>, writes: map<Key, Holder<V>>, deletes: set<Key>): set<Key> {
    base.Keys - deletes - writes.Keys
  }

  lemma AllLeft<V>(base: map<Key, V>, writes: map<Key, Holder<V>>)
    ensures base + Values(writes - writes.Keys) == base && Values(writes - {}) == Values(writes)
  {
    assert writes - {} == writes;
  }

  lemma OneLess<V>(base: map<Key, V>, writes: map<Key, Holder<V>>, left: set<Key>, k: Key)
    requires left <= writes.Keys && k in left
    ensures base + Values(writes - (left - {k})) == (base + Values(writes - left))[k := writes[k].value]
  {
    assert Values(writes - (left - {k})) == Values(writes - left)[k := writes[k].value];
  }

  lemma OverlayKeys<V>(base: map<Key, V>, writes: map<Key, Holder<V>>, deletes: set<Key>)
    ensures Overlay(base, writes, deletes).Keys == writes.Keys + Visible(base, writes, deletes)
  {
  }

  lemma OverlayWrite<V>(base: map<Key, V>, writes: map<Key, Holder<V>>, deletes: set<Key>, k: Key, h: Holder<V>)
    ensures Overlay(base, writes[k := h], deletes - {k}) == Overlay(base, writes, deletes)[k := h.value]
  {
  }

  lemma OverlayErase<V>(base: map<Key, V>, writes: map<Key, Holder<V>>, deletes: set<Key>, k: Key)
    ensures Overlay(base, writes - {k}, deletes + {k}) == Overlay(base, writes, deletes) - {k}
  {
  }

  lemma NothingPending<V>(base: map<Key, V>)
    ensures Overlay(base, map[], {}) == base && Usage<V>(map[], {}) == 0
  {
    assert WriteCosts<V>(map[]) == map[] && DeleteCosts({}) == map[];
  }

  // ----- Stores and batches

  datatype Change<V> = Put(k: Key, v: V) | Delete(k: Key)

  function AppliedOne<V>(m: map<Key, V>, c: Change<V>): map<Key, V> {
    match c
    case Put(k, v) => m[k := v]
    case Delete(k) => m - {k}
  }

  /** A map after changes made in order. */
  function Applied<V>(base: map<Key, V>, changes: seq<Change<V>>): map<Key, V> {
    if changes == [] then base
    else AppliedOne(Applied(base, changes[..|changes| - 1]), changes[|changes| - 1])
  }

  lemma AppliedNext<V>(base: map<Key, V>, changes: seq<Change<V>>, c: Change<V>)
    ensures Applied(base, changes + [c]) == AppliedOne(Applied(base, changes), c)
  {
    assert (changes + [c])[..|changes|] == changes;
  }

  /** Changes collected to be written together. */
  class Batch<V> {
    var changes: seq<Change<V>>

    constructor ()
      ensures changes == []
    {
      changes := [];
    }

    method Write(k: Key, v: V)
      modifies this
      ensures changes == old(changes) + [Put(k, v)]
    {
      changes := changes + [Put(k, v)];
    }

    method Erase(k: Key)
      modifies this
      ensures changes == old(changes) + [Delete(k)]
    {
      changes := changes + [Delete(k)];
    }

    method Clear()
      modifies this
      ensures changes == []
    {
      changes := [];
    }
  }

  /** A store that reads and writes like a map. */
  class Store<V> {
    var contents: map<Key, V>

    constructor (contents: map<Key, V>)
      ensures this.contents == contents
    {
      this.contents := contents;
    }

    method Write(k: Key, v: V)
      modifies this
      ensures contents == old(contents)[k := v]
    {
      contents := contents[k := v];
    }

    method Erase(k: Key)
      modifies this
      ensures contents == old(contents) - {k}
    {
      contents := contents - {k};
    }

    method WriteBatch(batch: Batch<V>)
      modifies this
      ensures contents == Applied(old(contents), batch.changes)
    {
      ghost var base := contents;
      for i := 0 to |batch.changes|
        invariant contents == Applied(base, batch.changes[..i])
      {
        assert batch.changes[..i + 1] == batch.changes[..i] + [batch.changes[i]];
        AppliedNext(base, batch.changes[..i], batch.changes[i]);
        contents := AppliedOne(contents, batch.changes[i]);
      }
      assert batch.changes[..|batch.changes|] == batch.changes;
    }
  }

  // ----- Transactions

  /** What a transaction reads through to. */
  datatype Parent<V> = OverStore(store: Store<V>) | OverTransaction(t: Transaction<V>)

  /** What a transaction commits to. */
  datatype Target<V> = IntoStore(store: Store<V>) | IntoTransaction(t: Transaction<V>) | IntoBatch(batch: Batch<V>)

  ghost function Objects<V>(p: Parent<V>): set<object> {
    match p
    case OverStore(s) => {s}
    case OverTransaction(t) => t.below + {t}
  }

  ghost function Depth<V>(p: Parent<V>): nat {
    match p
    case OverStore(_) => 0
    case OverTransaction(t) => t.depth + 1
  }

  ghost predicate ParentOk<V>(p: Parent<V>)
    reads Objects(p)
  {
    p.OverTransaction? ==> p.t.Valid()
  }

  /** The map the parent reads like. */
  ghost function Contents<V>(p: Parent<V>): map<Key, V>
    requires ParentOk(p)
    reads Objects(p)
    decreases Depth(p), 1
  {
    match p
    case OverStore(s) => s.contents
    case OverTransaction(t) => t.View()
  }

  class Transaction<V> {
    const parent: Parent<V>
    const commitTarget: Target<V>
    const serializeSize: V -> nat
    var writes: map<Key, Holder<V>>
    var deletes: set<Key>
    var memoryUsage: int

    // What lies below, and how deep it is.
    ghost const below: set<object>
    ghost const depth: nat

    ghost predicate Valid()
      reads this, below
      decreases depth
    {
      && this !in below && below == Objects(parent) && depth == Depth(parent)
      && TargetOk() && (parent.OverTransaction? ==> parent.t.Valid())
      && writes.Keys !! deletes
      && (forall k :: k in writes ==> writes[k].memoryUsage == serializeSize(writes[k].value))
      && memoryUsage == Usage(writes, deletes)
    }

    /** The target is the parent or lies outside of what is read. */
    ghost predicate TargetOk() {
      match commitTarget
      case IntoStore(s) => parent == OverStore(s) || s !in below
      case IntoTransaction(t) => parent == OverTransaction(t)
      case IntoBatch(b) => b !in below
    }

    /** The map this transaction reads like. */
    ghost function View(): map<Key, V>
      requires Valid()
      reads this, below
      decreases depth, 2
    {
      Overlay(Contents(parent), writes, deletes)
    }

    ghost function Sink(): set<object> {
      match commitTarget
      case IntoStore(s) => {s}
      case IntoTransaction(t) => {t}
      case IntoBatch(b) => {b}
    }

    /** What the target reads like; a batch, what the parent will read once it is written there. */
    ghost function Received(): map<Key, V>
      requires Valid()
      reads this, below, Sink()
    {
      match commitTarget
      case IntoStore(s) => s.contents
      case IntoTransaction(t) => t.View()
      case IntoBatch(b) => Applied(Contents(parent), b.changes)
    }

    constructor (parent: Parent<V>, commitTarget: Target<V>, serializeSize: V -> nat)
      requires ParentOk(parent)
      requires match commitTarget
               case IntoStore(s) => parent == OverStore(s) || s !in Objects(parent)
               case IntoTransaction(t) => parent == OverTransaction(t)
               case IntoBatch(b) => b !in Objects(parent)
      ensures Valid() && View() == Contents(parent)
      ensures writes == map[] && deletes == {}
      ensures this.parent == parent && this.commitTarget == commitTarget && this.serializeSize == serializeSize
    {
      hide Usage, Overlay;
      NothingPending(Contents(parent));
      this.parent := parent;
      this.commitTarget := commitTarget;
      this.serializeSize := serializeSize;
      writes := map[];
      deletes := {};
      memoryUsage := 0;
      below := Objects(parent);
      depth := Depth(parent);
    }

    method Write(k: Key, v: V)
      requires Valid()
      modifies this
      ensures Valid() && View() == old(View())[k := v]
      ensures k in writes
    {
      hide Usage, Overlay, Contents;
      var valueMemoryUsage := serializeSize(v);
      ghost var base, writes0, deletes0 := Contents(parent), writes, deletes;
      if k in deletes {
        UsageDropDelete(writes, deletes, k);
        deletes := deletes - {k};
        memoryUsage := memoryUsage - |k|;
      }
      assert deletes == deletes0 - {k};
      if k in writes {
        UsageDropWrite(writes, deletes, k);
        memoryUsage := memoryUsage - (|k| + writes[k].memoryUsage);
      }
      assert k !in writes ==> writes - {k} == writes;
      UsageAddWrite(writes - {k}, deletes, k, Holder(v, valueMemoryUsage));
      assert (writes - {k})[k := Holder(v, valueMemoryUsage)] == writes[k := Holder(v, valueMemoryUsage)];
      writes := writes[k := Holder(v, valueMemoryUsage)];
      memoryUsage := memoryUsage + |k| + valueMemoryUsage;
      OverlayWrite(base, writes0, deletes0, k, Holder(v, valueMemoryUsage));
    }

    method Erase(k: Key)
      requires Valid()
      modifies this
      ensures Valid() && View() == old(View()) - {k}
      ensures k in deletes
    {
      hide Usage, Overlay, Contents;
      ghost var base, writes0, deletes0 := Contents(parent), writes, deletes;
      if k in writes {
        UsageDropWrite(writes, deletes, k);
        memoryUsage := memoryUsage - (|k| + writes[k].memoryUsage);
        writes := writes - {k};
      }
      assert writes == writes0 - {k};
      if k !in deletes {
        deletes := deletes + {k};
        memoryUsage := memoryUsage + |k|;
        UsageDropDelete(writes, deletes, k);
        assert deletes - {k} == deletes0;
      }
      assert deletes == deletes0 + {k};
      OverlayErase(base, writes0, deletes0, k);
    }

    method Read(k: Key) returns (v: Option<V>)
      requires Valid()
      ensures v == Get(View(), k)
      decreases depth
    {
      hide Usage;
      if k in deletes {
        return None;
      }
      if k in writes {
        return Some(writes[k].value);
      }
      match parent {
        case OverStore(s) => v := Get(s.contents, k);
        case OverTransaction(t) => v := t.Read(k);
      }
    }

    method Exists(k: Key) returns (found: bool)
      requires Valid()
      ensures found <==> k in View()
      decreases depth
    {
      hide Usage;
      if k in deletes {
        return false;
      }
      if k in writes {
        return true;
      }
      match parent {
        case OverStore(s) => found := k in s.contents;
        case OverTransaction(t) => found := t.Exists(k);
      }
    }

    method Clear()
      requires Valid()
      modifies this
      ensures Valid() && View() == old(Contents(parent))
      ensures writes == map[] && deletes == {}
    {
      hide Usage, Overlay, Contents;
      NothingPending(Contents(parent));
      writes := map[];
      deletes := {};
      memoryUsage := 0;
    }

    method EraseInTarget(k: Key)
      requires Valid()
      modifies Sink()
      ensures Valid() && Received() == old(Received()) - {k}
    {
      hide Usage, Overlay;
      match commitTarget {
        case IntoStore(s) => s.Erase(k);
        case IntoTransaction(t) => t.Erase(k);
        case IntoBatch(b) =>
          AppliedNext(Contents(parent), b.changes, Delete(k));
          b.Erase(k);
      }
    }

    method WriteInTarget(k: Key, v: V)
      requires Valid()
      modifies Sink()
      ensures Valid() && Received() == old(Received())[k := v]
    {
      hide Usage, Overlay;
      match commitTarget {
        case IntoStore(s) => s.Write(k, v);
        case IntoTransaction(t) => t.Write(k, v);
        case IntoBatch(b) =>
          AppliedNext(Contents(parent), b.changes, Put(k, v));
          b.Write(k, v);
      }
    }

    method CommitDeletes()
      requires Valid()
      modifies Sink()
      ensures Valid() && Received() == old(Received()) - deletes
    {
      hide Valid, Received, Sink;
      ghost var base := Received();
      var gone := deletes;
      Outside();
      while gone != {}
        invariant gone <= deletes
        invariant Valid() && Received() == base - (deletes - gone)
        decreases |gone|
      {
        var k :| k in gone;
        assert deletes - (gone - {k}) == deletes - gone + {k};
        gone := gone - {k};
        EraseInTarget(k);
      }
    }

    method CommitWrites()
      requires Valid()
      modifies Sink()
      ensures Valid() && Received() == old(Received()) + Values(writes)
    {
      hide Valid, Received, Sink, Values;
      ghost var base := Received();
      var left := writes.Keys;
      Outside();
      AllLeft(base, writes);
      while left != {}
        invariant left <= writes.Keys
        invariant Valid() && Received() == base + Values(writes - left)
        decreases |left|
      {
        var k :| k in left;
        OneLess(base, writes, left, k);
        WriteInTarget(k, writes[k].value);
        left := left - {k};
      }
    }

    lemma Outside()
      requires Valid()
      ensures this !in Sink()
    {
    }

    /** The target is what the transaction reads through to. */
    ghost predicate CommitsBelow() {
      match commitTarget
      case IntoStore(s) => parent == OverStore(s)
      case IntoTransaction(t) => parent == OverTransaction(t)
      case IntoBatch(_) => false
    }

    /**
     Applies the pending changes to the target; nothing is pending afterwards. If the target is
     the parent, the transaction reads as before, and so does the parent from now on.
     */
    method Commit()
      requires Valid()
      modifies this, Sink()
      ensures Valid() && writes == map[] && deletes == {} && View() == Contents(parent)
      ensures Received() == old(Overlay(Received(), writes, deletes))
      ensures CommitsBelow() ==> View() == old(View())
      ensures !CommitsBelow() ==> View() == old(Contents(parent))
    {
      hide Usage;
      CommitDeletes();
      CommitWrites();
      Clear();
    }

    method IsClean() returns (clean: bool)
      requires Valid()
      ensures clean <==> writes == map[] && deletes == {}
      ensures clean ==> View() == Contents(parent) && memoryUsage == 0
    {
      clean := writes == map[] && deletes == {};
    }

    /** The accounting is exact, so the fallback for a negative value is never taken. */
    method GetMemoryUsage() returns (usage: int)
      requires Valid()
      ensures usage == Usage(writes, deletes)
    {
      usage := if memoryUsage < 0 then 0 else memoryUsage;
    }
  }

  // ----- Iterators

  /** The cursor over a store. */
  class StoreIterator<V> {
    const store: Store<V>
    var pos: Option<Key>

    // The keys still to be visited, the current one included.
    ghost var rest: set<Key>

    ghost predicate Inv()
      reads this, store
    {
      UpClosed(store.contents.Keys, rest) && Least(rest, pos)
    }

    constructor (store: Store<V>)
      ensures Inv() && this.store == store && rest == {}
    {
      this.store := store;
      pos := None;
      rest := {};
    }

    method Seek(k: Key)
      modifies this
      ensures Inv() && rest == From(store.contents.Keys, k)
    {
      pos := LeastOf(From(store.contents.Keys, k));
      rest := From(store.contents.Keys, k);
      FromIsUpClosed(store.contents.Keys, k);
    }

    method Next()
      requires Inv() && pos.Some?
      modifies this
      ensures Inv() && rest == old(rest) - {old(pos).value}
    {
      hide Less;
      AfterLeast(store.contents.Keys, rest, pos.value);
      rest := rest - {pos.value};
      pos := LeastOf(After(store.contents.Keys, pos.value));
    }
  }

  /** The iterator of a parent. */
  datatype AnyIterator<V> = OfStore(s: StoreIterator<V>) | OfTransaction(t: TransactionIterator<V>) {
    ghost function Parts(): set<object> {
      match this
      case OfStore(s) => {s}
      case OfTransaction(t) => t.parts + {t}
    }

    ghost function Level(): nat {
      match this
      case OfStore(_) => 0
      case OfTransaction(t) => t.level + 1
    }

    /** What it iterates over. */
    ghost function Over(): Parent<V> {
      match this
      case OfStore(s) => OverStore(s.store)
      case OfTransaction(t) => OverTransaction(t.transaction)
    }

    ghost predicate Inv()
      reads Parts(), Objects(Over())
    {
      match this
      case OfStore(s) => s.Inv()
      case OfTransaction(t) => t.Inv()
    }

    /** The keys still to be visited. */
    ghost function Ahead(): set<Key>
      reads Parts()
    {
      match this
      case OfStore(s) => s.rest
      case OfTransaction(t) => t.rest
    }

    ghost function Current(): Option<Key>
      reads Parts()
    {
      match this
      case OfStore(s) => s.pos
      case OfTransaction(t) => t.current
    }

    /** The current key is the least of those ahead. */
    lemma Ordered()
      requires Inv()
      ensures ParentOk(Over()) && Ahead() <= Contents(Over()).Keys && Least(Ahead(), Current())
    {
      hide Less, Least, Usage, Overlay;
      match this
      case OfStore(s) =>
      case OfTransaction(t) =>
        OverlayKeys(Contents(t.transaction.parent), t.transaction.writes, t.transaction.deletes);
    }

    method GetKey() returns (k: Option<Key>)
      requires Inv()
      ensures k == Current()
      decreases Level(), 1
    {
      match this {
        case OfStore(s) => k := s.pos;
        case OfTransaction(t) => k := t.GetKey();
      }
    }

    method Seek(k: Key)
      requires Inv()
      modifies Parts()
      ensures Inv() && ParentOk(Over()) && Ahead() == From(Contents(Over()).Keys, k)
      decreases Level(), 1
    {
      hide Less, UpClosed, From, Least, Usage, Overlay;
      match this {
        case OfStore(s) => s.Seek(k);
        case OfTransaction(t) => t.Seek(k);
      }
    }

    method Next()
      requires Inv() && Current().Some?
      modifies Parts()
      ensures Inv() && Ahead() == old(Ahead()) - {old(Current()).value}
      decreases Level(), 1
    {
      match this {
        case OfStore(s) => s.Next();
        case OfTransaction(t) => t.Next();
      }
    }
  }

  /** The cursor over the writes is at the first of them that is left. */
  ghost predicate WritesPlaced(written: set<Key>, shown: set<Key>, rest: set<Key>, transactionIt: Option<Key>) {
    UpClosed(written + shown, rest) && Least(rest * written, transactionIt)
  }

  /** The parent has the same keys left, but for those that do not show, and is at one that shows. */
  ghost predicate ParentPlaced(shown: set<Key>, rest: set<Key>, ahead: set<Key>, pos: Option<Key>, parentKey: Key) {
    ahead * shown == rest * shown && AtShown(shown, pos, parentKey)
  }

  ghost predicate AtShown(shown: set<Key>, pos: Option<Key>, parentKey: Key) {
    pos.Some? ==> parentKey == pos.value && parentKey in shown
  }

  /** The smaller key is the current one. */
  ghost predicate Decided(transactionIt: Option<Key>, pos: Option<Key>, parentKey: Key, curIsParent: bool) {
    transactionIt.Some? || pos.Some? ==>
      (curIsParent <==> pos.Some? && (transactionIt.None? || !Less(transactionIt.value, parentKey)))
  }

  /** The smaller of the two keys. */
  ghost function Smaller(transactionIt: Option<Key>, pos: Option<Key>, parentKey: Key): Option<Key> {
    if pos.None? || (transactionIt.Some? && Less(transactionIt.value, parentKey)) then transactionIt
    else Some(parentKey)
  }

  /** It is the least of all that are left. */
  lemma Smallest(written: set<Key>, shown: set<Key>, rest: set<Key>, transactionIt: Option<Key>,
                 ahead: set<Key>, pos: Option<Key>, parentKey: Key)
    requires WritesPlaced(written, shown, rest, transactionIt)
    requires ParentPlaced(shown, rest, ahead, pos, parentKey) && Least(ahead, pos)
    ensures Least(rest, Smaller(transactionIt, pos, parentKey))
    ensures transactionIt.Some? ==> transactionIt.value in written
  {
    hide Less, UpClosed;
    LeastOfPart(ahead, shown, pos);
    MergeLeast(rest * written, rest * shown, transactionIt, pos);
    assert rest == rest * written + rest * shown by {
      UpClosedSubset(written + shown, rest);
    }
  }

  /** The parent passes its key, which is the current one. */
  lemma ParentPasses(written: set<Key>, shown: set<Key>, rest: set<Key>, transactionIt: Option<Key>,
                     ahead: set<Key>, k: Key)
    requires WritesPlaced(written, shown, rest, transactionIt) && Least(rest, Some(k))
    requires ParentPlaced(shown, rest, ahead, Some(k), k) && written !! shown
    ensures WritesPlaced(written, shown, rest - {k}, transactionIt)
    ensures (ahead - {k}) * shown == (rest - {k}) * shown
  {
    hide Less;
    AfterLeast(written + shown, rest, k);
    assert (rest - {k}) * written == rest * written;
    assert (ahead - {k}) * shown == ahead * shown - {k} == rest * shown - {k} == (rest - {k}) * shown;
  }

  /** The cursor over the writes passes its key, which is the current one. */
  lemma WritePasses(written: set<Key>, shown: set<Key>, rest: set<Key>, ahead: set<Key>, pos: Option<Key>,
                    parentKey: Key, k: Key, next: Option<Key>)
    requires WritesPlaced(written, shown, rest, Some(k)) && Least(rest, Some(k)) && written !! shown
    requires ParentPlaced(shown, rest, ahead, pos, parentKey) && Least(After(written, k), next)
    ensures WritesPlaced(written, shown, rest - {k}, next)
    ensures ParentPlaced(shown, rest - {k}, ahead, pos, parentKey)
  {
    hide Less;
    AfterLeast(written + shown, rest, k);
    assert After(written, k) == (rest - {k}) * written;
    assert (rest - {k}) * shown == rest * shown;
  }

  /** The cursor over the pending writes and the iterator of the parent, and which one is current. */
  class TransactionIterator<V> {
    const transaction: Transaction<V>
    const parentIt: AnyIterator<V>
    var transactionIt: Option<Key>
    var parentKey: Key
    var curIsParent: bool

    // The keys still to be visited, and the current one.
    ghost var rest: set<Key>
    ghost var current: Option<Key>

    // The iterators below, and how many there are.
    ghost const parts: set<object>
    ghost const level: nat

    ghost function Written(): set<Key>
      reads transaction
    {
      transaction.writes.Keys
    }

    ghost function Shown(): set<Key>
      requires transaction.Valid()
      reads transaction, transaction.below
    {
      Visible(Contents(transaction.parent), transaction.writes, transaction.deletes)
    }

    /** The parts are apart from each other and from what is iterated over. */
    ghost predicate Shape() {
      && this !in parts && parts == parentIt.Parts() && level == parentIt.Level()
      && this !in transaction.below && transaction !in parts && parts !! transaction.below
      && parentIt.Over() == transaction.parent
      && Objects(transaction.parent) == transaction.below
    }

    ghost predicate Framed()
      reads this, parts, transaction, transaction.below
    {
      Shape() && transaction.Valid() && parentIt.Inv()
    }

    ghost predicate Placed()
      requires Shape() && transaction.Valid()
      reads this, parts, transaction, transaction.below
    {
      && WritesPlaced(Written(), Shown(), rest, transactionIt)
      && ParentPlaced(Shown(), rest, parentIt.Ahead(), parentIt.Current(), parentKey)
    }

    ghost predicate Inv()
      reads this, parts, transaction, transaction.below
      decreases level
    {
      && Shape() && transaction.Valid()
      && (match parentIt
          case OfStore(s) => s.Inv()
          case OfTransaction(t) => t.Inv())
      && Placed() && Decided(transactionIt, parentIt.Current(), parentKey, curIsParent) && Least(rest, current)
    }

    constructor (transaction: Transaction<V>, parentIt: AnyIterator<V>)
      requires transaction.Valid() && parentIt.Inv() && parentIt.Ahead() == {}
      requires parentIt.Parts() !! transaction.below && transaction !in parentIt.Parts()
      requires parentIt.Over() == transaction.parent
      ensures Inv() && this.transaction == transaction && parts == parentIt.Parts() && rest == {}
    {
      this.transaction := transaction;
      this.parentIt := parentIt;
      transactionIt := None;
      parentKey := [];
      curIsParent := false;
      rest := {};
      current := None;
      parts := parentIt.Parts();
      level := parentIt.Level();
      new;
      parentIt.Ordered();
    }

    lemma Ready()
      requires Inv()
      ensures Framed() && transaction.Valid()
    {
    }

    /** Passes the current key of the parent. */
    method PassParent()
      requires Framed() && parentIt.Current().Some?
      modifies parts
      ensures Framed() && Shown() == old(Shown())
      ensures parentIt.Ahead() == old(parentIt.Ahead()) - {old(parentIt.Current()).value}
      decreases level, 2
    {
      hide Less, Least, Usage, Overlay, UpClosed, From, After, Transaction.Valid, Contents;
      parentIt.Next();
    }

    /** The parent's current key is one of its own. */
    lemma ParentKeyExists()
      requires Framed() && parentIt.Current().Some?
      ensures parentIt.Current().value in parentIt.Ahead() && parentIt.Current().value in Contents(transaction.parent)
    {
      hide Less, Usage, Overlay, UpClosed;
      parentIt.Ordered();
    }

    /** Moves the parent's iterator to the next key that shows through. */
    method SkipDeletedAndOverwritten()
      requires Framed()
      modifies this`parentKey, parts
      ensures Framed() && parentIt.Ahead() * Shown() == old(parentIt.Ahead() * Shown())
      ensures AtShown(Shown(), parentIt.Current(), parentKey)
      decreases level, 3
    {
      hide Less, Least, Usage, Overlay, UpClosed, From, After, Transaction.Valid, Contents;
      ghost var shown := Shown();
      ghost var pending := parentIt.Ahead() * shown;
      var key := parentIt.GetKey();
      while key.Some?
        invariant Framed() && Shown() == shown && key == parentIt.Current()
        invariant parentIt.Ahead() * shown == pending
        decreases |parentIt.Ahead()|
      {
        parentKey := key.value;
        ParentKeyExists();
        if parentKey !in transaction.deletes && parentKey !in transaction.writes {
          assert parentKey in shown;
          break;
        }
        PassParent();
        key := parentIt.GetKey();
      }
    }

    method DecideCur()
      requires Framed() && Placed()
      modifies this`curIsParent, this`current
      ensures Inv()
    {
      hide Less, Least, Usage, Overlay, UpClosed, From, After, Transaction.Valid, Contents, Visible;
      hide WritesPlaced, ParentPlaced;
      ghost var written, shown, ahead, pos := Written(), Shown(), parentIt.Ahead(), parentIt.Current();
      parentIt.Ordered();
      Smallest(written, shown, rest, transactionIt, ahead, pos, parentKey);
      var key := parentIt.GetKey();
      if transactionIt.Some? && key.None? {
        curIsParent := false;
      } else if transactionIt.None? && key.Some? {
        curIsParent := true;
      } else if transactionIt.Some? && key.Some? {
        if Less(transactionIt.value, parentKey) {
          curIsParent := false;
        } else {
          curIsParent := true;
        }
      }
      current := Smaller(transactionIt, pos, parentKey);
      assert Written() == written && Shown() == shown && parentIt.Ahead() == ahead && parentIt.Current() == pos;
    }

    lemma CurrentKey()
      requires Inv()
      ensures Framed() && Least(rest, current)
      ensures current == if transactionIt.None? && parentIt.Current().None? then None
                         else if curIsParent then Some(parentKey) else transactionIt
      ensures transactionIt.Some? ==> transactionIt.value in Written()
    {
      hide Less, UpClosed, Usage, Overlay;
      parentIt.Ordered();
      Smallest(Written(), Shown(), rest, transactionIt, parentIt.Ahead(), parentIt.Current(), parentKey);
      LeastIsUnique(rest, current, Smaller(transactionIt, parentIt.Current(), parentKey));
    }

    /** Places both at the first key at or after k. */
    method Seek(k: Key)
      requires Framed()
      modifies this, parts
      ensures Inv() && rest == From(transaction.View().Keys, k)
      decreases level, 4
    {
      hide Less, UpClosed, From, Least, Usage, Overlay;
      rest := From(Written() + Shown(), k);
      transactionIt := LeastOf(From(transaction.writes.Keys, k));
      SeekPlaces(Contents(transaction.parent).Keys, Written(), Shown(), k);
      parentIt.Seek(k);
      SkipDeletedAndOverwritten();
      DecideCur();
      OverlayKeys(Contents(transaction.parent), transaction.writes, transaction.deletes);
    }

    /** The empty key is the least one, so the first key of all is the first from there. */
    method SeekToFirst()
      requires Framed()
      modifies this, parts
      ensures Inv() && rest == transaction.View().Keys
    {
      Seek([]);
      assert From(transaction.View().Keys, []) == transaction.View().Keys;
    }

    method IsValid() returns (valid: bool)
      requires Inv()
      ensures valid <==> rest != {}
    {
      var key := GetKey();
      valid := key.Some?;
    }

    /** The least key still to be visited. */
    method GetKey() returns (k: Option<Key>)
      requires Inv()
      ensures k == current && Least(rest, k)
      decreases level, 3
    {
      hide Less, UpClosed, Least, Usage, Overlay;
      CurrentKey();
      var parentValid := parentIt.GetKey();
      if transactionIt.None? && parentValid.None? {
        k := None;
      } else {
        k := if curIsParent then Some(parentKey) else transactionIt;
      }
    }

    method GetValue() returns (v: Option<V>)
      requires Inv()
      ensures v.Some? <==> rest != {}
      ensures current.Some? ==> v == Get(transaction.View(), current.value)
    {
      hide Less, UpClosed, Usage, Overlay;
      var key := GetKey();
      if key.None? {
        return None;
      }
      assert key.value in transaction.View() by {
        UpClosedSubset(Written() + Shown(), rest);
        OverlayKeys(Contents(transaction.parent), transaction.writes, transaction.deletes);
      }
      v := transaction.Read(key.value);
    }

    /** Passes the current key; every other key stays ahead. */
    method Next()
      requires Inv()
      modifies this, parts
      ensures Inv() && rest == if old(current).Some? then old(rest) - {old(current).value} else old(rest)
      decreases level, 4
    {
      hide Less, Least, Usage, Overlay, UpClosed, From, After, Transaction.Valid, Contents, Visible;
      hide WritesPlaced;
      var key := GetKey();
      CurrentKey();
      if key.None? {
        return;
      }
      ghost var written, shown, ahead := Written(), Shown(), parentIt.Ahead();
      Apart();
      if curIsParent {
        ParentPasses(written, shown, rest, transactionIt, ahead, parentKey);
        rest := rest - {key.value};
        PassParent();
        SkipDeletedAndOverwritten();
      } else {
        var next := LeastOf(After(transaction.writes.Keys, transactionIt.value));
        WritePasses(written, shown, rest, ahead, parentIt.Current(), parentKey, key.value, next);
        transactionIt := next;
        rest := rest - {key.value};
      }
      assert Written() == written && Shown() == shown;
      DecideCur();
    }

    lemma Apart()
      requires transaction.Valid()
      ensures Written() !! Shown()
    {
    }
  }

  /** A new iterator of a transaction, with those of its parents. */
  method NewIterator<V>(t: Transaction<V>) returns (it: TransactionIterator<V>)
    requires t.Valid()
    ensures it.Inv() && it.transaction == t && it.rest == {}
    ensures fresh(it) && fresh(it.parts)
    decreases t.depth
  {
    hide Less, UpClosed, Least, Usage, Overlay;
    var parentIt: AnyIterator<V>;
    if t.parent.OverStore? {
      var s := new StoreIterator(t.parent.store);
      parentIt := OfStore(s);
    } else {
      var below := NewIterator(t.parent.t);
      parentIt := OfTransaction(below);
    }
    it := new TransactionIterator(t, parentIt);
  }

  /** Reads the current entry and passes it. */
  method Take<V>(it: TransactionIterator<V>) returns (k: Key, v: V, more: bool)
    requires it.Inv() && it.rest != {}
    modifies it, it.parts
    ensures it.Inv() && Least(old(it.rest), Some(k))
    ensures k in old(it.rest) && it.rest == old(it.rest) - {k}
    ensures k in it.transaction.View() && v == it.transaction.View()[k]
    ensures more <==> it.rest != {}
  {
    hide Less, UpClosed, Usage, Overlay;
    var key := it.GetKey();
    var value := it.GetValue();
    it.Next();
    more := it.IsValid();
    k, v := key.value, value.value;
  }

  lemma LeastOfPart(s: set<Key>, part: set<Key>, pos: Option<Key>)
    requires Least(s, pos) && (pos.Some? ==> pos.value in part)
    ensures Least(s * part, pos)
  {
  }

  lemma SeekPlaces(base: set<Key>, written: set<Key>, shown: set<Key>, k: Key)
    requires shown <= base
    ensures UpClosed(written + shown, From(written + shown, k))
    ensures From(written + shown, k) * written == From(written, k)
    ensures From(written + shown, k) * shown == From(base, k) * shown
  {
    FromIsUpClosed(written + shown, k);
  }

  lemma UpClosedSubset(s: set<Key>, part: set<Key>)
    requires UpClosed(s, part)
    ensures part <= s
  {
  }

  // ----- Whole walks and whole runs

  predicate Ascending(ks: seq<Key>) {
    forall i, j :: 0 <= i < j < |ks| ==> Less(ks[i], ks[j])
  }

  /** ks lists exactly the keys of m from k on, once each and in order, with their values. */
  ghost predicate Listing<V>(m: map<Key, V>, k: Key, ks: seq<Key>, vs: seq<V>) {
    && (forall i, j :: 0 <= i < j < |ks| ==> Precedes(ks[i], ks[j]))
    && (forall x :: x in ks <==> x in m && (x == k || Precedes(k, x)))
    && |vs| == |ks|
    && forall i :: 0 <= i < |ks| ==> ks[i] in m && vs[i] == m[ks[i]]
  }

  /** What a walk has listed, with the keys of rest still to come. */
  ghost predicate Walked<V>(m: map<Key, V>, k: Key, ks: seq<Key>, vs: seq<V>, rest: set<Key>) {
    && Ascending(ks)
    && (forall x :: x in rest || x in ks <==> x in m && AtMost(k, x))
    && (forall x, y :: x in ks && y in rest ==> Less(x, y))
    && |vs| == |ks|
    && forall i :: 0 <= i < |ks| ==> ks[i] in m && vs[i] == m[ks[i]]
  }

  lemma WalkStep<V>(m: map<Key, V>, k: Key, ks: seq<Key>, vs: seq<V>, rest: set<Key>, cur: Key)
    requires Walked(m, k, ks, vs, rest) && Least(rest, Some(cur)) && cur in m
    ensures Walked(m, k, ks + [cur], vs + [m[cur]], rest - {cur})
  {
    hide Less;
    var ks', rest' := ks + [cur], rest - {cur};
    forall x ensures x in rest' || x in ks' <==> x in rest || x in ks {
    }
    forall x, y | x in ks' && y in rest' ensures Less(x, y) {
    }
  }

  /** Walks a transaction from key k to the end. */
  method Walk<V>(t: Transaction<V>, k: Key) returns (ks: seq<Key>, vs: seq<V>)
    requires t.Valid()
    ensures Listing(t.View(), k, ks, vs)
  {
    hide *;
    var it := NewIterator(t);
    it.Ready();
    it.Seek(k);
    ks, vs := [], [];
    ghost var m := t.View();
    var more := it.IsValid();
    WalkStarts(m, k);
    while more
      invariant it.Inv() && it.transaction == t && t.Valid() && t.View() == m && fresh(it) && fresh(it.parts)
      invariant more <==> it.rest != {}
      invariant Walked(m, k, ks, vs, it.rest)
      decreases |it.rest|
    {
      ghost var rest := it.rest;
      var key, value;
      key, value, more := Take(it);
      WalkStep(m, k, ks, vs, rest, key);
      ks, vs := ks + [key], vs + [value];
    }
    WalkEnds(m, k, ks, vs);
  }

  lemma WalkStarts<V>(m: map<Key, V>, k: Key)
    ensures Walked(m, k, [], [], From(m.Keys, k))
  {
  }

  lemma WalkEnds<V>(m: map<Key, V>, k: Key, ks: seq<Key>, vs: seq<V>)
    requires Walked(m, k, ks, vs, {})
    ensures Listing(m, k, ks, vs)
  {
    hide Less, Precedes;
    forall a: Key, b: Key ensures Less(a, b) <==> Precedes(a, b) {
      LessIff(a, b);
    }
  }

  datatype Op<V> = Write(k: Key, v: V) | Erase(k: Key) | Read(k: Key) | Exists(k: Key) | Scan(k: Key) | Commit | Clear

  datatype Answer<V> = Done | Value(v: Option<V>) | Found(b: bool) | Listed(ks: seq<Key>, vs: seq<V>)

  /** The plain model of a transaction: what is stored and what is seen. */
  datatype Plain<V> = Plain(stored: map<Key, V>, view: map<Key, V>)

  function PlainStep<V>(s: Plain<V>, op: Op<V>): Plain<V> {
    match op
    case Write(k, v) => s.(view := s.view[k := v])
    case Erase(k) => s.(view := s.view - {k})
    case Commit => s.(stored := s.view)
    case Clear => s.(view := s.stored)
    case _ => s
  }

  function PlainRun<V>(s: Plain<V>, ops: seq<Op<V>>): Plain<V> {
    if ops == [] then s else PlainStep(PlainRun(s, ops[..|ops| - 1]), ops[|ops| - 1])
  }

  ghost predicate Right<V>(s: Plain<V>, op: Op<V>, a: Answer<V>) {
    match op
    case Read(k) => a == Value(Get(s.view, k))
    case Exists(k) => a == Found(k in s.view)
    case Scan(k) => a.Listed? && Listing(s.view, k, a.ks, a.vs)
    case _ => a == Done
  }

  method Step<V>(store: Store<V>, t: Transaction<V>, op: Op<V>) returns (a: Answer<V>)
    requires t.Valid() && t.parent == OverStore(store) && t.commitTarget == IntoStore(store)
    modifies t, store
    ensures t.Valid() && Plain(store.contents, t.View()) == PlainStep(old(Plain(store.contents, t.View())), op)
    ensures Right(old(Plain(store.contents, t.View())), op, a)
  {
    hide Usage, Overlay, Listing;
    a := Done;
    match op {
      case Write(k, v) => t.Write(k, v);
      case Erase(k) => t.Erase(k);
      case Read(k) => var v := t.Read(k); a := Value(v);
      case Exists(k) => var b := t.Exists(k); a := Found(b);
      case Scan(k) => var ks, vs := Walk(t, k); a := Listed(ks, vs);
      case Commit => t.Commit();
      case Clear => t.Clear();
    }
  }

  method Start<V>(base: map<Key, V>, serializeSize: V -> nat) returns (store: Store<V>, t: Transaction<V>)
    ensures fresh(store) && fresh(t) && t.Valid()
    ensures t.parent == OverStore(store) && t.commitTarget == IntoStore(store)
    ensures Plain(store.contents, t.View()) == Plain(base, base)
  {
    store := new Store(base);
    t := new Transaction(OverStore(store), IntoStore(store), serializeSize);
  }

  lemma PlainNext<V>(s: Plain<V>, ops: seq<Op<V>>, i: nat)
    requires i < |ops|
    ensures PlainRun(s, ops[..i + 1]) == PlainStep(PlainRun(s, ops[..i]), ops[i])
  {
    assert ops[..i + 1][..i] == ops[..i];
  }

  /** The first answers are the plain model's. */
  ghost predicate RightAnswers<V>(start: Plain<V>, ops: seq<Op<V>>, answers: seq<Answer<V>>) {
    && |answers| <= |ops|
    && forall i :: 0 <= i < |answers| ==> Right(PlainRun(start, ops[..i]), ops[i], answers[i])
  }

  lemma OneMoreAnswer<V>(start: Plain<V>, ops: seq<Op<V>>, answers: seq<Answer<V>>, a: Answer<V>)
    requires RightAnswers(start, ops, answers) && |answers| < |ops|
    requires Right(PlainRun(start, ops[..|answers|]), ops[|answers|], a)
    ensures RightAnswers(start, ops, answers + [a])
  {
    hide Right, PlainRun;
  }

  /** Any run of a transaction over a store: every answer is the plain model's, and so is what is stored. */
  method Run<V>(base: map<Key, V>, serializeSize: V -> nat, ops: seq<Op<V>>)
    returns (answers: seq<Answer<V>>, stored: map<Key, V>)
    ensures |answers| == |ops| && RightAnswers(Plain(base, base), ops, answers)
    ensures stored == PlainRun(Plain(base, base), ops).stored
  {
    ghost var start := Plain(base, base);
    answers := [];
    assert PlainRun(start, ops[..0]) == start && RightAnswers(start, ops, answers);
    hide *;
    var store, t := Start(base, serializeSize);
    var i := 0;
    while i < |ops|
      invariant 0 <= i <= |ops| && |answers| == i && fresh(store) && fresh(t) && t.Valid()
      invariant t.parent == OverStore(store) && t.commitTarget == IntoStore(store)
      invariant Plain(store.contents, t.View()) == PlainRun(start, ops[..i])
      invariant RightAnswers(start, ops, answers)
    {
      var a := Step(store, t, ops[i]);
      PlainNext(start, ops, i);
      OneMoreAnswer(start, ops, answers, a);
      answers := answers + [a];
      i := i + 1;
    }
    assert ops[..i] == ops;
    stored := store.contents;
  }
}
