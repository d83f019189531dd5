/**
 The database of the evolution data (CEvoDB in src/evo/evodb.h): a transaction over a
 transaction over a store.  Blocks are applied in the upper transaction, which is committed or
 rolled back as a whole; the lower one gathers what goes to disk as one batch.
 */
module EvoDb {
  import opened DbTransaction
  import opened Wrappers

  /** The plain model: what is on disk, what each transaction reads, and whether the upper one has changes. */
  datatype Layers<V> = Layers(stored: map<Key, V>, root: map<Key, V>, cur: map<Key, V>, pending: bool)

  class Database<V> {
    const db: Store<V>
    const rootBatch: Batch<V>
    const rootDBTransaction: Transaction<V>
    const curDBTransaction: Transaction<V>

    ghost function Repr(): set<object> {
      {db, rootBatch, rootDBTransaction, curDBTransaction}
    }

    ghost predicate Valid()
      reads Repr()
    {
      && rootDBTransaction.parent == OverStore(db) && rootDBTransaction.commitTarget == IntoBatch(rootBatch)
      && curDBTransaction.parent == OverTransaction(rootDBTransaction)
      && curDBTransaction.commitTarget == IntoTransaction(rootDBTransaction)
      && curDBTransaction.below == {db, rootDBTransaction} && rootDBTransaction.below == {db}
      && rootDBTransaction.Valid() && curDBTransaction.Valid()
      && rootBatch.changes == []
    }

    ghost function State(): Layers<V>
      requires Valid()
      reads Repr()
    {
      Layers(db.contents, rootDBTransaction.View(), curDBTransaction.View(),
             curDBTransaction.writes != map[] || curDBTransaction.deletes != {})
    }

    constructor (contents: map<Key, V>, serializeSize: V -> nat)
      ensures Valid() && fresh(Repr()) && State() == Layers(contents, contents, contents, false)
    {
      hide Usage, Overlay, Transaction.View;
      var store := new Store(contents);
      var batch := new Batch();
      var root := new Transaction(OverStore(store), IntoBatch(batch), serializeSize);
      var cur := new Transaction(OverTransaction(root), IntoTransaction(root), serializeSize);
      db, rootBatch, rootDBTransaction, curDBTransaction := store, batch, root, cur;
    }

    method Read(k: Key) returns (v: Option<V>)
      requires Valid()
      ensures v == Get(State().cur, k)
    {
      v := curDBTransaction.Read(k);
    }

    method Exists(k: Key) returns (found: bool)
      requires Valid()
      ensures found <==> k in State().cur
    {
      found := curDBTransaction.Exists(k);
    }

    method Write(k: Key, v: V)
      requires Valid()
      modifies curDBTransaction
      ensures Valid() && State() == old(State()).(cur := old(State()).cur[k := v], pending := true)
    {
      hide Usage, Overlay, Contents;
      curDBTransaction.Write(k, v);
    }

    method Erase(k: Key)
      requires Valid()
      modifies curDBTransaction
      ensures Valid() && State() == old(State()).(cur := old(State()).cur - {k}, pending := true)
    {
      hide Usage, Overlay, Contents;
      curDBTransaction.Erase(k);
    }

    /** The lower transaction comes to read what the upper one reads. */
    method CommitCurTransaction()
      requires Valid()
      modifies curDBTransaction, rootDBTransaction
      ensures Valid() && State() == old(State()).(root := old(State()).cur, pending := false)
    {
      hide Usage, Overlay;
      curDBTransaction.Commit();
    }

    /** The upper transaction comes to read what the lower one reads. */
    method RollbackCurTransaction()
      requires Valid()
      modifies curDBTransaction
      ensures Valid() && State() == old(State()).(cur := old(State()).root, pending := false)
    {
      hide Usage, Overlay;
      curDBTransaction.Clear();
    }

    /** Writes the lower transaction to disk; the assertion stops it while the upper one has changes. */
    method CommitRootTransaction() returns (done: bool)
      requires Valid()
      modifies rootDBTransaction, rootBatch, db
      ensures Valid() && done == !old(State()).pending
      ensures State() == if done then old(State()).(stored := old(State()).root) else old(State())
    {
      hide Usage, Overlay;
      var clean := curDBTransaction.IsClean();
      if !clean {
        return false;
      }
      ghost var s := State();
      rootDBTransaction.Commit();
      assert Applied(db.contents, rootBatch.changes) == s.root;
      db.WriteBatch(rootBatch);
      rootBatch.Clear();
      assert rootDBTransaction.Valid() && curDBTransaction.Valid();
      NothingPending(db.contents);
      assert rootDBTransaction.View() == s.root && curDBTransaction.View() == s.cur;
      done := true;
    }

    method GetMemoryUsage() returns (usage: int)
      requires Valid()
      ensures usage == Usage(rootDBTransaction.writes, rootDBTransaction.deletes)
    {
      usage := rootDBTransaction.GetMemoryUsage();
    }
  }

  /** Rolls back when it goes out of scope, unless it was committed or rolled back before. */
  class ScopedCommitter<V> {
    const evoDB: Database<V>
    var didCommitOrRollback: bool

    constructor (evoDB: Database<V>)
      ensures this.evoDB == evoDB && !didCommitOrRollback
    {
      this.evoDB := evoDB;
      didCommitOrRollback := false;
    }

    method Commit()
      requires evoDB.Valid() && this !in evoDB.Repr() && !didCommitOrRollback
      modifies this, evoDB.Repr()
      ensures evoDB.Valid() && didCommitOrRollback
      ensures evoDB.State() == old(evoDB.State()).(root := old(evoDB.State()).cur, pending := false)
    {
      didCommitOrRollback := true;
      evoDB.CommitCurTransaction();
    }

    method Rollback()
      requires evoDB.Valid() && this !in evoDB.Repr() && !didCommitOrRollback
      modifies this, evoDB.Repr()
      ensures evoDB.Valid() && didCommitOrRollback
      ensures evoDB.State() == old(evoDB.State()).(cur := old(evoDB.State()).root, pending := false)
    {
      didCommitOrRollback := true;
      evoDB.RollbackCurTransaction();
    }

    method Destroy()
      requires evoDB.Valid() && this !in evoDB.Repr()
      modifies this, evoDB.Repr()
      ensures evoDB.Valid()
      ensures evoDB.State() == if old(didCommitOrRollback) then old(evoDB.State())
                               else old(evoDB.State()).(cur := old(evoDB.State()).root, pending := false)
    {
      if !didCommitOrRollback {
        Rollback();
      }
    }
  }

  /** Makes changes in the upper transaction. */
  method MakeChanges<V>(evoDB: Database<V>, changes: seq<Change<V>>)
    requires evoDB.Valid()
    modifies evoDB.curDBTransaction
    ensures evoDB.Valid()
    ensures evoDB.State() == old(evoDB.State()).(cur := Applied(old(evoDB.State().cur), changes),
                                                 pending := old(evoDB.State().pending) || changes != [])
  {
    hide *;
    ghost var s := evoDB.State();
    AppliedNone(s.cur, changes);
    for i := 0 to |changes|
      invariant evoDB.Valid()
      invariant evoDB.State() == s.(cur := Applied(s.cur, changes[..i]), pending := s.pending || i > 0)
    {
      assert changes[..i + 1] == changes[..i] + [changes[i]];
      AppliedNext(s.cur, changes[..i], changes[i]);
      MakeChange(evoDB, changes[i]);
    }
    assert changes[..|changes|] == changes;
  }

  lemma AppliedNone<V>(m: map<Key, V>, changes: seq<Change<V>>)
    ensures Applied(m, changes[..0]) == m
  {
  }

  method MakeChange<V>(evoDB: Database<V>, c: Change<V>)
    requires evoDB.Valid()
    modifies evoDB.curDBTransaction
    ensures evoDB.Valid()
    ensures evoDB.State() == old(evoDB.State()).(cur := AppliedOne(old(evoDB.State().cur), c), pending := true)
  {
    match c {
      case Put(k, v) => evoDB.Write(k, v);
      case Delete(k) => evoDB.Erase(k);
    }
  }

  /**
   A scope on a database without other changes: all of its changes reach the lower transaction
   or none does, and nothing is pending afterwards.
   */
  method Scope<V>(evoDB: Database<V>, changes: seq<Change<V>>, commit: bool)
    requires evoDB.Valid() && !evoDB.State().pending
    modifies evoDB.Repr()
    ensures evoDB.Valid()
    ensures var s := old(evoDB.State());
      evoDB.State() == Layers(s.stored, if commit then Applied(s.root, changes) else s.root,
                              if commit then Applied(s.root, changes) else s.root, false)
  {
    ghost var s := evoDB.State();
    NothingPendingReads(evoDB);
    hide *;
    var committer := new ScopedCommitter(evoDB);
    MakeChanges(evoDB, changes);
    if commit {
      committer.Commit();
    }
    committer.Destroy();
  }

  lemma NothingPendingReads<V>(evoDB: Database<V>)
    requires evoDB.Valid() && !evoDB.State().pending
    ensures evoDB.State().cur == evoDB.State().root
  {
    hide Overlay;
    var cur := evoDB.curDBTransaction;
    NothingPending(Contents(cur.parent));
    assert cur.View() == Overlay(Contents(cur.parent), map[], {}) == evoDB.rootDBTransaction.View();
  }

  // ----- Whole runs

  datatype Op<V> = Write(k: Key, v: V) | Erase(k: Key) | Read(k: Key) | Exists(k: Key) | Scan(k: Key)
                 | CommitCur | RollbackCur | CommitRoot

  datatype Reply<V> = Ok | Aborted | Holds(v: Option<V>) | Has(b: bool) | Lists(ks: seq<Key>, vs: seq<V>)

  function LayersStep<V>(s: Layers<V>, op: Op<V>): Layers<V> {
    match op
    case Write(k, v) => s.(cur := s.cur[k := v], pending := true)
    case Erase(k) => s.(cur := s.cur - {k}, pending := true)
    case CommitCur => s.(root := s.cur, pending := false)
    case RollbackCur => s.(cur := s.root, pending := false)
    case CommitRoot => if s.pending then s else s.(stored := s.root)
    case _ => s
  }

  function LayersRun<V>(s: Layers<V>, ops: seq<Op<V>>): Layers<V> {
    if ops == [] then s else LayersStep(LayersRun(s, ops[..|ops| - 1]), ops[|ops| - 1])
  }

  ghost predicate RightReply<V>(s: Layers<V>, op: Op<V>, a: Reply<V>) {
    match op
    case Read(k) => a == Holds(Get(s.cur, k))
    case Exists(k) => a == Has(k in s.cur)
    case Scan(k) => a.Lists? && Listing(s.cur, k, a.ks, a.vs)
    case CommitRoot => a == if s.pending then Aborted else Ok
    case _ => a == Ok
  }

  lemma LayersNext<V>(s: Layers<V>, ops: seq<Op<V>>, i: nat)
    requires i < |ops|
    ensures LayersRun(s, ops[..i + 1]) == LayersStep(LayersRun(s, ops[..i]), ops[i])
  {
    assert ops[..i + 1][..i] == ops[..i];
  }

  /** What is on disk is what some committed state of the upper transaction was, or the contents at the start. */
  lemma {:induction false} StoredWasRoot<V>(s: Layers<V>, ops: seq<Op<V>>) returns (n: nat)
    requires s.stored == s.root
    ensures n <= |ops| && LayersRun(s, ops).stored == LayersRun(s, ops[..n]).root
    decreases |ops|
  {
    if ops == [] {
      n := 0;
    } else {
      var before := ops[..|ops| - 1];
      n := StoredWasRoot(s, before);
      assert before[..n] == ops[..n];
      var r := LayersRun(s, before);
      if ops[|ops| - 1].CommitRoot? && !r.pending {
        n := |ops|;
        assert ops[..n] == ops;
      }
    }
  }

  method Step<V>(evoDB: Database<V>, op: Op<V>) returns (a: Reply<V>)
    requires evoDB.Valid()
    modifies evoDB.Repr()
    ensures evoDB.Valid() && evoDB.State() == LayersStep(old(evoDB.State()), op)
    ensures RightReply(old(evoDB.State()), op, a)
  {
    hide Listing, Transaction.View;
    a := Ok;
    match op {
      case Write(k, v) => evoDB.Write(k, v);
      case Erase(k) => evoDB.Erase(k);
      case Read(k) => var v := evoDB.Read(k); a := Holds(v);
      case Exists(k) => var b := evoDB.Exists(k); a := Has(b);
      case Scan(k) => var ks, vs := Walk(evoDB.curDBTransaction, k); a := Lists(ks, vs);
      case CommitCur => evoDB.CommitCurTransaction();
      case RollbackCur => evoDB.RollbackCurTransaction();
      case CommitRoot => var done := evoDB.CommitRootTransaction(); a := if done then Ok else Aborted;
    }
  }

  /** The first replies are the plain model's. */
  ghost predicate RightReplies<V>(start: Layers<V>, ops: seq<Op<V>>, replies: seq<Reply<V>>) {
    && |replies| <= |ops|
    && forall i :: 0 <= i < |replies| ==> RightReply(LayersRun(start, ops[..i]), ops[i], replies[i])
  }

  lemma OneMoreReply<V>(start: Layers<V>, ops: seq<Op<V>>, replies: seq<Reply<V>>, a: Reply<V>)
    requires RightReplies(start, ops, replies) && |replies| < |ops|
    requires RightReply(LayersRun(start, ops[..|replies|]), ops[|replies|], a)
    ensures RightReplies(start, ops, replies + [a])
  {
    hide RightReply, LayersRun;
  }

  /** Any run: every reply is the plain model's, and so are the disk and both transactions at the end. */
  method Run<V>(contents: map<Key, V>, serializeSize: V -> nat, ops: seq<Op<V>>)
    returns (replies: seq<Reply<V>>, evoDB: Database<V>)
    ensures |replies| == |ops| && evoDB.Valid()
    ensures RightReplies(Layers(contents, contents, contents, false), ops, replies)
    ensures evoDB.State() == LayersRun(Layers(contents, contents, contents, false), ops)
  {
    ghost var start := Layers(contents, contents, contents, false);
    replies := [];
    assert LayersRun(start, ops[..0]) == start && RightReplies(start, ops, replies);
    hide *;
    evoDB := new Database(contents, serializeSize);
    var i := 0;
    while i < |ops|
      invariant 0 <= i <= |ops| && |replies| == i && fresh(evoDB.Repr()) && evoDB.Valid()
      invariant evoDB.State() == LayersRun(start, ops[..i]) && RightReplies(start, ops, replies)
    {
      var a := Step(evoDB, ops[i]);
      LayersNext(start, ops, i);
      OneMoreReply(start, ops, replies, a);
      replies := replies + [a];
      i := i + 1;
    }
    assert ops[..i] == ops;
  }
}
