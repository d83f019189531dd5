/**
 The layered UTXO cache (src/coins.h, src/coins.cpp).

 A `CoinsViewCache` holds entries flagged DIRTY and FRESH over a backing view, which is
 a database or another cache.  The specification reads any stack of caches as one plain
 map from outpoints to unspent coins.
 */
module Coins {
  import opened Wrappers

  datatype OutPoint = OutPoint(hash: nat, n: nat)
  datatype TxOut = TxOut(value: int, script: seq<bv8>)

  const OP_RETURN: bv8 := 0x6a
  const MAX_SCRIPT_SIZE := 10000

  datatype Coin = Coin(out: TxOut, coinBase: bool, height: nat, nType: nat, payload: seq<bv8>) {
    predicate IsSpent() {
      out.value == -1
    }

    predicate IsUnspendable() {
      (|out.script| > 0 && out.script[0] == OP_RETURN) || |out.script| > MAX_SCRIPT_SIZE
    }
  }

  /** An output is unspendable if its script starts with byte 0x6a or is longer than 10000 bytes. */
  lemma UnspendableIff(c: Coin)
    ensures c.IsUnspendable() <==> (|c.out.script| > 0 && c.out.script[0] == 0x6a) || |c.out.script| > 10000
    ensures c.IsSpent() <==> c.out.value == -1
  {
  }

  const COIN_EMPTY := Coin(TxOut(-1, []), false, 0, 0, [])

  datatype Entry = Entry(coin: Coin, isDirty: bool, isFresh: bool)

  type CoinsMap = map<OutPoint, Entry>

  /** What a view means: the unspent coins. */
  type View = map<OutPoint, Coin>

  function Unspent(c: Coin): Option<Coin> {
    if c.IsSpent() then None else Some(c)
  }

  ghost predicate AllUnspent(v: View) {
    forall o :: o in v ==> !v[o].IsSpent()
  }

  /** A cache read over the view behind it. */
  ghost function Overlay(cache: CoinsMap, below: View): View {
    map o | o in cache.Keys + below.Keys && (o in cache ==> !cache[o].coin.IsSpent())
      :: if o in cache then cache[o].coin else below[o]
  }

  /** What the two flags promise about the view behind the cache. */
  ghost predicate EntryOk(e: Entry, below: Option<Coin>) {
    && (!e.isDirty ==> Unspent(e.coin) == below)
    && (e.isFresh ==> below == None)
  }

  ghost predicate CacheOk(cache: CoinsMap, below: View) {
    forall o :: o in cache ==> EntryOk(cache[o], Get(below, o))
  }

  /** The parent's entry once the child's entry `e` has been written to it. */
  function MergeEntry(us: Option<Entry>, e: Entry): Option<Entry> {
    if !e.isDirty then us
    else match us
      case None => if e.isFresh && e.coin.IsSpent() then None else Some(Entry(e.coin, true, e.isFresh))
      case Some(p) => if p.isFresh && e.coin.IsSpent() then None else Some(Entry(e.coin, true, p.isFresh))
  }

  /** The condition under which BatchWrite throws for one entry. */
  predicate EntryMisapplied(us: Option<Entry>, e: Entry) {
    e.isDirty && e.isFresh && us.Some? && !us.value.coin.IsSpent()
  }

  predicate Misapplied(us: CoinsMap, child: CoinsMap) {
    exists o :: o in child && EntryMisapplied(Get(us, o), child[o])
  }

  function MergedAt(us: CoinsMap, child: CoinsMap, o: OutPoint): Option<Entry> {
    if o in child then MergeEntry(Get(us, o), child[o]) else Get(us, o)
  }

  ghost predicate IsMerge(us: CoinsMap, child: CoinsMap, merged: CoinsMap) {
    forall o :: Get(merged, o) == MergedAt(us, child, o)
  }

  /** A child whose flags are right never trips the FRESH check of BatchWrite. */
  lemma NeverMisapplied(grand: View, us: CoinsMap, child: CoinsMap)
    requires CacheOk(child, Overlay(us, grand))
    ensures !Misapplied(us, child)
  {
    forall o | o in child ensures !EntryMisapplied(Get(us, o), child[o]) {
      assert EntryOk(child[o], Get(Overlay(us, grand), o));
    }
  }

  /**
   Writing a consistent child into a consistent parent leaves the parent consistent with
   the grandparent and makes the parent read as the child did.
   */
  lemma MergeCorrect(grand: View, us: CoinsMap, child: CoinsMap, merged: CoinsMap)
    requires AllUnspent(grand)
    requires CacheOk(us, grand) && CacheOk(child, Overlay(us, grand))
    requires IsMerge(us, child, merged)
    ensures CacheOk(merged, grand)
    ensures Overlay(merged, grand) == Overlay(child, Overlay(us, grand))
  {
    var parent := Overlay(us, grand);
    forall o
      ensures o in merged ==> EntryOk(merged[o], Get(grand, o))
      ensures Get(Overlay(merged, grand), o) == Get(Overlay(child, parent), o)
    {
      assert Get(merged, o) == MergedAt(us, child, o);
      if o in child {
        assert EntryOk(child[o], Get(parent, o));
      }
      if o in us {
        assert EntryOk(us[o], Get(grand, o));
      }
    }
    SameLookups(Overlay(merged, grand), Overlay(child, parent));
  }

  lemma SameLookups<K(!new), V>(a: map<K, V>, b: map<K, V>)
    requires forall k :: Get(a, k) == Get(b, k)
    ensures a == b
  {
    forall k ensures k in a <==> k in b {
      assert Get(a, k) == Get(b, k);
    }
    forall k | k in a ensures a[k] == b[k] {
      assert Get(a, k) == Get(b, k);
    }
  }

  lemma OverlayUnspent(cache: CoinsMap, below: View)
    requires AllUnspent(below)
    ensures AllUnspent(Overlay(cache, below))
  {
  }

  /** How a cache over `below` reads at one outpoint. */
  ghost function ReadAt(cache: CoinsMap, below: View, o: OutPoint): Option<Coin> {
    if o in cache then Unspent(cache[o].coin) else Get(below, o)
  }

  ghost function Put(v: View, o: OutPoint, c: Option<Coin>): View {
    match c
    case None => v - {o}
    case Some(coin) => v[o := coin]
  }

  /** Changing one entry keeps the invariant exactly if the new entry does, and changes the reading only there. */
  lemma Rewrite(cache: CoinsMap, cache': CoinsMap, below: View, o: OutPoint)
    requires CacheOk(cache, below)
    requires cache' - {o} == cache - {o}
    ensures CacheOk(cache', below) <==> (o in cache' ==> EntryOk(cache'[o], Get(below, o)))
    ensures Overlay(cache', below) == Put(Overlay(cache, below), o, ReadAt(cache', below, o))
    ensures ReadAt(cache', below, o) == Get(Overlay(cache, below), o) ==>
            Overlay(cache', below) == Overlay(cache, below)
  {
    var v, v' := Overlay(cache, below), Overlay(cache', below);
    var put := Put(v, o, ReadAt(cache', below, o));
    forall p
      ensures p != o && p in cache' ==> EntryOk(cache'[p], Get(below, p))
      ensures Get(v', p) == Get(put, p)
      ensures p != o ==> Get(v', p) == Get(v, p)
    {
      if p != o {
        assert p in cache' <==> p in cache' - {o};
        assert p in cache <==> p in cache - {o};
        assert p in cache ==> cache'[p] == (cache' - {o})[p] == (cache - {o})[p];
        assert p in cache ==> EntryOk(cache[p], Get(below, p));
      }
    }
    SameLookups(v', put);
    if ReadAt(cache', below, o) == Get(v, o) {
      SameLookups(v', v);
    }
  }

  /** The entry AddCoin leaves behind when it does not throw. */
  function AddedEntry(us: Option<Entry>, coin: Coin, overwrite: bool): Entry {
    var dirty := us.Some? && us.value.isDirty;
    var wasFresh := us.Some? && us.value.isFresh;
    Entry(coin, true, wasFresh || (!overwrite && !dirty))
  }

  predicate AddThrows(us: Option<Entry>, overwrite: bool) {
    !overwrite && us.Some? && !us.value.coin.IsSpent()
  }

  /**
   Exactly when AddCoin keeps the flag invariant: a caller that passes
   possible_overwrite = false over an unspent coin that is not in the cache misapplies FRESH.
   */
  lemma AddCoinKeepsFlagsIff(us: Option<Entry>, below: Option<Coin>, coin: Coin, overwrite: bool)
    requires us.Some? ==> EntryOk(us.value, below)
    requires !AddThrows(us, overwrite)
    ensures EntryOk(AddedEntry(us, coin, overwrite), below)
            <==> overwrite || us.Some? || below == None
  {
  }

  /** A database view; like any base view it may hold spent entries. */
  class Database {
    var coins: map<OutPoint, Coin>

    constructor (coins: map<OutPoint, Coin>)
      ensures this.coins == coins
    {
      this.coins := coins;
    }

    ghost function View(): (v: View)
      reads this
      ensures AllUnspent(v)
    {
      map o | o in coins && !coins[o].IsSpent() :: coins[o]
    }

    /** May or may not report a spent entry as found. */
    method GetCoin(o: OutPoint) returns (found: bool, coin: Coin)
      ensures found ==> Unspent(coin) == Get(View(), o)
      ensures !found ==> o !in View()
    {
      coin := COIN_EMPTY;
      found := false;
      if o in coins {
        coin := coins[o];
        found := true;
        if coin.IsSpent() {
          found := *;
        }
      }
    }

    /** May keep or erase an entry that becomes spent. */
    method BatchWrite(child: CoinsMap)
      modifies this
      ensures CacheOk(child, old(View())) ==> View() == Overlay(child, old(View()))
    {
      var todo := child.Keys;
      while todo != {}
        invariant todo <= child.Keys
        invariant forall o :: o in child.Keys - todo && child[o].isDirty ==> Get(View(), o) == Unspent(child[o].coin)
        invariant forall o :: !(o in child.Keys - todo && child[o].isDirty) ==> Get(View(), o) == Get(old(View()), o)
      {
        var o :| o in todo;
        todo := todo - {o};
        if child[o].isDirty {
          var erase: bool := *;
          if child[o].coin.IsSpent() && erase {
            coins := coins - {o};
          } else {
            coins := coins[o := child[o].coin];
          }
        }
      }
      if CacheOk(child, old(View())) {
        forall o ensures Get(View(), o) == Get(Overlay(child, old(View())), o) {
          assert o in child ==> EntryOk(child[o], Get(old(View()), o));
        }
        SameLookups(View(), Overlay(child, old(View())));
      }
    }
  }

  datatype Backing = FromDatabase(db: Database) | FromCache(cache: CoinsViewCache)

  class CoinsViewCache {
    const base: Backing
    var cacheCoins: CoinsMap
    ghost const Repr: set<object>

    ghost predicate Shape()
      decreases Repr
    {
      match base
      case FromDatabase(db) => Repr == {this, db}
      case FromCache(c) => this !in c.Repr && Repr == {this} + c.Repr && c.Shape()
    }

    ghost function BaseView(): (v: View)
      requires Shape()
      reads Repr - {this}
      ensures AllUnspent(v)
      decreases Repr, 0
    {
      match base
      case FromDatabase(db) => db.View()
      case FromCache(c) => c.View()
    }

    /** The plain map this stack of caches stands for. */
    ghost function View(): (v: View)
      requires Shape()
      reads Repr
      ensures AllUnspent(v)
      decreases Repr, 1
    {
      OverlayUnspent(cacheCoins, BaseView());
      Overlay(cacheCoins, BaseView())
    }

    ghost predicate Valid()
      reads Repr
      decreases Repr
    {
      && Shape()
      && CacheOk(cacheCoins, BaseView())
      && (base.FromCache? ==> base.cache.Valid())
    }

    constructor OnDatabase(db: Database)
      ensures Valid() && base == FromDatabase(db) && Repr == {this, db} && fresh(this)
      ensures cacheCoins == map[] && View() == db.View()
    {
      base := FromDatabase(db);
      cacheCoins := map[];
      Repr := {this, db};
    }

    constructor OnCache(c: CoinsViewCache)
      requires c.Valid()
      ensures Valid() && base == FromCache(c) && Repr == {this} + c.Repr && fresh(this)
      ensures cacheCoins == map[] && View() == c.View()
    {
      base := FromCache(c);
      cacheCoins := map[];
      Repr := {this} + c.Repr;
      new;
      assert View() == c.View();
    }

    /** Pulls an entry into this cache, and into every cache behind it. */
    method FetchCoin(o: OutPoint) returns (found: bool)
      requires Valid()
      modifies Repr
      ensures Valid() && View() == old(View()) && BaseView() == old(BaseView())
      ensures found <==> o in cacheCoins
      ensures !found ==> o !in View()
      ensures cacheCoins - {o} == old(cacheCoins) - {o}
      ensures o in old(cacheCoins) ==> cacheCoins == old(cacheCoins)
      decreases Repr, 0
    {
      if o in cacheCoins {
        return true;
      }
      var tmp;
      match base {
        case FromDatabase(db) => found, tmp := db.GetCoin(o);
        case FromCache(c) => found, tmp := c.GetCoin(o);
      }
      assert BaseView() == old(BaseView());
      if !found {
        return;
      }
      ghost var was := cacheCoins;
      cacheCoins := cacheCoins[o := Entry(tmp, false, tmp.IsSpent())];
      Rewrite(was, cacheCoins, BaseView(), o);
    }

    method GetCoin(o: OutPoint) returns (found: bool, coin: Coin)
      requires Valid()
      modifies Repr
      ensures Valid() && View() == old(View()) && BaseView() == old(BaseView())
      ensures found <==> o in View()
      ensures found ==> coin == View()[o]
      decreases Repr, 1
    {
      found := FetchCoin(o);
      coin := COIN_EMPTY;
      if found {
        coin := cacheCoins[o].coin;
        found := !coin.IsSpent();
      }
    }

    method HaveCoin(o: OutPoint) returns (have: bool)
      requires Valid()
      modifies Repr
      ensures Valid() && View() == old(View()) && BaseView() == old(BaseView())
      ensures have <==> o in View()
    {
      have := FetchCoin(o);
      have := have && !cacheCoins[o].coin.IsSpent();
    }

    method AccessCoin(o: OutPoint) returns (coin: Coin)
      requires Valid()
      modifies Repr
      ensures Valid() && View() == old(View()) && BaseView() == old(BaseView())
      ensures Unspent(coin) == Get(View(), o)
    {
      var found := FetchCoin(o);
      coin := if found then cacheCoins[o].coin else COIN_EMPTY;
    }

    /**
     The caller must set `overwrite` when an unspent coin may exist that this cache has not
     loaded: otherwise the view still gains the coin, but its FRESH flag is wrong.
     */
    method AddCoin(o: OutPoint, coin: Coin, overwrite: bool) returns (threw: bool)
      requires Valid() && !coin.IsSpent()
      modifies this
      ensures Shape() && BaseView() == old(BaseView())
      ensures Valid() <==>
              coin.IsUnspendable() || overwrite || o in old(cacheCoins) || o !in old(View())
      ensures threw <==> !coin.IsUnspendable() && !overwrite && o in old(cacheCoins) && o in old(View())
      ensures View() == if coin.IsUnspendable() || threw then old(View()) else old(View())[o := coin]
    {
      if coin.IsUnspendable() {
        return false;
      }
      var us := Get(cacheCoins, o);
      if AddThrows(us, overwrite) {
        return true;
      }
      AddCoinKeepsFlagsIff(us, Get(BaseView(), o), coin, overwrite);
      cacheCoins := cacheCoins[o := AddedEntry(us, coin, overwrite)];
      Rewrite(old(cacheCoins), cacheCoins, BaseView(), o);
      return false;
    }

    /** `spent` is true when an entry was found, even one already spent; `moved` is its old coin. */
    method SpendCoin(o: OutPoint) returns (spent: bool, moved: Coin)
      requires Valid()
      modifies Repr
      ensures Valid() && BaseView() == old(BaseView())
      ensures View() == old(View()) - {o}
      ensures o in old(View()) ==> spent && moved == old(View())[o]
      ensures o !in old(View()) ==> moved.IsSpent()
    {
      spent := FetchCoin(o);
      moved := COIN_EMPTY;
      if !spent {
        assert View() == View() - {o};
        return;
      }
      moved := cacheCoins[o].coin;
      ghost var was := cacheCoins;
      if cacheCoins[o].isFresh {
        cacheCoins := cacheCoins - {o};
      } else {
        cacheCoins := cacheCoins[o := Entry(COIN_EMPTY, true, false)];
      }
      Rewrite(was, cacheCoins, BaseView(), o);
    }

    /** Merges a child's entries; each entry is visited once, in no particular order. */
    method BatchWrite(child: CoinsMap) returns (threw: bool)
      modifies this
      ensures threw <==> Misapplied(old(cacheCoins), child)
      ensures !threw ==> IsMerge(old(cacheCoins), child, cacheCoins)
    {
      var todo := child.Keys;
      while todo != {}
        invariant todo <= child.Keys
        invariant forall o :: o in todo ==> Get(cacheCoins, o) == Get(old(cacheCoins), o)
        invariant forall o :: o !in todo ==> Get(cacheCoins, o) == MergedAt(old(cacheCoins), child, o)
        invariant forall o :: o in child.Keys - todo ==> !EntryMisapplied(Get(old(cacheCoins), o), child[o])
      {
        var o :| o in todo;
        todo := todo - {o};
        assert Get(cacheCoins, o) == Get(old(cacheCoins), o);
        var e := child[o];
        if !e.isDirty {
          continue;
        }
        if o !in cacheCoins {
          if !(e.isFresh && e.coin.IsSpent()) {
            cacheCoins := cacheCoins[o := Entry(e.coin, true, e.isFresh)];
          }
        } else {
          if e.isFresh && !cacheCoins[o].coin.IsSpent() {
            return true;
          }
          if cacheCoins[o].isFresh && e.coin.IsSpent() {
            cacheCoins := cacheCoins - {o};
          } else {
            cacheCoins := cacheCoins[o := Entry(e.coin, true, cacheCoins[o].isFresh)];
          }
        }
      }
      return false;
    }

    /** Never throws, and hands this cache's reading of the world to the view behind it. */
    method Flush() returns (threw: bool)
      requires Valid()
      modifies Repr
      ensures Valid() && !threw
      ensures View() == old(View()) && BaseView() == old(View()) && cacheCoins == map[]
    {
      threw := false;
      if base.FromDatabase? {
        base.db.BatchWrite(cacheCoins);
      } else {
        threw := base.cache.BatchWriteFrom(cacheCoins);
      }
      cacheCoins := map[];
      assert View() == BaseView();
    }

    /** BatchWrite as a flush of a consistent child calls it. */
    method BatchWriteFrom(child: CoinsMap) returns (threw: bool)
      requires Valid() && CacheOk(child, View())
      modifies this
      ensures Valid() && !threw
      ensures View() == Overlay(child, old(View()))
    {
      NeverMisapplied(BaseView(), cacheCoins, child);
      threw := BatchWrite(child);
      MergeCorrect(BaseView(), old(cacheCoins), child, cacheCoins);
    }

    method Uncache(o: OutPoint)
      requires Valid()
      modifies this
      ensures Valid() && View() == old(View()) && BaseView() == old(BaseView())
      ensures cacheCoins == if old(o in cacheCoins && !cacheCoins[o].isDirty && !cacheCoins[o].isFresh)
                            then old(cacheCoins) - {o} else old(cacheCoins)
    {
      if o in cacheCoins && !cacheCoins[o].isDirty && !cacheCoins[o].isFresh {
        cacheCoins := cacheCoins - {o};
        Rewrite(old(cacheCoins), cacheCoins, BaseView(), o);
      }
    }

    /** Flush of the cache `depth` levels behind this one. */
    method FlushAt(depth: nat)
      requires Valid()
      modifies Repr
      ensures Valid() && View() == old(View())
      decreases Repr
    {
      if depth == 0 {
        var _ := Flush();
      } else if base.FromCache? {
        base.cache.FlushAt(depth - 1);
      }
    }

    method UncacheAt(depth: nat, o: OutPoint)
      requires Valid()
      modifies Repr
      ensures Valid() && View() == old(View())
      decreases Repr
    {
      if depth == 0 {
        Uncache(o);
      } else if base.FromCache? {
        base.cache.UncacheAt(depth - 1, o);
      }
    }
  }

  /** One step of a client of the top of a stack of caches. */
  datatype Op =
    | Add(o: OutPoint, coin: Coin, overwrite: bool)
    | Spend(o: OutPoint)
    | Read(o: OutPoint)
    | Have(o: OutPoint)
    | Access(o: OutPoint)
    | UncacheAt(depth: nat, o: OutPoint)
    | FlushAt(depth: nat)
    | Push
    | FlushAndPop

  ghost predicate Legal(v: View, op: Op) {
    op.Add? ==> !op.coin.IsSpent() && (op.coin.IsUnspendable() || op.overwrite || op.o !in v)
  }

  /** The same step on a plain map. */
  ghost function Plain(v: View, op: Op): View {
    match op
    case Add(o, c, _) => if c.IsUnspendable() then v else v[o := c]
    case Spend(o) => v - {o}
    case _ => v
  }

  ghost function Answer(v: View, op: Op): Option<Coin> {
    match op
    case Read(o) => Get(v, o)
    case Have(o) => if o in v then Some(COIN_EMPTY) else None
    case Access(o) => Get(v, o)
    case _ => None
  }

  ghost function PlainRun(v: View, ops: seq<Op>): View {
    if ops == [] then v else Plain(PlainRun(v, ops[..|ops| - 1]), ops[|ops| - 1])
  }

  ghost predicate LegalRun(v: View, ops: seq<Op>) {
    forall i :: 0 <= i < |ops| ==> Legal(PlainRun(v, ops[..i]), ops[i])
  }

  /** Every run over every stack reads like the same run over one plain map. */
  method Run(tip: CoinsViewCache, ops: seq<Op>) returns (top: CoinsViewCache, answers: seq<Option<Coin>>)
    requires tip.Valid()
    requires LegalRun(tip.View(), ops)
    modifies tip.Repr
    ensures top.Valid() && fresh(top.Repr - tip.Repr)
    ensures top.View() == PlainRun(old(tip.View()), ops)
    ensures |answers| == |ops|
    ensures forall i :: 0 <= i < |ops| ==> answers[i] == Answer(PlainRun(old(tip.View()), ops[..i]), ops[i])
  {
    hide Plain, Answer, Legal, CacheOk, CoinsViewCache.View, CoinsViewCache.Shape;
    top, answers := tip, [];
    ghost var v0 := tip.View();
    for i := 0 to |ops|
      invariant top.Valid() && fresh(top.Repr - tip.Repr)
      invariant top.View() == PlainRun(v0, ops[..i])
      invariant |answers| == i
      invariant forall j :: 0 <= j < i ==> answers[j] == Answer(PlainRun(v0, ops[..j]), ops[j])
    {
      assert ops[..i + 1][..i] == ops[..i];
      var answer;
      top, answer := Step(top, ops[i]);
      answers := answers + [answer];
    }
    assert ops[..|ops|] == ops;
  }

  method Step(tip: CoinsViewCache, op: Op) returns (top: CoinsViewCache, answer: Option<Coin>)
    requires tip.Valid() && Legal(tip.View(), op)
    modifies tip.Repr
    ensures top.Valid() && fresh(top.Repr - tip.Repr)
    ensures top.View() == Plain(old(tip.View()), op)
    ensures answer == Answer(old(tip.View()), op)
  {
    top, answer := tip, None;
    if op.Push? {
      top := new CoinsViewCache.OnCache(tip);
      return;
    }
    match op {
      case Add(o, coin, overwrite) =>
        var _ := tip.AddCoin(o, coin, overwrite);
      case Spend(o) =>
        var _, _ := tip.SpendCoin(o);
      case Read(o) =>
        var found, coin := tip.GetCoin(o);
        answer := if found then Some(coin) else None;
      case Have(o) =>
        var have := tip.HaveCoin(o);
        answer := if have then Some(COIN_EMPTY) else None;
      case Access(o) =>
        var coin := tip.AccessCoin(o);
        answer := Unspent(coin);
      case UncacheAt(depth, o) =>
        tip.UncacheAt(depth, o);
      case FlushAt(depth) =>
        tip.FlushAt(depth);
      case Push =>
      case FlushAndPop =>
        var _ := tip.Flush();
        if tip.base.FromCache? {
          top := tip.base.cache;
        }
    }
  }
}
