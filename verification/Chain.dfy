/**
 The block tree with its skip links, the active chain, and fork finding
 (CBlockIndex, CChain and LastCommonAncestor in src/chain.h, src/chain.cpp).
 */
module Chain {
  import opened Numbers
  import opened SkipList
  import opened Wrappers

  // ----- Block index entries

  class BlockIndex {
    const pprev: BlockIndex?
    const nHeight: nat
    var pskip: BlockIndex?

    // All predecessors, the genesis block first.
    ghost const ancestors: seq<BlockIndex>

    /** The blocks from the genesis block up to this one. */
    ghost function Path(): (p: seq<BlockIndex>)
      ensures |p| == |ancestors| + 1 && p[|ancestors|] == this
    {
      ancestors + [this]
    }

    ghost predicate Linked() {
      && nHeight == |ancestors|
      && (pprev == null ==> ancestors == [])
      && (pprev != null ==> ancestors == pprev.Path())
    }

    /** The links from here to the genesis block are those of a tree. */
    ghost predicate Rooted() {
      forall i :: 0 <= i <= |ancestors| ==> Path()[i].Linked() && Path()[i].ancestors == ancestors[..i]
    }

    /** A skip link, once there, leads to the ancestor at its height. */
    ghost predicate SkipOk()
      reads this
    {
      pskip != null ==> |ancestors| > 0 && pskip == ancestors[GetSkipHeight(|ancestors|)]
    }

    ghost predicate Sound()
      reads this, ancestors
    {
      Rooted() && forall x :: x in Path() ==> x.SkipOk()
    }

    /** Every block from here to the genesis block has its skip link. */
    ghost predicate Skips()
      reads this, ancestors
    {
      forall x :: x in Path() && x.pprev != null ==> x.pskip != null
    }

    constructor (prev: BlockIndex?)
      requires prev != null ==> prev.Rooted()
      ensures pprev == prev && pskip == null && Rooted()
    {
      pprev := prev;
      nHeight := if prev == null then 0 else prev.nHeight + 1;
      pskip := null;
      ancestors := if prev == null then [] else prev.Path();
      new;
      if prev != null {
        assert prev.Path()[|prev.ancestors|].Linked();
        forall i | 0 <= i <= |ancestors|
          ensures Path()[i].Linked() && Path()[i].ancestors == ancestors[..i]
        {
          if i < |ancestors| {
            assert Path()[i] == prev.Path()[i];
          }
        }
      }
    }

    /**
     The ancestor at a height. With all skip links there, going back fewer than 2^n blocks takes
     no more than n^2 / 4 + 4 n + 4 turns of the loop.
     */
    method GetAncestor(height: int) returns (r: BlockIndex?, ghost turns: nat)
      requires Sound()
      ensures r == if 0 <= height <= nHeight then Path()[height] else null
      ensures Skips() && 0 <= height <= nHeight ==> turns == Turns(nHeight, height)
      ensures forall n: nat :: Skips() && 0 <= height <= nHeight && nHeight - height < Pow2(n) ==>
                4 * turns <= n * n + 16 * n + 16
    {
      hide GetSkipHeight, Turns, Pow2;
      assert Path()[|ancestors|].Linked();
      turns := 0;
      if height > nHeight || height < 0 {
        return null, turns;
      }
      var pindexWalk := this;
      var heightWalk := nHeight;
      while heightWalk > height
        invariant height <= heightWalk <= nHeight && pindexWalk == Path()[heightWalk]
        invariant Skips() ==> turns + Turns(heightWalk, height) == Turns(nHeight, height)
      {
        NextTurn(heightWalk, height);
        assert pindexWalk.Linked() && pindexWalk.ancestors == ancestors[..heightWalk];
        assert pindexWalk.SkipOk();
        var heightSkip := GetSkipHeight(heightWalk);
        var heightSkipPrev := GetSkipHeight(heightWalk - 1);
        turns := turns + 1;
        if pindexWalk.pskip != null
           && (heightSkip == height
               || (heightSkip > height && !(heightSkipPrev < heightSkip - 2 && heightSkipPrev >= height)))
        {
          pindexWalk := pindexWalk.pskip;
          heightWalk := heightSkip;
        } else {
          assert pindexWalk.pprev == ancestors[heightWalk - 1];
          pindexWalk := pindexWalk.pprev;
          heightWalk := heightWalk - 1;
        }
      }
      r := pindexWalk;
      AllTurnsBounded(nHeight, height);
      NoTurns(height);
    }

    /** Sets the skip link of a block whose predecessors have theirs. */
    method BuildSkip()
      requires Rooted() && (pprev != null ==> pprev.Sound()) && (pprev == null ==> pskip == null)
      modifies `pskip
      ensures Sound()
      ensures pprev != null ==>
                nHeight == |ancestors| && nHeight > 0 && pskip == ancestors[GetSkipHeight(nHeight)]
      ensures pprev == null || old(pprev.Skips()) ==> Skips()
    {
      assert Path()[|ancestors|].Linked();
      if pprev != null {
        assert this !in ancestors by {
          NotOwnAncestor(this);
        }
        assert forall x :: x in ancestors ==> x.SkipOk();
        var skip, _ := pprev.GetAncestor(GetSkipHeight(nHeight));
        pskip := skip;
      }
    }
  }

  lemma NotOwnAncestor(b: BlockIndex)
    requires b.Rooted()
    ensures b !in b.ancestors
  {
    forall i | 0 <= i < |b.ancestors| ensures b.ancestors[i] != b {
      assert b.Path()[i].ancestors == b.ancestors[..i];
    }
  }

  /** Every block on a path has the path up to it for its own. */
  lemma PathOfAncestor(b: BlockIndex, i: nat)
    requires b.Rooted() && i <= |b.ancestors|
    ensures b.Path()[i].Rooted() && b.Path()[i].Path() == b.Path()[..i + 1] && b.Path()[i].nHeight == i
  {
    var a := b.Path()[i];
    assert a.ancestors == b.ancestors[..i];
    forall j | 0 <= j <= |a.ancestors|
      ensures a.Path()[j].Linked() && a.Path()[j].ancestors == a.ancestors[..j]
    {
      assert a.Path()[j] == b.Path()[j];
    }
  }

  /** Adds a block to the tree, with its skip link. */
  method InsertBlock(prev: BlockIndex?) returns (b: BlockIndex)
    requires prev != null ==> prev.Sound()
    ensures fresh(b) && b.Sound() && b.pprev == prev
    ensures prev != null ==> b.pskip != null && b.Path() == prev.Path() + [b]
    ensures prev == null ==> b.Path() == [b]
    ensures (prev != null ==> prev.Skips()) ==> b.Skips()
  {
    b := new BlockIndex(prev);
    b.BuildSkip();
    assert b.Path()[|b.ancestors|].Linked();
  }

  /** A tree grown block by block, each on an earlier block or as a root, is sound and has all its skip links. */
  method Grow(parents: seq<Option<nat>>) returns (blocks: seq<BlockIndex>)
    requires forall i :: 0 <= i < |parents| && parents[i].Some? ==> parents[i].value < i
    ensures |blocks| == |parents| && forall i :: 0 <= i < |blocks| ==> blocks[i].Sound() && blocks[i].Skips()
    ensures forall i :: 0 <= i < |blocks| ==>
              blocks[i].pprev == if parents[i].Some? then blocks[parents[i].value] else null
  {
    hide BlockIndex.Sound, BlockIndex.Skips, BlockIndex.Path;
    blocks := [];
    while |blocks| < |parents|
      invariant |blocks| <= |parents| && forall i :: 0 <= i < |blocks| ==> blocks[i].Sound() && blocks[i].Skips()
      invariant forall i :: 0 <= i < |blocks| ==>
                  blocks[i].pprev == if parents[i].Some? then blocks[parents[i].value] else null
    {
      var parent := parents[|blocks|];
      var b := InsertBlock(if parent.Some? then blocks[parent.value] else null);
      blocks := blocks + [b];
    }
  }

  // ----- The active chain

  class CChain {
    var vChain: seq<BlockIndex?>

    /** The chain is a block's path, or empty. */
    ghost predicate Valid()
      reads this
    {
      vChain != [] ==>
        var tip := vChain[|vChain| - 1];
        tip != null && tip.Rooted() && vChain == tip.Path()
    }

    constructor ()
      ensures Valid() && vChain == []
    {
      vChain := [];
    }

    function Height(): int
      reads this
    {
      |vChain| - 1
    }

    function Tip(): BlockIndex?
      reads this
    {
      if |vChain| > 0 then vChain[|vChain| - 1] else null
    }

    function At(nHeight: int): BlockIndex?
      reads this
    {
      if nHeight < 0 || nHeight >= |vChain| then null else vChain[nHeight]
    }

    /** Looking at one height is enough to tell whether a block is in the chain. */
    predicate Contains(pindex: BlockIndex)
      reads this
    {
      At(pindex.nHeight) == pindex
    }

    lemma ContainsIff(pindex: BlockIndex)
      requires Valid() && pindex.Rooted()
      ensures Contains(pindex) <==> pindex in vChain
      ensures Contains(pindex) ==> pindex.Path() == vChain[..pindex.nHeight + 1]
    {
      assert pindex.Path()[|pindex.ancestors|].Linked();
      if vChain != [] {
        var tip := vChain[|vChain| - 1];
        forall i | 0 <= i < |vChain| ensures vChain[i].nHeight == i && vChain[i].Path() == vChain[..i + 1] {
          PathOfAncestor(tip, i);
        }
      }
    }

    /** The successor in the chain, if the block is in it and is not the tip. */
    method Next(pindex: BlockIndex) returns (r: BlockIndex?)
      requires Valid() && pindex.Rooted()
      ensures r != null <==> pindex in vChain && pindex != Tip()
      ensures r != null ==> r in vChain && r.pprev == pindex
    {
      ContainsIff(pindex);
      assert pindex.Path()[|pindex.ancestors|].Linked();
      if Contains(pindex) {
        r := At(pindex.nHeight + 1);
        if r != null {
          assert vChain[|vChain| - 1].Path()[pindex.nHeight + 1].Linked();
        }
      } else {
        r := null;
      }
    }

    /** The highest block of the chain that is also an ancestor of pindex, or null if there is none. */
    method FindFork(pindex: BlockIndex?) returns (r: BlockIndex?)
      requires Valid() && (pindex != null ==> pindex.Sound())
      ensures pindex == null ==> r == null
      ensures pindex != null && r != null ==>
                r in vChain && r in pindex.Path() && NoneAbove(pindex.Path(), vChain, r.nHeight)
      ensures pindex != null && r == null ==> NoneAbove(pindex.Path(), vChain, -1)
    {
      if pindex == null {
        return null;
      }
      hide BlockIndex.Rooted, BlockIndex.Linked, NoneAbove;
      ghost var path := pindex.Path();
      LinkAt(pindex, |pindex.ancestors|);
      var walk: BlockIndex? := pindex;
      ghost var h: int := pindex.nHeight;
      NothingHigher(path, vChain);
      if pindex.nHeight > Height() {
        var tip, _ := pindex.GetAncestor(Height());
        walk := tip;
        h := Height();
        HigherThanTip(pindex, vChain);
      }
      while walk != null && !Contains(walk)
        invariant -1 <= h < |path|
        invariant if h >= 0 then walk == path[h] else walk == null
        invariant NoneAbove(path, vChain, h)
        decreases h
      {
        LinkAt(pindex, h);
        PathOfAncestor(pindex, h);
        ContainsIff(walk);
        OneLower(pindex, vChain, h);
        walk := walk.pprev;
        h := h - 1;
      }
      if walk != null {
        LinkAt(pindex, h);
      }
      r := walk;
    }

    method SetTip(pindex: BlockIndex?)
      requires Valid() && (pindex != null ==> pindex.Rooted())
      modifies this
      ensures Valid() && Tip() == pindex
      ensures pindex == null ==> vChain == []
      ensures pindex != null ==> vChain == pindex.Path()
    {
      if pindex == null {
        vChain := [];
        return;
      }
      hide BlockIndex.Rooted, BlockIndex.Linked, PartlySet;
      ghost var before, path := vChain, pindex.Path();
      LinkAt(pindex, |pindex.ancestors|);
      var size := pindex.nHeight + 1;
      vChain := Resized(vChain, size);
      var walk: BlockIndex? := pindex;
      ghost var h := pindex.nHeight;
      NoneSet(vChain, before, path);
      while walk != null && vChain[walk.nHeight] != walk
        invariant |vChain| == size == |path| && -1 <= h < size
        invariant if h >= 0 then walk == path[h] && walk.nHeight == h else walk == null
        invariant PartlySet(vChain, before, path, h)
        decreases h
      {
        LinkAt(pindex, h);
        if h > 0 {
          LinkAt(pindex, h - 1);
        }
        SetOne(vChain, before, path, h);
        vChain := vChain[walk.nHeight := walk];
        walk := walk.pprev;
        h := h - 1;
      }
      AllSet(vChain, before, pindex, h);
    }
  }

  /** While a tip is being set: the path above height h, and the old chain, resized, below. */
  ghost predicate PartlySet(v: seq<BlockIndex?>, before: seq<BlockIndex?>, path: seq<BlockIndex>, h: int) {
    && |v| == |path| && -1 <= h < |path|
    && (forall i :: 0 <= i <= h ==> v[i] == if i < |before| then before[i] else null)
    && (forall i :: h < i < |path| ==> v[i] == path[i])
  }

  lemma NoneSet(v: seq<BlockIndex?>, before: seq<BlockIndex?>, path: seq<BlockIndex>)
    requires |path| > 0 && v == Resized(before, |path|)
    ensures PartlySet(v, before, path, |path| - 1)
  {
  }

  lemma SetOne(v: seq<BlockIndex?>, before: seq<BlockIndex?>, path: seq<BlockIndex>, h: nat)
    requires PartlySet(v, before, path, h)
    ensures h < |v| && PartlySet(v[h := path[h]], before, path, h - 1)
  {
  }

  lemma AllSet(v: seq<BlockIndex?>, before: seq<BlockIndex?>, pindex: BlockIndex, h: int)
    requires pindex.Rooted() && PartlySet(v, before, pindex.Path(), h)
    requires before != [] ==> var tip := before[|before| - 1]; tip != null && tip.Rooted() && before == tip.Path()
    requires h >= 0 ==> v[h] == pindex.Path()[h]
    ensures v == pindex.Path()
  {
    var path := pindex.Path();
    if h >= 0 {
      SharedPrefix(before[|before| - 1], pindex, h);
      assert forall i :: 0 <= i <= h ==> before[i] == before[..h + 1][i] == path[..h + 1][i];
    }
  }

  function Resized(v: seq<BlockIndex?>, size: nat): (r: seq<BlockIndex?>)
    ensures |r| == size
    ensures forall i :: 0 <= i < size ==> r[i] == if i < |v| then v[i] else null
  {
    if |v| >= size then v[..size] else v + seq(size - |v|, _ => null)
  }

  lemma LinkAt(b: BlockIndex, h: nat)
    requires b.Rooted() && h <= |b.ancestors|
    ensures b.Path()[h].nHeight == h
    ensures b.Path()[h].pprev == if h == 0 then null else b.Path()[h - 1]
    ensures b.nHeight == |b.ancestors|
  {
    assert b.Path()[h].Linked() && b.Path()[|b.ancestors|].Linked();
  }

  /** Two paths that meet at a height agree below it. */
  lemma SharedPrefix(a: BlockIndex, b: BlockIndex, h: nat)
    requires a.Rooted() && b.Rooted() && h < |a.Path()| && h < |b.Path()| && a.Path()[h] == b.Path()[h]
    ensures a.Path()[..h + 1] == b.Path()[..h + 1]
  {
    PathOfAncestor(a, h);
    PathOfAncestor(b, h);
  }

  // ----- Forks

  /** No block of the path above height h is in the chain. */
  ghost predicate NoneAbove(path: seq<BlockIndex>, chain: seq<BlockIndex?>, h: int) {
    forall i :: 0 <= i < |path| && i > h ==> path[i] !in chain
  }

  lemma NothingHigher(path: seq<BlockIndex>, chain: seq<BlockIndex?>)
    ensures NoneAbove(path, chain, |path| - 1)
  {
  }

  lemma HigherThanTip(b: BlockIndex, chain: seq<BlockIndex?>)
    requires b.Rooted()
    requires chain != [] ==> var tip := chain[|chain| - 1]; tip != null && tip.Rooted() && chain == tip.Path()
    ensures NoneAbove(b.Path(), chain, |chain| - 1)
  {
    forall i, j | |chain| - 1 < i < |b.Path()| && 0 <= j < |chain| ensures b.Path()[i] != chain[j] {
      LinkAt(b, i);
      LinkAt(chain[|chain| - 1], j);
    }
  }

  lemma OneLower(b: BlockIndex, chain: seq<BlockIndex?>, h: nat)
    requires h < |b.Path()| && NoneAbove(b.Path(), chain, h) && b.Path()[h] !in chain
    ensures NoneAbove(b.Path(), chain, h - 1)
  {
  }

  /** The length of the longest common prefix. */
  ghost function Shared(s: seq<BlockIndex>, t: seq<BlockIndex>): (n: nat)
    ensures n <= |s| && n <= |t|
  {
    if s == [] || t == [] || s[0] != t[0] then 0 else 1 + Shared(s[1..], t[1..])
  }

  lemma {:induction false} SharedAgrees(s: seq<BlockIndex>, t: seq<BlockIndex>)
    ensures forall i :: 0 <= i < Shared(s, t) ==> s[i] == t[i]
    ensures forall n :: 0 <= n <= |s| && n <= |t| && s[..n] == t[..n] ==> n <= Shared(s, t)
  {
    if s != [] && t != [] && s[0] == t[0] {
      SharedAgrees(s[1..], t[1..]);
      forall i | 0 <= i < Shared(s, t) ensures s[i] == t[i] {
        if i > 0 {
          assert s[1..][i - 1] == t[1..][i - 1];
        }
      }
    }
    forall n | 0 <= n <= |s| && n <= |t| && s[..n] == t[..n] ensures n <= Shared(s, t) {
      if n > 0 {
        assert s[0] == s[..n][0] == t[..n][0] == t[0];
        assert s[1..][..n - 1] == s[..n][1..] && t[1..][..n - 1] == t[..n][1..];
      }
    }
  }

  /** Blocks of two paths at the same height are equal exactly below the fork. */
  lemma EqualBelowFork(a: BlockIndex, b: BlockIndex, h: nat)
    requires a.Rooted() && b.Rooted() && h < |a.Path()| && h < |b.Path()|
    ensures a.Path()[h] == b.Path()[h] <==> h < Shared(a.Path(), b.Path())
  {
    var s, t := a.Path(), b.Path();
    SharedAgrees(s, t);
    if s[h] == t[h] {
      SharedPrefix(a, b, h);
    }
  }

  /** The last block two paths have in common, or null. */
  ghost function LastShared(a: BlockIndex, b: BlockIndex): BlockIndex? {
    var n := Shared(a.Path(), b.Path());
    if n == 0 then null else a.Path()[n - 1]
  }

  /** It is an ancestor of both, and no ancestor of both is higher. */
  lemma LastSharedIsHighest(a: BlockIndex, b: BlockIndex, x: BlockIndex)
    requires a.Rooted() && b.Rooted() && x in a.Path() && x in b.Path()
    ensures var r := LastShared(a, b); r != null && r in a.Path() && r in b.Path() && x.nHeight <= r.nHeight
  {
    hide BlockIndex.Rooted, BlockIndex.Linked;
    var i :| 0 <= i < |a.Path()| && a.Path()[i] == x;
    var j :| 0 <= j < |b.Path()| && b.Path()[j] == x;
    LinkAt(a, i);
    LinkAt(b, j);
    EqualBelowFork(a, b, i);
    var n := Shared(a.Path(), b.Path());
    EqualBelowFork(a, b, n - 1);
    LinkAt(a, n - 1);
  }

  const SAFETY: nat := 10_000_000

  /** How many blocks the shorter of two paths has above the fork. */
  ghost function AboveFork(a: BlockIndex, b: BlockIndex): nat {
    (if |a.Path()| < |b.Path()| then |a.Path()| else |b.Path()|) - Shared(a.Path(), b.Path())
  }
  lemma SoundIsRooted(b: BlockIndex)
    requires b.Sound()
    ensures b.Rooted()
  {
  }


  /**
   Walks both blocks back in step, at most ten million times.  The answer is the last common
   ancestor exactly when the fork is no further back than that.
   */
  method LastCommonAncestor(a: BlockIndex?, b: BlockIndex?) returns (r: BlockIndex?)
    requires (a != null ==> a.Sound()) && (b != null ==> b.Sound())
    ensures a == null || b == null ==> r == null
    ensures a != null && b != null ==> (r == LastShared(a, b) <==> AboveFork(a, b) <= SAFETY)
  {
    if a == null || b == null {
      return null;
    }
    hide BlockIndex.Sound, BlockIndex.Rooted, BlockIndex.Linked, BlockIndex.Skips, Pow2, Turns;
    SoundIsRooted(a);
    SoundIsRooted(b);
    LinkAt(a, |a.ancestors|);
    LinkAt(b, |b.ancestors|);
    var pa: BlockIndex?, pb: BlockIndex? := a, b;
    if a.nHeight > b.nHeight {
      var down, _ := a.GetAncestor(b.nHeight);
      pa := down;
    } else if b.nHeight > a.nHeight {
      var down, _ := b.GetAncestor(a.nHeight);
      pb := down;
    }
    ghost var top := if a.nHeight < b.nHeight then a.nHeight else b.nHeight;
    ghost var n := Shared(a.Path(), b.Path());
    var safety := SAFETY;
    ghost var h: int := top;
    while pa != pb && pa != null && pb != null && safety > 0
      invariant 0 <= safety <= SAFETY && h == top - (SAFETY - safety) && -1 <= h && n - 1 <= h
      invariant if h >= 0 then pa == a.Path()[h] && pb == b.Path()[h] else pa == null && pb == null
      decreases safety
    {
      EqualBelowFork(a, b, h);
      LinkAt(a, h);
      LinkAt(b, h);
      pa := pa.pprev;
      pb := pb.pprev;
      safety := safety - 1;
      h := h - 1;
    }
    if h >= 0 {
      EqualBelowFork(a, b, h);
      DistinctHeights(a, h, n);
    }
    if pa == pb && pa != null {
      return pa;
    }
    r := if pa != null then pa else pb;
  }

  lemma DistinctHeights(a: BlockIndex, h: nat, n: nat)
    requires a.Rooted() && h < |a.Path()| && n <= |a.Path()|
    ensures n > 0 && h != n - 1 ==> a.Path()[h] != a.Path()[n - 1]
  {
    LinkAt(a, h);
    if n > 0 {
      LinkAt(a, n - 1);
    }
  }

  /** However often the tip moves, the chain is the last tip's path. */
  method FollowTips(tips: seq<BlockIndex>) returns (chain: CChain)
    requires forall i :: 0 <= i < |tips| ==> tips[i].Rooted()
    ensures chain.Valid() && chain.vChain == if tips == [] then [] else tips[|tips| - 1].Path()
  {
    hide BlockIndex.Rooted, BlockIndex.Linked, CChain.Valid;
    chain := new CChain();
    var i := 0;
    while i < |tips|
      invariant 0 <= i <= |tips| && fresh(chain) && chain.Valid()
      invariant chain.vChain == if i == 0 then [] else tips[i - 1].Path()
    {
      chain.SetTip(tips[i]);
      i := i + 1;
    }
  }

  /** Adds n blocks on top of a block. */
  method Extend(from: BlockIndex, n: nat) returns (tip: BlockIndex)
    requires from.Sound()
    ensures tip.Sound() && |tip.Path()| == |from.Path()| + n && from.Path() <= tip.Path()
  {
    tip := from;
    var i := 0;
    while i < n
      invariant 0 <= i <= n && tip.Sound() && |tip.Path()| == |from.Path()| + i && from.Path() <= tip.Path()
    {
      tip := InsertBlock(tip);
      i := i + 1;
    }
  }

  /** Two branches of n blocks each on one genesis block: found right exactly up to the step limit. */
  method ForkOfDepth(n: nat) returns (right: bool)
    requires n > 0
    ensures right <==> n <= SAFETY
  {
    var genesis := InsertBlock(null);
    var a1 := InsertBlock(genesis);
    var b1 := InsertBlock(genesis);
    assert a1.Sound() && genesis.Sound();
    var a := Extend(a1, n - 1);
    assert b1.Sound();
    var b := Extend(b1, n - 1);
    assert a.Path()[..2] == a1.Path() == [genesis, a1] && b.Path()[..2] == b1.Path() == [genesis, b1];
    assert a.Path()[0] == b.Path()[0] == genesis && a.Path()[1] != b.Path()[1];
    EqualBelowFork(a, b, 0);
    EqualBelowFork(a, b, 1);
    var r := LastCommonAncestor(a, b);
    right := r == genesis;
  }
}
