/**
 Partial Merkle trees (src/merkleblock.h, src/merkleblock.cpp; BIP 37, section "Partial
 Merkle branch format").

 Hashes are values of an arbitrary type H with a pair hash h.  No pair hash on 256-bit
 values is injective, so the theorems only ask that h does not collide on the pairs that
 the two computations at hand really hash.
 */
module MerkleBlock {
  import opened Numbers
  import opened Bits

  const MAX_BLOCK_SIZE := 2000000

  function CalcTreeWidth(n: nat, height: nat): nat {
    (n + Pow2(height) - 1) / Pow2(height)
  }

  lemma WidthStep(n: nat, height: nat)
    ensures CalcTreeWidth(n, height + 1) == (CalcTreeWidth(n, height) + 1) / 2
  {
    var p := Pow2(height);
    DivBy2d(n + 2 * p - 1, p);
    DivUnique(n + 2 * p - 1, p, CalcTreeWidth(n, height) + 1);
  }

  /** The node above position pos of the level below exists, and so does its left child. */
  lemma ChildrenInTree(n: nat, height: nat, pos: nat)
    requires height > 0 && pos < CalcTreeWidth(n, height)
    ensures 2 * pos < CalcTreeWidth(n, height - 1)
  {
    WidthStep(n, height - 1);
  }

  function CalcHash<H>(h: (H, H) -> H, height: nat, pos: nat, txids: seq<H>): H
    requires pos < CalcTreeWidth(|txids|, height)
  {
    if height == 0 then txids[pos]
    else
      ChildrenInTree(|txids|, height, pos);
      var left := CalcHash(h, height - 1, 2 * pos, txids);
      var right := if 2 * pos + 1 < CalcTreeWidth(|txids|, height - 1)
                   then CalcHash(h, height - 1, 2 * pos + 1, txids)
                   else left;
      h(left, right)
  }

  // ----- Leaf ranges

  function First(height: nat, pos: nat): nat {
    pos * Pow2(height)
  }

  /** One past the last leaf below a node. */
  function End(n: nat, height: nat, pos: nat): (e: nat)
    ensures e <= n
  {
    if (pos + 1) * Pow2(height) < n then (pos + 1) * Pow2(height) else n
  }

  lemma RangeSplit(n: nat, height: nat, pos: nat)
    requires height > 0 && pos < CalcTreeWidth(n, height)
    ensures First(height, pos) == First(height - 1, 2 * pos) < n
    ensures 2 * pos + 1 < CalcTreeWidth(n, height - 1) ==>
      && First(height - 1, 2 * pos + 1) == End(n, height - 1, 2 * pos)
      && End(n, height - 1, 2 * pos + 1) == End(n, height, pos)
    ensures 2 * pos + 1 >= CalcTreeWidth(n, height - 1) ==> End(n, height - 1, 2 * pos) == End(n, height, pos)
  {
    var p := Pow2(height - 1);
    ChildrenInTree(n, height, pos);
    assert pos * (2 * p) == 2 * pos * p && (pos + 1) * (2 * p) == (2 * pos + 1 + 1) * p;
    InWidth(n, height - 1, 2 * pos);
    InWidth(n, height - 1, 2 * pos + 1);
    assert (2 * pos + 1) * p == 2 * pos * p + p;
  }

  lemma RangeOrder(n: nat, height: nat, pos: nat)
    requires height > 0 && pos < CalcTreeWidth(n, height) && 2 * pos + 1 < CalcTreeWidth(n, height - 1)
    ensures First(height, pos) <= First(height - 1, 2 * pos + 1) <= End(n, height, pos) <= n
  {
    RangeSplit(n, height, pos);
    InWidth(n, height - 1, 2 * pos + 1);
    var p := Pow2(height - 1);
    assert (2 * pos + 1) * p == 2 * pos * p + p;
    assert (2 * pos + 1 + 1) * p == (2 * pos + 1) * p + p;
  }

  lemma InWidth(n: nat, height: nat, pos: nat)
    ensures pos < CalcTreeWidth(n, height) <==> First(height, pos) < n
  {
    var p, w := Pow2(height), CalcTreeWidth(n, height);
    assert n + p - 1 == p * w + (n + p - 1) % p;
    if pos < w {
      MulMono(p, pos + 1, w);
    } else {
      MulMono(p, w, pos);
    }
  }

  predicate AnyMatch(vMatch: seq<bool>, lo: nat, hi: nat) {
    exists p :: lo <= p < hi && p < |vMatch| && vMatch[p]
  }

  /** The matched elements of s in a range, in order. */
  function Matched<T>(s: seq<T>, vMatch: seq<bool>, lo: nat, hi: nat): seq<T>
    requires |s| == |vMatch| && hi <= |s|
    decreases hi
  {
    if lo >= hi then [] else Matched(s, vMatch, lo, hi - 1) + if vMatch[hi - 1] then [s[hi - 1]] else []
  }

  lemma {:induction false} MatchedSplit<T>(s: seq<T>, vMatch: seq<bool>, lo: nat, mid: nat, hi: nat)
    requires |s| == |vMatch| && lo <= mid <= hi <= |s|
    ensures Matched(s, vMatch, lo, hi) == Matched(s, vMatch, lo, mid) + Matched(s, vMatch, mid, hi)
    decreases hi
  {
    if mid < hi {
      MatchedSplit(s, vMatch, lo, mid, hi - 1);
    }
  }

  lemma {:induction false} NoneMatched<T>(s: seq<T>, vMatch: seq<bool>, lo: nat, hi: nat)
    requires |s| == |vMatch| && hi <= |s| && !AnyMatch(vMatch, lo, hi)
    ensures Matched(s, vMatch, lo, hi) == []
    decreases hi
  {
    if lo < hi {
      NoneMatched(s, vMatch, lo, hi - 1);
    }
  }

  lemma OneMatched<T>(s: seq<T>, vMatch: seq<bool>, i: nat)
    requires |s| == |vMatch| && i < |s| && vMatch[i]
    ensures Matched(s, vMatch, i, i + 1) == [s[i]]
  {
    assert Matched(s, vMatch, i, i) == [];
  }

  // ----- Building

  datatype Partial<H> = Partial(bits: seq<bool>, hashes: seq<H>)

  function Build<H>(h: (H, H) -> H, height: nat, pos: nat, txids: seq<H>, vMatch: seq<bool>): Partial<H>
    requires |txids| == |vMatch| && pos < CalcTreeWidth(|txids|, height)
  {
    var parentOfMatch := AnyMatch(vMatch, First(height, pos), End(|txids|, height, pos));
    if height == 0 || !parentOfMatch then Partial([parentOfMatch], [CalcHash(h, height, pos, txids)])
    else
      ChildrenInTree(|txids|, height, pos);
      var left := Build(h, height - 1, 2 * pos, txids, vMatch);
      if 2 * pos + 1 < CalcTreeWidth(|txids|, height - 1) then
        var right := Build(h, height - 1, 2 * pos + 1, txids, vMatch);
        Partial([true] + left.bits + right.bits, left.hashes + right.hashes)
      else Partial([true] + left.bits, left.hashes)
  }

  /** A node with no match below it is one bit and its hash; so is a leaf. */
  lemma BuildPrunes<H>(h: (H, H) -> H, height: nat, pos: nat, txids: seq<H>, vMatch: seq<bool>)
    requires |txids| == |vMatch| && pos < CalcTreeWidth(|txids|, height)
    requires forall p :: pos * Pow2(height) <= p < (pos + 1) * Pow2(height) && p < |txids| ==> !vMatch[p]
    ensures Build(h, height, pos, txids, vMatch) == Partial([false], [CalcHash(h, height, pos, txids)])
  {
    assert !AnyMatch(vMatch, First(height, pos), End(|txids|, height, pos));
  }

  lemma BuildIs<H>(h: (H, H) -> H, height: nat, pos: nat, txids: seq<H>, vMatch: seq<bool>)
    requires |txids| == |vMatch| && pos < CalcTreeWidth(|txids|, height)
    ensures var b := Build(h, height, pos, txids, vMatch);
      var any := AnyMatch(vMatch, First(height, pos), End(|txids|, height, pos));
      if height == 0 || !any then b == Partial([any], [CalcHash(h, height, pos, txids)])
      else
        && 2 * pos < CalcTreeWidth(|txids|, height - 1)
        && var l := Build(h, height - 1, 2 * pos, txids, vMatch);
        if 2 * pos + 1 < CalcTreeWidth(|txids|, height - 1) then
          var r := Build(h, height - 1, 2 * pos + 1, txids, vMatch);
          b == Partial([true] + l.bits + r.bits, l.hashes + r.hashes)
        else b == Partial([true] + l.bits, l.hashes)
  {
    hide Pow2, CalcTreeWidth, First, End, AnyMatch, CalcHash;
    if height > 0 {
      ChildrenInTree(|txids|, height, pos);
    }
  }

  /** At most one hash per leaf, and a bit for every hash. */
  lemma {:induction false} BuildSizes<H>(h: (H, H) -> H, height: nat, pos: nat, txids: seq<H>, vMatch: seq<bool>)
    requires |txids| == |vMatch| && pos < CalcTreeWidth(|txids|, height)
    ensures var b := Build(h, height, pos, txids, vMatch);
      1 <= |b.hashes| <= End(|txids|, height, pos) - First(height, pos) && |b.hashes| <= |b.bits|
  {
    InWidth(|txids|, height, pos);
    if height == 0 || !AnyMatch(vMatch, First(height, pos), End(|txids|, height, pos)) {
      assert (pos + 1) * Pow2(height) == First(height, pos) + Pow2(height);
    } else {
      ChildrenInTree(|txids|, height, pos);
      RangeSplit(|txids|, height, pos);
      BuildSizes(h, height - 1, 2 * pos, txids, vMatch);
      if 2 * pos + 1 < CalcTreeWidth(|txids|, height - 1) {
        BuildSizes(h, height - 1, 2 * pos + 1, txids, vMatch);
      }
    }
  }

  // ----- Extracting

  /** The result of extracting one subtree; the counters are those after it. */
  datatype Ext<H> = Ext(hash: H, nBits: nat, nHash: nat, matched: seq<H>, index: seq<nat>, bad: bool)

  function Extract<H(==)>(h: (H, H) -> H, zero: H, n: nat, bits: seq<bool>, hashes: seq<H>,
                          height: nat, pos: nat, nBits: nat, nHash: nat): Ext<H>
    decreases height
  {
    if nBits >= |bits| then Ext(zero, nBits, nHash, [], [], true)
    else if height == 0 || !bits[nBits] then
      if nHash >= |hashes| then Ext(zero, nBits + 1, nHash, [], [], true)
      else if height == 0 && bits[nBits] then Ext(hashes[nHash], nBits + 1, nHash + 1, [hashes[nHash]], [pos], false)
      else Ext(hashes[nHash], nBits + 1, nHash + 1, [], [], false)
    else
      var l := Extract(h, zero, n, bits, hashes, height - 1, 2 * pos, nBits + 1, nHash);
      if 2 * pos + 1 < CalcTreeWidth(n, height - 1) then
        var r := Extract(h, zero, n, bits, hashes, height - 1, 2 * pos + 1, l.nBits, l.nHash);
        Ext(h(l.hash, r.hash), r.nBits, r.nHash, l.matched + r.matched, l.index + r.index,
            l.bad || r.bad || r.hash == l.hash)
      else l.(hash := h(l.hash, l.hash))
  }

  /** Extraction below a parent of a match, from the results for its children. */
  lemma ExtractInner<H>(h: (H, H) -> H, zero: H, n: nat, bits: seq<bool>, hashes: seq<H>,
                        height: nat, pos: nat, nBits: nat, nHash: nat, l: Ext<H>, r: Ext<H>)
    requires height > 0 && nBits < |bits| && bits[nBits]
    requires l == Extract(h, zero, n, bits, hashes, height - 1, 2 * pos, nBits + 1, nHash)
    requires r == Extract(h, zero, n, bits, hashes, height - 1, 2 * pos + 1, l.nBits, l.nHash)
    ensures Extract(h, zero, n, bits, hashes, height, pos, nBits, nHash) ==
      if 2 * pos + 1 < CalcTreeWidth(n, height - 1) then
        Ext(h(l.hash, r.hash), r.nBits, r.nHash, l.matched + r.matched, l.index + r.index,
            l.bad || r.bad || r.hash == l.hash)
      else l.(hash := h(l.hash, l.hash))
  {
    hide CalcTreeWidth;
  }

  // ----- The pairs that get hashed

  predicate CollisionFree<H(==)>(h: (H, H) -> H, s: set<(H, H)>) {
    forall p, q :: p in s && q in s && h(p.0, p.1) == h(q.0, q.1) ==> p == q
  }

  function TreePairs<H(==)>(h: (H, H) -> H, height: nat, pos: nat, txids: seq<H>): set<(H, H)>
    requires pos < CalcTreeWidth(|txids|, height)
  {
    if height == 0 then {}
    else
      ChildrenInTree(|txids|, height, pos);
      var left := CalcHash(h, height - 1, 2 * pos, txids);
      var below := TreePairs(h, height - 1, 2 * pos, txids);
      if 2 * pos + 1 < CalcTreeWidth(|txids|, height - 1) then
        {(left, CalcHash(h, height - 1, 2 * pos + 1, txids))} + below + TreePairs(h, height - 1, 2 * pos + 1, txids)
      else {(left, left)} + below
  }

  function ExtractPairs<H(==)>(h: (H, H) -> H, zero: H, n: nat, bits: seq<bool>, hashes: seq<H>,
                               height: nat, pos: nat, nBits: nat, nHash: nat): set<(H, H)>
    decreases height
  {
    if nBits >= |bits| || height == 0 || !bits[nBits] then {}
    else
      var l := Extract(h, zero, n, bits, hashes, height - 1, 2 * pos, nBits + 1, nHash);
      var below := ExtractPairs(h, zero, n, bits, hashes, height - 1, 2 * pos, nBits + 1, nHash);
      if 2 * pos + 1 < CalcTreeWidth(n, height - 1) then
        var r := Extract(h, zero, n, bits, hashes, height - 1, 2 * pos + 1, l.nBits, l.nHash);
        {(l.hash, r.hash)} + below + ExtractPairs(h, zero, n, bits, hashes, height - 1, 2 * pos + 1, l.nBits, l.nHash)
      else {(l.hash, l.hash)} + below
  }

  // ----- Soundness

  /** Extracted txids that really are the txids at the extracted positions. */
  predicate TrueLeaves<H(==)>(txids: seq<H>, matched: seq<H>, index: seq<nat>) {
    && |matched| == |index|
    && forall i :: 0 <= i < |index| ==> index[i] < |txids| && matched[i] == txids[index[i]]
  }

  lemma TrueLeavesConcat<H>(txids: seq<H>, m1: seq<H>, i1: seq<nat>, m2: seq<H>, i2: seq<nat>)
    requires TrueLeaves(txids, m1, i1) && TrueLeaves(txids, m2, i2)
    ensures TrueLeaves(txids, m1 + m2, i1 + i2)
  {
  }

  lemma SamePair<H>(h: (H, H) -> H, s: set<(H, H)>, a: H, b: H, c: H, d: H)
    requires CollisionFree(h, s) && (a, b) in s && (c, d) in s && h(a, b) == h(c, d)
    ensures a == c && b == d
  {
  }

  lemma TreePairsBelow<H>(h: (H, H) -> H, height: nat, pos: nat, txids: seq<H>, s: set<(H, H)>)
    requires height > 0 && pos < CalcTreeWidth(|txids|, height) && 2 * pos < CalcTreeWidth(|txids|, height - 1)
    requires TreePairs(h, height, pos, txids) <= s
    ensures TreePairs(h, height - 1, 2 * pos, txids) <= s
    ensures var left := CalcHash(h, height - 1, 2 * pos, txids);
      if 2 * pos + 1 < CalcTreeWidth(|txids|, height - 1) then
        && TreePairs(h, height - 1, 2 * pos + 1, txids) <= s
        && (left, CalcHash(h, height - 1, 2 * pos + 1, txids)) in s
      else (left, left) in s
  {
    hide CalcTreeWidth, CalcHash;
  }

  lemma ExtractPairsBelow<H>(h: (H, H) -> H, zero: H, n: nat, bits: seq<bool>, hashes: seq<H>,
                             height: nat, pos: nat, nBits: nat, nHash: nat, l: Ext<H>, r: Ext<H>, s: set<(H, H)>)
    requires height > 0 && nBits < |bits| && bits[nBits]
    requires l == Extract(h, zero, n, bits, hashes, height - 1, 2 * pos, nBits + 1, nHash)
    requires r == Extract(h, zero, n, bits, hashes, height - 1, 2 * pos + 1, l.nBits, l.nHash)
    requires ExtractPairs(h, zero, n, bits, hashes, height, pos, nBits, nHash) <= s
    ensures ExtractPairs(h, zero, n, bits, hashes, height - 1, 2 * pos, nBits + 1, nHash) <= s
    ensures if 2 * pos + 1 < CalcTreeWidth(n, height - 1) then
        && ExtractPairs(h, zero, n, bits, hashes, height - 1, 2 * pos + 1, l.nBits, l.nHash) <= s
        && (l.hash, r.hash) in s
      else (l.hash, l.hash) in s
  {
    hide CalcTreeWidth, Extract;
  }

  /** Some node of the tree over txids has this hash. */
  ghost predicate IsNode<H>(h: (H, H) -> H, txids: seq<H>, x: H) {
    exists height: nat, pos: nat :: pos < CalcTreeWidth(|txids|, height) && x == CalcHash(h, height, pos, txids)
  }

  /** So have all the hashes from i to j. */
  ghost predicate AreNodes<H>(h: (H, H) -> H, txids: seq<H>, hashes: seq<H>, i: nat, j: nat) {
    i <= j <= |hashes| && forall k :: i <= k < j ==> IsNode(h, txids, hashes[k])
  }

  /** What an extraction may claim of a list: leaves that are there, and hashes that occur in its tree. */
  ghost predicate Truthful<H>(h: (H, H) -> H, txids: seq<H>, hashes: seq<H>, nHash: nat, e: Ext<H>) {
    TrueLeaves(txids, e.matched, e.index) && AreNodes(h, txids, hashes, nHash, e.nHash)
  }

  lemma StopSound<H>(h: (H, H) -> H, zero: H, n: nat, txids: seq<H>, bits: seq<bool>, hashes: seq<H>,
                     height: nat, pos: nat, nBits: nat, nHash: nat)
    requires pos < CalcTreeWidth(|txids|, height) && nBits < |bits| && (height == 0 || !bits[nBits])
    requires var e := Extract(h, zero, n, bits, hashes, height, pos, nBits, nHash);
      !e.bad && e.hash == CalcHash(h, height, pos, txids)
    ensures Truthful(h, txids, hashes, nHash, Extract(h, zero, n, bits, hashes, height, pos, nBits, nHash))
  {
    hide CalcHash;
    assert IsNode(h, txids, hashes[nHash]);
    if height == 0 {
      LeafHash(h, pos, txids);
    }
  }

  /** What ExtractSound assumes of a node; n is the number of leaves that the extraction goes by. */
  ghost predicate Plausible<H>(h: (H, H) -> H, zero: H, n: nat, txids: seq<H>, s: set<(H, H)>, bits: seq<bool>,
                               hashes: seq<H>, height: nat, pos: nat, nBits: nat, nHash: nat)
  {
    && pos < CalcTreeWidth(|txids|, height)
    && CollisionFree(h, s) && TreePairs(h, height, pos, txids) <= s
    && ExtractPairs(h, zero, n, bits, hashes, height, pos, nBits, nHash) <= s
    && var e := Extract(h, zero, n, bits, hashes, height, pos, nBits, nHash);
       !e.bad && e.hash == CalcHash(h, height, pos, txids)
  }

  /**
   The children of a plausible node are plausible.  Where the list has no right child its node
   hashes the left one twice, so an extraction that goes into a right one there finds twins and is bad.
   */
  lemma PlausibleBelow<H>(h: (H, H) -> H, zero: H, n: nat, txids: seq<H>, s: set<(H, H)>, bits: seq<bool>,
                          hashes: seq<H>, height: nat, pos: nat, nBits: nat, nHash: nat, l: Ext<H>)
    requires height > 0 && nBits < |bits| && bits[nBits]
    requires l == Extract(h, zero, n, bits, hashes, height - 1, 2 * pos, nBits + 1, nHash)
    requires Plausible(h, zero, n, txids, s, bits, hashes, height, pos, nBits, nHash)
    ensures Plausible(h, zero, n, txids, s, bits, hashes, height - 1, 2 * pos, nBits + 1, nHash)
    ensures 2 * pos + 1 < CalcTreeWidth(n, height - 1) ==>
      Plausible(h, zero, n, txids, s, bits, hashes, height - 1, 2 * pos + 1, l.nBits, l.nHash)
  {
    hide Pow2, CalcTreeWidth, CollisionFree, TreePairs, ExtractPairs;
    ChildrenInTree(|txids|, height, pos);
    var r := Extract(h, zero, n, bits, hashes, height - 1, 2 * pos + 1, l.nBits, l.nHash);
    var left := CalcHash(h, height - 1, 2 * pos, txids);
    var right := if 2 * pos + 1 < CalcTreeWidth(|txids|, height - 1)
                 then CalcHash(h, height - 1, 2 * pos + 1, txids) else left;
    TreePairsBelow(h, height, pos, txids, s);
    ExtractPairsBelow(h, zero, n, bits, hashes, height, pos, nBits, nHash, l, r, s);
    if 2 * pos + 1 < CalcTreeWidth(n, height - 1) {
      SamePair(h, s, l.hash, r.hash, left, right);
    } else {
      SamePair(h, s, l.hash, l.hash, left, right);
    }
  }

  lemma TruthfulBoth<H>(h: (H, H) -> H, txids: seq<H>, hashes: seq<H>, nHash: nat, l: Ext<H>, r: Ext<H>, e: Ext<H>)
    requires Truthful(h, txids, hashes, nHash, l) && Truthful(h, txids, hashes, l.nHash, r)
    requires e.matched == l.matched + r.matched && e.index == l.index + r.index && e.nHash == r.nHash
    ensures Truthful(h, txids, hashes, nHash, e)
  {
    hide IsNode;
    TrueLeavesConcat(txids, l.matched, l.index, r.matched, r.index);
  }

  /**
   Whatever the bits and hashes, a subtree that extracts to the true hash of a node
   extracts only true leaves of that node, from hashes of nodes only.
   */
  lemma {:induction false} ExtractSound<H>(h: (H, H) -> H, zero: H, n: nat, txids: seq<H>, s: set<(H, H)>,
                                           bits: seq<bool>, hashes: seq<H>, height: nat, pos: nat, nBits: nat,
                                           nHash: nat)
    requires Plausible(h, zero, n, txids, s, bits, hashes, height, pos, nBits, nHash)
    ensures Truthful(h, txids, hashes, nHash, Extract(h, zero, n, bits, hashes, height, pos, nBits, nHash))
    decreases height
  {
    hide CalcTreeWidth, CollisionFree, TrueLeaves, TreePairs, ExtractPairs, CalcHash, IsNode;
    if height == 0 || !bits[nBits] {
      StopSound(h, zero, n, txids, bits, hashes, height, pos, nBits, nHash);
    } else {
      var l := Extract(h, zero, n, bits, hashes, height - 1, 2 * pos, nBits + 1, nHash);
      PlausibleBelow(h, zero, n, txids, s, bits, hashes, height, pos, nBits, nHash, l);
      hide Plausible;
      ExtractSound(h, zero, n, txids, s, bits, hashes, height - 1, 2 * pos, nBits + 1, nHash);
      if 2 * pos + 1 < CalcTreeWidth(n, height - 1) {
        ExtractSound(h, zero, n, txids, s, bits, hashes, height - 1, 2 * pos + 1, l.nBits, l.nHash);
        var r := Extract(h, zero, n, bits, hashes, height - 1, 2 * pos + 1, l.nBits, l.nHash);
        TruthfulBoth(h, txids, hashes, nHash, l, r,
                     Extract(h, zero, n, bits, hashes, height, pos, nBits, nHash));
      }
    }
  }

  // ----- Round trip

  ghost predicate Distinct<H>(s: seq<H>) {
    forall i, j :: 0 <= i < j < |s| ==> s[i] != s[j]
  }

  /** Nodes of one level have distinct hashes if the leaves have. */
  lemma {:induction false} HashesDistinct<H>(h: (H, H) -> H, txids: seq<H>, s: set<(H, H)>, height: nat, p: nat, q: nat)
    requires Distinct(txids) && p != q && p < CalcTreeWidth(|txids|, height) && q < CalcTreeWidth(|txids|, height)
    requires CollisionFree(h, s) && TreePairs(h, height, p, txids) <= s && TreePairs(h, height, q, txids) <= s
    ensures CalcHash(h, height, p, txids) != CalcHash(h, height, q, txids)
  {
    if height > 0 {
      ChildrenInTree(|txids|, height, p);
      ChildrenInTree(|txids|, height, q);
      HashesDistinct(h, txids, s, height - 1, 2 * p, 2 * q);
    }
  }

  function Indexes(n: nat): seq<nat> {
    seq(n, i => i)
  }

  /** s holds t from position i on. */
  predicate Holds<T(==)>(s: seq<T>, i: nat, t: seq<T>) {
    i + |t| <= |s| && s[i..i + |t|] == t
  }

  lemma HoldsFirst<T>(s: seq<T>, i: nat, x: T)
    requires Holds(s, i, [x])
    ensures i < |s| && s[i] == x
  {
    assert s[i] == s[i..i + 1][0];
  }

  lemma HoldsPrefix<T>(s: seq<T>, t: seq<T>)
    requires t <= s
    ensures Holds(s, 0, t)
  {
  }

  lemma HoldsSplit<T>(s: seq<T>, i: nat, a: seq<T>, b: seq<T>)
    requires Holds(s, i, a + b)
    ensures Holds(s, i, a) && Holds(s, i + |a|, b)
  {
    assert a == (a + b)[..|a|] && b == (a + b)[|a|..];
  }

  /** Extraction of a node yields its hash and its matches, and consumes what was built for it. */
  ghost predicate ReadsBack<H>(h: (H, H) -> H, zero: H, txids: seq<H>, vMatch: seq<bool>, bits: seq<bool>,
                               hashes: seq<H>, height: nat, pos: nat, nBits: nat, nHash: nat)
    requires |txids| == |vMatch| && pos < CalcTreeWidth(|txids|, height)
  {
    var b := Build(h, height, pos, txids, vMatch);
    var lo, hi := First(height, pos), End(|txids|, height, pos);
    Extract(h, zero, |txids|, bits, hashes, height, pos, nBits, nHash) ==
    Ext(CalcHash(h, height, pos, txids), nBits + |b.bits|, nHash + |b.hashes|,
        Matched(txids, vMatch, lo, hi), Matched(Indexes(|txids|), vMatch, lo, hi), false)
  }

  lemma LeafRange(n: nat, vMatch: seq<bool>, pos: nat)
    requires pos < CalcTreeWidth(n, 0) && n == |vMatch|
    ensures pos < n && First(0, pos) == pos && End(n, 0, pos) == pos + 1
    ensures AnyMatch(vMatch, pos, pos + 1) <==> vMatch[pos]
  {
  }

  lemma LeafHash<H>(h: (H, H) -> H, pos: nat, txids: seq<H>)
    requires pos < |txids| && pos < CalcTreeWidth(|txids|, 0)
    ensures CalcHash(h, 0, pos, txids) == txids[pos]
  {
  }

  lemma ReadsBackStop<H>(h: (H, H) -> H, zero: H, txids: seq<H>, vMatch: seq<bool>, bits: seq<bool>, hashes: seq<H>,
                         height: nat, pos: nat, nBits: nat, nHash: nat)
    requires |txids| == |vMatch| && pos < CalcTreeWidth(|txids|, height)
    requires height == 0 || !AnyMatch(vMatch, First(height, pos), End(|txids|, height, pos))
    requires var b := Build(h, height, pos, txids, vMatch); Holds(bits, nBits, b.bits) && Holds(hashes, nHash, b.hashes)
    ensures ReadsBack(h, zero, txids, vMatch, bits, hashes, height, pos, nBits, nHash)
  {
    hide Pow2, First, End, CalcTreeWidth, CalcHash, AnyMatch, Matched;
    var n := |txids|;
    var lo, hi := First(height, pos), End(n, height, pos);
    var any := AnyMatch(vMatch, lo, hi);
    HoldsFirst(bits, nBits, any);
    HoldsFirst(hashes, nHash, CalcHash(h, height, pos, txids));
    hide Holds;
    if !any {
      NoneMatched(txids, vMatch, lo, hi);
      NoneMatched(Indexes(n), vMatch, lo, hi);
    } else {
      LeafRange(n, vMatch, pos);
      LeafHash(h, pos, txids);
      OneMatched(txids, vMatch, pos);
      OneMatched(Indexes(n), vMatch, pos);
    }
  }

  lemma NodeInner<H>(h: (H, H) -> H, height: nat, pos: nat, txids: seq<H>, vMatch: seq<bool>)
    requires |txids| == |vMatch| && height > 0 && pos < CalcTreeWidth(|txids|, height)
    requires 2 * pos < CalcTreeWidth(|txids|, height - 1) && 2 * pos + 1 < CalcTreeWidth(|txids|, height - 1)
    requires AnyMatch(vMatch, First(height, pos), End(|txids|, height, pos))
    ensures CalcHash(h, height, pos, txids) == h(CalcHash(h, height - 1, 2 * pos, txids),
                                                 CalcHash(h, height - 1, 2 * pos + 1, txids))
    ensures var l, r := Build(h, height - 1, 2 * pos, txids, vMatch), Build(h, height - 1, 2 * pos + 1, txids, vMatch);
      Build(h, height, pos, txids, vMatch) == Partial([true] + l.bits + r.bits, l.hashes + r.hashes)
  {
    hide Pow2, First, End, CalcTreeWidth, AnyMatch;
  }

  lemma JoinBoth<H>(h: (H, H) -> H, zero: H, txids: seq<H>, vMatch: seq<bool>, bits: seq<bool>, hashes: seq<H>,
                    height: nat, pos: nat, nBits: nat, nHash: nat, lb: Partial<H>)
    requires |txids| == |vMatch| && height > 0 && pos < CalcTreeWidth(|txids|, height)
    requires 2 * pos < CalcTreeWidth(|txids|, height - 1) && 2 * pos + 1 < CalcTreeWidth(|txids|, height - 1)
    requires AnyMatch(vMatch, First(height, pos), End(|txids|, height, pos)) && nBits < |bits| && bits[nBits]
    requires lb == Build(h, height - 1, 2 * pos, txids, vMatch)
    requires ReadsBack(h, zero, txids, vMatch, bits, hashes, height - 1, 2 * pos, nBits + 1, nHash)
    requires ReadsBack(h, zero, txids, vMatch, bits, hashes, height - 1, 2 * pos + 1,
                       nBits + 1 + |lb.bits|, nHash + |lb.hashes|)
    requires CalcHash(h, height - 1, 2 * pos, txids) != CalcHash(h, height - 1, 2 * pos + 1, txids)
    ensures ReadsBack(h, zero, txids, vMatch, bits, hashes, height, pos, nBits, nHash)
  {
    hide Pow2, First, End, CalcTreeWidth, AnyMatch, Matched, Extract, Build, CalcHash;
    var n := |txids|;
    RangeSplit(n, height, pos);
    RangeOrder(n, height, pos);
    var l := Extract(h, zero, n, bits, hashes, height - 1, 2 * pos, nBits + 1, nHash);
    var r := Extract(h, zero, n, bits, hashes, height - 1, 2 * pos + 1, l.nBits, l.nHash);
    ExtractInner(h, zero, n, bits, hashes, height, pos, nBits, nHash, l, r);
    NodeInner(h, height, pos, txids, vMatch);
    var lo, hi, mid := First(height, pos), End(|txids|, height, pos), First(height - 1, 2 * pos + 1);
    MatchedSplit(txids, vMatch, lo, mid, hi);
    MatchedSplit(Indexes(|txids|), vMatch, lo, mid, hi);
  }

  lemma JoinOne<H>(h: (H, H) -> H, zero: H, txids: seq<H>, vMatch: seq<bool>, bits: seq<bool>, hashes: seq<H>,
                   height: nat, pos: nat, nBits: nat, nHash: nat)
    requires |txids| == |vMatch| && height > 0 && pos < CalcTreeWidth(|txids|, height)
    requires 2 * pos < CalcTreeWidth(|txids|, height - 1) <= 2 * pos + 1
    requires AnyMatch(vMatch, First(height, pos), End(|txids|, height, pos)) && nBits < |bits| && bits[nBits]
    requires ReadsBack(h, zero, txids, vMatch, bits, hashes, height - 1, 2 * pos, nBits + 1, nHash)
    ensures ReadsBack(h, zero, txids, vMatch, bits, hashes, height, pos, nBits, nHash)
  {
    RangeSplit(|txids|, height, pos);
    hide Pow2, First, End, CalcTreeWidth, AnyMatch, Matched;
  }

  /** What a node that is a parent of a match holds is what its children hold, one after the other. */
  lemma HoldsChildren<H>(h: (H, H) -> H, txids: seq<H>, vMatch: seq<bool>, s: set<(H, H)>,
                         bits: seq<bool>, hashes: seq<H>, height: nat, pos: nat, nBits: nat, nHash: nat)
    requires |txids| == |vMatch| && height > 0 && pos < CalcTreeWidth(|txids|, height)
             && 2 * pos < CalcTreeWidth(|txids|, height - 1)
    requires AnyMatch(vMatch, First(height, pos), End(|txids|, height, pos))
    requires HoldsBuilt(h, txids, vMatch, s, bits, hashes, height, pos, nBits, nHash)
    ensures nBits < |bits| && bits[nBits]
    ensures HoldsBuilt(h, txids, vMatch, s, bits, hashes, height - 1, 2 * pos, nBits + 1, nHash)
    ensures 2 * pos + 1 < CalcTreeWidth(|txids|, height - 1) ==>
      var lb := Build(h, height - 1, 2 * pos, txids, vMatch);
      HoldsBuilt(h, txids, vMatch, s, bits, hashes, height - 1, 2 * pos + 1, nBits + 1 + |lb.bits|, nHash + |lb.hashes|)
  {
    hide Pow2, First, End, CalcTreeWidth, AnyMatch, Holds;
    var b, lb := Build(h, height, pos, txids, vMatch), Build(h, height - 1, 2 * pos, txids, vMatch);
    if 2 * pos + 1 < CalcTreeWidth(|txids|, height - 1) {
      var rb := Build(h, height - 1, 2 * pos + 1, txids, vMatch);
      assert b.bits == [true] + (lb.bits + rb.bits);
      HoldsSplit(bits, nBits, [true], lb.bits + rb.bits);
      HoldsSplit(bits, nBits + 1, lb.bits, rb.bits);
      HoldsSplit(hashes, nHash, lb.hashes, rb.hashes);
    } else {
      HoldsSplit(bits, nBits, [true], lb.bits);
    }
    HoldsFirst(bits, nBits, true);
  }

  ghost predicate HoldsBuilt<H>(h: (H, H) -> H, txids: seq<H>, vMatch: seq<bool>, s: set<(H, H)>,
                                bits: seq<bool>, hashes: seq<H>, height: nat, pos: nat, nBits: nat, nHash: nat)
    requires |txids| == |vMatch| && pos < CalcTreeWidth(|txids|, height)
  {
    var b := Build(h, height, pos, txids, vMatch);
    Holds(bits, nBits, b.bits) && Holds(hashes, nHash, b.hashes) && TreePairs(h, height, pos, txids) <= s
  }

  /** Extraction reads back what was built, wherever it starts and whatever follows. */
  lemma {:induction false} ExtractBuilt<H>(h: (H, H) -> H, zero: H, txids: seq<H>, vMatch: seq<bool>, s: set<(H, H)>,
                                           bits: seq<bool>, hashes: seq<H>,
                                           height: nat, pos: nat, nBits: nat, nHash: nat)
    requires |txids| == |vMatch| && pos < CalcTreeWidth(|txids|, height)
    requires Distinct(txids) && CollisionFree(h, s)
    requires HoldsBuilt(h, txids, vMatch, s, bits, hashes, height, pos, nBits, nHash)
    ensures ReadsBack(h, zero, txids, vMatch, bits, hashes, height, pos, nBits, nHash)
    decreases height
  {
    hide Build, TreePairs, Holds, CalcTreeWidth, AnyMatch, CollisionFree, Distinct, ReadsBack;
    if height == 0 || !AnyMatch(vMatch, First(height, pos), End(|txids|, height, pos)) {
      ReadsBackStop(h, zero, txids, vMatch, bits, hashes, height, pos, nBits, nHash);
    } else {
      ChildrenInTree(|txids|, height, pos);
      HoldsChildren(h, txids, vMatch, s, bits, hashes, height, pos, nBits, nHash);
      ExtractBuilt(h, zero, txids, vMatch, s, bits, hashes, height - 1, 2 * pos, nBits + 1, nHash);
      if 2 * pos + 1 < CalcTreeWidth(|txids|, height - 1) {
        var lb := Build(h, height - 1, 2 * pos, txids, vMatch);
        ExtractBuilt(h, zero, txids, vMatch, s, bits, hashes, height - 1, 2 * pos + 1,
                     nBits + 1 + |lb.bits|, nHash + |lb.hashes|);
        HashesDistinct(h, txids, s, height - 1, 2 * pos, 2 * pos + 1);
        JoinBoth(h, zero, txids, vMatch, bits, hashes, height, pos, nBits, nHash, lb);
      } else {
        JoinOne(h, zero, txids, vMatch, bits, hashes, height, pos, nBits, nHash);
      }
    }
  }

  // ----- Whole trees

  function HeightFrom(n: nat, height: nat): (r: nat)
    ensures CalcTreeWidth(n, r) <= 1
    decreases CalcTreeWidth(n, height)
  {
    WidthStep(n, height);
    if CalcTreeWidth(n, height) > 1 then HeightFrom(n, height + 1) else height
  }

  /** The height of the tree over n leaves. */
  function TreeHeight(n: nat): nat {
    HeightFrom(n, 0)
  }

  lemma RootInTree(n: nat)
    requires n > 0
    ensures CalcTreeWidth(n, TreeHeight(n)) == 1
    ensures First(TreeHeight(n), 0) == 0 && End(n, TreeHeight(n), 0) == n
  {
    InWidth(n, TreeHeight(n), 0);
    InWidth(n, TreeHeight(n), 1);
  }

  function MerkleRoot<H>(h: (H, H) -> H, txids: seq<H>): H
    requires |txids| > 0
  {
    RootInTree(|txids|);
    CalcHash(h, TreeHeight(|txids|), 0, txids)
  }

  /** The pairs hashed on the way to the root. */
  function RootPairs<H(==)>(h: (H, H) -> H, txids: seq<H>): set<(H, H)>
    requires |txids| > 0
  {
    RootInTree(|txids|);
    TreePairs(h, TreeHeight(|txids|), 0, txids)
  }

  function BuildAll<H>(h: (H, H) -> H, txids: seq<H>, vMatch: seq<bool>): Partial<H>
    requires |txids| == |vMatch| > 0
  {
    RootInTree(|txids|);
    Build(h, TreeHeight(|txids|), 0, txids, vMatch)
  }

  /** The counts that ExtractMatches checks before it walks the tree. */
  predicate Admissible<H>(n: nat, bits: seq<bool>, hashes: seq<H>) {
    0 < n <= MAX_BLOCK_SIZE / 60 && |hashes| <= n && |bits| >= |hashes|
  }

  /** All checks pass: nothing bad on the walk, and every hash and every bit used, but for the padding. */
  predicate Accepted<H(==)>(h: (H, H) -> H, zero: H, n: nat, bits: seq<bool>, hashes: seq<H>, fBad: bool) {
    && Admissible(n, bits, hashes)
    && var e := Extract(h, zero, n, bits, hashes, TreeHeight(n), 0, 0, 0);
       !fBad && !e.bad && (e.nBits + 7) / 8 == (|bits| + 7) / 8 && e.nHash == |hashes|
  }

  /** ExtractMatches on the fields of a partial tree: the root, or zero, with the matches and their positions. */
  function Extraction<H(==)>(h: (H, H) -> H, zero: H, n: nat, bits: seq<bool>, hashes: seq<H>, fBad: bool)
    : (H, seq<H>, seq<nat>)
  {
    if !Admissible(n, bits, hashes) then (zero, [], [])
    else
      var e := Extract(h, zero, n, bits, hashes, TreeHeight(n), 0, 0, 0);
      (if Accepted(h, zero, n, bits, hashes, fBad) then e.hash else zero, e.matched, e.index)
  }

  /**
   Soundness: a partial tree with any bits and hashes that extracts to the root of a list yields
   only true (txid, position) pairs of that list, and every hash in it is one of the list's tree.
   The number of transactions it claims need not be the list's, if that makes a tree as high.
   Only a root of zero leaves open whether the extraction was accepted: that has to be known then.
   */
  lemma ExtractionSound<H>(h: (H, H) -> H, zero: H, n: nat, txids: seq<H>, bits: seq<bool>, hashes: seq<H>, fBad: bool)
    requires |txids| > 0 && TreeHeight(n) == TreeHeight(|txids|)
    requires Extraction(h, zero, n, bits, hashes, fBad).0 == MerkleRoot(h, txids)
    requires MerkleRoot(h, txids) != zero || Accepted(h, zero, n, bits, hashes, fBad)
    requires CollisionFree(h, RootPairs(h, txids) + ExtractPairs(h, zero, n, bits, hashes, TreeHeight(n), 0, 0, 0))
    ensures Accepted(h, zero, n, bits, hashes, fBad)
    ensures var r := Extraction(h, zero, n, bits, hashes, fBad); TrueLeaves(txids, r.1, r.2)
    ensures forall k :: 0 <= k < |hashes| ==> IsNode(h, txids, hashes[k])
  {
    RootInTree(|txids|);
    hide TreePairs, ExtractPairs, Extract, CalcHash, CollisionFree, CalcTreeWidth, TrueLeaves, HeightFrom, IsNode;
    var t := TreeHeight(n);
    var s := TreePairs(h, t, 0, txids) + ExtractPairs(h, zero, n, bits, hashes, t, 0, 0, 0);
    ExtractSound(h, zero, n, txids, s, bits, hashes, t, 0, 0, 0);
  }

  /** A failed extraction of a zero root is not sound: it returns zero too, and keeps whatever it had matched. */
  lemma ZeroRootIsUnsound<H>(h: (H, H) -> H, zero: H, x: H)
    requires x != zero
    ensures var txids := [zero];
      var r := Extraction(h, zero, 1, [true] + seq(8, _ => false), [x], false);
      && r.0 == MerkleRoot(h, txids) && !TrueLeaves(txids, r.1, r.2)
      && !Accepted(h, zero, 1, [true] + seq(8, _ => false), [x], false)
  {
    assert TreeHeight(1) == 0;
    LeafHash(h, 0, [zero]);
    var r := Extraction(h, zero, 1, [true] + seq(8, _ => false), [x], false);
    assert r.1 == [x] && r.2 == [0];
    assert r.1[0] != [zero][0];
  }

  /** Completeness: what is built for a list and a mask extracts to the root and exactly the masked txids, in order. */
  lemma BuiltExtracts<H>(h: (H, H) -> H, zero: H, txids: seq<H>, vMatch: seq<bool>, bits: seq<bool>)
    requires 0 < |txids| <= MAX_BLOCK_SIZE / 60 && |vMatch| == |txids| && Distinct(txids)
    requires CollisionFree(h, RootPairs(h, txids))
    requires var b := BuildAll(h, txids, vMatch); |bits| == (|b.bits| + 7) / 8 * 8 && b.bits <= bits
    ensures Extraction(h, zero, |txids|, bits, BuildAll(h, txids, vMatch).hashes, false) ==
      (MerkleRoot(h, txids), Matched(txids, vMatch, 0, |txids|), Matched(Indexes(|txids|), vMatch, 0, |txids|))
  {
    hide TreePairs, Build, Extract, CalcHash, CollisionFree, CalcTreeWidth, Distinct, HeightFrom, Matched, Holds,
         First, End;
    var n := |txids|;
    RootInTree(n);
    var t := TreeHeight(n);
    var b := Build(h, t, 0, txids, vMatch);
    BuildSizes(h, t, 0, txids, vMatch);
    HoldsPrefix(bits, b.bits);
    HoldsPrefix(b.hashes, b.hashes);
    ExtractBuilt(h, zero, txids, vMatch, TreePairs(h, t, 0, txids), bits, b.hashes, t, 0, 0, 0);
  }

  // ----- Flag bits packed into bytes

  method Pack(bits: seq<bool>) returns (bytes: seq<bv8>)
    ensures |bytes| == (|bits| + 7) / 8
    ensures forall p :: 0 <= p < 8 * |bytes| ==> (Bit(bytes, p) <==> p < |bits| && bits[p])
  {
    bytes := seq((|bits| + 7) / 8, _ => 0);
    assert forall q :: 0 <= q < 8 * |bytes| ==> !Bit(bytes, q);
    hide Bit;
    for p := 0 to |bits|
      invariant |bytes| == (|bits| + 7) / 8
      invariant forall q :: 0 <= q < 8 * |bytes| ==> (Bit(bytes, q) <==> q < p && bits[q])
    {
      if bits[p] {
        ghost var was := bytes;
        bytes := SetBit(bytes, p);
        forall q | 0 <= q < 8 * |bytes| ensures Bit(bytes, q) <==> q < p + 1 && bits[q] {
          SetBitAt(was, p, q);
        }
      }
    }
  }

  method Unpack(bytes: seq<bv8>) returns (bits: seq<bool>)
    ensures |bits| == 8 * |bytes|
    ensures forall p :: 0 <= p < |bits| ==> (bits[p] <==> Bit(bytes, p))
  {
    bits := [];
    for p := 0 to 8 * |bytes|
      invariant |bits| == p
      invariant forall q :: 0 <= q < p ==> (bits[q] <==> Bit(bytes, q))
    {
      bits := bits + [bytes[p / 8] & Mask(p % 8) != 0];
    }
  }

  lemma Concat3<T>(a: seq<T>, b: seq<T>, c: seq<T>)
    ensures a + b + c == a + (b + c)
  {
  }

  // ----- The tree as an object

  class PartialMerkleTree<H(==)> {
    const h: (H, H) -> H
    const zero: H
    var nTransactions: nat
    var vBits: seq<bool>
    var vHash: seq<H>
    var fBad: bool

    /** The partial tree of a list of txids and a mask. */
    constructor FromMatches(h: (H, H) -> H, zero: H, vTxid: seq<H>, vMatch: seq<bool>)
      requires |vTxid| == |vMatch| && |vTxid| > 0
      ensures var b := BuildAll(h, vTxid, vMatch);
        this.h == h && this.zero == zero && nTransactions == |vTxid| && vBits == b.bits && vHash == b.hashes && !fBad
    {
      this.h, this.zero := h, zero;
      nTransactions, fBad := |vTxid|, false;
      vBits, vHash := [], [];
      new;
      RootInTree(|vTxid|);
      var nHeight := Height();
      TraverseAndBuild(nHeight, 0, vTxid, vMatch);
    }

    /** A partial tree received from a peer. */
    constructor FromWire(h: (H, H) -> H, zero: H, n: nat, hashes: seq<H>, bytes: seq<bv8>)
      ensures this.h == h && this.zero == zero && nTransactions == n && vHash == hashes && !fBad
      ensures |vBits| == 8 * |bytes| && forall p :: 0 <= p < |vBits| ==> (vBits[p] <==> Bit(bytes, p))
    {
      this.h, this.zero := h, zero;
      nTransactions, vHash, fBad := n, hashes, false;
      var bits := Unpack(bytes);
      vBits := bits;
    }

    method Height() returns (nHeight: nat)
      ensures nHeight == TreeHeight(nTransactions)
    {
      nHeight := 0;
      while CalcTreeWidth(nTransactions, nHeight) > 1
        invariant HeightFrom(nTransactions, nHeight) == TreeHeight(nTransactions)
        decreases CalcTreeWidth(nTransactions, nHeight)
      {
        WidthStep(nTransactions, nHeight);
        nHeight := nHeight + 1;
      }
    }

    method ParentOfMatch(height: nat, pos: nat, vMatch: seq<bool>) returns (any: bool)
      requires |vMatch| == nTransactions
      ensures any <==> AnyMatch(vMatch, First(height, pos), End(nTransactions, height, pos))
    {
      any := false;
      var p := pos * Pow2(height);
      while p < (pos + 1) * Pow2(height) && p < nTransactions
        invariant First(height, pos) <= p
        invariant any <==> AnyMatch(vMatch, First(height, pos), p)
        invariant p == First(height, pos) || p <= End(nTransactions, height, pos)
      {
        any := any || vMatch[p];
        p := p + 1;
      }
    }

    method TraverseAndBuild(height: nat, pos: nat, vTxid: seq<H>, vMatch: seq<bool>)
      requires |vTxid| == |vMatch| == nTransactions && pos < CalcTreeWidth(nTransactions, height)
      modifies this
      ensures var b := Build(h, height, pos, vTxid, vMatch);
        && vBits == old(vBits) + b.bits && vHash == old(vHash) + b.hashes
        && nTransactions == old(nTransactions) && fBad == old(fBad)
      decreases height
    {
      hide Pow2, CalcTreeWidth, First, End, AnyMatch, CalcHash, Build;
      BuildIs(h, height, pos, vTxid, vMatch);
      var fParentOfMatch := ParentOfMatch(height, pos, vMatch);
      vBits := vBits + [fParentOfMatch];
      if height == 0 || !fParentOfMatch {
        vHash := vHash + [CalcHash(h, height, pos, vTxid)];
      } else {
        ChildrenInTree(nTransactions, height, pos);
        TraverseAndBuild(height - 1, 2 * pos, vTxid, vMatch);
        ghost var l := Build(h, height - 1, 2 * pos, vTxid, vMatch);
        Concat3(old(vBits), [true], l.bits);
        if 2 * pos + 1 < CalcTreeWidth(nTransactions, height - 1) {
          TraverseAndBuild(height - 1, 2 * pos + 1, vTxid, vMatch);
          ghost var r := Build(h, height - 1, 2 * pos + 1, vTxid, vMatch);
          Concat3(old(vBits), [true] + l.bits, r.bits);
          Concat3(old(vHash), l.hashes, r.hashes);
        }
      }
    }

    method TraverseAndExtract(height: nat, pos: nat, nBitsUsed: nat, nHashUsed: nat, vMatch: seq<H>, vnIndex: seq<nat>)
      returns (hash: H, nBits: nat, nHash: nat, matched: seq<H>, index: seq<nat>)
      modifies this`fBad
      ensures var e := Extract(h, zero, nTransactions, vBits, vHash, height, pos, nBitsUsed, nHashUsed);
        && hash == e.hash && nBits == e.nBits && nHash == e.nHash
        && matched == vMatch + e.matched && index == vnIndex + e.index
        && fBad == (old(fBad) || e.bad)
      decreases height, 1
    {
      matched, index := vMatch, vnIndex;
      nBits, nHash := nBitsUsed, nHashUsed;
      if nBits >= |vBits| {
        fBad := true;
        hash := zero;
        return;
      }
      var fParentOfMatch := vBits[nBits];
      nBits := nBits + 1;
      if height == 0 || !fParentOfMatch {
        if nHash >= |vHash| {
          fBad := true;
          hash := zero;
          return;
        }
        hash := vHash[nHash];
        nHash := nHash + 1;
        if height == 0 && fParentOfMatch {
          matched := matched + [hash];
          index := index + [pos];
        }
      } else {
        hash, nBits, nHash, matched, index := Descend(height, pos, nBitsUsed, nHashUsed, vMatch, vnIndex);
      }
    }

    /** The part of TraverseAndExtract below a parent of a match. */
    method Descend(height: nat, pos: nat, nBitsUsed: nat, nHashUsed: nat, vMatch: seq<H>, vnIndex: seq<nat>)
      returns (hash: H, nBits: nat, nHash: nat, matched: seq<H>, index: seq<nat>)
      requires height > 0 && nBitsUsed < |vBits| && vBits[nBitsUsed]
      modifies this`fBad
      ensures var e := Extract(h, zero, nTransactions, vBits, vHash, height, pos, nBitsUsed, nHashUsed);
        && hash == e.hash && nBits == e.nBits && nHash == e.nHash
        && matched == vMatch + e.matched && index == vnIndex + e.index
        && fBad == (old(fBad) || e.bad)
      decreases height, 0
    {
      hide Extract, CalcTreeWidth;
      ghost var n, bits, hashes := nTransactions, vBits, vHash;
      ghost var l := Extract(h, zero, n, bits, hashes, height - 1, 2 * pos, nBitsUsed + 1, nHashUsed);
      ghost var r := Extract(h, zero, n, bits, hashes, height - 1, 2 * pos + 1, l.nBits, l.nHash);
      ExtractInner(h, zero, n, bits, hashes, height, pos, nBitsUsed, nHashUsed, l, r);
      var left, right;
      left, nBits, nHash, matched, index :=
        TraverseAndExtract(height - 1, 2 * pos, nBitsUsed + 1, nHashUsed, vMatch, vnIndex);
      if 2 * pos + 1 < CalcTreeWidth(nTransactions, height - 1) {
        right, nBits, nHash, matched, index :=
          TraverseAndExtract(height - 1, 2 * pos + 1, nBits, nHash, matched, index);
        Concat3(vMatch, l.matched, r.matched);
        Concat3(vnIndex, l.index, r.index);
        if right == left {
          fBad := true;
        }
      } else {
        right := left;
      }
      hash := h(left, right);
    }

    /** Appends the positions to vnIndex, which the caller hands in. */
    method ExtractMatches(vnIndex: seq<nat>) returns (root: H, vMatch: seq<H>, index: seq<nat>)
      modifies this`fBad
      ensures var r := Extraction(h, zero, nTransactions, vBits, vHash, old(fBad));
        root == r.0 && vMatch == r.1 && index == vnIndex + r.2
    {
      vMatch, index := [], vnIndex;
      if nTransactions == 0 {
        return zero, vMatch, index;
      }
      if nTransactions > MAX_BLOCK_SIZE / 60 {
        return zero, vMatch, index;
      }
      if |vHash| > nTransactions {
        return zero, vMatch, index;
      }
      if |vBits| < |vHash| {
        return zero, vMatch, index;
      }
      var nHeight := Height();
      var hash, nBitsUsed, nHashUsed;
      hash, nBitsUsed, nHashUsed, vMatch, index := TraverseAndExtract(nHeight, 0, 0, 0, vMatch, index);
      if fBad {
        return zero, vMatch, index;
      }
      if (nBitsUsed + 7) / 8 != (|vBits| + 7) / 8 {
        return zero, vMatch, index;
      }
      if nHashUsed != |vHash| {
        return zero, vMatch, index;
      }
      return hash, vMatch, index;
    }
  }

  /**
   The round trip: build, pack the flag bits into bytes, unpack them elsewhere, extract.
   The receiver gets the root of the full list and exactly the masked txids and positions, in order.
   */
  method SendAndExtract<H(==)>(h: (H, H) -> H, zero: H, vTxid: seq<H>, vMatch: seq<bool>)
    returns (root: H, matched: seq<H>, index: seq<nat>)
    requires 0 < |vTxid| <= MAX_BLOCK_SIZE / 60 && |vMatch| == |vTxid| && Distinct(vTxid)
    requires CollisionFree(h, RootPairs(h, vTxid))
    ensures root == MerkleRoot(h, vTxid)
    ensures matched == Matched(vTxid, vMatch, 0, |vTxid|) && index == Matched(Indexes(|vTxid|), vMatch, 0, |vTxid|)
  {
    hide CollisionFree, RootPairs, Distinct, Extraction, MerkleRoot, BuildAll, Matched;
    var sent := new PartialMerkleTree<H>.FromMatches(h, zero, vTxid, vMatch);
    var bytes := Pack(sent.vBits);
    var received := new PartialMerkleTree<H>.FromWire(h, zero, sent.nTransactions, sent.vHash, bytes);
    assert sent.vBits == received.vBits[..|sent.vBits|];
    BuiltExtracts(h, zero, vTxid, vMatch, received.vBits);
    root, matched, index := received.ExtractMatches([]);
  }
}
