/**
 What a partial Merkle tree says (src/merkleblock.cpp; BIP 37, section "Partial Merkle branch
 format"): the tree its flag bits and hashes spell out, node by node, and the root of a whole list
 computed level by level (src/consensus/merkle.cpp).
 */
module MerkleMessage {
  import opened Numbers
  import opened MerkleBlock

  // ----- Trees

  /** A node: a hash with its flag bit, or what is below a node whose flag bit is set. */
  datatype Tree<H> = Stop(hash: H, flag: bool) | One(child: Tree<H>) | Two(left: Tree<H>, right: Tree<H>)

  /** The shape of a node at this place of a tree with n leaves. */
  predicate Shaped<H>(t: Tree<H>, n: nat, height: nat, pos: nat) {
    match t
    case Stop(_, flag) => height == 0 || !flag
    case One(c) =>
      height > 0 && 2 * pos + 1 >= CalcTreeWidth(n, height - 1) && Shaped(c, n, height - 1, 2 * pos)
    case Two(l, r) =>
      && height > 0 && 2 * pos + 1 < CalcTreeWidth(n, height - 1)
      && Shaped(l, n, height - 1, 2 * pos) && Shaped(r, n, height - 1, 2 * pos + 1)
  }

  /** The flag bits in the order of a walk. */
  function FlagsOf<H>(t: Tree<H>): seq<bool> {
    match t
    case Stop(_, flag) => [flag]
    case One(c) => [true] + FlagsOf(c)
    case Two(l, r) => [true] + (FlagsOf(l) + FlagsOf(r))
  }

  function HashesOf<H>(t: Tree<H>): seq<H> {
    match t
    case Stop(hash, _) => [hash]
    case One(c) => HashesOf(c)
    case Two(l, r) => HashesOf(l) + HashesOf(r)
  }

  function RootOf<H>(h: (H, H) -> H, t: Tree<H>): H {
    match t
    case Stop(hash, _) => hash
    case One(c) => h(RootOf(h, c), RootOf(h, c))
    case Two(l, r) => h(RootOf(h, l), RootOf(h, r))
  }

  /** Two children of one node have the same hash. */
  predicate HasTwins<H(==)>(h: (H, H) -> H, t: Tree<H>) {
    match t
    case Stop(_, _) => false
    case One(c) => HasTwins(h, c)
    case Two(l, r) => HasTwins(h, l) || HasTwins(h, r) || RootOf(h, l) == RootOf(h, r)
  }

  /** The hashes of the flagged leaves. */
  function MatchesOf<H>(t: Tree<H>, height: nat): seq<H> {
    match t
    case Stop(hash, flag) => if height == 0 && flag then [hash] else []
    case One(c) => if height == 0 then [] else MatchesOf(c, height - 1)
    case Two(l, r) => if height == 0 then [] else MatchesOf(l, height - 1) + MatchesOf(r, height - 1)
  }

  function PlacesOf<H>(t: Tree<H>, height: nat, pos: nat): seq<nat> {
    match t
    case Stop(_, flag) => if height == 0 && flag then [pos] else []
    case One(c) => if height == 0 then [] else PlacesOf(c, height - 1, 2 * pos)
    case Two(l, r) =>
      if height == 0 then [] else PlacesOf(l, height - 1, 2 * pos) + PlacesOf(r, height - 1, 2 * pos + 1)
  }

  // ----- Reading

  /** Extraction of a tree written out from these places on. */
  ghost predicate Reads<H>(h: (H, H) -> H, zero: H, n: nat, bits: seq<bool>, hashes: seq<H>, height: nat, pos: nat,
                           nBits: nat, nHash: nat, t: Tree<H>)
  {
    Extract(h, zero, n, bits, hashes, height, pos, nBits, nHash) ==
    Ext(RootOf(h, t), nBits + |FlagsOf(t)|, nHash + |HashesOf(t)|, MatchesOf(t, height), PlacesOf(t, height, pos),
        HasTwins(h, t))
  }

  /** The tree is written out there. */
  ghost predicate Written<H>(bits: seq<bool>, hashes: seq<H>, nBits: nat, nHash: nat, t: Tree<H>) {
    Holds(bits, nBits, FlagsOf(t)) && Holds(hashes, nHash, HashesOf(t))
  }

  lemma WrittenStop<H>(bits: seq<bool>, hashes: seq<H>, nBits: nat, nHash: nat, t: Tree<H>)
    requires Written(bits, hashes, nBits, nHash, t)
    ensures nBits < |bits| && bits[nBits] == (if t.Stop? then t.flag else true)
    ensures t.Stop? ==> nHash < |hashes| && hashes[nHash] == t.hash
  {
    assert bits[nBits] == bits[nBits..nBits + |FlagsOf(t)|][0];
    if t.Stop? {
      HoldsFirst(hashes, nHash, t.hash);
    }
  }

  lemma WrittenBelow<H>(bits: seq<bool>, hashes: seq<H>, nBits: nat, nHash: nat, t: Tree<H>)
    requires Written(bits, hashes, nBits, nHash, t)
    ensures t.One? ==> Written(bits, hashes, nBits + 1, nHash, t.child)
    ensures t.Two? ==>
      && Written(bits, hashes, nBits + 1, nHash, t.left)
      && Written(bits, hashes, nBits + 1 + |FlagsOf(t.left)|, nHash + |HashesOf(t.left)|, t.right)
  {
    hide Holds;
    match t {
      case Stop(_, _) =>
      case One(c) => HoldsSplit(bits, nBits, [true], FlagsOf(c));
      case Two(l, r) =>
        HoldsSplit(bits, nBits, [true], FlagsOf(l) + FlagsOf(r));
        HoldsSplit(bits, nBits + 1, FlagsOf(l), FlagsOf(r));
        HoldsSplit(hashes, nHash, HashesOf(l), HashesOf(r));
    }
  }

  lemma ReadsStop<H>(h: (H, H) -> H, zero: H, n: nat, bits: seq<bool>, hashes: seq<H>, height: nat, pos: nat,
                     nBits: nat, nHash: nat, t: Tree<H>)
    requires t.Stop? && (height == 0 || !t.flag) && nBits < |bits| && bits[nBits] == t.flag
    requires nHash < |hashes| && hashes[nHash] == t.hash
    ensures Reads(h, zero, n, bits, hashes, height, pos, nBits, nHash, t)
  {
  }

  lemma ReadsOne<H>(h: (H, H) -> H, zero: H, n: nat, bits: seq<bool>, hashes: seq<H>, height: nat, pos: nat,
                    nBits: nat, nHash: nat, c: Tree<H>)
    requires height > 0 && nBits < |bits| && bits[nBits] && 2 * pos + 1 >= CalcTreeWidth(n, height - 1)
    requires Reads(h, zero, n, bits, hashes, height - 1, 2 * pos, nBits + 1, nHash, c)
    ensures Reads(h, zero, n, bits, hashes, height, pos, nBits, nHash, One(c))
  {
    hide CalcTreeWidth;
  }

  lemma ReadsTwo<H>(h: (H, H) -> H, zero: H, n: nat, bits: seq<bool>, hashes: seq<H>, height: nat, pos: nat,
                    nBits: nat, nHash: nat, l: Tree<H>, r: Tree<H>)
    requires height > 0 && nBits < |bits| && bits[nBits] && 2 * pos + 1 < CalcTreeWidth(n, height - 1)
    requires Reads(h, zero, n, bits, hashes, height - 1, 2 * pos, nBits + 1, nHash, l)
    requires Reads(h, zero, n, bits, hashes, height - 1, 2 * pos + 1, nBits + 1 + |FlagsOf(l)|,
                   nHash + |HashesOf(l)|, r)
    ensures Reads(h, zero, n, bits, hashes, height, pos, nBits, nHash, Two(l, r))
  {
    hide *;
    var el := Extract(h, zero, n, bits, hashes, height - 1, 2 * pos, nBits + 1, nHash);
    var er := Extract(h, zero, n, bits, hashes, height - 1, 2 * pos + 1, el.nBits, el.nHash);
    ExtractInner(h, zero, n, bits, hashes, height, pos, nBits, nHash, el, er);
    ReadsIs(h, zero, n, bits, hashes, height - 1, 2 * pos, nBits + 1, nHash, l);
    ReadsIs(h, zero, n, bits, hashes, height - 1, 2 * pos + 1, el.nBits, el.nHash, r);
    ReadsIs(h, zero, n, bits, hashes, height, pos, nBits, nHash, Two(l, r));
    TwoIs(h, l, r, height, pos);
  }

  lemma ReadsIs<H>(h: (H, H) -> H, zero: H, n: nat, bits: seq<bool>, hashes: seq<H>, height: nat, pos: nat,
                   nBits: nat, nHash: nat, t: Tree<H>)
    ensures Reads(h, zero, n, bits, hashes, height, pos, nBits, nHash, t) <==>
      Extract(h, zero, n, bits, hashes, height, pos, nBits, nHash) ==
      Ext(RootOf(h, t), nBits + |FlagsOf(t)|, nHash + |HashesOf(t)|, MatchesOf(t, height), PlacesOf(t, height, pos),
          HasTwins(h, t))
  {
    hide Extract;
  }

  lemma TwoIs<H>(h: (H, H) -> H, l: Tree<H>, r: Tree<H>, height: nat, pos: nat)
    requires height > 0
    ensures var t := Two(l, r);
      && RootOf(h, t) == h(RootOf(h, l), RootOf(h, r)) && |FlagsOf(t)| == 1 + |FlagsOf(l)| + |FlagsOf(r)|
      && |HashesOf(t)| == |HashesOf(l)| + |HashesOf(r)|
      && MatchesOf(t, height) == MatchesOf(l, height - 1) + MatchesOf(r, height - 1)
      && PlacesOf(t, height, pos) == PlacesOf(l, height - 1, 2 * pos) + PlacesOf(r, height - 1, 2 * pos + 1)
      && (HasTwins(h, t) <==> HasTwins(h, l) || HasTwins(h, r) || RootOf(h, l) == RootOf(h, r))
  {
  }

  /** Extraction reads any tree of the right shape back, whatever follows it. */
  lemma {:induction false} ReadsTree<H>(h: (H, H) -> H, zero: H, n: nat, bits: seq<bool>, hashes: seq<H>, height: nat,
                                        pos: nat, nBits: nat, nHash: nat, t: Tree<H>)
    requires Shaped(t, n, height, pos) && Written(bits, hashes, nBits, nHash, t)
    ensures Reads(h, zero, n, bits, hashes, height, pos, nBits, nHash, t)
    decreases height
  {
    hide CalcTreeWidth, Written, Reads;
    WrittenStop(bits, hashes, nBits, nHash, t);
    WrittenBelow(bits, hashes, nBits, nHash, t);
    match t {
      case Stop(_, _) => ReadsStop(h, zero, n, bits, hashes, height, pos, nBits, nHash, t);
      case One(c) =>
        ReadsTree(h, zero, n, bits, hashes, height - 1, 2 * pos, nBits + 1, nHash, c);
        ReadsOne(h, zero, n, bits, hashes, height, pos, nBits, nHash, c);
      case Two(l, r) =>
        ReadsTree(h, zero, n, bits, hashes, height - 1, 2 * pos, nBits + 1, nHash, l);
        ReadsTree(h, zero, n, bits, hashes, height - 1, 2 * pos + 1, nBits + 1 + |FlagsOf(l)|,
                  nHash + |HashesOf(l)|, r);
        ReadsTwo(h, zero, n, bits, hashes, height, pos, nBits, nHash, l, r);
    }
  }

  // ----- Everything extracted was written

  lemma HoldsTogether<T>(s: seq<T>, i: nat, a: seq<T>, b: seq<T>)
    requires Holds(s, i, a) && Holds(s, i + |a|, b)
    ensures Holds(s, i, a + b)
  {
  }

  lemma HoldsOne<T>(s: seq<T>, i: nat)
    requires i < |s|
    ensures Holds(s, i, [s[i]])
  {
  }

  lemma WriteOne<H>(bits: seq<bool>, hashes: seq<H>, nBits: nat, nHash: nat, c: Tree<H>)
    requires nBits < |bits| && bits[nBits] && Written(bits, hashes, nBits + 1, nHash, c)
    ensures Written(bits, hashes, nBits, nHash, One(c))
  {
    hide Holds;
    HoldsOne(bits, nBits);
    HoldsTogether(bits, nBits, [true], FlagsOf(c));
  }

  lemma WriteTwo<H>(bits: seq<bool>, hashes: seq<H>, nBits: nat, nHash: nat, l: Tree<H>, r: Tree<H>)
    requires nBits < |bits| && bits[nBits] && Written(bits, hashes, nBits + 1, nHash, l)
    requires Written(bits, hashes, nBits + 1 + |FlagsOf(l)|, nHash + |HashesOf(l)|, r)
    ensures Written(bits, hashes, nBits, nHash, Two(l, r))
  {
    hide Holds;
    HoldsOne(bits, nBits);
    HoldsTogether(bits, nBits + 1, FlagsOf(l), FlagsOf(r));
    HoldsTogether(bits, nBits, [true], FlagsOf(l) + FlagsOf(r));
    HoldsTogether(hashes, nHash, HashesOf(l), HashesOf(r));
  }

  /** An extraction that is not bad has read a tree. */
  lemma {:induction false} TreeRead<H>(h: (H, H) -> H, zero: H, n: nat, bits: seq<bool>, hashes: seq<H>, height: nat,
                                       pos: nat, nBits: nat, nHash: nat) returns (t: Tree<H>)
    requires !Extract(h, zero, n, bits, hashes, height, pos, nBits, nHash).bad
    ensures Shaped(t, n, height, pos) && Written(bits, hashes, nBits, nHash, t)
    ensures Reads(h, zero, n, bits, hashes, height, pos, nBits, nHash, t) && !HasTwins(h, t)
    decreases height
  {
    hide CalcTreeWidth, Written;
    if height == 0 || !bits[nBits] {
      t := Stop(hashes[nHash], bits[nBits]);
      WriteStop(bits, hashes, nBits, nHash);
    } else {
      var l := Extract(h, zero, n, bits, hashes, height - 1, 2 * pos, nBits + 1, nHash);
      var left := TreeRead(h, zero, n, bits, hashes, height - 1, 2 * pos, nBits + 1, nHash);
      if 2 * pos + 1 < CalcTreeWidth(n, height - 1) {
        var right := TreeRead(h, zero, n, bits, hashes, height - 1, 2 * pos + 1, l.nBits, l.nHash);
        t := Two(left, right);
        WriteTwo(bits, hashes, nBits, nHash, left, right);
      } else {
        t := One(left);
        WriteOne(bits, hashes, nBits, nHash, left);
      }
    }
    ReadsTree(h, zero, n, bits, hashes, height, pos, nBits, nHash, t);
  }

  lemma WriteStop<H>(bits: seq<bool>, hashes: seq<H>, nBits: nat, nHash: nat)
    requires nBits < |bits| && nHash < |hashes|
    ensures Written(bits, hashes, nBits, nHash, Stop(hashes[nHash], bits[nBits]))
  {
    HoldsOne(bits, nBits);
    HoldsOne(hashes, nHash);
  }

  // ----- Whole messages

  /** At most one hash per leaf, and a bit for every hash. */
  lemma {:induction false} TreeSizes<H>(t: Tree<H>, n: nat, height: nat, pos: nat)
    requires Shaped(t, n, height, pos) && pos < CalcTreeWidth(n, height)
    ensures 1 <= |HashesOf(t)| <= End(n, height, pos) - First(height, pos) && |HashesOf(t)| <= |FlagsOf(t)|
    decreases height
  {
    InWidth(n, height, pos);
    if t.Stop? {
      assert (pos + 1) * Pow2(height) == First(height, pos) + Pow2(height);
    } else {
      ChildrenInTree(n, height, pos);
      RangeSplit(n, height, pos);
      match t {
        case One(c) => TreeSizes(c, n, height - 1, 2 * pos);
        case Two(l, r) =>
          TreeSizes(l, n, height - 1, 2 * pos);
          TreeSizes(r, n, height - 1, 2 * pos + 1);
      }
    }
  }

  /** The message of a tree: its hashes, and its flag bits up to the next whole byte. */
  ghost predicate Spells<H>(h: (H, H) -> H, n: nat, bits: seq<bool>, hashes: seq<H>, t: Tree<H>) {
    && Shaped(t, n, TreeHeight(n), 0) && !HasTwins(h, t)
    && hashes == HashesOf(t) && FlagsOf(t) <= bits && (|FlagsOf(t)| + 7) / 8 == (|bits| + 7) / 8
  }

  lemma WholeWritten<H>(bits: seq<bool>, hashes: seq<H>, t: Tree<H>)
    ensures Written(bits, hashes, 0, 0, t) && |HashesOf(t)| == |hashes| <==> FlagsOf(t) <= bits && hashes == HashesOf(t)
  {
    if Written(bits, hashes, 0, 0, t) && |HashesOf(t)| == |hashes| {
      assert hashes[0..|hashes|] == hashes;
      assert bits[0..|FlagsOf(t)|] == bits[..|FlagsOf(t)|];
    }
  }

  /** A message that spells a tree is accepted, and yields the root and the flagged leaves of that tree. */
  lemma SpelledIsRead<H>(h: (H, H) -> H, zero: H, n: nat, bits: seq<bool>, hashes: seq<H>, t: Tree<H>)
    requires 0 < n <= MAX_BLOCK_SIZE / 60 && Spells(h, n, bits, hashes, t)
    ensures Accepted(h, zero, n, bits, hashes, false)
    ensures Extraction(h, zero, n, bits, hashes, false) ==
            (RootOf(h, t), MatchesOf(t, TreeHeight(n)), PlacesOf(t, TreeHeight(n), 0))
  {
    RootInTree(n);
    WholeWritten(bits, hashes, t);
    hide CalcTreeWidth, HeightFrom, Extract, First, End, Written;
    TreeSizes(t, n, TreeHeight(n), 0);
    ReadsTree(h, zero, n, bits, hashes, TreeHeight(n), 0, 0, 0, t);
  }

  /** A message is accepted exactly when it spells a tree without twins: no bit and no hash too few or too many. */
  lemma AcceptedIff<H(!new)>(h: (H, H) -> H, zero: H, n: nat, bits: seq<bool>, hashes: seq<H>, fBad: bool)
    ensures Accepted(h, zero, n, bits, hashes, fBad) <==>
            !fBad && 0 < n <= 33333 && exists t :: Spells(h, n, bits, hashes, t)
  {
    hide HeightFrom, Extract, Spells, CalcTreeWidth;
    if Accepted(h, zero, n, bits, hashes, fBad) {
      var t := TreeRead(h, zero, n, bits, hashes, TreeHeight(n), 0, 0, 0);
      SpelledBy(h, zero, n, bits, hashes, t);
    }
    if 0 < n <= 33333 && !fBad {
      forall t | Spells(h, n, bits, hashes, t) ensures Accepted(h, zero, n, bits, hashes, fBad) {
        SpelledIsRead(h, zero, n, bits, hashes, t);
      }
    }
  }

  lemma SpelledBy<H>(h: (H, H) -> H, zero: H, n: nat, bits: seq<bool>, hashes: seq<H>, t: Tree<H>)
    requires Accepted(h, zero, n, bits, hashes, false)
    requires Shaped(t, n, TreeHeight(n), 0) && Written(bits, hashes, 0, 0, t) && !HasTwins(h, t)
    requires Reads(h, zero, n, bits, hashes, TreeHeight(n), 0, 0, 0, t)
    ensures Spells(h, n, bits, hashes, t)
  {
    hide HeightFrom, Extract, CalcTreeWidth, Written;
    WholeWritten(bits, hashes, t);
  }

  // ----- The root, level by level

  /** The hashes of neighbours, the last one with itself if it has none. */
  function Paired<H>(h: (H, H) -> H, s: seq<H>): (r: seq<H>)
    ensures |r| == (|s| + 1) / 2
  {
    seq((|s| + 1) / 2,
        i requires 0 <= i < (|s| + 1) / 2 => h(s[2 * i], if 2 * i + 1 < |s| then s[2 * i + 1] else s[2 * i]))
  }

  function LevelRoot<H>(h: (H, H) -> H, s: seq<H>): H
    requires s != []
    decreases |s|
  {
    if |s| == 1 then s[0] else LevelRoot(h, Paired(h, s))
  }

  function LevelAt<H>(h: (H, H) -> H, txids: seq<H>, height: nat): seq<H> {
    if height == 0 then txids else Paired(h, LevelAt(h, txids, height - 1))
  }

  /** Level `height` holds the hashes of the nodes of that height. */
  ghost predicate IsLevel<H>(h: (H, H) -> H, txids: seq<H>, height: nat, s: seq<H>) {
    && |s| == CalcTreeWidth(|txids|, height)
    && forall pos: nat :: pos < |s| ==> s[pos] == CalcHash(h, height, pos, txids)
  }

  lemma NextLevel<H>(h: (H, H) -> H, txids: seq<H>, height: nat, s: seq<H>)
    requires IsLevel(h, txids, height, s)
    ensures IsLevel(h, txids, height + 1, Paired(h, s))
  {
    WidthStep(|txids|, height);
    hide CalcTreeWidth;
    var r := Paired(h, s);
    forall pos: nat | pos < |r| ensures r[pos] == CalcHash(h, height + 1, pos, txids) {
      ChildrenInTree(|txids|, height + 1, pos);
    }
  }

  lemma {:induction false} LevelsAre<H>(h: (H, H) -> H, txids: seq<H>, height: nat)
    ensures IsLevel(h, txids, height, LevelAt(h, txids, height))
  {
    hide IsLevel, CalcTreeWidth, CalcHash, Paired;
    if height == 0 {
      LeafLevel(h, txids);
    } else {
      LevelsAre(h, txids, height - 1);
      NextLevel(h, txids, height - 1, LevelAt(h, txids, height - 1));
    }
  }

  lemma LeafLevel<H>(h: (H, H) -> H, txids: seq<H>)
    ensures IsLevel(h, txids, 0, txids)
  {
  }

  lemma {:induction false} ClimbFrom<H>(h: (H, H) -> H, txids: seq<H>, height: nat)
    requires txids != [] && LevelAt(h, txids, height) != []
    ensures LevelAt(h, txids, HeightFrom(|txids|, height)) != []
    ensures LevelRoot(h, LevelAt(h, txids, height)) == LevelRoot(h, LevelAt(h, txids, HeightFrom(|txids|, height)))
    decreases CalcTreeWidth(|txids|, height)
  {
    hide CalcTreeWidth;
    LevelsAre(h, txids, height);
    WidthStep(|txids|, height);
    if CalcTreeWidth(|txids|, height) > 1 {
      ClimbFrom(h, txids, height + 1);
    }
  }

  /** The root the tree stands for is the one computed level by level. */
  lemma RootIsLevelRoot<H>(h: (H, H) -> H, txids: seq<H>)
    requires txids != []
    ensures MerkleRoot(h, txids) == LevelRoot(h, txids)
  {
    var t := TreeHeight(|txids|);
    RootInTree(|txids|);
    ClimbFrom(h, txids, 0);
    LevelsAre(h, txids, t);
  }
}
