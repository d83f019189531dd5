/**
 How far the skip links of the block tree reach (GetSkipHeight and CBlockIndex::GetAncestor in
 src/chain.cpp).
 */
module SkipList {
  import opened Numbers

  // ----- Where a skip link points

  /** Bitwise and. */
  function And(x: nat, y: nat): (r: nat)
    ensures r <= x && r <= y
  {
    if x == 0 || y == 0 then 0
    else (if x % 2 == 1 && y % 2 == 1 then 1 else 0) + 2 * And(x / 2, y / 2)
  }

  /** n & (n - 1), which clears the lowest one bit. */
  function InvertLowestOne(n: nat): nat {
    if n == 0 then 0 else And(n, n - 1)
  }

  /** The height a skip link at the given height jumps back to: always a lower one. */
  function GetSkipHeight(height: nat): (h: nat)
    ensures height > 0 ==> h < height
    ensures height < 2 ==> h == 0
  {
    if height < 2 then 0
    else if height % 2 == 1 then InvertLowestOne(InvertLowestOne(height - 1)) + 1
    else InvertLowestOne(height)
  }

  // ----- Clearing bits

  lemma {:induction false} AndSelf(n: nat)
    ensures And(n, n) == n
  {
    if n > 0 {
      AndSelf(n / 2);
    }
  }

  lemma ClearOdd(n: nat)
    requires n % 2 == 1
    ensures InvertLowestOne(n) == n - 1
  {
    assert (n - 1) / 2 == n / 2;
    AndSelf(n / 2);
    if n > 1 {
      assert And(n, n - 1) == 2 * And(n / 2, n / 2);
    }
  }

  lemma ClearEven(n: nat)
    requires n > 0
    ensures InvertLowestOne(2 * n) == 2 * InvertLowestOne(n)
  {
    assert (2 * n) / 2 == n && (2 * n - 1) / 2 == n - 1;
  }

  function Ones(n: nat): nat {
    if n == 0 then 0 else n % 2 + Ones(n / 2)
  }

  /** One bit less. */
  lemma {:induction false} ClearOne(n: nat)
    requires n > 0
    ensures InvertLowestOne(n) < n && Ones(InvertLowestOne(n)) == Ones(n) - 1
    ensures n % 2 == 0 ==> InvertLowestOne(n) % 2 == 0 && InvertLowestOne(n) <= n - 2
  {
    hide InvertLowestOne;
    if n % 2 == 1 {
      ClearOdd(n);
    } else {
      ClearEven(n / 2);
      ClearOne(n / 2);
      assert 2 * (n / 2) == n;
      assert Ones(2 * InvertLowestOne(n / 2)) == Ones(InvertLowestOne(n / 2));
    }
  }

  lemma Doubled(m: nat, h: nat)
    requires h > 0
    ensures m * Pow2(h) == 2 * (m * Pow2(h - 1)) && Pow2(h) == 2 * Pow2(h - 1)
  {
  }

  /** The higher bits do not matter while there are lower ones. */
  lemma {:induction false} ClearLow(m: nat, h: nat, r: nat)
    requires 0 < r < Pow2(h)
    ensures InvertLowestOne(m * Pow2(h) + r) == m * Pow2(h) + InvertLowestOne(r)
  {
    assert h > 0;
    hide InvertLowestOne, Pow2;
    Doubled(m, h);
    var b := m * Pow2(h - 1);
    if r % 2 == 1 {
      ClearOdd(r);
      ClearOdd(2 * b + r);
    } else {
      ClearLow(m, h - 1, r / 2);
      ClearEven(r / 2);
      ClearEven(b + r / 2);
    }
  }

  /** The lowest bit of an odd multiple of a power of two. */
  lemma {:induction false} ClearTop(m: nat, h: nat)
    requires m % 2 == 1
    ensures InvertLowestOne(m * Pow2(h)) == (m - 1) * Pow2(h)
  {
    if h == 0 {
      ClearOdd(m);
    } else {
      hide InvertLowestOne, Pow2;
      ClearTop(m, h - 1);
      Doubled(m, h);
      Doubled(m - 1, h);
      Positive(m, h - 1);
      ClearEven(m * Pow2(h - 1));
    }
  }

  lemma Positive(m: nat, h: nat)
    requires m > 0
    ensures m * Pow2(h) > 0
  {
  }

  lemma OnesDouble(x: nat)
    ensures Ones(2 * x) == Ones(x) && Ones(2 * x + 1) == Ones(x) + 1
  {
    assert (2 * x) / 2 == x && (2 * x + 1) / 2 == x;
  }

  lemma {:induction false} OnesBelow(r: nat, h: nat)
    requires r < Pow2(h)
    ensures Ones(r) <= h
  {
    if r > 0 {
      OnesBelow(r / 2, h - 1);
    }
  }

  // ----- The walk

  /** The height after one turn. */
  function Turn(w: nat, t: nat): (r: nat)
    requires t < w
    ensures t <= r < w
  {
    var skip, skipPrev := GetSkipHeight(w), GetSkipHeight(w - 1);
    if skip == t || (skip > t && !(skipPrev < skip - 2 && skipPrev >= t)) then skip else w - 1
  }

  function Turns(w: nat, t: nat): nat
    requires t <= w
  {
    if w == t then 0 else 1 + Turns(Turn(w, t), t)
  }

  /** What a walk within the lower n bits takes at most, from all ones. */
  function Levels(n: nat): nat {
    if n == 0 then 0 else Levels(n - 1) + (n - 1) / 2 + 3
  }

  lemma {:induction false} LevelsGrow(n: nat, h: nat)
    requires n <= h
    ensures Levels(n) <= Levels(h)
  {
    if n < h {
      LevelsGrow(n, h - 1);
    }
  }

  // ----- Blocks: for an odd m the heights around m * 2^h, from one multiple of 2^(h+1) to the next

  function Base(k: nat, h: nat): nat {
    k * Pow2(h)
  }

  lemma BaseNext(k: nat, h: nat)
    ensures Base(k + 1, h) == Base(k, h) + Pow2(h) && Pow2(h) > 0
  {
    assert (k + 1) * Pow2(h) == k * Pow2(h) + Pow2(h);
  }

  lemma BaseHalf(k: nat, h: nat)
    requires h > 0
    ensures Pow2(h) == 2 * Pow2(h - 1) && Base(k, h) == Base(2 * k, h - 1) == 2 * Base(k, h - 1)
  {
  }

  lemma BaseZero(k: nat)
    ensures Base(k, 0) == k && Pow2(0) == 1
  {
  }

  /** The parts of a block. */
  lemma Block(m: nat, h: nat)
    requires m % 2 == 1
    ensures Base(m, h) == Base(m - 1, h) + Pow2(h) && Base(m - 1, h) % 2 == 0
    ensures h > 0 ==> Base(m, h) % 2 == 0 && Pow2(h) % 2 == 0
  {
    hide Base, Pow2;
    BaseNext(m - 1, h);
    var k := (m - 1) / 2;
    BaseHalf(k, h + 1);
    if h > 0 {
      BaseHalf(m, h);
    }
  }

  lemma ClearMid(m: nat, h: nat)
    requires m % 2 == 1
    ensures InvertLowestOne(Base(m, h)) == Base(m - 1, h)
  {
    hide InvertLowestOne;
    ClearTop(m, h);
  }

  lemma ClearAbove(m: nat, h: nat, r: nat)
    requires 0 < r < Pow2(h)
    ensures InvertLowestOne(Base(m, h) + r) == Base(m, h) + InvertLowestOne(r)
  {
    hide InvertLowestOne;
    ClearLow(m, h, r);
  }

  lemma SkipMid(m: nat, h: nat)
    requires m % 2 == 1 && h > 0
    ensures GetSkipHeight(Base(m, h)) == Base(m - 1, h)
  {
    hide InvertLowestOne, Base, Pow2;
    Block(m, h);
    ClearMid(m, h);
  }

  /** Just above the middle. */
  lemma SkipNext(m: nat, h: nat)
    requires m % 2 == 1 && h > 0
    ensures Base(m - 1, h) > 0 ==> GetSkipHeight(Base(m, h) + 1) < Base(m - 1, h)
    ensures Base(m - 1, h) == 0 ==> GetSkipHeight(Base(m, h) + 1) == 1
  {
    hide Base, Pow2;
    Block(m, h);
    ClearMid(m, h);
    if Base(m - 1, h) > 0 {
      ClearOne(Base(m - 1, h));
    }
  }

  lemma SkipEven(m: nat, h: nat, r: nat)
    requires m % 2 == 1 && h > 0 && 0 < r < Pow2(h) && r % 2 == 0
    ensures GetSkipHeight(Base(m, h) + r) == Base(m, h) + InvertLowestOne(r)
  {
    hide InvertLowestOne, Base, Pow2;
    Block(m, h);
    ClearAbove(m, h, r);
  }

  lemma SkipOdd(m: nat, h: nat, q: nat)
    requires m % 2 == 1 && h > 0 && 0 < q < Pow2(h) && q % 2 == 0
    ensures InvertLowestOne(q) > 0 ==>
              GetSkipHeight(Base(m, h) + q + 1) == Base(m, h) + InvertLowestOne(InvertLowestOne(q)) + 1
    ensures InvertLowestOne(q) == 0 ==> GetSkipHeight(Base(m, h) + q + 1) == Base(m - 1, h) + 1
  {
    hide InvertLowestOne, Base, Pow2;
    Block(m, h);
    ClearAbove(m, h, q);
    ClearOne(q);
    if InvertLowestOne(q) > 0 {
      ClearAbove(m, h, InvertLowestOne(q));
    } else {
      ClearMid(m, h);
    }
  }

  // ----- Walking down a block

  /** The target is in the lower half, no more than 2^n below the middle. */
  predicate Below(m: nat, h: nat, t: nat, n: nat) {
    m % 2 == 1 && n <= h && Base(m - 1, h) <= t < Base(m, h) <= t + Pow2(n)
  }

  lemma BelowBase(m: nat, h: nat, t: nat, n: nat)
    requires Below(m, h, t, n)
    ensures m % 2 == 1 && t < Base(m, h)
  {
  }

  lemma OneLeft(w: nat, t: nat)
    requires t <= w <= t + 1
    ensures Turns(w, t) <= 1
  {
    hide GetSkipHeight;
    if t < w {
      assert Turn(w, t) == t;
    }
  }

  /** From the middle. */
  lemma {:induction false} FromMid(m: nat, h: nat, t: nat, n: nat)
    requires Below(m, h, t, n)
    ensures Turns(Base(m, h), t) <= 1 + Levels(n)
    decreases h, 1
  {
    hide GetSkipHeight, Base, Pow2;
    Block(m, h);
    if h == 0 {
      BaseZero(m);
      OneLeft(Base(m, h), t);
    } else {
      SkipMid(m, h);
      if Base(m - 1, h) == t {
        assert Turn(Base(m, h), t) == t;
      } else {
        assert Turn(Base(m, h), t) == Base(m, h) - 1;
        FromOnes(m - 1, h, t, n);
      }
    }
  }

  /** From the top of a range, where all lower bits are ones. */
  lemma {:induction false} FromOnes(k: nat, h: nat, t: nat, n: nat)
    requires n <= h && Base(k, h) <= t < Base(k, h) + Pow2(h) <= t + Pow2(n)
    ensures Turns(Base(k, h) + Pow2(h) - 1, t) <= Levels(n)
    decreases h, 0
  {
    hide GetSkipHeight, Base, Pow2;
    if h == 0 {
      BaseZero(k);
    } else {
      BaseHalf(k, h);
      BaseNext(2 * k, h - 1);
      var n' := if n == h then h - 1 else n;
      LevelsGrow(n', n);
      if t >= Base(2 * k + 1, h - 1) {
        FromOnes(2 * k + 1, h - 1, t, n');
      } else {
        if n < h {
          Pow2Mono(n, h - 1);
        }
        FromUpper(2 * k + 1, h - 1, t);
      }
    }
  }

  /** From the top of a block. */
  lemma {:induction false} FromUpper(m: nat, h: nat, t: nat)
    requires Below(m, h, t, h)
    ensures Turns(Base(m, h) + Pow2(h) - 1, t) <= Levels(h + 1)
    decreases h, 4
  {
    assert Levels(h + 1) == Levels(h) + h / 2 + 3;
    hide *;
    BelowBase(m, h, t, h);
    if h == 0 {
      BaseZero(m);
      FromMid(m, h, t, h);
    } else {
      OnesOfOnes(h);
      FromOdd(m, h, Pow2(h) - 2, t, h);
    }
  }

  lemma OnesOfOnes(h: nat)
    requires h > 0
    ensures Pow2(h) >= 2 && Pow2(h) % 2 == 0 && Ones(Pow2(h) - 2) <= h - 1
  {
    hide Ones;
    var x := Pow2(h - 1) - 1;
    assert Pow2(h) - 2 == 2 * x;
    OnesDouble(x);
    OnesBelow(x, h - 1);
  }

  /** From an odd height above the middle, two bits at a time. */
  lemma {:induction false} FromOdd(m: nat, h: nat, q: nat, t: nat, n: nat)
    requires h > 0 && Below(m, h, t, n) && q < Pow2(h) && q % 2 == 0
    ensures Turns(Base(m, h) + q + 1, t) <= Ones(q) / 2 + 3 + Levels(n)
    decreases h, 3, q
  {
    hide GetSkipHeight, Base, Pow2, Ones, InvertLowestOne;
    var w := Base(m, h) + q + 1;
    if q == 0 {
      AboveMid(m, h, t, n);
    } else {
      SkipOdd(m, h, q);
      SkipEven(m, h, q);
      ClearOne(q);
      var q1 := InvertLowestOne(q);
      if q1 > 0 {
        ClearOne(q1);
        assert Turn(w, t) == Base(m, h) + InvertLowestOne(q1) + 1;
        FromOdd(m, h, InvertLowestOne(q1), t, n);
      } else {
        LastBit(m, h, q, t, n);
      }
    }
  }

  lemma {:induction false} AboveMid(m: nat, h: nat, t: nat, n: nat)
    requires h > 0 && Below(m, h, t, n)
    ensures Turns(Base(m, h) + 1, t) <= 2 + Levels(n)
    decreases h, 2
  {
    hide GetSkipHeight, Base, Pow2;
    var w := Base(m, h) + 1;
    SkipNext(m, h);
    SkipMid(m, h);
    if Turn(w, t) == Base(m, h) {
      FromMid(m, h, t, n);
    } else {
      assert Turn(w, t) == 1;
      OneLeft(1, t);
    }
  }

  /** With one bit left above the middle. */
  lemma {:induction false} LastBit(m: nat, h: nat, q: nat, t: nat, n: nat)
    requires h > 0 && Below(m, h, t, n) && 0 < q < Pow2(h) && q % 2 == 0 && InvertLowestOne(q) == 0
    ensures Turns(Base(m, h) + q + 1, t) <= 3 + Levels(n)
    decreases h, 2
  {
    hide GetSkipHeight, Base, Pow2, InvertLowestOne;
    var w, low := Base(m, h) + q + 1, Base(m - 1, h);
    SkipOdd(m, h, q);
    SkipEven(m, h, q);
    if t <= low + 1 {
      assert Turn(w, t) == low + 1;
      OneLeft(low + 1, t);
    } else {
      assert Turn(w, t) == w - 1;
      NotBetter(m, h, q, t);
      assert Turn(w - 1, t) == Base(m, h);
      FromMid(m, h, t, n);
    }
  }

  /** The link below does not lead between the target and the middle. */
  lemma NotBetter(m: nat, h: nat, q: nat, t: nat)
    requires m % 2 == 1 && h > 0 && 0 < q < Pow2(h) && q % 2 == 0 && InvertLowestOne(q) == 0
    requires Base(m - 1, h) + 1 < t < Base(m, h)
    ensures var s := GetSkipHeight(Base(m, h) + q - 1); s < t || s >= Base(m, h) - 2
  {
    hide GetSkipHeight, Base, Pow2, InvertLowestOne;
    if q == 2 {
      SkipNext(m, h);
    } else {
      SkipOdd(m, h, q - 2);
    }
  }

  lemma OnesOdd(r: nat)
    requires r % 2 == 1
    ensures Ones(r - 1) == Ones(r) - 1
  {
    assert (r - 1) / 2 == r / 2;
  }

  lemma OnesBefore(r: nat)
    requires r % 2 == 0 && r % 8 != 0
    ensures Ones(r - 2) <= Ones(r)
  {
    hide Ones;
    var u := r / 4;
    if r % 4 == 2 {
      OnesDouble(2 * u);
      OnesDouble(2 * u + 1);
      OnesDouble(u);
    } else {
      OnesDouble(2 * u);
      OnesDouble(2 * u - 1);
      OnesDouble(u);
      OnesDouble(u - 1);
      OnesDouble(u / 2);
      assert u == 2 * (u / 2) + 1;
    }
  }

  /** Two bits below a multiple of eight. */
  lemma ClearEight(r: nat)
    requires r > 0 && r % 8 == 0
    ensures InvertLowestOne(r - 2) > 0 && InvertLowestOne(InvertLowestOne(r - 2)) >= InvertLowestOne(r)
  {
    hide InvertLowestOne;
    var s := r / 8;
    assert r == 8 * s && r - 2 == 2 * (4 * s - 1);
    assert InvertLowestOne(r - 2) == 8 * s - 4 by {
      ClearEven(4 * s - 1);
      ClearOdd(4 * s - 1);
    }
    assert InvertLowestOne(8 * s - 4) == 8 * s - 8 by {
      ClearEven(2 * (2 * s - 1));
      ClearEven(2 * s - 1);
      ClearOdd(2 * s - 1);
    }
    assert InvertLowestOne(r) <= 8 * s - 8 by {
      ClearEven(4 * s);
      ClearEven(2 * s);
      ClearEven(s);
      ClearOne(s);
    }
  }

  /** A walk steps down from an even height only where its lowest bit is the second or third. */
  lemma StepsDown(m: nat, h: nat, r: nat, t: nat)
    requires m % 2 == 1 && h > 0 && 0 < r < Pow2(h) && r % 2 == 0 && t < Base(m, h)
    requires Turn(Base(m, h) + r, t) == Base(m, h) + r - 1
    ensures r % 8 != 0
  {
    hide GetSkipHeight, Base, Pow2, InvertLowestOne;
    SkipEven(m, h, r);
    ClearOne(r);
    if r % 8 == 0 {
      ClearEight(r);
      SkipOdd(m, h, r - 2);
    }
  }

  /** From anywhere above the middle, at least a bit at a time. */
  lemma {:induction false} FromAbove(m: nat, h: nat, r: nat, t: nat, n: nat)
    requires Below(m, h, t, n) && r < Pow2(h)
    ensures Turns(Base(m, h) + r, t) <= Ones(r) + 4 + Levels(n)
    decreases r
  {
    hide GetSkipHeight, Base, Pow2, Ones, InvertLowestOne;
    var w := Base(m, h) + r;
    if r == 0 {
      FromMid(m, h, t, n);
    } else {
      assert h > 0 by {
        BaseZero(m);
      }
      ClearOne(r);
      if r % 2 == 1 {
        OnesOdd(r);
        FromOdd(m, h, r - 1, t, n);
      } else {
        SkipEven(m, h, r);
        if Turn(w, t) == w - 1 {
          StepsDown(m, h, r, t);
          OnesBefore(r);
          FromOdd(m, h, r - 2, t, n);
        } else {
          FromAbove(m, h, InvertLowestOne(r), t, n);
        }
      }
    }
  }

  /** From anywhere in a range, in terms of the distance. */
  lemma {:induction false} FromAnywhere(k: nat, h: nat, w: nat, t: nat, n: nat)
    requires Base(k, h) <= t <= w < Base(k, h) + Pow2(h) && w - t < Pow2(n)
    ensures Turns(w, t) <= n + 4 + Levels(n)
    decreases h
  {
    hide GetSkipHeight, Base, Pow2, Ones;
    if h == 0 {
      BaseZero(k);
    } else {
      BaseHalf(k, h);
      BaseNext(2 * k, h - 1);
      var mid := Base(2 * k + 1, h - 1);
      if t >= mid {
        FromAnywhere(2 * k + 1, h - 1, w, t, n);
      } else if w < mid {
        FromAnywhere(2 * k, h - 1, w, t, n);
      } else {
        var n' := if n <= h - 1 then n else h - 1;
        FromAbove(2 * k + 1, h - 1, w - mid, t, n');
        OnesBelow(w - mid, n');
        LevelsGrow(n', n);
      }
    }
  }

  lemma {:induction false} LevelsClosed(n: nat)
    ensures 4 * Levels(n) <= n * n + 12 * n
  {
    if n > 0 {
      LevelsClosed(n - 1);
      assert (n - 1) * (n - 1) == n * n - 2 * n + 1;
    }
  }

  lemma {:induction false} Exceeds(w: nat)
    ensures w < Pow2(w)
  {
    if w > 0 {
      Exceeds(w - 1);
    }
  }

  /** Going back fewer than 2^n blocks takes at most n^2 / 4 + 4 n + 4 turns, whatever the height. */
  lemma TurnsBounded(w: nat, t: nat, n: nat)
    requires t <= w && w - t < Pow2(n)
    ensures 4 * Turns(w, t) <= n * n + 16 * n + 16
  {
    hide Turns, Pow2;
    Exceeds(w);
    assert Base(0, w) == 0;
    FromAnywhere(0, w, w, t, n);
    LevelsClosed(n);
  }

  lemma AllTurnsBounded(w: nat, t: nat)
    requires t <= w
    ensures forall n: nat :: w - t < Pow2(n) ==> 4 * Turns(w, t) <= n * n + 16 * n + 16
  {
    hide Turns, Pow2;
    forall n: nat | w - t < Pow2(n) ensures 4 * Turns(w, t) <= n * n + 16 * n + 16 {
      TurnsBounded(w, t, n);
    }
  }

  lemma NextTurn(w: nat, t: nat)
    requires t < w
    ensures Turns(w, t) == 1 + Turns(Turn(w, t), t)
  {
  }

  lemma NoTurns(t: nat)
    ensures Turns(t, t) == 0
  {
  }
}
