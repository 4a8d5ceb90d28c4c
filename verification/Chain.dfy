/** The block tree with its skip pointers, and the active chain. */
module Chain {
  import opened Common
  import opened ArithMath
  import opened ArithCompact

  // ---------------------------------------------------------------------
  // Skip heights
  // ---------------------------------------------------------------------

  function BitAnd(x: nat, y: nat): nat {
    if x == 0 || y == 0 then 0
    else 2 * BitAnd(x / 2, y / 2) + (if x % 2 == 1 && y % 2 == 1 then 1 else 0)
  }

  /** `n & (n - 1)`; zero stays zero. */
  function InvertLowestOne(n: nat): nat {
    if n == 0 then 0 else BitAnd(n, n - 1)
  }

  lemma {:induction false} AndSame(x: nat)
    ensures BitAnd(x, x) == x
  {
    if x > 0 { AndSame(x / 2); }
  }

  /** The lowest one of a number, as a power of two. */
  function LowestOne(n: nat): (p: nat)
    requires n > 0
    ensures 0 < p <= n && n % p == 0
  {
    if n % 2 == 1 then 1 else
    var q := LowestOne(n / 2);
    assert n == 2 * q * (n / 2 / q) by { assert n / 2 == q * (n / 2 / q); }
    MultipleMod(2 * q, n / 2 / q, n);
    2 * q
  }

  lemma MultipleMod(q: nat, k: nat, n: nat)
    requires q > 0 && n == q * k
    ensures n % q == 0
  {
    DivModUnique(n, q, k, 0);
  }

  /** Turning the lowest one into a zero takes that power of two away. */
  lemma {:induction false} InvertsLowestOne(n: nat)
    requires n > 0
    ensures InvertLowestOne(n) == n - LowestOne(n)
  {
    if n % 2 == 1 {
      AndSame(n / 2);
    } else {
      InvertsLowestOne(n / 2);
      assert (n - 1) / 2 == n / 2 - 1;
    }
  }

  lemma InvertLowers(n: nat)
    ensures InvertLowestOne(n) <= n && (n > 0 ==> InvertLowestOne(n) < n)
  {
    if n > 0 { InvertsLowestOne(n); }
  }

  function SkipHeight(height: int): (h: int)
    ensures height >= 0 ==> 0 <= h <= height && (height > 0 ==> h < height)
  {
    if height < 2 then 0
    else if height % 2 == 1 then
      InvertLowers(height - 1);
      InvertLowers(InvertLowestOne(height - 1));
      InvertLowestOne(InvertLowestOne(height - 1)) + 1
    else
      InvertLowers(height);
      InvertLowestOne(height)
  }

  /** Whether a walk to a height follows the skip pointer: not if the previous block has a better one. */
  predicate FollowsSkip(walk: int, height: int) {
    var skip, skipPrev := SkipHeight(walk), SkipHeight(walk - 1);
    skip == height || (skip > height && !(skipPrev < skip - 2 && skipPrev >= height))
  }

  function NextHeight(walk: int, height: int): (next: int)
    requires 0 <= height < walk
    ensures height <= next < walk
  {
    if FollowsSkip(walk, height) then SkipHeight(walk) else walk - 1
  }

  /** The number of steps of a walk over blocks whose skip pointers are built. */
  function Steps(walk: int, height: int): nat
    requires 0 <= height <= walk
    decreases walk
  {
    if walk == height then 0 else 1 + Steps(NextHeight(walk, height), height)
  }

  // ---------------------------------------------------------------------
  // The block tree
  // ---------------------------------------------------------------------

  class BlockIndex {
    const pprev: BlockIndex?
    const nHeight: int
    var pskip: BlockIndex?

    constructor (prev: BlockIndex?)
      requires prev != null ==> Linked(prev)
      ensures pprev == prev && pskip == null && Linked(this)
    {
      pprev := prev;
      nHeight := if prev == null then 0 else prev.nHeight + 1;
      pskip := null;
    }

    /** Points the skip pointer at the ancestor whose height the block's own height determines. */
    method BuildSkip(ghost tree: set<BlockIndex>)
      requires IsTree(tree) && this in tree
      modifies this`pskip
      ensures IsTree(tree) && Linked(this)
      ensures pskip == if pprev == null then old(pskip) else Walk(this, SkipHeight(nHeight))
    {
      assert NodeOk(tree, this);
      if pprev != null {
        WalkInTree(tree, pprev, SkipHeight(nHeight));
        ghost var steps;
        pskip, steps := pprev.GetAncestor(SkipHeight(nHeight), tree);
      }
      forall b | b in tree ensures NodeOk(tree, b) {
        assert old(NodeOk(tree, b));
      }
    }

    /** The ancestor at a height; each step goes strictly down, and there always is a block to go to. */
    method GetAncestor(height: int, ghost tree: set<BlockIndex>) returns (found: BlockIndex?, ghost steps: nat)
      requires IsTree(tree) && this in tree
      ensures Linked(this) && (found == null <==> height > nHeight || height < 0)
      ensures found != null ==> found == Walk(this, height)
      ensures found != null && Built(tree) ==> steps == Steps(nHeight, height)
    {
      assert NodeOk(tree, this);
      steps := 0;
      if height > nHeight || height < 0 { return null, steps; }
      var walk: BlockIndex := this;
      var heightWalk := nHeight;
      while heightWalk > height
        invariant walk in tree && Linked(walk)
        invariant height <= heightWalk == walk.nHeight && Walk(walk, height) == Walk(this, height)
        invariant Built(tree) ==> steps + Steps(heightWalk, height) == Steps(nHeight, height)
        decreases heightWalk
      {
        assert NodeOk(tree, walk);
        steps := steps + 1;
        var heightSkip, heightSkipPrev := SkipHeight(heightWalk), SkipHeight(heightWalk - 1);
        var skip := walk.pskip;
        if skip != null && (heightSkip == height
                            || (heightSkip > height && !(heightSkipPrev < heightSkip - 2 && heightSkipPrev >= height))) {
          WalkWalk(walk, heightSkip, height);
          walk := skip;
          heightWalk := heightSkip;
        } else {
          assert walk.pprev != null;
          walk := walk.pprev;
          heightWalk := heightWalk - 1;
        }
      }
      return walk, steps;
    }
  }

  /** A block is linked to a genesis block at height zero, one height at a time. */
  ghost predicate Linked(b: BlockIndex)
    decreases b.nHeight
  {
    if b.nHeight <= 0 then b.nHeight == 0 && b.pprev == null
    else b.pprev != null && b.pprev.nHeight == b.nHeight - 1 && Linked(b.pprev)
  }

  /** The ancestor at a height, found by following the links to the previous block only. */
  ghost function Walk(b: BlockIndex, height: int): (a: BlockIndex)
    requires Linked(b) && 0 <= height <= b.nHeight
    ensures Linked(a) && a.nHeight == height
    decreases b.nHeight
  {
    if height == b.nHeight then b else Walk(b.pprev, height)
  }

  lemma {:induction false} WalkWalk(b: BlockIndex, k: int, height: int)
    requires Linked(b) && 0 <= height <= k <= b.nHeight
    ensures Walk(Walk(b, k), height) == Walk(b, height)
    decreases b.nHeight
  {
    if k < b.nHeight { WalkWalk(b.pprev, k, height); }
  }

  lemma PreviousOnPath(b: BlockIndex, a: BlockIndex)
    requires Linked(b) && Linked(a) && 0 < a.nHeight <= b.nHeight && a == Walk(b, a.nHeight)
    ensures a.pprev == Walk(b, a.nHeight - 1)
  {
    WalkWalk(b, a.nHeight, a.nHeight - 1);
  }

  /** A block of the tree is linked within it; its skip pointer, once built, points to the ancestor
      at the skip height. */
  ghost predicate NodeOk(tree: set<BlockIndex>, b: BlockIndex)
    reads tree
  {
    b in tree ==>
      && Linked(b)
      && (b.pprev != null ==> b.pprev in tree)
      && (b.pskip != null ==> b.nHeight > 0 && b.pskip in tree && b.pskip == Walk(b, SkipHeight(b.nHeight)))
  }

  ghost predicate IsTree(tree: set<BlockIndex>)
    reads tree
  {
    forall b {:trigger NodeOk(tree, b)} :: b in tree ==> NodeOk(tree, b)
  }

  /** Every block above genesis has its skip pointer. */
  ghost predicate Built(tree: set<BlockIndex>)
    reads tree
  {
    forall b :: b in tree && b.pprev != null ==> b.pskip != null
  }

  lemma {:induction false} WalkInTree(tree: set<BlockIndex>, b: BlockIndex, height: int)
    requires IsTree(tree) && b in tree && 0 <= height <= b.nHeight
    ensures Linked(b) && Walk(b, height) in tree
    decreases b.nHeight
  {
    assert NodeOk(tree, b);
    if height < b.nHeight { WalkInTree(tree, b.pprev, height); }
  }

  /** A new block with its skip pointer built extends the tree. */
  method Extend(prev: BlockIndex?, ghost tree: set<BlockIndex>) returns (b: BlockIndex)
    requires IsTree(tree) && (prev != null ==> prev in tree)
    ensures fresh(b) && b.pprev == prev && IsTree(tree + {b}) && Linked(b)
    ensures prev != null ==> b.pskip == Walk(b, SkipHeight(b.nHeight))
    ensures old(Built(tree)) ==> Built(tree + {b})
  {
    if prev != null { assert NodeOk(tree, prev); }
    b := new BlockIndex(prev);
    forall c | c in tree + {b} ensures NodeOk(tree + {b}, c) {
      if c != b { assert NodeOk(tree, c); }
    }
    b.BuildSkip(tree + {b});
  }

  // ---------------------------------------------------------------------
  // The active chain
  // ---------------------------------------------------------------------

  /** The blocks from genesis to `b`. */
  ghost function Path(b: BlockIndex): seq<BlockIndex?>
    requires Linked(b)
  {
    seq(b.nHeight + 1, i requires 0 <= i <= b.nHeight => Walk(b, i))
  }

  class ActiveChain {
    var vChain: seq<BlockIndex?>

    /** The chain holds the path to its tip. */
    ghost predicate Valid()
      reads this
    {
      vChain != [] ==> var tip := vChain[|vChain| - 1]; tip != null && Linked(tip) && vChain == Path(tip)
    }

    constructor ()
      ensures Valid() && vChain == []
    {
      vChain := [];
    }

    function Height(): int
      reads this
    {
      |vChain| - 1
    }

    function At(height: int): BlockIndex?
      reads this
    {
      if height < 0 || height >= |vChain| then null else vChain[height]
    }

    predicate Contains(b: BlockIndex?)
      reads this
    {
      b != null && At(b.nHeight) == b
    }

    lemma ContainsMeansBelowTip(b: BlockIndex)
      requires Valid() && Linked(b) && Contains(b)
      ensures forall i :: 0 <= i <= b.nHeight ==> vChain[i] == Walk(b, i)
    {
      var tip := vChain[|vChain| - 1];
      forall i | 0 <= i <= b.nHeight ensures vChain[i] == Walk(b, i) {
        WalkWalk(tip, b.nHeight, i);
      }
    }

    /** Makes `pindex` the tip. The walk stops at the first block that is in place already. */
    method SetTip(pindex: BlockIndex?)
      requires Valid() && (pindex != null ==> Linked(pindex))
      modifies this
      ensures Valid() && vChain == if pindex == null then [] else Path(pindex)
    {
      if pindex == null {
        vChain := [];
        return;
      }
      ghost var was := vChain;
      var n := pindex.nHeight + 1;
      vChain := if |vChain| >= n then vChain[..n] else vChain + seq(n - |vChain|, _ => null);
      var walk: BlockIndex? := pindex;
      while walk != null && vChain[walk.nHeight] != walk
        invariant |vChain| == n
        invariant walk != null ==> Linked(walk) && walk.nHeight < n && walk == Walk(pindex, walk.nHeight)
        invariant forall i :: (if walk == null then 0 else walk.nHeight + 1) <= i < n ==> vChain[i] == Walk(pindex, i)
        invariant walk != null ==> forall i :: 0 <= i <= walk.nHeight ==> vChain[i] == if i < |was| then was[i] else null
        decreases if walk == null then 0 else walk.nHeight + 1
      {
        if walk.nHeight > 0 { PreviousOnPath(pindex, walk); }
        vChain := vChain[walk.nHeight := walk];
        walk := walk.pprev;
      }
      if walk != null { StoppedEarly(was, pindex, walk, vChain); }
      assert vChain == Path(pindex);
    }

    /** The chain holds no block of the branch of `b` at height `low` or above. */
    ghost predicate NoneFrom(b: BlockIndex, low: int)
      requires Linked(b) && low >= 0
      reads this
    {
      forall h :: low <= h <= b.nHeight ==> !Contains(Walk(b, h))
    }

    lemma NoneLower(b: BlockIndex, low: int)
      requires Linked(b) && 0 < low <= b.nHeight + 1 && NoneFrom(b, low) && !Contains(Walk(b, low - 1))
      ensures NoneFrom(b, low - 1)
    {
    }

    /** The last block that the chain and the branch of `pindex` have in common. */
    method FindFork(pindex: BlockIndex?, ghost tree: set<BlockIndex>) returns (fork: BlockIndex?)
      requires Valid() && IsTree(tree) && (pindex != null ==> pindex in tree)
      ensures pindex == null ==> fork == null
      ensures pindex != null ==> Linked(pindex)
      ensures pindex != null && fork == null ==> NoneFrom(pindex, 0)
      ensures pindex != null && fork != null ==>
        && 0 <= fork.nHeight <= pindex.nHeight && fork == Walk(pindex, fork.nHeight)
        && Contains(fork) && NoneFrom(pindex, fork.nHeight + 1)
    {
      if pindex == null { return null; }
      assert NodeOk(tree, pindex);
      fork := pindex;
      if pindex.nHeight > Height() {
        ghost var steps;
        fork, steps := pindex.GetAncestor(Height(), tree);
      }
      fork := FirstContained(pindex, fork);
    }

    method FirstContained(pindex: BlockIndex, start: BlockIndex?) returns (fork: BlockIndex?)
      requires Linked(pindex)
      requires start == null ==> NoneFrom(pindex, 0)
      requires start != null ==>
        0 <= start.nHeight <= pindex.nHeight && start == Walk(pindex, start.nHeight) && NoneFrom(pindex, start.nHeight + 1)
      ensures fork == null ==> NoneFrom(pindex, 0)
      ensures fork != null ==>
        && 0 <= fork.nHeight <= pindex.nHeight && fork == Walk(pindex, fork.nHeight)
        && Contains(fork) && NoneFrom(pindex, fork.nHeight + 1)
    {
      fork := start;
      while fork != null && !Contains(fork)
        invariant fork == null ==> NoneFrom(pindex, 0)
        invariant fork != null ==>
          0 <= fork.nHeight <= pindex.nHeight && fork == Walk(pindex, fork.nHeight) && NoneFrom(pindex, fork.nHeight + 1)
        decreases if fork == null then 0 else fork.nHeight + 1
      {
        NoneLower(pindex, fork.nHeight + 1);
        if fork.nHeight > 0 { PreviousOnPath(pindex, fork); }
        fork := fork.pprev;
      }
    }

    /** The step back from one block of a locator to the next. */
    method StepBack(pindex: BlockIndex, height: int, ghost tree: set<BlockIndex>) returns (next: BlockIndex)
      requires Valid() && IsTree(tree) && pindex in tree && 0 <= height <= pindex.nHeight
      ensures Linked(pindex) && next == Walk(pindex, height) && next in tree
    {
      WalkInTree(tree, pindex, height);
      if Contains(pindex) {
        ContainsMeansBelowTip(pindex);
        next := At(height);
      } else {
        ghost var steps;
        next, steps := pindex.GetAncestor(height, tree);
      }
    }

    /** The blocks of a locator: from `start` back to genesis, in exponentially larger steps. */
    method LocatorFrom(start: BlockIndex, ghost tree: set<BlockIndex>) returns (have: seq<BlockIndex>)
      requires Valid() && IsTree(tree) && start in tree
      ensures Linked(start) && IsLocator(start, have)
    {
      assert NodeOk(tree, start);
      var step := 1;
      have := [];
      var pindex := start;
      while pindex.nHeight != 0
        invariant pindex in tree && step == Step(|have|) && LocatorSoFar(start, have) && pindex == LocatorBlock(start, |have|)
        decreases pindex.nHeight
      {
        var height := Max(pindex.nHeight - step, 0);
        LocatorNext(start, |have|, pindex, height);
        have := have + [pindex];
        pindex := StepBack(pindex, height, tree);
        if |have| > 10 {
          step := step * 2;
        }
      }
      LocatorEnds(start, have, pindex);
      have := have + [pindex];
    }

    /** A locator, by default from the tip. */
    method GetLocator(pindex: BlockIndex?, ghost tree: set<BlockIndex>) returns (have: seq<BlockIndex>)
      requires Valid() && IsTree(tree) && (pindex != null ==> pindex in tree)
      requires vChain != [] ==> vChain[|vChain| - 1] in tree
      ensures pindex == null && vChain == [] ==> have == []
      ensures pindex != null ==> Linked(pindex) && IsLocator(pindex, have)
      ensures pindex == null && vChain != [] ==> IsLocator(vChain[|vChain| - 1], have)
    {
      var start := pindex;
      if start == null && vChain != [] { start := vChain[|vChain| - 1]; }
      have := [];
      if start != null { have := LocatorFrom(start, tree); }
    }

    /** The blocks below a block that the old chain held at its height are in place. */
    static lemma StoppedEarly(was: seq<BlockIndex?>, pindex: BlockIndex, walk: BlockIndex, now: seq<BlockIndex?>)
      requires was != [] ==> was[|was| - 1] != null && Linked(was[|was| - 1]) && was == Path(was[|was| - 1])
      requires Linked(pindex) && Linked(walk) && walk.nHeight <= pindex.nHeight && walk == Walk(pindex, walk.nHeight)
      requires |now| > walk.nHeight && now[walk.nHeight] == walk
      requires forall i :: 0 <= i <= walk.nHeight ==> now[i] == if i < |was| then was[i] else null
      ensures forall i :: 0 <= i <= walk.nHeight ==> now[i] == Walk(pindex, i)
    {
      var tip := was[|was| - 1];
      forall i | 0 <= i <= walk.nHeight ensures now[i] == Walk(pindex, i) {
        WalkWalk(tip, walk.nHeight, i);
        WalkWalk(pindex, walk.nHeight, i);
      }
    }
  }

  // ---------------------------------------------------------------------
  // Locators
  // ---------------------------------------------------------------------

  /** The step after block number `k` of a locator. */
  function Step(k: nat): (step: int)
    ensures step > 0
  {
    if k <= 10 then 1 else 2 * Step(k - 1)
  }

  /** How far block number `k` of a locator is below the first. */
  function Offset(k: nat): (offset: int)
    ensures offset >= k
  {
    if k == 0 then 0 else Offset(k - 1) + Step(k - 1)
  }

  /** Block number `k` of a locator from `start`. */
  ghost function LocatorBlock(start: BlockIndex, k: nat): (b: BlockIndex)
    requires Linked(start)
    ensures Linked(b) && b.nHeight == Max(start.nHeight - Offset(k), 0)
  {
    Walk(start, Max(start.nHeight - Offset(k), 0))
  }

  /** A locator goes from its first block to genesis, in the steps above, and is logarithmically short. */
  ghost predicate IsLocator(start: BlockIndex, have: seq<BlockIndex>)
    requires Linked(start)
  {
    && have != [] && |have| <= 11 + BitLen(start.nHeight)
    && (forall k :: 0 <= k < |have| ==> have[k] == LocatorBlock(start, k))
    && (forall k :: 0 <= k < |have| ==> (have[k].nHeight == 0 <==> k == |have| - 1))
  }

  lemma LocatorDescends(start: BlockIndex, have: seq<BlockIndex>, j: nat, k: nat)
    requires Linked(start) && IsLocator(start, have) && j < k < |have|
    ensures have[0] == start && have[k].nHeight < have[j].nHeight
  {
    assert Offset(0) == 0 && have[0] == LocatorBlock(start, 0);
    OffsetMono(j, k);
    assert have[j].nHeight == Max(start.nHeight - Offset(j), 0) && have[k].nHeight == Max(start.nHeight - Offset(k), 0);
  }

  lemma {:induction false} OffsetMono(j: nat, k: nat)
    requires j < k
    ensures Offset(j) < Offset(k)
  {
    if j < k - 1 { OffsetMono(j, k - 1); }
  }

  /** The blocks found so far, all above genesis. */
  ghost predicate LocatorSoFar(start: BlockIndex, have: seq<BlockIndex>)
    requires Linked(start)
  {
    forall k :: 0 <= k < |have| ==> have[k] == LocatorBlock(start, k) && have[k].nHeight > 0
  }

  lemma LocatorNext(start: BlockIndex, k: nat, next: BlockIndex, height: int)
    requires Linked(start) && next == LocatorBlock(start, k) && next.nHeight > 0
    requires height == Max(next.nHeight - Step(k), 0)
    ensures Walk(next, height) == LocatorBlock(start, k + 1) && height < next.nHeight
  {
    WalkWalk(start, next.nHeight, height);
  }

  lemma LocatorEnds(start: BlockIndex, have: seq<BlockIndex>, next: BlockIndex)
    requires Linked(start) && LocatorSoFar(start, have) && next == LocatorBlock(start, |have|) && next.nHeight == 0
    ensures IsLocator(start, have + [next])
  {
    LocatorShort(start, have);
    LocatorWhole(start, have, next, have + [next]);
  }

  lemma LocatorWhole(start: BlockIndex, have: seq<BlockIndex>, next: BlockIndex, all: seq<BlockIndex>)
    requires Linked(start) && LocatorSoFar(start, have) && next == LocatorBlock(start, |have|) && next.nHeight == 0
    requires all == have + [next]
    ensures forall k :: 0 <= k < |all| ==> all[k] == LocatorBlock(start, k)
    ensures forall k :: 0 <= k < |all| ==> (all[k].nHeight == 0 <==> k == |all| - 1)
  {
    forall k | 0 <= k < |all| ensures all[k] == LocatorBlock(start, k) && (all[k].nHeight == 0 <==> k == |all| - 1) {
      LocatorOne(start, have, next, all, k);
    }
  }

  lemma LocatorOne(start: BlockIndex, have: seq<BlockIndex>, next: BlockIndex, all: seq<BlockIndex>, k: nat)
    requires Linked(start) && LocatorSoFar(start, have) && next == LocatorBlock(start, |have|) && next.nHeight == 0
    requires all == have + [next] && k < |all|
    ensures all[k] == LocatorBlock(start, k) && (all[k].nHeight == 0 <==> k == |all| - 1)
  {
    if k < |have| { assert have[k] == LocatorBlock(start, k); }
  }

  lemma LocatorShort(start: BlockIndex, have: seq<BlockIndex>)
    requires Linked(start) && LocatorSoFar(start, have)
    ensures |have| + 1 <= 11 + BitLen(start.nHeight)
  {
    if have != [] {
      var k := |have| - 1;
      assert have[k] == LocatorBlock(start, k) && have[k].nHeight > 0;
    }
    LocatorLength(start.nHeight, |have| + 1);
  }

  lemma {:induction false} LateOffset(j: nat)
    ensures Step(10 + j) == Pow2(j) && Offset(11 + j) == 9 + Pow2(j + 1)
  {
    if j == 0 {
      EarlyOffset(11);
    } else {
      LateOffset(j - 1);
    }
  }

  lemma {:induction false} EarlyOffset(k: nat)
    requires k <= 11
    ensures Offset(k) == k
  {
    if k > 0 { EarlyOffset(k - 1); }
  }

  /** Before the last block of a locator of `n` blocks, genesis has not been reached. */
  lemma LocatorLength(height: nat, n: nat)
    requires n >= 2 ==> Offset(n - 2) < height
    ensures n <= 11 + BitLen(height)
  {
    if n >= 13 {
      var j := n - 13;
      LateOffset(j);
      BitLenBounds(height);
      if BitLen(height) <= j + 1 { Pow2Mono(BitLen(height), j + 1); }
    } else if n >= 2 {
      BitLenBounds(height);
      if n == 12 { EarlyOffset(10); }
    }
  }
}
