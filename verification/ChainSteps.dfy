/** The number of steps of the walk to an ancestor is bounded by the square of the length of the height in bits. */
module ChainSteps {
  import opened ArithCompact
  import opened Chain

  // ---------------------------------------------------------------------
  // Ones
  // ---------------------------------------------------------------------

  function Ones(n: nat): nat {
    if n == 0 then 0 else n % 2 + Ones(n / 2)
  }

  lemma {:induction false} InvertOdd(n: nat, k: nat)
    requires n == 2 * k + 1
    ensures InvertLowestOne(n) == 2 * k
  {
    AndSame(k);
    assert n / 2 == k && (n - 1) / 2 == k;
  }

  lemma {:induction false} InvertEven(n: nat, k: nat)
    requires n == 2 * k
    ensures InvertLowestOne(n) == 2 * InvertLowestOne(k)
  {
    if k > 0 {
      assert n / 2 == k && (n - 1) / 2 == k - 1;
    }
  }

  lemma {:induction false} InvertOnes(n: nat)
    requires n > 0
    ensures Ones(InvertLowestOne(n)) == Ones(n) - 1
  {
    var k := n / 2;
    if n % 2 == 1 {
      InvertOdd(n, k);
      OnesEven(2 * k, k);
    } else {
      InvertEven(n, k);
      InvertOnes(k);
      OnesEven(2 * InvertLowestOne(k), InvertLowestOne(k));
    }
  }

  lemma {:induction false} OnesEven(n: nat, k: nat)
    requires n == 2 * k
    ensures Ones(n) == Ones(k)
  {
    if k > 0 { assert n % 2 == 0 && n / 2 == k; }
  }

  /** Inverting twice, the second time perhaps at zero. */
  lemma {:induction false} InvertTwice(n: nat, k: nat, m: nat, u: nat)
    requires n == 2 * k && k > 0 && m == InvertLowestOne(n) && u == InvertLowestOne(m)
    ensures u % 2 == 0 && Ones(u) < Ones(n)
  {
    EvenTwice(n, k, InvertLowestOne(k), m, u);
    OnesTwice(n, m, u);
  }

  lemma {:induction false} EvenTwice(n: nat, k: nat, j: nat, m: nat, u: nat)
    requires n == 2 * k && j == InvertLowestOne(k) && m == InvertLowestOne(n) && u == InvertLowestOne(m)
    ensures m == 2 * j && u == 2 * InvertLowestOne(j)
  {
    InvertEven(n, k);
    InvertEven(m, j);
  }

  lemma {:induction false} OnesTwice(n: nat, m: nat, u: nat)
    requires n > 0 && m == InvertLowestOne(n) && u == InvertLowestOne(m)
    ensures Ones(u) < Ones(n)
  {
    InvertOnes(n);
    if m > 0 { InvertOnes(m); }
  }

  lemma {:induction false} OnesOdd(n: nat)
    requires n % 2 == 0
    ensures Ones(n + 1) == Ones(n) + 1
  {
    assert (n + 1) / 2 == n / 2 && (n + 1) % 2 == 1;
  }

  // ---------------------------------------------------------------------
  // Where the height and the goal part
  // ---------------------------------------------------------------------

  /** The number of low bits in which two heights may differ. */
  function Level(w: nat, t: nat): nat
    decreases w + t
  {
    if w == t then 0 else 1 + Level(w / 2, t / 2)
  }

  lemma {:induction false} LevelMono(v: nat, w: nat, t: nat)
    requires t <= v <= w
    ensures Level(v, t) <= Level(w, t)
    decreases w
  {
    if t < v { LevelMono(v / 2, w / 2, t / 2); }
  }

  lemma {:induction false} LevelBits(w: nat, t: nat)
    requires t <= w
    ensures Level(w, t) <= BitLen(w)
  {
    if t < w { LevelBits(w / 2, t / 2); }
  }

  /** Below its lowest one a height and the goal part at a lower bit. */
  lemma {:induction false} LevelDrops(w: nat, t: nat)
    requires 0 < w && InvertLowestOne(w) <= t < w
    ensures Level(w - 1, t) < Level(w, t)
  {
    if w % 2 == 1 {
      InvertOdd(w, w / 2);
    } else {
      InvertEven(w, w / 2);
      LevelDrops(w / 2, t / 2);
      assert (w - 1) / 2 == w / 2 - 1;
    }
  }

  /** The ones in the low `n` bits. */
  function Low(w: nat, n: nat): (ones: nat)
    ensures ones <= n
  {
    if n == 0 then 0 else w % 2 + Low(w / 2, n - 1)
  }

  lemma {:induction false} LowOnes(v: nat, w: nat, t: nat, n: nat)
    requires Level(v, t) == Level(w, t) == n
    ensures Low(w, n) - Low(v, n) == Ones(w) - Ones(v)
    decreases n
  {
    if n > 0 { LowOnes(v / 2, w / 2, t / 2, n - 1); }
  }

  lemma {:induction false} LowPositive(w: nat, t: nat)
    requires t < w
    ensures Low(w, Level(w, t)) > 0
  {
    if w / 2 > t / 2 { LowPositive(w / 2, t / 2); }
  }

  // ---------------------------------------------------------------------
  // The steps
  // ---------------------------------------------------------------------

  /** The sum of the first `n` even numbers. */
  function Evens(n: nat): nat {
    if n == 0 then 0 else Evens(n - 1) + 2 * n
  }

  lemma {:induction false} EvensMean(n: nat)
    ensures Evens(n) == n * (n + 1)
  {
    if n > 0 { EvensMean(n - 1); }
  }

  lemma {:induction false} EvensGrow(m: nat, n: nat)
    requires m <= n
    ensures Evens(m) <= Evens(n)
  {
    if m < n { EvensGrow(m, n - 1); }
  }

  /** A bound on the steps from `w` to `t`: two for each one above the goal, and all those of lower levels. */
  function Bound(w: nat, t: nat): nat {
    var n := Level(w, t);
    2 * Low(w, n) + if n == 0 then 0 else Evens(n - 1)
  }

  /** The bound drops by at least two when the level drops or a one goes. */
  lemma {:induction false} BoundDrops(v: nat, w: nat, t: nat)
    requires t <= v < w && (Level(v, t) < Level(w, t) || Ones(v) < Ones(w))
    ensures Bound(v, t) + 2 <= Bound(w, t)
  {
    LevelMono(v, w, t);
    if Level(v, t) < Level(w, t) {
      LevelGone(v, w, t, Level(v, t), Level(w, t));
    } else {
      OneGone(v, w, t, Level(v, t));
    }
  }

  lemma {:induction false} LevelGone(v: nat, w: nat, t: nat, m: nat, n: nat)
    requires t < w && m == Level(v, t) && n == Level(w, t) && m < n
    ensures Bound(v, t) + 2 <= Bound(w, t)
  {
    LowPositive(w, t);
    LowerLevels(m, Low(v, m), n, Low(w, n));
  }

  lemma {:induction false} OneGone(v: nat, w: nat, t: nat, n: nat)
    requires n == Level(v, t) && n == Level(w, t) && Ones(v) < Ones(w)
    ensures Bound(v, t) + 2 <= Bound(w, t)
  {
    LowOnes(v, w, t, n);
  }

  lemma {:induction false} LowerLevels(m: nat, low: nat, n: nat, high: nat)
    requires low <= m < n && high > 0
    ensures 2 * low + (if m == 0 then 0 else Evens(m - 1)) + 2 <= 2 * high + Evens(n - 1)
  {
    EvensGrow(m, n - 1);
  }

  /** An odd height: following the pointer takes at least one of the ones away, and so does the previous block. */
  lemma {:induction false} OddStep(w: nat, t: nat)
    requires t < w && w % 2 == 1
    ensures Ones(NextHeight(w, t)) < Ones(w)
  {
    OnesOdd(w - 1);
    if w > 1 {
      var v := InvertLowestOne(w - 1);
      InvertTwice(w - 1, w / 2, v, InvertLowestOne(v));
      OddSkip(w, w / 2, v, InvertLowestOne(v));
      OnesOdd(InvertLowestOne(v));
    }
  }

  /** The previous block's pointer is followed when it was preferred. */
  lemma {:induction false} PreferredFollowed(w: nat, t: nat)
    requires w % 2 == 0 && w > 2 && SkipHeight(w - 1) >= t
    ensures t < w - 1 && NextHeight(w - 1, t) == SkipHeight(w - 1)
  {
    InvertLowers(InvertLowestOne(w - 2));
    InvertLowers(w - 2);
  }

  lemma {:induction false} InvertTwo(n: nat, k: nat)
    requires n == 4 * k + 2
    ensures InvertLowestOne(n) == 4 * k
  {
    InvertEven(n, 2 * k + 1);
    InvertOdd(2 * k + 1, k);
  }

  lemma {:induction false} InvertFour(n: nat, k: nat)
    requires n == 8 * k + 4
    ensures InvertLowestOne(n) == 8 * k
  {
    InvertEven(n, 4 * k + 2);
    InvertTwo(4 * k + 2, k);
  }

  lemma {:induction false} InvertEights(n: nat, k: nat)
    requires n == 8 * k && k > 0
    ensures InvertLowestOne(n) <= n - 8
  {
    InvertEven(n, 4 * k);
    InvertEven(4 * k, 2 * k);
    InvertEven(2 * k, k);
    InvertLowers(k);
  }

  /** At a multiple of eight the own pointer is as good. */
  lemma {:induction false} NotPreferred(w: nat, k: nat)
    requires w == 8 * k && k > 0
    ensures SkipHeight(w - 1) >= SkipHeight(w) - 2
  {
    var v, u, x := InvertLowestOne(w - 2), InvertLowestOne(w - 4), InvertLowestOne(w);
    assert v == w - 4 by { InvertTwo(w - 2, 2 * k - 1); }
    assert u == w - 8 by { InvertFour(w - 4, k - 1); }
    assert x <= w - 8 by { InvertEights(w, k); }
    OddSkip(w - 1, 4 * k - 1, v, u);
    EvenSkip(w, 4 * k, x);
  }

  lemma {:induction false} OddSkip(h: nat, k: nat, v: nat, u: nat)
    requires h == 2 * k + 1 && k > 0 && v == InvertLowestOne(h - 1) && u == InvertLowestOne(v)
    ensures SkipHeight(h) == u + 1
  {
    assert h % 2 == 1;
  }

  lemma {:induction false} EvenSkip(h: nat, k: nat, v: nat)
    requires h == 2 * k && k > 0 && v == InvertLowestOne(h)
    ensures SkipHeight(h) == v
  {
    assert h % 2 == 0;
  }

  /** A preferred pointer takes at least one of the ones away. */
  lemma {:induction false} PreferredOnes(w: nat)
    requires w % 2 == 0 && w > 2 && SkipHeight(w - 1) < SkipHeight(w) - 2
    ensures Ones(SkipHeight(w - 1)) < Ones(w)
  {
    PreferredAt(w, w / 8, w % 8);
  }

  lemma {:induction false} PreferredAt(w: nat, k: nat, r: nat)
    requires w == 8 * k + r && r in {0, 2, 4, 6} && w > 2 && SkipHeight(w - 1) < SkipHeight(w) - 2
    ensures Ones(SkipHeight(w - 1)) < Ones(w)
  {
    if r == 0 {
      NotPreferred(w, k);
    } else if r == 4 {
      FourOnes(w, k);
    } else if r == 2 {
      TwoOnes(w, 2 * k);
    } else {
      TwoOnes(w, 2 * k + 1);
    }
  }

  lemma {:induction false} TwoOnes(w: nat, k: nat)
    requires w == 4 * k + 2 && k > 0
    ensures Ones(SkipHeight(w - 1)) < Ones(w)
  {
    var v := InvertLowestOne(w - 2);
    assert Ones(w - 2) == Ones(w) - 1 by {
      InvertTwo(w, k);
      InvertOnes(w);
    }
    InvertTwice(w - 2, 2 * k, v, InvertLowestOne(v));
    OddSkip(w - 1, 2 * k, v, InvertLowestOne(v));
    OnesOdd(InvertLowestOne(v));
  }

  lemma {:induction false} FourOnes(w: nat, k: nat)
    requires w == 8 * k + 4
    ensures k > 0 ==> Ones(SkipHeight(w - 1)) < Ones(w)
    ensures k == 0 ==> SkipHeight(w) == 0
  {
    InvertFour(w, k);
    if k > 0 {
      InvertTwo(w - 2, 2 * k);
      SkipsAlike(w, 4 * k + 1, w - 4, 4 * k);
    }
  }

  lemma {:induction false} SkipsAlike(w: nat, j: nat, v: nat, k: nat)
    requires w == 2 * j + 2 && v == 2 * k && k > 0 && InvertLowestOne(w - 2) == v && InvertLowestOne(w) == v
    ensures Ones(SkipHeight(w - 1)) < Ones(w)
  {
    var u := InvertLowestOne(v);
    assert Ones(v) == Ones(w) - 1 by { InvertOnes(w); }
    assert Ones(u) == Ones(v) - 1 by { InvertOnes(v); }
    assert u % 2 == 0 by { InvertEven(v, k); }
    OddSkip(w - 1, j, v, u);
    OnesOdd(u);
  }

  /** An even height: its pointer takes one of the ones away; without it, either the level drops, or the previous
      block's pointer is followed. */
  lemma {:induction false} EvenStep(w: nat, t: nat, v: nat)
    requires t < w && w % 2 == 0 && v == NextHeight(w, t)
    ensures Level(v, t) < Level(w, t) || Ones(v) < Ones(w) || (t < v && NextHeight(v, t) < v && Ones(NextHeight(v, t)) < Ones(w))
  {
    if FollowsSkip(w, t) {
      InvertOnes(w);
    } else if SkipHeight(w) <= t {
      LevelDrops(w, t);
    } else {
      PreferredFollowed(w, t);
      PreferredOnes(w);
    }
  }

  /** One step, or two, take the bound down by as much. */
  lemma {:induction false} StepsBound(w: nat, t: nat)
    requires t <= w
    ensures Steps(w, t) <= Bound(w, t)
    decreases w
  {
    if t < w {
      var v := NextHeight(w, t);
      if w % 2 == 1 {
        OddStep(w, t);
      } else {
        EvenStep(w, t, v);
      }
      if Level(v, t) < Level(w, t) || Ones(v) < Ones(w) {
        BoundDrops(v, w, t);
        StepsBound(v, t);
      } else {
        var u := NextHeight(v, t);
        BoundDrops(u, w, t);
        StepsBound(u, t);
      }
    }
  }

  /** From any height to any other below it, the walk takes no more steps than the number of bits of the height
      times the next number. */
  lemma {:induction false} WalkIsShort(w: nat, t: nat, n: nat)
    requires t <= w && n == BitLen(w)
    ensures Steps(w, t) <= n * (n + 1)
  {
    StepsBound(w, t);
    LevelBits(w, t);
    EvensGrow(Level(w, t), n);
    EvensMean(n);
  }
}
