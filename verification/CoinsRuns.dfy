/** Whole runs of a stack of coin caches. */
module CoinsRuns {
  import opened Common
  import opened CoinsState
  import opened CoinsProofs

  // ---------------------------------------------------------------------
  // Having coins
  // ---------------------------------------------------------------------

  /** The test for coins looks at whether any output, spent or not, is left in the vector. */
  predicate HaveCoins(v: View, t: Txid) {
    Get(v, t).Some? && |Get(v, t).value.vout| > 0
  }

  /** Every cached or stored vector is trimmed, but for that of an entry being modified. */
  ghost predicate TrimmedInv(v: View) {
    match v
    case Disk(db) => forall t :: t in db ==> db[t].IsTrimmed()
    case Cache(base, l) => EntriesTrimmed(l) && TrimmedInv(base)
  }

  ghost predicate EntriesTrimmed(l: Layer) {
    forall t :: t in l.entries && (l.modifier.Some? ==> l.modifier.value.txid != t) ==> l.entries[t].coins.IsTrimmed()
  }

  lemma {:induction false} TrimmedGet(v: View, t: Txid)
    requires TrimmedInv(v) && (v.Cache? && v.layer.modifier.Some? ==> v.layer.modifier.value.txid != t) && BaseIdle(v)
    ensures Get(v, t).Some? ==> Get(v, t).value.IsTrimmed()
  {
    if v.Cache? && t !in v.layer.entries {
      TrimmedGet(v.base, t);
    }
  }

  /** No cache below the top is being modified. */
  ghost predicate BaseIdle(v: View) {
    v.Cache? ==> NoModifier(v.base) && BaseIdle(v.base)
  }

  ghost predicate Tidy(v: View) {
    TrimmedInv(v) && BaseIdle(v)
  }

  lemma {:induction false} FetchTidy(u: Coins -> nat, v: View, t: Txid)
    requires Tidy(v)
    ensures Tidy(Fetch(u, v, t)) && (v.Cache? ==> Fetch(u, v, t).Cache? && Fetch(u, v, t).layer.modifier == v.layer.modifier)
  {
    if v.Cache? && t !in v.layer.entries {
      FetchTidy(u, v.base, t);
      TrimmedGet(v.base, t);
    }
  }

  lemma FlushTidy(u: Coins -> nat, v: View)
    requires v.Cache? && Tidy(v) && NoModifier(v) && NoModifier(v.base)
    ensures Tidy(Flush(u, v))
  {
    var child, w := v.layer.entries, BatchWrite(u, v.base, v.layer.entries);
    assert EntriesTrimmed(v.layer) && TrimmedInv(v.base) && BaseIdle(v.base);
    assert Flush(u, v) == Cache(w, v.layer.(entries := map[], usage := 0));
    assert TrimmedInv(w) && NoModifier(w) && BaseIdle(w) by { BatchWriteTidy(u, v.base, child, w); }
  }

  lemma BatchWriteTidy(u: Coins -> nat, v: View, child: map<Txid, Entry>, w: View)
    requires Tidy(v) && NoModifier(v) && w == BatchWrite(u, v, child) && forall t :: t in child ==> child[t].coins.IsTrimmed()
    ensures Tidy(w) && NoModifier(w)
  {
    match v
    case Disk(db) =>
      forall t | t in w.db ensures w.db[t].IsTrimmed() {
        assert w.db[t] == if t in child && child[t].isDirty then Stored(child[t].coins) else db[t];
        if t in child { StoredMeaning(child[t].coins); }
      }
    case Cache(_, l) =>
      forall t | t in w.layer.entries ensures w.layer.entries[t].coins.IsTrimmed() {
        WrittenAt(l.entries, child, t);
        assert w.layer.entries[t].coins == if t in child && child[t].isDirty then child[t].coins else l.entries[t].coins;
      }
  }

  /** On trimmed vectors the test is true exactly when some output is available. */
  lemma HaveCoinsExact(v: View, t: Txid)
    requires TrimmedInv(v) && NoModifier(v) && BaseIdle(v)
    ensures HaveCoins(v, t) <==> Unspent(v, t).Some?
    ensures HaveCoins(v, t) <==> Get(v, t).Some? && exists n: nat :: Get(v, t).value.IsAvailable(n)
  {
    TrimmedGet(v, t);
    if HaveCoins(v, t) {
      var c := Get(v, t).value;
      assert c.IsAvailable(|c.vout| - 1);
    }
  }

  /** Without trimming it is not: a vector of spent outputs passes the test. Such a vector is in no record of the
      database, since reading a record trims it. */
  lemma HaveCoinsUntrimmed()
    ensures var v := Cache(Disk(map[7 := Coins(false, false, [TxOut(-1, [])], 0, 0)]), EmptyLayer);
      Inv(v) && HaveCoins(v, 7) && Unspent(v, 7) == None
  {
    var c := Coins(false, false, [TxOut(-1, [])], 0, 0);
    assert Get(Disk(map[7 := c]), 7) == Some(c);
  }

  // ---------------------------------------------------------------------
  // Operations and runs
  // ---------------------------------------------------------------------

  datatype Op =
    | OpFetch(t: Txid)
    | OpModify(t: Txid)
    | OpModifyNew(t: Txid, coinbase: bool)
    | OpAssign(c: Coins)
    | OpClose
    | OpUncache(t: Txid)
    | OpFlush
    | OpPush
    | OpPop
    | OpBelow(op: Op)

  /** The operations that leave a view's meaning alone, and so may be done to a view that has caches over it. */
  predicate IsQuiet(op: Op) {
    match op
    case OpFetch(_) => true
    case OpUncache(_) => true
    case OpFlush => true
    case OpBelow(o) => IsQuiet(o)
    case _ => false
  }

  /** When the code may do an operation: a cache has one open handle at most, and a cache that has caches over
      it is not written to. */
  ghost predicate Enabled(v: View, op: Op) {
    match op
    case OpPush => NoModifier(v)
    case OpFetch(_) => v.Cache?
    case OpModify(_) => v.Cache? && NoModifier(v)
    case OpModifyNew(_, _) => v.Cache? && NoModifier(v)
    case OpAssign(_) => v.Cache? && v.layer.modifier.Some? && ModifierOk(v.layer)
    case OpClose => v.Cache? && v.layer.modifier.Some? && ModifierOk(v.layer)
    case OpUncache(_) => v.Cache?
    case OpFlush => v.Cache? && NoModifier(v) && NoModifier(v.base)
    case OpPop => v.Cache? && NoModifier(v)
    case OpBelow(o) => v.Cache? && IsQuiet(o) && Enabled(v.base, o)
  }

  /** A transaction that is opened as new is a coinbase, or the base has no unspent output for it. */
  ghost predicate OpensNew(v: View, op: Op)
    requires Enabled(v, op)
  {
    op.OpModifyNew? ==> op.coinbase || Unspent(v.base, op.t) == None
  }

  /** An entry that is emptied to be opened as new counted for nothing. */
  ghost predicate EmptiesNothing(u: Coins -> nat, v: View, op: Op)
    requires Enabled(v, op)
  {
    op.OpModifyNew? ==> UsageOf(u, Find(v.layer.entries, op.t)) == 0
  }

  ghost function Apply(u: Coins -> nat, v: View, op: Op): View
    requires Enabled(v, op)
  {
    match op
    case OpFetch(t) => Fetch(u, v, t)
    case OpModify(t) => Modify(u, v, t)
    case OpModifyNew(t, coinbase) => ModifyNew(v, t, coinbase)
    case OpAssign(c) => Assign(v, c)
    case OpClose => Close(u, v)
    case OpUncache(t) => Uncache(u, v, t)
    case OpFlush => Flush(u, v)
    case OpPush => Cache(v, EmptyLayer)
    case OpPop => v.base
    case OpBelow(o) => Cache(Apply(u, v.base, o), v.layer)
  }

  /** The records that an operation writes to the database keep their coins. */
  ghost predicate Stores(v: View, op: Op)
    requires Enabled(v, op)
  {
    match op
    case OpFlush => StoresKept(v.base, v.layer.entries)
    case OpBelow(o) => Stores(v.base, o)
    case _ => true
  }

  /** A quiet operation leaves the meaning of every view alone, from the one it is done to up to the top. */
  ghost predicate Transparent(u: Coins -> nat, v: View, op: Op)
    requires Enabled(v, op) && IsQuiet(op)
  {
    SameMeaning(v, Apply(u, v, op)) && (op.OpBelow? ==> Transparent(u, v.base, op.op))
  }

  lemma {:induction false} QuietKeeps(u: Coins -> nat, v: View, op: Op)
    requires Inv(v) && Enabled(v, op) && IsQuiet(op)
    ensures Transparent(u, v, op) <==> Stores(v, op)
    ensures Stores(v, op) ==> Inv(Apply(u, v, op))
  {
    match op
    case OpFetch(t) => FetchInv(u, v, t);
    case OpUncache(t) => UncacheInv(u, v, t, Uncache(u, v, t));
    case OpFlush => FlushInv(u, v, Flush(u, v));
    case OpBelow(o) =>
      QuietKeeps(u, v.base, o);
      if Stores(v.base, o) {
        SameMeaningEntries(v.base, Apply(u, v.base, o), v.layer.entries);
        SameMeaningAbove(v.base, Apply(u, v.base, o), v.layer);
      }
  }

  /** Every operation keeps the entries right, and every quiet one the meaning, exactly when what it opens as new
      is new and what it stores is kept. */
  lemma ApplyKeeps(u: Coins -> nat, v: View, op: Op, w: View)
    requires Inv(v) && Enabled(v, op) && w == Apply(u, v, op)
    ensures Inv(w) && (IsQuiet(op) ==> Transparent(u, v, op)) <==> OpensNew(v, op) && Stores(v, op)
  {
    if IsQuiet(op) {
      QuietKeeps(u, v, op);
    } else {
      match op
      case OpModify(t) => ModifyInv(u, v, t, w);
      case OpModifyNew(t, coinbase) => ModifyNewInv(v, t, coinbase, w);
      case OpAssign(c) => AssignInv(v, c, w);
      case OpClose => CloseInv(u, v, w);
      case _ =>
    }
  }

  lemma {:induction false} QuietCounts(u: Coins -> nat, v: View, op: Op)
    requires Handles(v) && Enabled(v, op) && IsQuiet(op)
    ensures Handles(Apply(u, v, op)) && (UsageInv(u, v) ==> UsageInv(u, Apply(u, v, op)))
  {
    match op
    case OpFetch(t) => FetchCounts(u, v, t);
    case OpUncache(t) => UncacheCounts(u, v, t, Uncache(u, v, t));
    case OpFlush =>
      FlushHandles(u, v, Flush(u, v));
      if UsageInv(u, v) { FlushCounts(u, v, Flush(u, v)); }
    case OpBelow(o) => QuietCounts(u, v.base, o);
  }

  /** Every operation keeps the usage exact exactly when what it empties counted for nothing. */
  lemma ApplyCounts(u: Coins -> nat, v: View, op: Op, w: View)
    requires Handles(v) && Enabled(v, op) && w == Apply(u, v, op)
    ensures Handles(w) && (UsageInv(u, v) ==> (UsageInv(u, w) <==> EmptiesNothing(u, v, op)))
  {
    if IsQuiet(op) {
      QuietCounts(u, v, op);
    } else {
      match op
      case OpModify(t) => ModifyCounts(u, v, t, w);
      case OpModifyNew(t, coinbase) => ModifyNewCounts(u, v, t, coinbase, w);
      case OpAssign(c) => AssignCounts(u, v, c, w);
      case OpClose => CloseCounts(u, v, w);
      case _ =>
    }
  }

  lemma {:induction false} ApplyTidy(u: Coins -> nat, v: View, op: Op)
    requires Tidy(v) && Enabled(v, op)
    ensures Tidy(Apply(u, v, op))
    ensures IsQuiet(op) && NoModifier(v) ==> NoModifier(Apply(u, v, op))
  {
    match op
    case OpFetch(t) => FetchTidy(u, v, t);
    case OpModify(t) => FetchTidy(u, v.base, t);
    case OpClose => CleanupKeeps(v.layer.entries[v.layer.modifier.value.txid].coins);
    case OpFlush => FlushTidy(u, v);
    case OpBelow(o) => ApplyTidy(u, v.base, o);
    case _ =>
  }

  ghost predicate IsRun(u: Coins -> nat, ops: seq<Op>, trace: seq<View>) {
    && |trace| == |ops| + 1
    && forall i :: 0 <= i < |ops| ==> Enabled(trace[i], ops[i]) && trace[i + 1] == Apply(u, trace[i], ops[i])
  }

  /** The first `n` steps of a run open as new only what is new, and store only what is kept. */
  ghost predicate RunKept(u: Coins -> nat, ops: seq<Op>, trace: seq<View>, n: nat)
    requires IsRun(u, ops, trace) && n <= |ops|
  {
    forall i :: 0 <= i < n ==> OpensNew(trace[i], ops[i]) && Stores(trace[i], ops[i])
  }

  ghost predicate RunEmptiesNothing(u: Coins -> nat, ops: seq<Op>, trace: seq<View>, n: nat)
    requires IsRun(u, ops, trace) && n <= |ops|
  {
    forall i :: 0 <= i < n ==> EmptiesNothing(u, trace[i], ops[i])
  }

  /** The invariant holds after each of the first `n` steps, and the quiet ones among them are transparent. */
  ghost predicate RunRight(u: Coins -> nat, ops: seq<Op>, trace: seq<View>, n: nat)
    requires IsRun(u, ops, trace) && n <= |ops|
  {
    && (forall i :: 0 <= i <= n ==> Inv(trace[i]))
    && (forall i :: 0 <= i < n && IsQuiet(ops[i]) ==> Transparent(u, trace[i], ops[i]))
  }

  /** Over every run, at every depth: clean entries equal what their base says, fresh entries are unknown to it, and
      fetching, uncaching and flushing leave the meaning of every view alone, exactly as long as only what is new is
      opened as new and the records written to the database keep their coins. A coinbase may be opened over entries
      of any kind. */
  lemma {:induction false} RunKeeps(u: Coins -> nat, ops: seq<Op>, trace: seq<View>, n: nat)
    requires IsRun(u, ops, trace) && trace[0].Disk? && n <= |ops|
    ensures RunRight(u, ops, trace, n) <==> RunKept(u, ops, trace, n)
  {
    if n > 0 {
      RunKeeps(u, ops, trace, n - 1);
      var v, w := trace[n - 1], trace[n];
      assert Enabled(v, ops[n - 1]) && trace[n - 1 + 1] == Apply(u, v, ops[n - 1]);
      if Inv(v) { ApplyKeeps(u, v, ops[n - 1], w); }
    }
  }

  lemma {:induction false} RunHandles(u: Coins -> nat, ops: seq<Op>, trace: seq<View>, n: nat)
    requires IsRun(u, ops, trace) && trace[0].Disk? && n <= |ops|
    ensures Handles(trace[n])
  {
    if n > 0 {
      RunHandles(u, ops, trace, n - 1);
      var v := trace[n - 1];
      assert Enabled(v, ops[n - 1]) && trace[n - 1 + 1] == Apply(u, v, ops[n - 1]);
      ApplyCounts(u, v, ops[n - 1], trace[n]);
    }
  }

  /** Over every run the cached usage is exact, exactly as long as no entry that counts for something is emptied to
      be opened as new. */
  lemma {:induction false} RunUsage(u: Coins -> nat, ops: seq<Op>, trace: seq<View>, n: nat)
    requires IsRun(u, ops, trace) && trace[0].Disk? && n <= |ops|
    ensures (forall i :: 0 <= i <= n ==> UsageInv(u, trace[i])) <==> RunEmptiesNothing(u, ops, trace, n)
  {
    if n > 0 {
      RunUsage(u, ops, trace, n - 1);
      RunHandles(u, ops, trace, n - 1);
      var v, w := trace[n - 1], trace[n];
      assert Enabled(v, ops[n - 1]) && trace[n - 1 + 1] == Apply(u, v, ops[n - 1]);
      ApplyCounts(u, v, ops[n - 1], w);
    }
  }

  // ---------------------------------------------------------------------
  // Runs that lose something
  // ---------------------------------------------------------------------

  /** A transaction is created in a fresh cache over an empty database. */
  ghost predicate Created(u: Coins -> nat, coinbase: bool, c: Coins, ops: seq<Op>, trace: seq<View>) {
    && IsRun(u, ops, trace) && trace[0] == Disk(map[])
    && [OpPush, OpModifyNew(7, coinbase), OpAssign(c), OpClose] <= ops
  }

  lemma CreatedCache(u: Coins -> nat, coinbase: bool, c: Coins, ops: seq<Op>, trace: seq<View>)
    requires Created(u, coinbase, c, ops, trace) && !c.IsPruned() && c.IsTrimmed()
    ensures |trace| > 4
    ensures trace[4] == Cache(Disk(map[]), Layer(map[7 := Entry(c, true, !coinbase)], u(c), None))
  {
    var start := [OpPush, OpModifyNew(7, coinbase), OpAssign(c), OpClose];
    forall i | 0 <= i < 4 ensures ops[i] == start[i] && Enabled(trace[i], ops[i]) && trace[i + 1] == Apply(u, trace[i], ops[i]) {}
    assert trace[1] == Cache(Disk(map[]), EmptyLayer);
    assert trace[2].layer.entries == map[7 := Entry(NoCoins, true, !coinbase)];
    assert trace[3].layer.entries == map[7 := Entry(c, true, !coinbase)];
    assert c.Cleanup() == c;
  }

  /** A coinstake that is flushed to the database comes back without its flag; equality of coins does not see it. */
  lemma CoinstakeLost(u: Coins -> nat, c: Coins, ops: seq<Op>, trace: seq<View>)
    requires Created(u, false, c, ops, trace) && !c.IsPruned() && Survives(c) && c.coinStake
    requires |ops| == 5 && ops[4] == OpFlush
    ensures Get(trace[4], 7) == Some(c) && Get(trace[5], 7) == Some(c.(coinStake := false))
    ensures Unspent(trace[5], 7) == Unspent(trace[4], 7)
  {
    CreatedCache(u, false, c, ops, trace);
    FlushedCache(u, false, c, ops, trace);
  }

  lemma FlushedCache(u: Coins -> nat, coinbase: bool, c: Coins, ops: seq<Op>, trace: seq<View>)
    requires Created(u, coinbase, c, ops, trace) && !c.IsPruned() && c.IsTrimmed() && |ops| > 4 && ops[4] == OpFlush
    ensures Get(trace[5], 7) == Some(Stored(c))
  {
    CreatedCache(u, coinbase, c, ops, trace);
    assert Enabled(trace[4], ops[4]) && trace[4 + 1] == Apply(u, trace[4], ops[4]);
    WrittenDbAt(map[], trace[4].layer.entries, 7);
    assert trace[5].base == Disk(WrittenDb(map[], trace[4].layer.entries));
  }

  /** A negative version that is flushed to the database comes back changed. */
  lemma VersionLost(u: Coins -> nat, c: Coins, ops: seq<Op>, trace: seq<View>)
    requires Created(u, false, c, ops, trace) && !c.IsPruned() && c.IsTrimmed() && c.version == -1 && c.height >= 0
    requires |ops| == 5 && ops[4] == OpFlush
    ensures Get(trace[5], 7) == Some(c.(coinStake := false, version := 127)) && Unspent(trace[5], 7) != Unspent(trace[4], 7)
  {
    CreatedCache(u, false, c, ops, trace);
    FlushedCache(u, false, c, ops, trace);
  }

  /** With a cache above that has fetched the coins, the flush below it breaks the invariant. */
  lemma VersionLostBelow(u: Coins -> nat, c: Coins, ops: seq<Op>, trace: seq<View>)
    requires Created(u, false, c, ops, trace) && !c.IsPruned() && c.IsTrimmed() && c.version < 0
    requires |ops| == 7 && ops[4..] == [OpPush, OpFetch(7), OpBelow(OpFlush)]
    ensures Inv(trace[6]) && !Inv(trace[7])
  {
    CreatedCache(u, false, c, ops, trace);
    var v, d := trace[4], WrittenDb(map[], trace[4].layer.entries);
    assert ops[4] == ops[4..][0] && ops[5] == ops[4..][1] && ops[6] == ops[4..][2];
    assert Enabled(trace[4], ops[4]) && trace[4 + 1] == Apply(u, trace[4], ops[4]);
    assert Enabled(trace[5], ops[5]) && trace[5 + 1] == Apply(u, trace[5], ops[5]);
    assert Enabled(trace[6], ops[6]) && trace[6 + 1] == Apply(u, trace[6], ops[6]);
    assert trace[5] == Cache(v, EmptyLayer) && Get(v, 7) == Some(c) && Fetch(u, v, 7) == v;
    assert trace[6] == Cache(v, Layer(map[7 := Entry(c, false, false)], u(c), None));
    assert trace[6].base == v && Apply(u, v, OpFlush) == Flush(u, v);
    assert trace[7] == Cache(Flush(u, v), trace[6].layer) && Flush(u, v).base == Disk(d);
    WrittenDbAt(map[], v.layer.entries, 7);
    assert Get(trace[7].base, 7) == Some(Stored(c));
    assert !EntryOk(trace[7].layer.entries[7], Get(trace[7].base, 7));
  }

  /** A transaction that is not a coinbase and is opened as new over unspent outputs of the base: when it is
      spent in the cache, the outputs of the base come back. */
  lemma OldOpenedAsNew(u: Coins -> nat, c: Coins, v: View, w: View)
    requires !c.IsPruned() && v == Cache(Disk(map[7 := c]), EmptyLayer) && w == Apply(u, v, OpModifyNew(7, false))
    ensures Inv(v) && !Inv(w) && Unspent(w, 7) == None && Get(Apply(u, w, OpClose), 7) == Some(c)
  {
    ApplyKeeps(u, v, OpModifyNew(7, false), w);
    assert w.layer.entries[7] == Entry(NoCoins, true, true);
    assert NoCoins.Cleanup() == NoCoins;
    assert Get(Disk(map[7 := c]), 7) == Some(c);
  }

  /** A second coinbase over a cached one: the entries stay right, and the usage of the first stays counted. */
  lemma SecondCoinbase(u: Coins -> nat, c: Coins, ops: seq<Op>, trace: seq<View>)
    requires Created(u, true, c, ops, trace) && !c.IsPruned() && c.IsTrimmed() && u(c) > 0
    requires |ops| == 5 && ops[4] == OpModifyNew(7, true)
    ensures Inv(trace[5]) && UsageInv(u, trace[4]) && !UsageInv(u, trace[5])
  {
    CreatedCache(u, true, c, ops, trace);
    var v := trace[4];
    assert Enabled(v, ops[4]) && trace[4 + 1] == Apply(u, v, ops[4]);
    SumRemove(u, v.layer.entries, 7);
    assert v.layer.entries - {7} == map[];
    ApplyKeeps(u, v, ops[4], trace[5]);
    ApplyCounts(u, v, ops[4], trace[5]);
  }

  // ---------------------------------------------------------------------
  // Having coins, over runs
  // ---------------------------------------------------------------------

  /** Over every run over a database of trimmed vectors, the test for coins is exact whenever no handle is open. */
  lemma {:induction false} RunHaveCoins(u: Coins -> nat, ops: seq<Op>, trace: seq<View>, i: nat)
    requires IsRun(u, ops, trace) && trace[0].Disk? && TrimmedInv(trace[0]) && i < |trace|
    ensures Tidy(trace[i])
    ensures NoModifier(trace[i]) ==> forall t :: HaveCoins(trace[i], t) <==> Unspent(trace[i], t).Some?
  {
    if i > 0 {
      RunHaveCoins(u, ops, trace, i - 1);
      assert Enabled(trace[i - 1], ops[i - 1]) && trace[i - 1 + 1] == Apply(u, trace[i - 1], ops[i - 1]);
      ApplyTidy(u, trace[i - 1], ops[i - 1]);
    }
    if NoModifier(trace[i]) {
      forall t ensures HaveCoins(trace[i], t) <==> Unspent(trace[i], t).Some? {
        HaveCoinsExact(trace[i], t);
      }
    }
  }

  // ---------------------------------------------------------------------
  // The plain map that a stack stands for
  // ---------------------------------------------------------------------

  /** What an operation does to the map from transactions to unspent outputs. Outputs change only when a handle
      is in use, and then only those of its transaction; discarding a cache uncovers what its base means; a flush to
      the database leaves what the records keep. */
  lemma ApplyMeaning(u: Coins -> nat, v: View, op: Op, w: View, x: Txid)
    requires Inv(v) && Enabled(v, op) && w == Apply(u, v, op)
    ensures match op
      case OpFlush => Unspent(w, x) == if v.base.Disk? && x in v.layer.entries && v.layer.entries[x].isDirty
        then Unpruned(Some(Stored(v.layer.entries[x].coins))) else Unspent(v, x)
      case OpBelow(_) => Stores(v, op) ==> Unspent(w, x) == Unspent(v, x)
      case OpModifyNew(t, _) => Unspent(w, x) == if x == t then None else Unspent(v, x)
      case OpAssign(c) => Unspent(w, x) == if x == v.layer.modifier.value.txid then Unpruned(Some(c)) else Unspent(v, x)
      case OpClose => Unspent(w, x) == if x == v.layer.modifier.value.txid
        then Unpruned(Some(v.layer.entries[x].coins.Cleanup())) else Unspent(v, x)
      case OpPop => Unspent(w, x) == Unspent(v.base, x)
      case _ => Unspent(w, x) == Unspent(v, x)
  {
    if op.OpFlush? {
      FlushMeaning(u, v, w, x);
    } else if IsQuiet(op) {
      QuietKeeps(u, v, op);
    } else {
      match op
      case OpModify(t) => ModifyInv(u, v, t, w);
      case OpModifyNew(t, coinbase) => ModifyNewInv(v, t, coinbase, w);
      case OpAssign(c) => AssignInv(v, c, w);
      case OpClose => CloseInv(u, v, w);
      case _ =>
    }
  }

  lemma FlushMeaning(u: Coins -> nat, v: View, w: View, x: Txid)
    requires v.Cache? && Inv(v) && NoModifier(v) && NoModifier(v.base) && w == Flush(u, v)
    ensures Unspent(w, x) == if v.base.Disk? && x in v.layer.entries && v.layer.entries[x].isDirty
      then Unpruned(Some(Stored(v.layer.entries[x].coins))) else Unspent(v, x)
  {
    var entries := v.layer.entries;
    assert Unspent(w, x) == Unspent(w.base, x);
    if v.base.Disk? {
      WrittenDbAt(v.base.db, entries, x);
      if x in entries { StoredMeaning(entries[x].coins); }
    } else {
      BatchWriteMeaning(u, v.base, entries, w.base, x);
    }
  }
}
