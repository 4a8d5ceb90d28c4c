/** What the caches keep: a stack of any depth means one plain map from transactions to unspent outputs. */
module CoinsProofs {
  import opened Common
  import opened CoinsState

  // ---------------------------------------------------------------------
  // The invariant
  // ---------------------------------------------------------------------

  /** An entry against what the base answers: a clean entry says the same, a fresh one is unknown to the base. */
  predicate EntryOk(e: Entry, below: Option<Coins>) {
    && (!e.isDirty ==> Unpruned(Some(e.coins)) == Unpruned(below))
    && (e.isFresh ==> Unpruned(below) == None)
  }

  ghost predicate EntriesOk(base: View, entries: map<Txid, Entry>) {
    forall t :: t in entries ==> EntryOk(entries[t], Get(base, t))
  }

  /** The entry being modified is there and dirty. */
  predicate ModifierOk(l: Layer) {
    l.modifier.Some? ==> l.modifier.value.txid in l.entries && l.entries[l.modifier.value.txid].isDirty
  }

  /** The cached usage is the sum over the entries, the one being modified counting as it did before. */
  ghost predicate UsageOk(u: Coins -> nat, l: Layer) {
    l.usage == match l.modifier
      case None => Sum(u, l.entries)
      case Some(m) => Sum(u, l.entries - {m.txid}) + m.cachedUsage
  }

  ghost predicate Inv(v: View) {
    v.Cache? ==> EntriesOk(v.base, v.layer.entries) && ModifierOk(v.layer) && Inv(v.base)
  }

  ghost predicate UsageInv(u: Coins -> nat, v: View) {
    v.Cache? ==> UsageOk(u, v.layer) && UsageInv(u, v.base)
  }

  /** At every level the entry being modified is there and dirty. */
  ghost predicate Handles(v: View) {
    v.Cache? ==> ModifierOk(v.layer) && Handles(v.base)
  }

  // ---------------------------------------------------------------------
  // Sums
  // ---------------------------------------------------------------------

  lemma {:induction false} SumRemove(u: Coins -> nat, entries: map<Txid, Entry>, t: Txid)
    requires t in entries
    ensures Sum(u, entries) == u(entries[t].coins) + Sum(u, entries - {t})
    decreases entries.Keys
  {
    var x :| x in entries && Sum(u, entries) == u(entries[x].coins) + Sum(u, entries - {x});
    if x != t {
      SumRemove(u, entries - {x}, t);
      SumRemove(u, entries - {t}, x);
      assert entries - {x} - {t} == entries - {t} - {x};
    }
  }

  lemma SumStore(u: Coins -> nat, entries: map<Txid, Entry>, t: Txid, e: Option<Entry>)
    ensures Sum(u, Store(entries, t, e)) == Sum(u, entries) - UsageOf(u, Find(entries, t)) + UsageOf(u, e)
  {
    assert t !in entries ==> entries - {t} == entries;
    if t in entries { SumRemove(u, entries, t); }
    if e.Some? {
      SumRemove(u, entries[t := e.value], t);
      assert entries[t := e.value] - {t} == entries - {t};
    }
  }

  // ---------------------------------------------------------------------
  // A base that means the same carries the same caches
  // ---------------------------------------------------------------------

  lemma SameMeaningEntries(base: View, other: View, entries: map<Txid, Entry>)
    requires EntriesOk(base, entries) && SameMeaning(base, other)
    ensures EntriesOk(other, entries)
  {
    forall t | t in entries ensures EntryOk(entries[t], Get(other, t)) {
      assert Unspent(base, t) == Unspent(other, t);
    }
  }

  lemma SameMeaningAbove(base: View, other: View, l: Layer)
    requires SameMeaning(base, other)
    ensures SameMeaning(Cache(base, l), Cache(other, l))
  {
    forall t ensures Unspent(Cache(base, l), t) == Unspent(Cache(other, l), t) {
      assert Unspent(base, t) == Unspent(other, t);
    }
  }

  // ---------------------------------------------------------------------
  // Fetching
  // ---------------------------------------------------------------------

  /** Fetching leaves every answer as it was, at every level. */
  lemma {:induction false} FetchGet(u: Coins -> nat, v: View, t: Txid)
    ensures forall x :: Get(Fetch(u, v, t), x) == Get(v, x)
  {
    if v.Cache? && t !in v.layer.entries {
      FetchGet(u, v.base, t);
    }
  }

  lemma {:induction false} FetchInv(u: Coins -> nat, v: View, t: Txid)
    requires Inv(v)
    ensures Inv(Fetch(u, v, t)) && SameMeaning(v, Fetch(u, v, t))
  {
    FetchGet(u, v, t);
    if v.Cache? && t !in v.layer.entries {
      FetchInv(u, v.base, t);
      FetchGet(u, v.base, t);
    }
  }

  // ---------------------------------------------------------------------
  // Modifying
  // ---------------------------------------------------------------------

  /** Cleaning up removes null outputs only, and leaves none at the end. */
  lemma {:induction false} TrimKeeps(vout: seq<TxOut>)
    ensures Trim(vout) <= vout
    ensures forall i :: |Trim(vout)| <= i < |vout| ==> vout[i].IsNull()
    ensures |Trim(vout)| > 0 ==> !Trim(vout)[|Trim(vout)| - 1].IsNull()
  {
    if |vout| > 0 && vout[|vout| - 1].IsNull() {
      TrimKeeps(vout[..|vout| - 1]);
    }
  }

  lemma CleanupKeeps(c: Coins)
    ensures c.Cleanup().IsTrimmed() && (c.Cleanup().IsPruned() <==> c.IsPruned())
    ensures forall n: nat :: c.Cleanup().IsAvailable(n) <==> c.IsAvailable(n)
  {
    TrimKeeps(c.vout);
  }

  lemma ModifyCached(u: Coins -> nat, v: View, t: Txid, w: View)
    requires v.Cache? && Inv(v) && v.layer.modifier.None? && t in v.layer.entries && w == Modify(u, v, t)
    ensures Inv(w) && SameMeaning(v, w)
  {
  }

  lemma ModifyFetched(u: Coins -> nat, v: View, t: Txid, w: View)
    requires v.Cache? && Inv(v) && v.layer.modifier.None? && t !in v.layer.entries && w == Modify(u, v, t)
    ensures Inv(w) && SameMeaning(v, w)
  {
    FetchInv(u, v.base, t);
    FetchGet(u, v.base, t);
    assert w.base == Fetch(u, v.base, t);
    forall x ensures Unspent(v, x) == Unspent(w, x) {
      assert Get(w.base, x) == Get(v.base, x);
    }
  }

  /** Opening an entry changes neither the meaning nor the invariant. */
  lemma ModifyInv(u: Coins -> nat, v: View, t: Txid, w: View)
    requires v.Cache? && Inv(v) && v.layer.modifier.None? && w == Modify(u, v, t)
    ensures Inv(w) && SameMeaning(v, w)
  {
    if t in v.layer.entries { ModifyCached(u, v, t, w); } else { ModifyFetched(u, v, t, w); }
  }

  /** Opening an entry as new keeps the invariant exactly when the base has no unspent output for it, or it is
      of a coinbase. */
  lemma ModifyNewInv(v: View, t: Txid, coinbase: bool, w: View)
    requires v.Cache? && Inv(v) && v.layer.modifier.None? && w == ModifyNew(v, t, coinbase)
    ensures Inv(w) <==> coinbase || Unspent(v.base, t) == None
    ensures forall x :: x != t ==> Get(w, x) == Get(v, x)
  {
    assert EntryOk(w.layer.entries[t], Get(v.base, t)) <==> coinbase || Unspent(v.base, t) == None;
  }

  lemma AssignInv(v: View, c: Coins, w: View)
    requires v.Cache? && Inv(v) && v.layer.modifier.Some? && w == Assign(v, c)
    ensures Inv(w)
    ensures forall x :: x != v.layer.modifier.value.txid ==> Get(w, x) == Get(v, x)
    ensures Get(w, v.layer.modifier.value.txid) == Some(c)
  {
  }

  /** Closing the handle leaves the cleaned-up coins visible, or nothing if all is spent, and nothing else changes. */
  lemma CloseInv(u: Coins -> nat, v: View, w: View)
    requires v.Cache? && Inv(v) && v.layer.modifier.Some? && w == Close(u, v)
    ensures Inv(w) && w.layer.modifier.None?
    ensures forall x :: x != v.layer.modifier.value.txid ==> Get(w, x) == Get(v, x)
    ensures var t := v.layer.modifier.value.txid;
      Unspent(w, t) == Unpruned(Some(v.layer.entries[t].coins.Cleanup()))
  {
    CleanupKeeps(v.layer.entries[v.layer.modifier.value.txid].coins);
  }

  lemma UncacheInv(u: Coins -> nat, v: View, t: Txid, w: View)
    requires v.Cache? && Inv(v) && w == Uncache(u, v, t)
    ensures Inv(w) && SameMeaning(v, w)
  {
    if w != v {
      assert EntryOk(v.layer.entries[t], Get(v.base, t));
    }
  }

  // ---------------------------------------------------------------------
  // Flushing
  // ---------------------------------------------------------------------

  ghost predicate NoModifier(v: View) {
    v.Cache? ==> v.layer.modifier.None?
  }

  lemma WrittenAt(entries: map<Txid, Entry>, child: map<Txid, Entry>, t: Txid)
    ensures Find(WrittenEntries(entries, child), t) == Written(entries, child, t)
  {
  }

  /** Writing a child's entry over a cache's keeps the entry right and makes the cache answer as the child did. */
  lemma MergeOk(ours: Option<Entry>, child: Entry, below: Option<Coins>)
    requires ours.Some? ==> EntryOk(ours.value, below)
    requires EntryOk(child, if ours.Some? then Some(ours.value.coins) else below) && child.isDirty
    ensures var m := Merge(ours, child);
      && (m.Some? ==> EntryOk(m.value, below))
      && Unpruned(if m.Some? then Some(m.value.coins) else below) == Unpruned(Some(child.coins))
  {
  }

  /** Coins that the record keeps, up to equality of coins. */
  predicate Survives(c: Coins) {
    c.IsTrimmed() && c.version >= 0 && c.height >= 0
  }

  lemma StoredMeaning(c: Coins)
    ensures Stored(c).IsTrimmed() && (Stored(c).IsPruned() <==> c.IsPruned())
    ensures Equal(Stored(c), c) <==> c.IsPruned() || Survives(c)
    ensures Present(Some(Stored(c))) == Present(Some(c)) <==> c.IsPruned() || (Survives(c) && !c.coinStake)
  {
    CleanupKeeps(c);
    assert c.IsTrimmed() <==> Trim(c.vout) == c.vout;
    assert Stored(c).IsPruned() <==> c.Cleanup().IsPruned();
  }

  /** The dirty entries that a database would store are all kept by their records. */
  ghost predicate StoresKept(v: View, child: map<Txid, Entry>) {
    v.Disk? ==> forall t :: t in child && child[t].isDirty && !child[t].coins.IsPruned() ==> Survives(child[t].coins)
  }

  lemma WriteDiskMeaning(db: map<Txid, Coins>, child: map<Txid, Entry>, t: Txid)
    requires t in child ==> EntryOk(child[t], Get(Disk(db), t))
    ensures Unspent(Disk(WrittenDb(db, child)), t) == Unpruned(Over(child, t, Get(Disk(db), t))) <==>
            (t in child && child[t].isDirty && !child[t].coins.IsPruned() ==> Survives(child[t].coins))
  {
    if t in child && child[t].isDirty {
      StoredMeaning(child[t].coins);
      EqualMeans(Stored(child[t].coins), child[t].coins);
    }
  }

  lemma WriteCacheMeaning(base: View, l: Layer, entries: map<Txid, Entry>, usage: int, child: map<Txid, Entry>, t: Txid)
    requires EntriesOk(base, l.entries) && (t in child ==> EntryOk(child[t], Get(Cache(base, l), t)))
    requires entries == WrittenEntries(l.entries, child)
    ensures Unspent(Cache(base, l.(entries := entries, usage := usage)), t) == Unpruned(Over(child, t, Get(Cache(base, l), t)))
    ensures t in entries ==> EntryOk(entries[t], Get(base, t))
  {
    WrittenAt(l.entries, child, t);
    WrittenOk(base, l.entries, child, t);
    var m := Written(l.entries, child, t);
    assert Get(Cache(base, l.(entries := entries, usage := usage)), t) == if m.Some? then Some(m.value.coins) else Get(base, t);
  }

  lemma BatchWriteMeaning(u: Coins -> nat, v: View, child: map<Txid, Entry>, w: View, t: Txid)
    requires Inv(v) && EntriesOk(v, child) && w == BatchWrite(u, v, child)
    ensures Unspent(w, t) == Unpruned(Over(child, t, Get(v, t))) <==>
            (v.Disk? && t in child && child[t].isDirty && !child[t].coins.IsPruned() ==> Survives(child[t].coins))
    ensures v.Cache? && t in w.layer.entries ==> EntryOk(w.layer.entries[t], Get(v.base, t))
  {
    match v
    case Disk(db) => WriteDiskMeaning(db, child, t);
    case Cache(base, l) => WriteCacheMeaning(base, l, w.layer.entries, w.layer.usage, child, t);
  }

  lemma WrittenOk(base: View, entries: map<Txid, Entry>, child: map<Txid, Entry>, t: Txid)
    requires EntriesOk(base, entries) && (t in child ==> EntryOk(child[t], Over(entries, t, Get(base, t))))
    ensures var m := Written(entries, child, t); var below := Get(base, t);
      && (m.Some? ==> EntryOk(m.value, below))
      && (t in child && child[t].isDirty ==> Unpruned(if m.Some? then Some(m.value.coins) else below) == Unpruned(Some(child[t].coins)))
  {
    if t in child && child[t].isDirty {
      MergeOk(Find(entries, t), child[t], Get(base, t));
    }
  }

  /** What a view means after the entries of a child have been written to it: what the child meant. */
  ghost predicate TookOver(v: View, child: map<Txid, Entry>, w: View) {
    forall t :: Unspent(w, t) == Unpruned(Over(child, t, Get(v, t)))
  }

  /** Writing a child's entries keeps the invariant; the view then means what the child did, exactly when every
      record that a database writes for them keeps its coins. */
  lemma BatchWriteInv(u: Coins -> nat, v: View, child: map<Txid, Entry>, w: View)
    requires Inv(v) && EntriesOk(v, child) && NoModifier(v) && w == BatchWrite(u, v, child)
    ensures Inv(w) && NoModifier(w) && (TookOver(v, child, w) <==> StoresKept(v, child))
  {
    forall t ensures Unspent(w, t) == Unpruned(Over(child, t, Get(v, t))) <==>
      (v.Disk? && t in child && child[t].isDirty && !child[t].coins.IsPruned() ==> Survives(child[t].coins))
    {
      BatchWriteMeaning(u, v, child, w, t);
    }
    if v.Cache? {
      forall t | t in w.layer.entries ensures EntryOk(w.layer.entries[t], Get(w.base, t)) {
        BatchWriteMeaning(u, v, child, w, t);
      }
    }
    if TookOver(v, child, w) && v.Disk? {
      forall t | t in child && child[t].isDirty && !child[t].coins.IsPruned() ensures Survives(child[t].coins) {
        assert Unspent(w, t) == Unpruned(Over(child, t, Get(v, t)));
      }
    }
  }

  /** A flush is transparent exactly when every record that a database writes for it keeps its coins: the base
      means afterwards what the cache meant before, and so does the emptied cache. */
  lemma FlushInv(u: Coins -> nat, v: View, w: View)
    requires v.Cache? && Inv(v) && NoModifier(v) && NoModifier(v.base) && w == Flush(u, v)
    ensures Inv(w) && SameMeaning(w, w.base)
    ensures SameMeaning(v, w) <==> StoresKept(v.base, v.layer.entries)
  {
    BatchWriteInv(u, v.base, v.layer.entries, w.base);
    forall t ensures Unspent(w, t) == Unspent(w.base, t) &&
      (Unspent(v, t) == Unspent(w, t) <==> Unspent(w.base, t) == Unpruned(Over(v.layer.entries, t, Get(v.base, t)))) {}
    if SameMeaning(v, w) {
      forall t ensures Unspent(w.base, t) == Unpruned(Over(v.layer.entries, t, Get(v.base, t))) {
        assert Unspent(v, t) == Unspent(w, t);
      }
      assert TookOver(v.base, v.layer.entries, w.base);
    }
  }

  lemma WrittenDbAt(db: map<Txid, Coins>, child: map<Txid, Entry>, t: Txid)
    ensures Get(Disk(WrittenDb(db, child)), t) == WrittenCoins(db, child, t)
  {
  }

  /** A dirty entry is stored as it is, flag included. */
  predicate StoredWhole(e: Entry) {
    e.isDirty && !e.coins.IsPruned() ==> Survives(e.coins) && !e.coins.coinStake
  }

  /** A clean entry is the same coins as in the base, flag included. */
  predicate CleanExact(e: Entry, below: Option<Coins>) {
    !e.isDirty ==> Present(Some(e.coins)) == Present(below)
  }

  lemma WriteExact(db: map<Txid, Coins>, child: map<Txid, Entry>, t: Txid)
    requires t in child ==> CleanExact(child[t], Get(Disk(db), t))
    ensures Present(WrittenCoins(db, child, t)) == Present(Over(child, t, Get(Disk(db), t))) <==>
            (t in child ==> StoredWhole(child[t]))
  {
    if t in child && child[t].isDirty { StoredMeaning(child[t].coins); }
  }

  /** Two views answer with the same coins, flag included. */
  predicate ExactAt(v: View, w: View, t: Txid) {
    Present(Get(w, t)) == Present(Get(v, t))
  }

  /** A flush to the database leaves every coin as it was, flag included, exactly when no dirty entry with an
      unspent output is a coinstake, has a negative number, or has a spent output at the end. */
  lemma FlushExact(u: Coins -> nat, db: map<Txid, Coins>, l: Layer, v: View, w: View)
    requires v == Cache(Disk(db), l) && w == Flush(u, v)
    requires forall t :: t in l.entries ==> CleanExact(l.entries[t], Get(Disk(db), t))
    ensures (forall t :: ExactAt(v, w, t)) <==> (forall t :: t in l.entries ==> StoredWhole(l.entries[t]))
  {
    forall t ensures ExactAt(v, w, t) <==> (t in l.entries ==> StoredWhole(l.entries[t])) {
      assert w.base == Disk(WrittenDb(db, l.entries)) && Get(w, t) == Get(w.base, t);
      assert Get(v, t) == Over(l.entries, t, Get(Disk(db), t));
      WrittenDbAt(db, l.entries, t);
      WriteExact(db, l.entries, t);
    }
    if forall t :: ExactAt(v, w, t) {
      forall t | t in l.entries ensures StoredWhole(l.entries[t]) {
        assert ExactAt(v, w, t);
      }
    }
  }

  // ---------------------------------------------------------------------
  // Usage
  // ---------------------------------------------------------------------

  lemma {:induction false} InvHandles(v: View)
    requires Inv(v)
    ensures Handles(v)
  {
    if v.Cache? { InvHandles(v.base); }
  }

  lemma FetchUsage(u: Coins -> nat, l: Layer, t: Txid, e: Entry)
    requires UsageOk(u, l) && t !in l.entries && ModifierOk(l)
    ensures UsageOk(u, l.(entries := l.entries[t := e], usage := l.usage + u(e.coins)))
  {
    SumStore(u, l.entries, t, Some(e));
    if l.modifier.Some? {
      var m := l.modifier.value.txid;
      SumStore(u, l.entries - {m}, t, Some(e));
      assert l.entries[t := e] - {m} == (l.entries - {m})[t := e];
    }
  }

  lemma {:induction false} FetchCounts(u: Coins -> nat, v: View, t: Txid)
    requires Handles(v)
    ensures Handles(Fetch(u, v, t)) && (UsageInv(u, Fetch(u, v, t)) <==> UsageInv(u, v))
  {
    if v.Cache? && t !in v.layer.entries {
      FetchCounts(u, v.base, t);
      var c := Get(v.base, t);
      if c.Some? { FetchUsageOk(u, v.layer, t, FetchedEntry(c.value)); }
    }
  }

  lemma FetchUsageOk(u: Coins -> nat, l: Layer, t: Txid, e: Entry)
    requires t !in l.entries && ModifierOk(l)
    ensures UsageOk(u, l.(entries := l.entries[t := e], usage := l.usage + u(e.coins))) <==> UsageOk(u, l)
  {
    var d := l.(usage := match l.modifier
      case None => Sum(u, l.entries)
      case Some(m) => Sum(u, l.entries - {m.txid}) + m.cachedUsage);
    FetchUsage(u, d, t, e);
  }

  lemma ModifyCounts(u: Coins -> nat, v: View, t: Txid, w: View)
    requires v.Cache? && Handles(v) && v.layer.modifier.None? && w == Modify(u, v, t)
    ensures Handles(w) && (UsageInv(u, w) <==> UsageInv(u, v))
  {
    if t in v.layer.entries {
      SumRemove(u, v.layer.entries, t);
      assert w.layer.entries - {t} == v.layer.entries - {t};
    } else {
      FetchCounts(u, v.base, t);
      assert w.layer.entries - {t} == v.layer.entries;
    }
  }

  /** Opening an entry as new keeps the usage exact exactly when the entry it empties counted for nothing. */
  lemma ModifyNewCounts(u: Coins -> nat, v: View, t: Txid, coinbase: bool, w: View)
    requires v.Cache? && Handles(v) && v.layer.modifier.None? && w == ModifyNew(v, t, coinbase)
    ensures Handles(w)
    ensures UsageInv(u, v) ==> (UsageInv(u, w) <==> UsageOf(u, Find(v.layer.entries, t)) == 0)
  {
    var l := v.layer;
    assert w.layer.entries - {t} == l.entries - {t};
    if t in l.entries { SumRemove(u, l.entries, t); } else { assert l.entries - {t} == l.entries; }
  }

  lemma AssignCounts(u: Coins -> nat, v: View, c: Coins, w: View)
    requires v.Cache? && Handles(v) && v.layer.modifier.Some? && w == Assign(v, c)
    ensures Handles(w) && (UsageInv(u, w) <==> UsageInv(u, v))
  {
    var t := v.layer.modifier.value.txid;
    assert w.layer.entries - {t} == v.layer.entries - {t};
  }

  lemma CloseCounts(u: Coins -> nat, v: View, w: View)
    requires v.Cache? && Handles(v) && v.layer.modifier.Some? && w == Close(u, v)
    ensures Handles(w) && (UsageInv(u, w) <==> UsageInv(u, v))
  {
    var l, t := v.layer, v.layer.modifier.value.txid;
    if t in w.layer.entries {
      SumRemove(u, w.layer.entries, t);
      assert w.layer.entries - {t} == l.entries - {t};
    }
  }

  lemma UncacheCounts(u: Coins -> nat, v: View, t: Txid, w: View)
    requires v.Cache? && Handles(v) && w == Uncache(u, v, t)
    ensures Handles(w) && (UsageInv(u, w) <==> UsageInv(u, v))
  {
    var l := v.layer;
    if w != v {
      SumRemove(u, l.entries, t);
      if l.modifier.Some? {
        var m := l.modifier.value.txid;
        SumRemove(u, l.entries - {m}, t);
        assert l.entries - {t} - {m} == l.entries - {m} - {t};
      }
    }
  }

  lemma FlushCounts(u: Coins -> nat, v: View, w: View)
    requires v.Cache? && Handles(v) && NoModifier(v) && NoModifier(v.base) && w == Flush(u, v) && UsageInv(u, v)
    ensures UsageInv(u, w)
  {
  }

  lemma FlushHandles(u: Coins -> nat, v: View, w: View)
    requires v.Cache? && Handles(v) && NoModifier(v) && NoModifier(v.base) && w == Flush(u, v)
    ensures Handles(w)
  {
  }
}
