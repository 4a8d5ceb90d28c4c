/** The coin caches as the program has them: objects linked to their base, which they read through and write back to. */
module CoinsCacheObject {
  import opened Common
  import opened CoinsState
  import opened CoinsProofs
  import opened CoinsRuns

  // ---------------------------------------------------------------------
  // Writing a child's entries one by one
  // ---------------------------------------------------------------------

  function Only(child: map<Txid, Entry>, keys: set<Txid>): map<Txid, Entry> {
    map t | t in child && t in keys :: child[t]
  }

  lemma OnlyNone(u: Coins -> nat, l: Layer, child: map<Txid, Entry>)
    ensures WrittenLayer(u, l, Only(child, {})) == l
  {
    assert WrittenEntries(l.entries, Only(child, {})) == l.entries;
  }

  lemma OnlyNoneDb(db: map<Txid, Coins>, child: map<Txid, Entry>)
    ensures WrittenDb(db, Only(child, {})) == db
  {
  }

  lemma OnlyAll(child: map<Txid, Entry>)
    ensures Only(child, child.Keys) == child
  {
  }

  /** Writing one more entry, in whatever order, extends the batch by that entry. */
  lemma WriteOne(u: Coins -> nat, l: Layer, child: map<Txid, Entry>, done: set<Txid>, t: Txid)
    requires t in child && t !in done
    ensures WrittenLayer(u, l, Only(child, done + {t})) == WriteEntry(u, WrittenLayer(u, l, Only(child, done)), t, child[t])
  {
    WriteOneEntries(l.entries, child, done, t);
    var before := WrittenEntries(l.entries, Only(child, done));
    if child[t].isDirty {
      SumStore(u, before, t, Merge(Find(before, t), child[t]));
    }
  }

  lemma WriteOneDb(db: map<Txid, Coins>, child: map<Txid, Entry>, done: set<Txid>, t: Txid)
    requires t in child && t !in done
    ensures WrittenDb(db, Only(child, done + {t})) == WriteDb(WrittenDb(db, Only(child, done)), t, child[t])
  {
    var a, b := Only(child, done), Only(child, done + {t});
    var after := WriteDb(WrittenDb(db, a), t, child[t]);
    forall x ensures Get(Disk(WrittenDb(db, b)), x) == Get(Disk(after), x) {
      WrittenDbAt(db, a, x);
      WrittenDbAt(db, b, x);
    }
    SameDbs(WrittenDb(db, b), after);
  }

  lemma SameDbs(m: map<Txid, Coins>, n: map<Txid, Coins>)
    requires forall x :: Get(Disk(m), x) == Get(Disk(n), x)
    ensures m == n
  {
    assert forall x :: (x in m <==> Get(Disk(m), x).Some?) && (x in n <==> Get(Disk(n), x).Some?);
  }

  lemma WriteOneEntries(entries: map<Txid, Entry>, child: map<Txid, Entry>, done: set<Txid>, t: Txid)
    requires t in child && t !in done
    ensures var before := WrittenEntries(entries, Only(child, done));
      WrittenEntries(entries, Only(child, done + {t})) ==
      if child[t].isDirty then Store(before, t, Merge(Find(before, t), child[t])) else before
  {
    var a, b := Only(child, done), Only(child, done + {t});
    var before := WrittenEntries(entries, a);
    var after := if child[t].isDirty then Store(before, t, Merge(Find(before, t), child[t])) else before;
    forall x ensures Find(WrittenEntries(entries, b), x) == Find(after, x) {
      WrittenAt(entries, a, x);
      WrittenAt(entries, b, x);
      WrittenAt(entries, a, t);
    }
    SameFinds(WrittenEntries(entries, b), after);
  }

  lemma SameFinds(m: map<Txid, Entry>, n: map<Txid, Entry>)
    requires forall x :: Find(m, x) == Find(n, x)
    ensures m == n
  {
    assert forall x :: (x in m <==> Find(m, x).Some?) && (x in n <==> Find(n, x).Some?);
  }

  // ---------------------------------------------------------------------
  // The objects
  // ---------------------------------------------------------------------

  class CoinsDb {
    var db: map<Txid, Coins>

    constructor (db: map<Txid, Coins>)
      ensures this.db == db
    {
      this.db := db;
    }

    method WriteOver(t: Txid, child: Entry)
      modifies this
      ensures db == WriteDb(old(db), t, child)
    {
      if child.isDirty {
        if child.coins.IsPruned() {
          db := db - {t};
        } else {
          db := db[t := Stored(child.coins)];
        }
      }
    }

    /** Writes the dirty entries of a cache, erasing what is pruned. */
    method BatchWrite(child: map<Txid, Entry>)
      modifies this
      ensures db == WrittenDb(old(db), child)
    {
      var todo := child.Keys;
      ghost var done: set<Txid> := {};
      ghost var was := db;
      OnlyNoneDb(db, child);
      while todo != {}
        invariant todo !! done && todo + done == child.Keys
        invariant db == WrittenDb(was, Only(child, done))
      {
        var t :| t in todo;
        WriteOneDb(was, child, done, t);
        WriteOver(t, child[t]);
        todo, done := todo - {t}, done + {t};
      }
      OnlyAll(child);
    }
  }

  datatype Base = OnDb(disk: CoinsDb) | OnCache(cache: CoinsViewCache)

  class CoinsViewCache {
    const u: Coins -> nat
    const base: Base
    ghost const depth: nat
    ghost const Repr: set<object>
    var cacheCoins: map<Txid, Entry>
    var cachedCoinsUsage: int
    var modifier: Option<Modifier>

    /** The stack of objects below this one is linked as it was built. */
    ghost predicate Valid()
      decreases depth
    {
      match base
      case OnDb(d) => Repr == {this, d}
      case OnCache(c) =>
        c.depth < depth && c.u == u && this !in c.Repr && Repr == {this} + c.Repr && c.Valid()
    }

    ghost function BaseView(): View
      requires Valid()
      reads Repr
      decreases depth, 0
    {
      match base
      case OnDb(d) => Disk(d.db)
      case OnCache(c) => c.View()
    }

    ghost function View(): View
      requires Valid()
      reads Repr
      decreases depth, 1
    {
      Cache(BaseView(), Layer(cacheCoins, cachedCoinsUsage, modifier))
    }

    constructor OverDb(u: Coins -> nat, d: CoinsDb)
      ensures Valid() && fresh(Repr - {d}) && View() == Cache(Disk(d.db), EmptyLayer)
    {
      this.u, base, depth, Repr := u, OnDb(d), 0, {this, d};
      cacheCoins, cachedCoinsUsage, modifier := map[], 0, None;
    }

    constructor OverCache(c: CoinsViewCache)
      requires c.Valid()
      ensures Valid() && fresh(Repr - c.Repr) && View() == Cache(c.View(), EmptyLayer)
    {
      u, base, depth, Repr := c.u, OnCache(c), c.depth + 1, {this} + c.Repr;
      cacheCoins, cachedCoinsUsage, modifier := map[], 0, None;
    }

    /** Asks the base, which may load the coins into caches further down. */
    method FetchBase(t: Txid) returns (r: Option<Coins>)
      requires Valid()
      modifies Repr - {this}
      ensures r == Get(old(BaseView()), t) && BaseView() == Fetch(u, old(BaseView()), t)
      decreases depth, 0
    {
      match base
      case OnDb(d) => r := if t in d.db then Some(d.db[t]) else None;
      case OnCache(c) => r := c.FetchCoins(t);
    }

    method FetchCoins(t: Txid) returns (r: Option<Coins>)
      requires Valid()
      modifies Repr
      ensures r == Get(old(View()), t) && View() == Fetch(u, old(View()), t)
      decreases depth, 1
    {
      if t in cacheCoins {
        return Some(cacheCoins[t].coins);
      }
      r := FetchBase(t);
      if r.Some? {
        cacheCoins := cacheCoins[t := Entry(r.value, false, r.value.IsPruned())];
        cachedCoinsUsage := cachedCoinsUsage + u(r.value);
      }
    }

    /** Opens an entry for modification. */
    method ModifyCoins(t: Txid)
      requires Valid() && modifier.None?
      modifies Repr
      ensures View() == Modify(u, old(View()), t)
    {
      if t in cacheCoins {
        modifier := Some(Modifier(t, u(cacheCoins[t].coins)));
        cacheCoins := cacheCoins[t := cacheCoins[t].(isDirty := true)];
      } else {
        var r := FetchBase(t);
        var e := Entry(NoCoins, false, false);
        if r.None? {
          e := e.(coins := NoCoins, isFresh := true);
        } else {
          e := e.(coins := r.value);
          if e.coins.IsPruned() {
            e := e.(isFresh := true);
          }
        }
        cacheCoins := cacheCoins[t := e.(isDirty := true)];
        modifier := Some(Modifier(t, 0));
      }
    }

    /** Opens an emptied entry for a transaction that is taken to be new. */
    method ModifyNewCoins(t: Txid, coinbase: bool)
      requires Valid() && modifier.None?
      modifies this
      ensures View() == ModifyNew(old(View()), t, coinbase)
    {
      var e := if t in cacheCoins then cacheCoins[t] else Entry(NoCoins, false, false);
      e := e.(coins := NoCoins);
      if !coinbase {
        e := e.(isDirty := false, isFresh := true);
      }
      cacheCoins := cacheCoins[t := e.(isDirty := true)];
      modifier := Some(Modifier(t, 0));
    }

    /** A change made through the open handle. */
    method AssignCoins(c: Coins)
      requires Valid() && modifier.Some? && modifier.value.txid in cacheCoins
      modifies this
      ensures View() == Assign(old(View()), c)
    {
      cacheCoins := cacheCoins[modifier.value.txid := cacheCoins[modifier.value.txid].(coins := c)];
    }

    /** Closes the handle. */
    method CloseModifier()
      requires Valid() && modifier.Some? && modifier.value.txid in cacheCoins
      modifies this
      ensures View() == Close(u, old(View()))
    {
      var t, usage := modifier.value.txid, modifier.value.cachedUsage;
      modifier := None;
      var vout := CleanUp(cacheCoins[t].coins.vout);
      var e := cacheCoins[t].(coins := cacheCoins[t].coins.(vout := vout));
      cachedCoinsUsage := cachedCoinsUsage - usage;
      if e.isFresh && e.coins.IsPruned() {
        cacheCoins := cacheCoins - {t};
      } else {
        cacheCoins := cacheCoins[t := e];
        cachedCoinsUsage := cachedCoinsUsage + u(e.coins);
      }
    }

    method UncacheCoins(t: Txid)
      requires Valid()
      modifies this
      ensures View() == Uncache(u, old(View()), t)
    {
      if t in cacheCoins && !cacheCoins[t].isDirty && !cacheCoins[t].isFresh {
        cachedCoinsUsage := cachedCoinsUsage - u(cacheCoins[t].coins);
        cacheCoins := cacheCoins - {t};
      }
    }

    /** Writes one entry of a child over this cache. */
    method WriteOver(t: Txid, child: Entry)
      requires Valid()
      modifies this`cacheCoins, this`cachedCoinsUsage
      ensures Layer(cacheCoins, cachedCoinsUsage, modifier) == WriteEntry(u, old(Layer(cacheCoins, cachedCoinsUsage, modifier)), t, child)
    {
      if child.isDirty {
        if t !in cacheCoins {
          if !(child.isFresh && child.coins.IsPruned()) {
            cacheCoins := cacheCoins[t := Entry(child.coins, true, child.isFresh)];
            cachedCoinsUsage := cachedCoinsUsage + u(child.coins);
          } else {
            assert cacheCoins - {t} == cacheCoins;
          }
        } else {
          var ours := cacheCoins[t];
          cachedCoinsUsage := cachedCoinsUsage - u(ours.coins);
          if ours.isFresh && child.coins.IsPruned() {
            cacheCoins := cacheCoins - {t};
          } else {
            cacheCoins := cacheCoins[t := ours.(coins := child.coins, isDirty := true)];
            cachedCoinsUsage := cachedCoinsUsage + u(child.coins);
          }
        }
      }
    }

    method BatchWrite(child: map<Txid, Entry>)
      requires Valid() && modifier.None?
      modifies this`cacheCoins, this`cachedCoinsUsage
      ensures View() == CoinsState.BatchWrite(u, old(View()), child)
    {
      ghost var l := Layer(cacheCoins, cachedCoinsUsage, modifier);
      var todo := child.Keys;
      ghost var done: set<Txid> := {};
      OnlyNone(u, l, child);
      while todo != {}
        invariant todo !! done && todo + done == child.Keys
        invariant Layer(cacheCoins, cachedCoinsUsage, modifier) == WrittenLayer(u, l, Only(child, done))
      {
        var t :| t in todo;
        WriteOne(u, l, child, done, t);
        WriteOver(t, child[t]);
        todo, done := todo - {t}, done + {t};
      }
      OnlyAll(child);
    }

    /** Writes this cache to its base and empties it. */
    method FlushCoins()
      requires Valid() && NoModifier(View()) && NoModifier(BaseView())
      modifies Repr
      ensures View() == Flush(u, old(View()))
    {
      ghost var v := View();
      match base {
        case OnDb(d) =>
          d.BatchWrite(cacheCoins);
        case OnCache(c) =>
          assert BaseView() == c.View() && c.View().layer.modifier == c.modifier;
          c.BatchWrite(cacheCoins);
      }
      assert BaseView() == CoinsState.BatchWrite(u, v.base, cacheCoins);
      cacheCoins, cachedCoinsUsage := map[], 0;
    }

    method HaveCoins(t: Txid) returns (have: bool)
      requires Valid()
      modifies Repr
      ensures have == CoinsRuns.HaveCoins(old(View()), t) && View() == Fetch(u, old(View()), t)
    {
      var r := FetchCoins(t);
      have := r.Some? && |r.value.vout| > 0;
    }
  }
}
