/** Unspent outputs of a transaction, and stacks of write-back caches over a database of them. */
module CoinsState {
  import opened Common

  type Txid = nat

  datatype TxOut = TxOut(value: int, script: seq<nat>)
  {
    predicate IsNull() { value == -1 }
  }

  datatype Coins = Coins(coinBase: bool, coinStake: bool, vout: seq<TxOut>, height: int, version: int)
  {
    predicate IsPruned() {
      forall i :: 0 <= i < |vout| ==> vout[i].IsNull()
    }

    /** No spent output is left at the end. */
    predicate IsTrimmed() {
      |vout| > 0 ==> !vout[|vout| - 1].IsNull()
    }

    predicate IsAvailable(n: nat) {
      n < |vout| && !vout[n].IsNull()
    }

    function Cleanup(): Coins {
      this.(vout := Trim(vout))
    }
  }

  const NoCoins := Coins(false, false, [], 0, 0)

  /** Drops the spent outputs at the end. */
  function Trim(vout: seq<TxOut>): seq<TxOut> {
    if |vout| > 0 && vout[|vout| - 1].IsNull() then Trim(vout[..|vout| - 1]) else vout
  }

  /** Removes the spent outputs at the end, one at a time. */
  method CleanUp(outs: seq<TxOut>) returns (vout: seq<TxOut>)
    ensures vout == Trim(outs)
  {
    vout := outs;
    while |vout| > 0 && vout[|vout| - 1].IsNull()
      invariant Trim(vout) == Trim(outs)
    {
      vout := vout[..|vout| - 1];
    }
  }

  /** What is read back of an integer: of a negative one, the seven bits of its only byte. */
  function StoredInt(n: int): nat {
    if n < 0 then n % 128 else n
  }

  /** What is read back of coins that were written to the database: the record has no coinstake flag, no negative
      number, and no spent output at the end. */
  function Stored(c: Coins): Coins {
    Coins(c.coinBase, false, Trim(c.vout), StoredInt(c.height), StoredInt(c.version))
  }

  datatype Entry = Entry(coins: Coins, isDirty: bool, isFresh: bool)

  /** A handle through which one entry is being changed, and what that entry counted for before. */
  datatype Modifier = Modifier(txid: Txid, cachedUsage: nat)

  datatype Layer = Layer(entries: map<Txid, Entry>, usage: int, modifier: Option<Modifier>)

  const EmptyLayer := Layer(map[], 0, None)

  /** A stack of caches over a database. */
  datatype View = Disk(db: map<Txid, Coins>) | Cache(base: View, layer: Layer)

  /** A cache's answer, given the answer of its base. */
  function Over(entries: map<Txid, Entry>, t: Txid, below: Option<Coins>): Option<Coins> {
    if t in entries then Some(entries[t].coins) else below
  }

  /** The coins that a view answers with. */
  function Get(v: View, t: Txid): Option<Coins> {
    match v
    case Disk(db) => if t in db then Some(db[t]) else None
    case Cache(base, layer) => Over(layer.entries, t, Get(base, t))
  }

  /** Equality as the program has it: pruned coins are all equal, and the coinstake flag is not looked at. */
  predicate Equal(a: Coins, b: Coins) {
    || (a.IsPruned() && b.IsPruned())
    || (a.coinBase == b.coinBase && a.height == b.height && a.version == b.version && a.vout == b.vout)
  }

  /** Pruned coins count as absent. */
  function Present(o: Option<Coins>): Option<Coins> {
    if o.Some? && o.value.IsPruned() then None else o
  }

  /** What equality of coins looks at. */
  function Unpruned(o: Option<Coins>): Option<Coins> {
    match Present(o) case None => None case Some(c) => Some(c.(coinStake := false))
  }

  lemma EqualMeans(a: Coins, b: Coins)
    ensures Equal(a, b) <==> Unpruned(Some(a)) == Unpruned(Some(b))
  {
  }

  /** What a view means: the unspent outputs it has for a transaction, up to equality of coins. */
  function Unspent(v: View, t: Txid): Option<Coins> {
    Unpruned(Get(v, t))
  }

  ghost predicate SameMeaning(v: View, w: View) {
    forall t :: Unspent(v, t) == Unspent(w, t)
  }

  // ---------------------------------------------------------------------
  // Operations
  // ---------------------------------------------------------------------

  function FetchedEntry(c: Coins): Entry {
    Entry(c, false, c.IsPruned())
  }

  /** Loads a transaction into every cache on the way down to where it is found. */
  function Fetch(u: Coins -> nat, v: View, t: Txid): View {
    if v.Disk? || t in v.layer.entries then v else
    var base := Fetch(u, v.base, t);
    match Get(v.base, t)
    case None => Cache(base, v.layer)
    case Some(c) => Cache(base, v.layer.(entries := v.layer.entries[t := FetchedEntry(c)], usage := v.layer.usage + u(c)))
  }

  /** Opens an entry for modification. */
  function Modify(u: Coins -> nat, v: View, t: Txid): View
    requires v.Cache?
  {
    var l := v.layer;
    if t in l.entries then
      v.(layer := l.(entries := l.entries[t := l.entries[t].(isDirty := true)], modifier := Some(Modifier(t, u(l.entries[t].coins)))))
    else
      var c := match Get(v.base, t) case None => NoCoins case Some(c) => c;
      Cache(Fetch(u, v.base, t), l.(entries := l.entries[t := Entry(c, true, c.IsPruned())], modifier := Some(Modifier(t, 0))))
  }

  /** Opens an emptied entry for a transaction that is taken to be new, without asking the base. */
  function ModifyNew(v: View, t: Txid, coinbase: bool): View
    requires v.Cache?
  {
    var l := v.layer;
    var isFresh := if coinbase then t in l.entries && l.entries[t].isFresh else true;
    v.(layer := l.(entries := l.entries[t := Entry(NoCoins, true, isFresh)], modifier := Some(Modifier(t, 0))))
  }

  /** A change made through the open handle. */
  function Assign(v: View, c: Coins): View
    requires v.Cache? && v.layer.modifier.Some? && v.layer.modifier.value.txid in v.layer.entries
  {
    var l, t := v.layer, v.layer.modifier.value.txid;
    v.(layer := l.(entries := l.entries[t := l.entries[t].(coins := c)]))
  }

  /** Closes the handle: cleans the entry up, and drops it if the base need not know of it. */
  function Close(u: Coins -> nat, v: View): View
    requires v.Cache? && v.layer.modifier.Some? && v.layer.modifier.value.txid in v.layer.entries
  {
    var l, m := v.layer, v.layer.modifier.value;
    var e := l.entries[m.txid].(coins := l.entries[m.txid].coins.Cleanup());
    if e.isFresh && e.coins.IsPruned() then
      v.(layer := Layer(l.entries - {m.txid}, l.usage - m.cachedUsage, None))
    else
      v.(layer := Layer(l.entries[m.txid := e], l.usage - m.cachedUsage + u(e.coins), None))
  }

  function Uncache(u: Coins -> nat, v: View, t: Txid): View
    requires v.Cache?
  {
    var l := v.layer;
    if t in l.entries && !l.entries[t].isDirty && !l.entries[t].isFresh then
      v.(layer := l.(entries := l.entries - {t}, usage := l.usage - u(l.entries[t].coins)))
    else v
  }

  /** What becomes of a cache's entry when its child writes a dirty one over it. */
  function Merge(ours: Option<Entry>, child: Entry): Option<Entry> {
    match ours
    case None =>
      if child.isFresh && child.coins.IsPruned() then None
      else Some(Entry(child.coins, true, child.isFresh))
    case Some(e) =>
      if e.isFresh && child.coins.IsPruned() then None
      else Some(Entry(child.coins, true, e.isFresh))
  }

  function Find(entries: map<Txid, Entry>, t: Txid): Option<Entry> {
    if t in entries then Some(entries[t]) else None
  }

  function UsageOf(u: Coins -> nat, e: Option<Entry>): nat {
    match e case None => 0 case Some(x) => u(x.coins)
  }

  function Store(entries: map<Txid, Entry>, t: Txid, e: Option<Entry>): map<Txid, Entry> {
    match e case None => entries - {t} case Some(x) => entries[t := x]
  }

  /** One entry of a cache is written to the database. */
  function WriteDb(db: map<Txid, Coins>, t: Txid, child: Entry): map<Txid, Coins> {
    if !child.isDirty then db else if child.coins.IsPruned() then db - {t} else db[t := Stored(child.coins)]
  }

  /** One entry of a child is written to a cache. */
  function WriteEntry(u: Coins -> nat, l: Layer, t: Txid, child: Entry): Layer {
    if !child.isDirty then l
    else
      var ours := Find(l.entries, t);
      var merged := Merge(ours, child);
      l.(entries := Store(l.entries, t, merged), usage := l.usage - UsageOf(u, ours) + UsageOf(u, merged))
  }

  /** The memory that all entries count for. */
  ghost function Sum(u: Coins -> nat, entries: map<Txid, Entry>): nat {
    if entries == map[] then 0
    else
      var t :| t in entries;
      u(entries[t].coins) + Sum(u, entries - {t})
  }

  /** The entry of a cache for `t` after a child's entries are written to it. */
  function Written(entries: map<Txid, Entry>, child: map<Txid, Entry>, t: Txid): Option<Entry> {
    if t in child && child[t].isDirty then Merge(Find(entries, t), child[t]) else Find(entries, t)
  }

  function WrittenEntries(entries: map<Txid, Entry>, child: map<Txid, Entry>): map<Txid, Entry> {
    map t | t in entries.Keys + child.Keys && Written(entries, child, t).Some? :: Written(entries, child, t).value
  }

  /** The coins of the database for `t` after a cache's entries are written to it. */
  function WrittenCoins(db: map<Txid, Coins>, child: map<Txid, Entry>, t: Txid): Option<Coins> {
    if !(t in child && child[t].isDirty) then Get(Disk(db), t)
    else if child[t].coins.IsPruned() then None else Some(Stored(child[t].coins))
  }

  function WrittenDb(db: map<Txid, Coins>, child: map<Txid, Entry>): map<Txid, Coins> {
    map t | t in db.Keys + child.Keys && WrittenCoins(db, child, t).Some? :: WrittenCoins(db, child, t).value
  }

  ghost function WrittenLayer(u: Coins -> nat, l: Layer, child: map<Txid, Entry>): Layer {
    var entries := WrittenEntries(l.entries, child);
    l.(entries := entries, usage := l.usage - Sum(u, l.entries) + Sum(u, entries))
  }

  /** All entries of a child are written to this view. */
  ghost function BatchWrite(u: Coins -> nat, v: View, child: map<Txid, Entry>): View {
    match v
    case Disk(db) => Disk(WrittenDb(db, child))
    case Cache(base, l) => Cache(base, WrittenLayer(u, l, child))
  }

  /** Writes the top cache to its base and empties it. */
  ghost function Flush(u: Coins -> nat, v: View): View
    requires v.Cache?
  {
    Cache(BatchWrite(u, v.base, v.layer.entries), v.layer.(entries := map[], usage := 0))
  }
}
