/** Compact blocks: a block as a header, short transaction ids and some transactions in full, and its
    reconstruction from the memory pool (BIP 152). */
module CompactBlock {
  import opened Common

  datatype Tx = Tx(hash: nat, isNull: bool)

  datatype Header = Header(id: nat, isNull: bool)

  datatype Block = Block(header: Header, vtx: seq<Tx>)

  /** A transaction in full; the index counts from the one before. */
  datatype Prefilled = Prefilled(index: nat, tx: Tx)

  datatype Message = Message(header: Header, shortIds: seq<nat>, prefilled: seq<Prefilled>)
  {
    function TxCount(): nat { |shortIds| + |prefilled| }
  }

  /** `Endless` stands for a search for a slot that goes round for ever. */
  datatype Status = Ok | Invalid | Failed | Endless

  const MAX_INDEX := 0xffff

  /** The largest block size divided by the size of an empty transaction. */
  const MAX_TX_COUNT := 2000000 / 14

  // ---------------------------------------------------------------------
  // Slots
  // ---------------------------------------------------------------------

  type Slots = seq<Option<Tx>>

  /** How many of the first `n` slots are filled. */
  function Filled(slots: Slots, n: nat): (k: nat)
    requires n <= |slots|
    ensures k <= n
  {
    if n == 0 then 0 else Filled(slots, n - 1) + if slots[n - 1].Some? then 1 else 0
  }

  lemma {:induction false} FilledSet(slots: Slots, p: nat, t: Tx, n: nat)
    requires p < |slots| && slots[p].None? && n <= |slots|
    ensures Filled(slots[p := Some(t)], n) == Filled(slots, n) + if p < n then 1 else 0
  {
    if n > 0 { FilledSet(slots, p, t, n - 1); }
  }

  lemma {:induction false} FilledClear(slots: Slots, p: nat, n: nat)
    requires p < |slots| && slots[p].Some? && n <= |slots|
    ensures Filled(slots, n) == Filled(slots[p := None], n) + if p < n then 1 else 0
  {
    if n > 0 { FilledClear(slots, p, n - 1); }
  }

  lemma {:induction false} FilledNone(slots: Slots, n: nat)
    requires n <= |slots| && forall i :: 0 <= i < n ==> slots[i].None?
    ensures Filled(slots, n) == 0
  {
    if n > 0 { FilledNone(slots, n - 1); }
  }

  lemma {:induction false} FilledGrows(slots: Slots, m: nat, n: nat)
    requires m <= n <= |slots|
    ensures Filled(slots, m) <= Filled(slots, n) <= Filled(slots, m) + (n - m)
    decreases n
  {
    if m < n { FilledGrows(slots, m, n - 1); }
  }

  /** The rank of a slot among the open ones. */
  function Rank(slots: Slots, n: nat): nat
    requires n <= |slots|
  {
    n - Filled(slots, n)
  }

  /** Open slots are numbered in order: different open slots have different ranks. */
  lemma RankOrder(slots: Slots, m: nat, n: nat)
    requires m < n < |slots| && slots[m].None?
    ensures Rank(slots, m) < Rank(slots, n)
  {
    FilledGrows(slots, m + 1, n);
  }

  // ---------------------------------------------------------------------
  // The transactions in full
  // ---------------------------------------------------------------------

  /** The position in the block of transaction number `i` of those in full. */
  function Position(prefilled: seq<Prefilled>, i: int): (p: int)
    requires i < |prefilled|
    ensures p >= i
    decreases i + 1
  {
    if i < 0 then if i == -1 then -1 else i else Position(prefilled, i - 1) + prefilled[i].index + 1
  }

  /** The first `n` transactions in full can be placed. */
  predicate CanPlace(msg: Message, n: nat)
    requires n <= |msg.prefilled|
  {
    forall i :: 0 <= i < n ==>
      && !msg.prefilled[i].tx.isNull
      && Position(msg.prefilled, i) <= MAX_INDEX
      && Position(msg.prefilled, i) <= |msg.shortIds| + i
  }

  /** The slots after the first `n` transactions in full have been placed. */
  function Placed(msg: Message, n: nat): (slots: Slots)
    requires n <= |msg.prefilled| && CanPlace(msg, n)
    ensures |slots| == msg.TxCount()
  {
    if n == 0 then seq(msg.TxCount(), _ => None)
    else Placed(msg, n - 1)[Position(msg.prefilled, n - 1) := Some(msg.prefilled[n - 1].tx)]
  }

  lemma {:induction false} PositionOrder(prefilled: seq<Prefilled>, i: int, j: int)
    requires -1 <= i < j < |prefilled|
    ensures Position(prefilled, i) < Position(prefilled, j)
    decreases j
  {
    if i < j - 1 { PositionOrder(prefilled, i, j - 1); }
  }

  /** No slot after the last position is filled. */
  lemma {:induction false} PlacedUpTo(msg: Message, n: nat, p: nat)
    requires n <= |msg.prefilled| && CanPlace(msg, n) && Position(msg.prefilled, n - 1) < p < msg.TxCount()
    ensures Placed(msg, n)[p].None?
  {
    if n > 0 {
      PositionOrder(msg.prefilled, n - 2, n - 1);
      PlacedUpTo(msg, n - 1, p);
    }
  }

  /** Placing fills one slot for each transaction. */
  lemma {:induction false} PlacedCount(msg: Message, n: nat)
    requires n <= |msg.prefilled| && CanPlace(msg, n)
    ensures Filled(Placed(msg, n), msg.TxCount()) == n
  {
    if n == 0 {
      FilledNone(Placed(msg, 0), msg.TxCount());
    } else {
      PlacedCount(msg, n - 1);
      var p := Position(msg.prefilled, n - 1);
      PositionOrder(msg.prefilled, n - 2, n - 1);
      PlacedUpTo(msg, n - 1, p);
      FilledSet(Placed(msg, n - 1), p, msg.prefilled[n - 1].tx, msg.TxCount());
    }
  }

  /** Each transaction is placed at its own position. */
  lemma {:induction false} PlacedAt(msg: Message, n: nat, i: nat)
    requires i < n <= |msg.prefilled| && CanPlace(msg, n)
    ensures Placed(msg, n)[Position(msg.prefilled, i)] == Some(msg.prefilled[i].tx)
  {
    if i < n - 1 {
      PlacedAt(msg, n - 1, i);
      PositionOrder(msg.prefilled, i, n - 1);
    }
  }

  /** A filled slot is that of one of the transactions. */
  lemma {:induction false} PlacedFrom(msg: Message, n: nat, p: nat) returns (i: nat)
    requires n <= |msg.prefilled| && CanPlace(msg, n) && p < msg.TxCount() && Placed(msg, n)[p].Some?
    ensures i < n && p == Position(msg.prefilled, i)
  {
    if p == Position(msg.prefilled, n - 1) { i := n - 1; } else { i := PlacedFrom(msg, n - 1, p); }
  }

  // ---------------------------------------------------------------------
  // The slots of the short ids
  // ---------------------------------------------------------------------

  /** The first open slot from `n` on. */
  function NextOpen(slots: Slots, n: nat): (m: nat)
    requires n <= |slots|
    ensures n <= m <= |slots| && (m < |slots| ==> slots[m].None?) && forall i :: n <= i < m ==> slots[i].Some?
    decreases |slots| - n
  {
    if n == |slots| || slots[n].None? then n else NextOpen(slots, n + 1)
  }

  lemma {:induction false} RankNextOpen(slots: Slots, n: nat)
    requires n <= |slots|
    ensures Rank(slots, NextOpen(slots, n)) == Rank(slots, n)
    decreases |slots| - n
  {
    if n < |slots| && slots[n].Some? { RankNextOpen(slots, n + 1); }
  }

  /** Where the search for the slot of short id `k` starts. */
  function SearchFrom(slots: Slots, k: nat): (n: nat)
    requires k <= Rank(slots, |slots|)
    ensures n <= |slots| && Rank(slots, n) == k
  {
    if k == 0 then 0 else
    RankNextOpen(slots, SearchFrom(slots, k - 1));
    NextOpen(slots, SearchFrom(slots, k - 1)) + 1
  }

  /** The slot of short id `k`: the open slot of that rank. */
  function Open(slots: Slots, k: nat): (n: nat)
    requires k < Rank(slots, |slots|)
    ensures n < |slots| && slots[n].None? && Rank(slots, n) == k
  {
    RankNextOpen(slots, SearchFrom(slots, k));
    NextOpen(slots, SearchFrom(slots, k))
  }

  /** Every open slot is the slot of the short id of its rank. */
  lemma OpenOfRank(slots: Slots, n: nat)
    requires n < |slots| && slots[n].None?
    ensures Rank(slots, n) < Rank(slots, |slots|) && Open(slots, Rank(slots, n)) == n
  {
    FilledGrows(slots, n + 1, |slots|);
    var m := Open(slots, Rank(slots, n));
    if m < n { RankOrder(slots, m, n); }
    if n < m { RankOrder(slots, n, m); }
  }

  /** The open slots in order. */
  function Places(slots: Slots): (places: seq<nat>)
    ensures |places| == Rank(slots, |slots|)
    ensures forall k :: 0 <= k < |places| ==> places[k] < |slots| && slots[places[k]].None? && Rank(slots, places[k]) == k
  {
    seq(Rank(slots, |slots|), k requires 0 <= k < Rank(slots, |slots|) => Open(slots, k))
  }

  /** The table from short ids to slots; slots are kept in 16 bits. */
  function IdMap(places: seq<nat>, ids: seq<nat>, k: nat): (m: map<nat, nat>)
    requires k <= |ids| <= |places|
  {
    if k == 0 then map[] else IdMap(places, ids, k - 1)[ids[k - 1] := places[k - 1] % 0x1_0000]
  }

  lemma {:induction false} TableInRange(places: seq<nat>, ids: seq<nat>, k: nat, n: nat)
    requires k <= |ids| <= |places| && forall i :: 0 <= i < |places| ==> places[i] < n
    ensures forall id :: id in IdMap(places, ids, k) ==> IdMap(places, ids, k)[id] < n
  {
    if k > 0 {
      TableInRange(places, ids, k - 1, n);
      var p := places[k - 1];
      assert p % 0x1_0000 <= p;
    }
  }

  lemma {:induction false} IdMapSize(places: seq<nat>, ids: seq<nat>, k: nat)
    requires k <= |ids| <= |places|
    ensures |IdMap(places, ids, k)| <= k
  {
    if k > 0 {
      IdMapSize(places, ids, k - 1);
      var rest := IdMap(places, ids, k - 1);
      assert IdMap(places, ids, k).Keys == rest.Keys + {ids[k - 1]};
    }
  }

  lemma NoCollision(places: seq<nat>, ids: seq<nat>, k: nat)
    requires 0 < k <= |ids| <= |places| && |IdMap(places, ids, k)| == k
    ensures |IdMap(places, ids, k - 1)| == k - 1 && ids[k - 1] !in IdMap(places, ids, k - 1)
  {
    var rest, all := IdMap(places, ids, k - 1), IdMap(places, ids, k);
    IdMapSize(places, ids, k - 1);
    assert all.Keys == rest.Keys + {ids[k - 1]};
    assert ids[k - 1] in rest ==> all.Keys == rest.Keys;
  }

  /** Without collisions, every short id leads to its own slot. */
  lemma {:induction false} IdMapAt(places: seq<nat>, ids: seq<nat>, k: nat, j: nat)
    requires j < k <= |ids| <= |places| && |IdMap(places, ids, k)| == k
    ensures ids[j] in IdMap(places, ids, k) && IdMap(places, ids, k)[ids[j]] == places[j] % 0x1_0000
  {
    NoCollision(places, ids, k);
    if j < k - 1 { IdMapAt(places, ids, k - 1, j); }
  }

  lemma {:induction false} IdMapFrom(places: seq<nat>, ids: seq<nat>, k: nat, id: nat) returns (j: nat)
    requires k <= |ids| <= |places| && id in IdMap(places, ids, k)
    ensures j < k && ids[j] == id && IdMap(places, ids, k)[id] == places[j] % 0x1_0000
  {
    if id == ids[k - 1] { j := k - 1; } else { j := IdMapFrom(places, ids, k - 1, id); }
  }

  /** The 16-bit slots are the true slots exactly for messages of at most 65536 transactions. */
  lemma SlotsFit(msg: Message, slots: Slots)
    requires CanPlace(msg, |msg.prefilled|) && slots == Placed(msg, |msg.prefilled|)
    ensures |msg.shortIds| == |Places(slots)|
    ensures msg.TxCount() <= 0x1_0000 <==> forall k :: 0 <= k < |msg.shortIds| ==> Places(slots)[k] % 0x1_0000 == Places(slots)[k]
  {
    PlacedCount(msg, |msg.prefilled|);
    var n := msg.TxCount();
    if n > 0x1_0000 {
      if slots[n - 1].Some? { var i := PlacedFrom(msg, |msg.prefilled|, n - 1); }
      OpenOfRank(slots, n - 1);
      assert Places(slots)[Rank(slots, n - 1)] == n - 1;
    }
  }

  // ---------------------------------------------------------------------
  // The search for slots, with an offset of 16 bits
  // ---------------------------------------------------------------------

  /** The slot that the search for short id `i` looks at after `k` steps: its offset wraps at 16 bits. */
  function Probe(i: nat, offset: nat, k: nat): nat {
    i + (offset + k) % 0x1_0000
  }

  /** The search finds every slot it looks at filled, however long it goes on. */
  ghost predicate NeverEnds(slots: Slots, i: nat, offset: nat) {
    forall k: nat :: Probe(i, offset, k) < |slots| && slots[Probe(i, offset, k)].Some?
  }

  lemma {:induction false} AllFilled(slots: Slots, n: nat, p: nat)
    requires p < n <= |slots| && Filled(slots, n) == n
    ensures slots[p].Some?
  {
    if p < n - 1 { AllFilled(slots, n - 1, p); }
  }

  lemma {:induction false} FilledRest(slots: Slots, m: nat, n: nat)
    requires m <= n <= |slots| && forall p :: m <= p < n ==> slots[p].None?
    ensures Filled(slots, n) == Filled(slots, m)
    decreases n
  {
    if m < n { FilledRest(slots, m, n - 1); }
  }

  /** There are no more transactions in full than positions of 16 bits. */
  lemma PrefilledBound(msg: Message)
    requires CanPlace(msg, |msg.prefilled|)
    ensures |msg.prefilled| <= 0x1_0000
  {
    var n := |msg.prefilled|;
    assert n > 0 ==> Position(msg.prefilled, n - 1) >= n - 1;
  }

  /** The offset of the slot of short id `i` counts transactions in full. */
  lemma OffsetBound(msg: Message, slots: Slots, i: nat)
    requires CanPlace(msg, |msg.prefilled|) && slots == Placed(msg, |msg.prefilled|) && i < |msg.shortIds|
    ensures i < Rank(slots, |slots|) && i <= Open(slots, i) <= i + |msg.prefilled|
  {
    PlacedCount(msg, |msg.prefilled|);
    var n := Open(slots, i);
    FilledGrows(slots, n, |slots|);
  }

  /** When every position of 16 bits holds a transaction in full, the very first search never ends. */
  lemma FullNeverEnds(msg: Message, slots: Slots)
    requires CanPlace(msg, |msg.prefilled|) && slots == Placed(msg, |msg.prefilled|) && |msg.prefilled| == 0x1_0000
    ensures NeverEnds(slots, 0, 0)
  {
    var top := 0x1_0000;
    PlacedCount(msg, |msg.prefilled|);
    forall p | top <= p < |slots| ensures slots[p].None? {
      if slots[p].Some? { var i := PlacedFrom(msg, |msg.prefilled|, p); }
    }
    FilledRest(slots, top, |slots|);
    forall k: nat ensures Probe(0, 0, k) < |slots| && slots[Probe(0, 0, k)].Some? {
      AllFilled(slots, top, Probe(0, 0, k));
    }
  }

  /** Every search ends at its slot: some number of steps leads from where it starts to the open slot. */
  ghost predicate SearchesEnd(msg: Message, slots: Slots)
    requires |msg.shortIds| <= Rank(slots, |slots|)
  {
    forall i :: 0 <= i < |msg.shortIds| ==> Open(slots, i) - i <= MAX_INDEX
  }

  /** The condition a message must meet: not all positions of 16 bits are taken by transactions in full. */
  predicate Searchable(msg: Message) { msg.shortIds == [] || |msg.prefilled| <= MAX_INDEX }

  /** All searches end exactly when that is so; otherwise the first one never ends. */
  lemma SearchesEndExactly(msg: Message, slots: Slots)
    requires CanPlace(msg, |msg.prefilled|) && slots == Placed(msg, |msg.prefilled|)
    ensures |msg.shortIds| == Rank(slots, |slots|)
    ensures SearchesEnd(msg, slots) <==> Searchable(msg)
    ensures !Searchable(msg) <==> msg.shortIds != [] && NeverEnds(slots, 0, 0)
  {
    PlacedCount(msg, |msg.prefilled|);
    PrefilledBound(msg);
    if Searchable(msg) {
      forall i | 0 <= i < |msg.shortIds| ensures Open(slots, i) - i <= MAX_INDEX { OffsetBound(msg, slots, i); }
      if msg.shortIds != [] {
        var k: nat := Open(slots, 0);
        OffsetBound(msg, slots, 0);
        assert Probe(0, 0, k) == k;
      }
    } else {
      FullNeverEnds(msg, slots);
      var k: nat := Open(slots, 0);
      assert Probe(0, 0, k) == k % 0x1_0000;
    }
  }

  // ---------------------------------------------------------------------
  // The memory pool
  // ---------------------------------------------------------------------

  /** The slots, those that have been given a pool transaction, and the number that have one now. */
  datatype Scan = Scan(slots: Slots, have: set<nat>, count: int)

  /** One pool transaction: it goes to the slot of its short id; a second one with the same short id
      empties the slot again. */
  function ScanTx(ids: map<nat, nat>, sc: Scan, id: nat, t: Tx): (r: Scan)
    requires forall i :: i in ids ==> ids[i] < |sc.slots|
    ensures |r.slots| == |sc.slots|
  {
    if id !in ids then sc
    else if ids[id] !in sc.have then Scan(sc.slots[ids[id] := Some(t)], sc.have + {ids[id]}, sc.count + 1)
    else if sc.slots[ids[id]].Some? then Scan(sc.slots[ids[id] := None], sc.have, sc.count - 1)
    else sc
  }

  /** The first `n` pool transactions; the scan stops when all short ids are served. */
  function ScanPool(ids: map<nat, nat>, slots: Slots, sid: nat -> nat, pool: seq<Tx>, n: nat): (r: Scan)
    requires n <= |pool| && forall i :: i in ids ==> ids[i] < |slots|
    ensures |r.slots| == |slots|
  {
    if n == 0 then Scan(slots, {}, 0) else
    var prev := ScanPool(ids, slots, sid, pool, n - 1);
    if prev.count == |ids| then prev else ScanTx(ids, prev, sid(pool[n - 1].hash), pool[n - 1])
  }

  /** What a scan keeps: slots without a short id are as before, a pool transaction is in the slot of
      its own short id, and the count is exact. */
  ghost predicate ScanOk(ids: map<nat, nat>, slots: Slots, sid: nat -> nat, pool: seq<Tx>, sc: Scan) {
    && |sc.slots| == |slots|
    && (forall p :: p in sc.have ==> p < |slots| && slots[p].None? && p in ids.Values)
    && (forall p :: 0 <= p < |slots| && p !in sc.have ==> sc.slots[p] == slots[p])
    && (forall p :: p in sc.have && sc.slots[p].Some? ==> FromPool(ids, sid, pool, p, sc.slots[p].value))
    && sc.count == Filled(sc.slots, |slots|) - Filled(slots, |slots|)
  }

  predicate FromPool(ids: map<nat, nat>, sid: nat -> nat, pool: seq<Tx>, p: nat, t: Tx) {
    t in pool && sid(t.hash) in ids && ids[sid(t.hash)] == p
  }

  lemma ScanTxOk(ids: map<nat, nat>, slots: Slots, sid: nat -> nat, pool: seq<Tx>, sc: Scan, t: Tx, r: Scan)
    requires (forall i :: i in ids ==> ids[i] < |slots| && slots[ids[i]].None?) && t in pool
    requires ScanOk(ids, slots, sid, pool, sc) && r == ScanTx(ids, sc, sid(t.hash), t)
    ensures ScanOk(ids, slots, sid, pool, r)
  {
    var id := sid(t.hash);
    if id in ids {
      var p := ids[id];
      if p !in sc.have {
        FilledSet(sc.slots, p, t, |slots|);
      } else if sc.slots[p].Some? {
        FilledClear(sc.slots, p, |slots|);
      }
    }
  }

  lemma {:induction false} ScanPoolOk(ids: map<nat, nat>, slots: Slots, sid: nat -> nat, pool: seq<Tx>, n: nat)
    requires n <= |pool| && forall i :: i in ids ==> ids[i] < |slots| && slots[ids[i]].None?
    ensures ScanOk(ids, slots, sid, pool, ScanPool(ids, slots, sid, pool, n))
  {
    if n > 0 {
      ScanPoolOk(ids, slots, sid, pool, n - 1);
      var prev := ScanPool(ids, slots, sid, pool, n - 1);
      if prev.count != |ids| {
        ScanTxOk(ids, slots, sid, pool, prev, pool[n - 1], ScanPool(ids, slots, sid, pool, n));
      }
    }
  }

  /** How many of the first `n` pool transactions have a short id. */
  function Matches(sid: nat -> nat, pool: seq<Tx>, n: nat, id: nat): nat
    requires n <= |pool|
  {
    if n == 0 then 0 else Matches(sid, pool, n - 1, id) + if sid(pool[n - 1].hash) == id then 1 else 0
  }

  /** The short ids lead to different open slots. */
  ghost predicate Separate(ids: map<nat, nat>, slots: Slots) {
    && (forall i :: i in ids ==> ids[i] < |slots| && slots[ids[i]].None?)
    && (forall i, j :: i in ids && j in ids && ids[i] == ids[j] ==> i == j)
  }

  /** As long as the scan has not stopped, a slot is filled exactly when one pool transaction has its short id. */
  lemma {:induction false} ScanExact(ids: map<nat, nat>, slots: Slots, sid: nat -> nat, pool: seq<Tx>, n: nat, id: nat)
    requires n <= |pool| && Separate(ids, slots) && id in ids
    requires forall m :: 0 <= m < n ==> ScanPool(ids, slots, sid, pool, m).count != |ids|
    ensures ids[id] in ScanPool(ids, slots, sid, pool, n).have <==> Matches(sid, pool, n, id) > 0
    ensures ScanPool(ids, slots, sid, pool, n).slots[ids[id]].Some? <==> Matches(sid, pool, n, id) == 1
  {
    if n > 0 {
      ScanExact(ids, slots, sid, pool, n - 1, id);
      var prev := ScanPool(ids, slots, sid, pool, n - 1);
      assert prev.count != |ids|;
      ScanTxExact(ids, prev, sid(pool[n - 1].hash), pool[n - 1], id, Matches(sid, pool, n - 1, id));
    }
  }

  lemma ScanTxExact(ids: map<nat, nat>, sc: Scan, x: nat, t: Tx, id: nat, matches: nat)
    requires (forall i :: i in ids ==> ids[i] < |sc.slots|) && id in ids
    requires forall i, j :: i in ids && j in ids && ids[i] == ids[j] ==> i == j
    requires (ids[id] in sc.have <==> matches > 0) && (sc.slots[ids[id]].Some? <==> matches == 1)
    ensures var r, now := ScanTx(ids, sc, x, t), matches + if x == id then 1 else 0;
            (ids[id] in r.have <==> now > 0) && (r.slots[ids[id]].Some? <==> now == 1)
  {
  }

  // ---------------------------------------------------------------------
  // What reconstruction gives
  // ---------------------------------------------------------------------

  /** The message describes the block: each transaction in full is at its position, and the short ids
      are those of the other transactions in order. */
  ghost predicate Encodes(msg: Message, block: Block, sid: nat -> nat) {
    && msg.header == block.header && msg.TxCount() == |block.vtx| && CanPlace(msg, |msg.prefilled|)
    && |Places(Placed(msg, |msg.prefilled|))| == |msg.shortIds|
    && (forall i :: 0 <= i < |msg.prefilled| ==> block.vtx[Position(msg.prefilled, i)] == msg.prefilled[i].tx)
    && (forall k :: 0 <= k < |msg.shortIds| ==> msg.shortIds[k] == sid(block.vtx[Places(Placed(msg, |msg.prefilled|))[k]].hash))
  }

  /** The message that is built for a block: the first transaction in full, short ids for the others. */
  function Announce(block: Block, sid: nat -> nat): Message
    requires block.vtx != []
  {
    Message(block.header, ShortIds(block.vtx[1..], sid), [Prefilled(0, block.vtx[0])])
  }

  function ShortIds(vtx: seq<Tx>, sid: nat -> nat): (ids: seq<nat>)
    ensures |ids| == |vtx| && forall i :: 0 <= i < |vtx| ==> ids[i] == sid(vtx[i].hash)
  {
    if vtx == [] then [] else [sid(vtx[0].hash)] + ShortIds(vtx[1..], sid)
  }

  lemma AnnounceEncodes(block: Block, sid: nat -> nat)
    requires block.vtx != [] && !block.vtx[0].isNull
    ensures Encodes(Announce(block, sid), block, sid)
  {
    var msg := Announce(block, sid);
    assert Position(msg.prefilled, 0) == 0;
    var slots := Placed(msg, 1);
    PlacedCount(msg, 1);
    forall k | 0 <= k < |msg.shortIds| ensures Places(slots)[k] == k + 1 {
      RankAfterFirst(slots, k + 1);
      OpenOfRank(slots, k + 1);
    }
  }

  lemma {:induction false} RankAfterFirst(slots: Slots, n: nat)
    requires 0 < n <= |slots| && slots[0].Some? && forall i :: 0 < i < |slots| ==> slots[i].None?
    ensures Rank(slots, n) == n - 1
  {
    if n > 1 { RankAfterFirst(slots, n - 1); }
  }

  /** No pool transaction has the short id of a different transaction of the block. */
  ghost predicate NoClash(block: Block, pool: seq<Tx>, sid: nat -> nat) {
    forall t :: t in pool ==> OwnId(block, t, sid)
  }

  /** A transaction of the block with the short id of `t` is `t`. */
  ghost predicate OwnId(block: Block, t: Tx, sid: nat -> nat) {
    forall n :: 0 <= n < |block.vtx| && sid(t.hash) == sid(block.vtx[n].hash) ==> t == block.vtx[n]
  }

  /** Every slot that is filled holds the transaction of the block. */
  ghost predicate Agrees(slots: Slots, vtx: seq<Tx>) {
    |slots| == |vtx| && forall p :: 0 <= p < |slots| && slots[p].Some? ==> slots[p].value == vtx[p]
  }

  lemma PlacedAgrees(msg: Message, block: Block, sid: nat -> nat)
    requires Encodes(msg, block, sid)
    ensures Agrees(Placed(msg, |msg.prefilled|), block.vtx)
  {
    var slots := Placed(msg, |msg.prefilled|);
    forall p | 0 <= p < |slots| && slots[p].Some? ensures slots[p].value == block.vtx[p] {
      var i := PlacedFrom(msg, |msg.prefilled|, p);
      PlacedAt(msg, |msg.prefilled|, i);
    }
  }

  /** The pool never reaches a slot of a transaction in full. */
  lemma IdsOpen(msg: Message, slots: Slots, ids: map<nat, nat>)
    requires CanPlace(msg, |msg.prefilled|) && slots == Placed(msg, |msg.prefilled|) && msg.TxCount() <= 0x1_0000
    requires |msg.shortIds| == |Places(slots)| && ids == IdMap(Places(slots), msg.shortIds, |msg.shortIds|)
    ensures forall id :: id in ids ==> ids[id] < |slots| && slots[ids[id]].None?
  {
    SlotsFit(msg, slots);
    forall id | id in ids ensures ids[id] < |slots| && slots[ids[id]].None? {
      var j := IdMapFrom(Places(slots), msg.shortIds, |msg.shortIds|, id);
    }
  }

  /** After the scan, every filled slot holds the transaction of the block. */
  lemma ScanAgrees(msg: Message, block: Block, sid: nat -> nat, pool: seq<Tx>, slots: Slots, ids: map<nat, nat>, sc: Scan)
    requires Encodes(msg, block, sid) && NoClash(block, pool, sid) && msg.TxCount() <= 0x1_0000
    requires slots == Placed(msg, |msg.prefilled|) && ids == IdMap(Places(slots), msg.shortIds, |msg.shortIds|)
    requires ScanOk(ids, slots, sid, pool, sc)
    ensures Agrees(sc.slots, block.vtx)
  {
    PlacedAgrees(msg, block, sid);
    SlotsFit(msg, slots);
    forall p | 0 <= p < |slots| && sc.slots[p].Some? ensures sc.slots[p].value == block.vtx[p] {
      if p in sc.have {
        var t := sc.slots[p].value;
        assert FromPool(ids, sid, pool, p, t);
        var j := IdMapFrom(Places(slots), msg.shortIds, |msg.shortIds|, sid(t.hash));
        assert Places(slots)[j] == p;
      }
    }
  }

  // ---------------------------------------------------------------------
  // Filling in what is missing
  // ---------------------------------------------------------------------

  /** The block's transactions, taking the missing ones in order; nothing if there are too few or too many. */
  function Fill(slots: Slots, missing: seq<Tx>): Option<seq<Tx>> {
    if slots == [] then if missing == [] then Some([]) else None
    else if slots[0].Some? then Prepend(slots[0].value, Fill(slots[1..], missing))
    else if missing == [] then None
    else Prepend(missing[0], Fill(slots[1..], missing[1..]))
  }

  function Prepend(t: Tx, rest: Option<seq<Tx>>): Option<seq<Tx>> {
    if rest.None? then None else Some([t] + rest.value)
  }

  /** The transactions of a block whose slots are open, in order. */
  function Missing(vtx: seq<Tx>, slots: Slots): seq<Tx>
    requires |vtx| == |slots|
  {
    if slots == [] then []
    else (if slots[0].None? then [vtx[0]] else []) + Missing(vtx[1..], slots[1..])
  }

  /** With the missing transactions in order, the block is rebuilt. */
  lemma {:induction false} FillRebuilds(vtx: seq<Tx>, slots: Slots)
    requires Agrees(slots, vtx)
    ensures Fill(slots, Missing(vtx, slots)) == Some(vtx)
  {
    if slots != [] {
      assert Agrees(slots[1..], vtx[1..]) by {
        forall p | 0 <= p < |slots[1..]| && slots[1..][p].Some? ensures slots[1..][p].value == vtx[1..][p] {
          assert slots[p + 1].Some?;
        }
      }
      FillRebuilds(vtx[1..], slots[1..]);
      var rest := Missing(vtx[1..], slots[1..]);
      if slots[0].None? {
        assert ([vtx[0]] + rest)[1..] == rest;
      } else {
        assert [] + rest == rest;
      }
      assert [vtx[0]] + vtx[1..] == vtx;
    } else {
      assert vtx == [];
    }
  }

  /** Filling succeeds exactly when there is one transaction for each open slot. */
  lemma {:induction false} FillCount(slots: Slots, missing: seq<Tx>)
    ensures Fill(slots, missing).Some? <==> |missing| == Rank(slots, |slots|)
  {
    if slots != [] {
      FilledTail(slots, |slots|);
      if slots[0].Some? {
        FillCount(slots[1..], missing);
      } else if missing != [] {
        FillCount(slots[1..], missing[1..]);
      } else {
        FilledGrows(slots, 1, |slots|);
      }
    }
  }

  lemma {:induction false} FilledTail(slots: Slots, n: nat)
    requires 0 < n <= |slots|
    ensures Filled(slots, n) == (if slots[0].Some? then 1 else 0) + Filled(slots[1..], n - 1)
  {
    if n > 1 { FilledTail(slots, n - 1); }
  }

  /** For any block and pool without a clash of short ids, if the announcement was taken up, then the
      transactions that are not available, in index order, rebuild the block. */
  lemma Reconstructs(msg: Message, block: Block, sid: nat -> nat, pool: seq<Tx>, slots: Slots, ids: map<nat, nat>, n: nat)
    requires Encodes(msg, block, sid) && NoClash(block, pool, sid) && msg.TxCount() <= 0x1_0000 && n <= |pool|
    requires slots == Placed(msg, |msg.prefilled|) && ids == IdMap(Places(slots), msg.shortIds, |msg.shortIds|)
    requires forall id :: id in ids ==> ids[id] < |slots|
    ensures var available := ScanPool(ids, slots, sid, pool, n).slots;
            Agrees(available, block.vtx) && Fill(available, Missing(block.vtx, available)) == Some(block.vtx)
  {
    IdsOpen(msg, slots, ids);
    ScanPoolOk(ids, slots, sid, pool, n);
    var sc := ScanPool(ids, slots, sid, pool, n);
    ScanAgrees(msg, block, sid, pool, slots, ids, sc);
    FillRebuilds(block.vtx, sc.slots);
  }

  // ---------------------------------------------------------------------
  // When reconstruction can be relied upon
  // ---------------------------------------------------------------------

  /** Without collisions, the short ids differ. */
  lemma {:induction false} IdsDistinct(places: seq<nat>, ids: seq<nat>, k: nat, i: nat, j: nat)
    requires i < j < k <= |ids| <= |places| && |IdMap(places, ids, k)| == k
    ensures ids[i] != ids[j]
  {
    NoCollision(places, ids, k);
    if j < k - 1 { IdsDistinct(places, ids, k - 1, i, j); } else { IdMapAt(places, ids, k - 1, i); }
  }

  /** Whatever the block and the pool, if no short ids clash then every filled slot holds the transaction of
      the block. */
  ghost predicate AlwaysAgrees(msg: Message, slots: Slots, ids: map<nat, nat>, sid: nat -> nat)
    requires forall id :: id in ids ==> ids[id] < |slots|
  {
    forall block: Block, pool: seq<Tx> :: Encodes(msg, block, sid) && NoClash(block, pool, sid) ==>
      Agrees(ScanPool(ids, slots, sid, pool, |pool|).slots, block.vtx)
  }

  ghost predicate Taken(sid: nat -> nat, id: nat) {
    exists h: nat :: sid(h) == id
  }

  /** Every short id of the message is that of some hash, and none that of a transaction in full. */
  ghost predicate Covers(msg: Message, sid: nat -> nat) {
    && (forall k :: 0 <= k < |msg.shortIds| ==> Taken(sid, msg.shortIds[k]))
    && (forall i :: 0 <= i < |msg.prefilled| ==> sid(msg.prefilled[i].tx.hash) !in msg.shortIds)
  }

  ghost function HashOf(sid: nat -> nat, id: nat): (h: nat)
    requires Taken(sid, id)
    ensures sid(h) == id
  {
    var h: nat :| sid(h) == id;
    h
  }

  /** The transaction at slot `p` of a block that a message can describe. */
  ghost function Sample(msg: Message, slots: Slots, sid: nat -> nat, p: nat): Tx
    requires p < |slots| && |msg.shortIds| == Rank(slots, |slots|) && Covers(msg, sid)
  {
    if slots[p].Some? then slots[p].value else
    OpenOfRank(slots, p);
    Tx(HashOf(sid, msg.shortIds[Rank(slots, p)]), false)
  }

  ghost function SampleTxs(msg: Message, slots: Slots, sid: nat -> nat, n: nat): (vtx: seq<Tx>)
    requires n <= |slots| && |msg.shortIds| == Rank(slots, |slots|) && Covers(msg, sid)
    ensures |vtx| == n
  {
    if n == 0 then [] else SampleTxs(msg, slots, sid, n - 1) + [Sample(msg, slots, sid, n - 1)]
  }

  lemma {:induction false} SampleTxAt(msg: Message, slots: Slots, sid: nat -> nat, n: nat, p: nat)
    requires p < n <= |slots| && |msg.shortIds| == Rank(slots, |slots|) && Covers(msg, sid)
    ensures SampleTxs(msg, slots, sid, n)[p] == Sample(msg, slots, sid, p)
  {
    if p < n - 1 { SampleTxAt(msg, slots, sid, n - 1, p); }
  }

  lemma SampleAt(msg: Message, slots: Slots, sid: nat -> nat, p: nat, r: nat)
    requires p < |slots| && slots[p].None? && r == Rank(slots, p) && |msg.shortIds| == Rank(slots, |slots|)
    requires Covers(msg, sid)
    ensures r < |msg.shortIds| && sid(Sample(msg, slots, sid, p).hash) == msg.shortIds[r]
    ensures Taken(sid, msg.shortIds[r]) && Sample(msg, slots, sid, p) == Tx(HashOf(sid, msg.shortIds[r]), false)
  {
    OpenOfRank(slots, p);
  }

  /** The message as it was prepared, and the block of samples. */
  ghost predicate Sampled(msg: Message, slots: Slots, sid: nat -> nat, vtx: seq<Tx>) {
    && CanPlace(msg, |msg.prefilled|) && slots == Placed(msg, |msg.prefilled|) && Covers(msg, sid)
    && |msg.shortIds| == Rank(slots, |slots|) && vtx == SampleTxs(msg, slots, sid, |slots|)
  }

  lemma SampleEncoded(msg: Message, slots: Slots, sid: nat -> nat, vtx: seq<Tx>)
    requires Sampled(msg, slots, sid, vtx)
    ensures Encodes(msg, Block(msg.header, vtx), sid)
  {
    forall i | 0 <= i < |msg.prefilled| ensures vtx[Position(msg.prefilled, i)] == msg.prefilled[i].tx {
      PlacedAt(msg, |msg.prefilled|, i);
      SampleTxAt(msg, slots, sid, |slots|, Position(msg.prefilled, i));
    }
    forall k | 0 <= k < |msg.shortIds| ensures msg.shortIds[k] == sid(vtx[Places(slots)[k]].hash) {
      SampleTxAt(msg, slots, sid, |slots|, Places(slots)[k]);
      SampleAt(msg, slots, sid, Places(slots)[k], k);
    }
  }

  /** A transaction in full has none of the short ids. */
  lemma SampleFull(msg: Message, slots: Slots, sid: nat -> nat, p: nat)
    requires CanPlace(msg, |msg.prefilled|) && slots == Placed(msg, |msg.prefilled|) && p < |slots| && slots[p].Some?
    requires |msg.shortIds| == Rank(slots, |slots|) && Covers(msg, sid)
    ensures sid(Sample(msg, slots, sid, p).hash) !in msg.shortIds
  {
    var i := PlacedFrom(msg, |msg.prefilled|, p);
    PlacedAt(msg, |msg.prefilled|, i);
  }

  /** Two transactions of the block with one short id, that of an open slot, are the same. */
  lemma SampleOwn(msg: Message, slots: Slots, sid: nat -> nat, last: nat, m: nat)
    requires CanPlace(msg, |msg.prefilled|) && slots == Placed(msg, |msg.prefilled|)
    requires |msg.shortIds| == Rank(slots, |slots|) && Covers(msg, sid)
    requires last < |slots| && slots[last].None? && m < |slots|
    requires sid(Sample(msg, slots, sid, m).hash) == sid(Sample(msg, slots, sid, last).hash)
    ensures Sample(msg, slots, sid, m) == Sample(msg, slots, sid, last)
  {
    SampleAt(msg, slots, sid, last, Rank(slots, last));
    if slots[m].Some? {
      SampleFull(msg, slots, sid, m);
      assert false;
    }
    SampleAt(msg, slots, sid, m, Rank(slots, m));
  }

  /** A pool with one transaction of that block has no clash. */
  lemma SampleNoClash(msg: Message, slots: Slots, sid: nat -> nat, vtx: seq<Tx>, last: nat)
    requires Sampled(msg, slots, sid, vtx) && last < |slots| && slots[last].None?
    ensures NoClash(Block(msg.header, vtx), [vtx[last]], sid)
  {
    SampleTxAt(msg, slots, sid, |slots|, last);
    forall m | 0 <= m < |slots| && sid(vtx[m].hash) == sid(vtx[last].hash) ensures vtx[last] == vtx[m] {
      SampleTxAt(msg, slots, sid, |slots|, m);
      SampleOwn(msg, slots, sid, last, m);
    }
  }

  /** The table's entry for the short id of an open slot. */
  lemma WrappedEntry(msg: Message, slots: Slots, ids: map<nat, nat>, p: nat, r: nat)
    requires p < |slots| && slots[p].None? && r == Rank(slots, p) && |msg.shortIds| == |Places(slots)|
    requires ids == IdMap(Places(slots), msg.shortIds, |msg.shortIds|) && |ids| == |msg.shortIds|
    ensures r < |msg.shortIds| && msg.shortIds[r] in ids && ids[msg.shortIds[r]] == p % 0x1_0000
  {
    OpenOfRank(slots, p);
    IdMapAt(Places(slots), msg.shortIds, |msg.shortIds|, r);
  }

  /** The scan of a pool of one. */
  lemma ScanOne(ids: map<nat, nat>, slots: Slots, sid: nat -> nat, t: Tx, q: nat)
    requires (forall id :: id in ids ==> ids[id] < |slots|) && sid(t.hash) in ids && ids[sid(t.hash)] == q
    ensures |[t]| == 1 && ScanPool(ids, slots, sid, [t], 1).slots == slots[q := Some(t)]
  {
    assert ScanPool(ids, slots, sid, [t], 0) == Scan(slots, {}, 0);
    assert |ids| > 0;
  }

  lemma SampleDiffers(msg: Message, slots: Slots, sid: nat -> nat, p: nat, last: nat)
    requires CanPlace(msg, |msg.prefilled|) && slots == Placed(msg, |msg.prefilled|) && Covers(msg, sid)
    requires |msg.shortIds| == |Places(slots)| && |IdMap(Places(slots), msg.shortIds, |msg.shortIds|)| == |msg.shortIds|
    requires p < last < |slots| && slots[last].None?
    ensures Sample(msg, slots, sid, p) != Sample(msg, slots, sid, last)
  {
    SampleAt(msg, slots, sid, last, Rank(slots, last));
    if slots[p].Some? {
      SampleFull(msg, slots, sid, p);
    } else {
      SampleAt(msg, slots, sid, p, Rank(slots, p));
      RankOrder(slots, p, last);
      IdsDistinct(Places(slots), msg.shortIds, |msg.shortIds|, Rank(slots, p), Rank(slots, last));
    }
  }

  /** One pool transaction in a wrong slot is enough. */
  lemma OneDisagrees(msg: Message, slots: Slots, ids: map<nat, nat>, block: Block, sid: nat -> nat, t: Tx, q: nat)
    requires (forall id :: id in ids ==> ids[id] < |slots|) && sid(t.hash) in ids && ids[sid(t.hash)] == q
    requires Encodes(msg, block, sid) && NoClash(block, [t], sid) && |block.vtx| == |slots| && t != block.vtx[q]
    ensures !AlwaysAgrees(msg, slots, ids, sid)
  {
    ScanOne(ids, slots, sid, t, q);
    var got := ScanPool(ids, slots, sid, [t], |[t]|).slots;
    assert got[q] == Some(t);
    assert !Agrees(got, block.vtx);
  }

  lemma LastOpen(msg: Message, slots: Slots)
    requires CanPlace(msg, |msg.prefilled|) && slots == Placed(msg, |msg.prefilled|) && msg.TxCount() > 0x1_0000
    ensures slots[|slots| - 1].None?
  {
    if slots[|slots| - 1].Some? { var i := PlacedFrom(msg, |msg.prefilled|, |slots| - 1); }
  }

  /** With a slot beyond 16 bits, the pool's transaction for it goes to another slot, and is wrong there. */
  lemma Misplaced(msg: Message, slots: Slots, ids: map<nat, nat>, sid: nat -> nat, vtx: seq<Tx>, last: nat, q: nat)
    requires Sampled(msg, slots, sid, vtx) && q < last < |slots| && slots[last].None? && q == last % 0x1_0000
    requires ids == IdMap(Places(slots), msg.shortIds, |msg.shortIds|) && |ids| == |msg.shortIds|
    ensures sid(vtx[last].hash) in ids && ids[sid(vtx[last].hash)] == q && vtx[last] != vtx[q]
  {
    var r := Rank(slots, last);
    SampleTxAt(msg, slots, sid, |slots|, last);
    SampleAt(msg, slots, sid, last, r);
    WrappedEntry(msg, slots, ids, last, r);
    SampleTxAt(msg, slots, sid, |slots|, q);
    SampleDiffers(msg, slots, sid, q, last);
  }

  lemma WrappedDisagrees(msg: Message, slots: Slots, ids: map<nat, nat>, sid: nat -> nat)
    requires CanPlace(msg, |msg.prefilled|) && slots == Placed(msg, |msg.prefilled|) && msg.TxCount() > 0x1_0000
    requires |msg.shortIds| == |Places(slots)| && ids == IdMap(Places(slots), msg.shortIds, |msg.shortIds|)
    requires |ids| == |msg.shortIds| && (forall id :: id in ids ==> ids[id] < |slots|) && Covers(msg, sid)
    ensures !AlwaysAgrees(msg, slots, ids, sid)
  {
    LastOpen(msg, slots);
    var vtx, last := SampleTxs(msg, slots, sid, |slots|), |slots| - 1;
    Misplaced(msg, slots, ids, sid, vtx, last, last % 0x1_0000);
    SampleEncoded(msg, slots, sid, vtx);
    SampleNoClash(msg, slots, sid, vtx, last);
    OneDisagrees(msg, slots, ids, Block(msg.header, vtx), sid, vtx[last], last % 0x1_0000);
  }

  /** Taking up an announcement whose short ids do not collide comes to an end and puts nothing in a wrong slot,
      whatever the block and the pool, if it has at most 65536 transactions; and only if, for every short id
      function that covers the announcement. */
  lemma ReconstructsExactly(msg: Message, slots: Slots, ids: map<nat, nat>, sid: nat -> nat)
    requires CanPlace(msg, |msg.prefilled|) && slots == Placed(msg, |msg.prefilled|)
    requires |msg.shortIds| == |Places(slots)| && ids == IdMap(Places(slots), msg.shortIds, |msg.shortIds|)
    requires |ids| == |msg.shortIds| && forall id :: id in ids ==> ids[id] < |slots|
    ensures msg.TxCount() <= 0x1_0000 ==> Searchable(msg) && AlwaysAgrees(msg, slots, ids, sid)
    ensures Covers(msg, sid) ==> (Searchable(msg) && AlwaysAgrees(msg, slots, ids, sid) <==> msg.TxCount() <= 0x1_0000)
  {
    if msg.TxCount() <= 0x1_0000 {
      forall block: Block, pool: seq<Tx> | Encodes(msg, block, sid) && NoClash(block, pool, sid)
        ensures Agrees(ScanPool(ids, slots, sid, pool, |pool|).slots, block.vtx)
      {
        Reconstructs(msg, block, sid, pool, slots, ids, |pool|);
      }
    } else if Covers(msg, sid) {
      WrappedDisagrees(msg, slots, ids, sid);
    }
  }
}
