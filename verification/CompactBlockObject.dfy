/** The partially downloaded block as an object that is filled step by step. */
module CompactBlockObject {
  import opened Common
  import opened CompactBlock
  import ArithMath

  datatype Verdict = Valid | CorruptionPossible | NotValid

  /** The tests on a message before anything is taken from it. */
  predicate Acceptable(msg: Message) {
    && !msg.header.isNull && (msg.shortIds != [] || msg.prefilled != [])
    && msg.TxCount() <= MAX_TX_COUNT && CanPlace(msg, |msg.prefilled|)
  }

  /** The slots with the transactions in full, and the table of short ids. */
  ghost function Prepared(msg: Message): Slots
    requires Acceptable(msg)
  {
    Placed(msg, |msg.prefilled|)
  }

  ghost function Table(msg: Message): (ids: map<nat, nat>)
    requires Acceptable(msg)
    ensures forall id :: id in ids ==> ids[id] < msg.TxCount()
  {
    PlacedCount(msg, |msg.prefilled|);
    TableInRange(Places(Prepared(msg)), msg.shortIds, |msg.shortIds|, msg.TxCount());
    IdMap(Places(Prepared(msg)), msg.shortIds, |msg.shortIds|)
  }

  /** The hash table of short ids is too uneven, or two short ids are the same. */
  ghost predicate Colliding(msg: Message, crowded: nat -> bool)
    requires Acceptable(msg)
  {
    !((forall i :: 0 <= i < |msg.shortIds| ==> !crowded(i)) && |Table(msg)| == |msg.shortIds|)
  }

  class PartialBlock {
    var header: Header
    var available: Slots
    var prefilledCount: nat
    var mempoolCount: int

    constructor ()
      ensures header.isNull && available == []
    {
      header, available, prefilledCount, mempoolCount := Header(0, true), [], 0, 0;
    }

    /** Places the transactions in full; no access is out of range. */
    method PlacePrefilled(msg: Message) returns (ok: bool)
      modifies this`available
      ensures ok <==> CanPlace(msg, |msg.prefilled|)
      ensures ok ==> available == Placed(msg, |msg.prefilled|)
    {
      available := seq(msg.TxCount(), _ => None);
      var last, i := -1, 0;
      while i < |msg.prefilled|
        invariant 0 <= i <= |msg.prefilled| && last == Position(msg.prefilled, i - 1)
        invariant CanPlace(msg, i) && available == Placed(msg, i)
      {
        if msg.prefilled[i].tx.isNull { return false; }
        last := last + msg.prefilled[i].index + 1;
        if last > MAX_INDEX { return false; }
        if last > |msg.shortIds| + i { return false; }
        available := available[last := Some(msg.prefilled[i].tx)];
        i := i + 1;
      }
      return true;
    }

    /** The first open slot for short id `i`, counted from `offset` filled slots on. The offset has 16 bits; when
        it has taken all its values in vain, the search goes round for ever. */
    method NextSlot(i: nat, offset: nat) returns (found: bool, next: nat)
      requires i < Rank(available, |available|) && offset <= MAX_INDEX && i + offset == SearchFrom(available, i)
      requires Open(available, i) - i <= MAX_INDEX || NeverEnds(available, i, offset)
      ensures found <==> !NeverEnds(available, i, offset)
      ensures found ==> next <= MAX_INDEX && i + next == Open(available, i)
    {
      next := offset;
      var steps: nat := 0;
      while true
        invariant steps <= MAX_INDEX && Searching(available, i, offset, steps, next)
        decreases 0x1_0000 - steps
      {
        SearchInRange(available, i, offset, steps, next);
        if available[i + next].None? {
          FoundOpen(available, i, offset, steps, next);
          return true, next;
        }
        SearchStep(available, i, offset, steps, next);
        if steps == MAX_INDEX {
          RoundAgain(available, i, offset, (next + 1) % 0x1_0000);
          return false, next;
        }
        next := (next + 1) % 0x1_0000;
        steps := steps + 1;
      }
    }

    /** Enters short id `i` into the table, unless the search for its slot never ends. */
    method MapShortId(msg: Message, ids: map<nat, nat>, i: nat, offset: nat, ghost places: seq<nat>)
      returns (found: bool, more: map<nat, nat>, next: nat)
      requires i < |msg.shortIds| && Mapped(msg, places, ids, i, offset) && MayMap(available, places, i)
      ensures found <==> AllNear(places)
      ensures found ==> Mapped(msg, places, more, i + 1, next)
    {
      more := ids;
      assert places[i] == Open(available, i);
      if !AllNear(places) { NeverEndsFar(available); }
      assert i > 0 ==> places[i - 1] == Open(available, i - 1);
      OpenEnds(available, i, offset);
      found, next := NextSlot(i, offset);
      if found {
        more := ids[msg.shortIds[i] := (i + next) % 0x1_0000];
      }
    }

    /** Enters short id `i` into the table; fails when this makes the table crowded. */
    method MapNext(msg: Message, crowded: nat -> bool, ids: map<nat, nat>, i: nat, offset: nat, ghost places: seq<nat>)
      returns (status: Status, more: map<nat, nat>, next: nat)
      requires i < |msg.shortIds| && Mapped(msg, places, ids, i, offset) && MayMap(available, places, i) && Uncrowded(crowded, i)
      ensures status == Ok ==> Mapped(msg, places, more, i + 1, next)
      ensures status == Ok ==> MayMap(available, places, i + 1)
      ensures status == Ok ==> Uncrowded(crowded, i + 1)
      ensures status != Ok ==> MapOutcome(msg, crowded, places, status, more)
    {
      var found;
      found, more, next := MapShortId(msg, ids, i, offset, places);
      if !found { return Endless, more, next; }
      CrowdedOne(msg, crowded, places, more, i);
      StillNear(available, places, i + 1);
      status := if crowded(i) then Failed else Ok;
    }

    /** Enters the short ids into a table; fails when it is crowded, or when two short ids are the same. */
    method MapShortIds(msg: Message, crowded: nat -> bool, ghost places: seq<nat>) returns (status: Status,
                       ids: map<nat, nat>)
      requires Mapped(msg, places, map[], 0, 0) && MayMap(available, places, 0)
      ensures MapOutcome(msg, crowded, places, status, ids)
    {
      ids := map[];
      var i: nat, offset: nat := 0, 0;
      while i < |msg.shortIds|
        invariant Mapped(msg, places, ids, i, offset)
        invariant MayMap(available, places, i)
        invariant Uncrowded(crowded, i)
      {
        status, ids, offset := MapNext(msg, crowded, ids, i, offset, places);
        if status != Ok { return; }
        i := i + 1;
      }
      AllMapped(available, msg, crowded, places, ids, offset);
      status := if |ids| == |msg.shortIds| then Ok else Failed;
    }

    /** Takes one transaction from the pool. */
    method TakeTx(ids: map<nat, nat>, id: nat, t: Tx, have: seq<bool>, ghost sc: Scan) returns (haveNow: seq<bool>,
                  ghost next: Scan)
      requires (forall i :: i in ids ==> ids[i] < |available|) && |have| == |available|
      requires sc == Scan(available, Held(have), mempoolCount)
      modifies this`available, this`mempoolCount
      ensures next == ScanTx(ids, sc, id, t) && |haveNow| == |have|
      ensures next == Scan(available, Held(haveNow), mempoolCount)
    {
      haveNow := have;
      next := ScanTx(ids, sc, id, t);
      if id in ids {
        var p := ids[id];
        if !have[p] {
          available := available[p := Some(t)];
          haveNow := have[p := true];
          HeldSet(have, p);
          mempoolCount := mempoolCount + 1;
        } else if available[p].Some? {
          available := available[p := None];
          mempoolCount := mempoolCount - 1;
        }
      }
    }

    /** Looks through the pool until every short id is served. */
    method ScanMempool(ids: map<nat, nat>, pool: seq<Tx>, sid: nat -> nat)
      requires mempoolCount == 0 && forall i :: i in ids ==> ids[i] < |available|
      modifies this`available, this`mempoolCount
      ensures var sc := ScanPool(ids, old(available), sid, pool, |pool|);
              available == sc.slots && mempoolCount == sc.count
    {
      ghost var slots := available;
      var have := seq(|available|, _ => false);
      ghost var sc := Scan(available, {}, 0);
      assert Held(have) == {};
      var i := 0;
      while i < |pool|
        invariant 0 <= i <= |pool| && |have| == |available| == |slots|
        invariant sc == ScanPool(ids, slots, sid, pool, i) && sc == Scan(available, Held(have), mempoolCount)
      {
        if mempoolCount == |ids| {
          ScanStopped(ids, slots, sid, pool, i, |pool|);
          return;
        }
        have, sc := TakeTx(ids, sid(pool[i].hash), pool[i], have, sc);
        i := i + 1;
      }
    }

    /** Prepares the slots and the table of short ids. */
    method Prepare(msg: Message, crowded: nat -> bool) returns (status: Status, ids: map<nat, nat>)
      requires header.isNull && available == []
      modifies this`header, this`available, this`prefilledCount
      ensures status == Invalid <==> !Acceptable(msg)
      ensures status == Endless <==> Acceptable(msg) && !Searchable(msg)
      ensures status == Failed <==> Acceptable(msg) && Searchable(msg) && Colliding(msg, crowded)
      ensures status == Ok ==>
        header == msg.header && prefilledCount == |msg.prefilled| && available == Prepared(msg) && ids == Table(msg)
    {
      ids := map[];
      if msg.header.isNull || (msg.shortIds == [] && msg.prefilled == []) { return Invalid, ids; }
      if |msg.shortIds| + |msg.prefilled| > MAX_TX_COUNT { return Invalid, ids; }
      header := msg.header;
      var ok := PlacePrefilled(msg);
      if !ok { return Invalid, ids; }
      prefilledCount := |msg.prefilled|;
      SearchesPrepared(msg, available);
      status, ids := MapShortIds(msg, crowded, Places(available));
    }

    /** Takes up an announcement. `crowded` says for which short ids the hash table is too uneven. */
    method InitData(msg: Message, pool: seq<Tx>, sid: nat -> nat, crowded: nat -> bool) returns (status: Status)
      requires header.isNull && available == [] && mempoolCount == 0
      modifies this
      ensures status == Invalid <==> !Acceptable(msg)
      ensures status == Endless <==> Acceptable(msg) && !Searchable(msg)
      ensures status == Failed <==> Acceptable(msg) && Searchable(msg) && Colliding(msg, crowded)
      ensures status == Ok ==>
        && header == msg.header && prefilledCount == |msg.prefilled|
        && available == ScanPool(Table(msg), Prepared(msg), sid, pool, |pool|).slots
        && mempoolCount == ScanPool(Table(msg), Prepared(msg), sid, pool, |pool|).count
    {
      var ids: map<nat, nat>;
      status, ids := Prepare(msg, crowded);
      if status == Ok {
        ScanMempool(ids, pool, sid);
      }
    }

    predicate IsTxAvailable(index: nat)
      requires !header.isNull && index < |available|
      reads this
    {
      available[index].Some?
    }

    /** Completes the block with the missing transactions; `check` is the validity check of blocks. */
    method FillBlock(missing: seq<Tx>, check: Block -> Verdict) returns (status: Status, block: Block)
      requires !header.isNull
      ensures |missing| != Rank(available, |available|) ==> status == Invalid
      ensures |missing| == Rank(available, |available|) ==>
        && Fill(available, missing) == Some(block.vtx) && block.header == header
        && (status == Ok <==> check(block) == Valid) && (status == Failed <==> check(block) == CorruptionPossible)
    {
      FillCount(available, missing);
      block := Block(header, []);
      var offset, i := 0, 0;
      assert available[0..] == available && missing[0..] == missing;
      assert Fill(available, missing).Some? ==> [] + Fill(available, missing).value == Fill(available, missing).value;
      while i < |available|
        invariant 0 <= i <= |available| && 0 <= offset <= |missing|
        invariant Rebuilt(Fill(available, missing), block.vtx, Fill(available[i..], missing[offset..])) && block.header == header
      {
        assert available[i..][1..] == available[i + 1..];
        ghost var rest := Fill(available[i..], missing[offset..]);
        if available[i].None? {
          if |missing| <= offset { return Invalid, block; }
          assert missing[offset..][1..] == missing[offset + 1..];
          RebuiltNext(Fill(available, missing), block.vtx, missing[offset], rest, Fill(available[i + 1..], missing[offset + 1..]));
          block := Block(header, block.vtx + [missing[offset]]);
          offset := offset + 1;
        } else {
          RebuiltNext(Fill(available, missing), block.vtx, available[i].value, rest, Fill(available[i + 1..], missing[offset..]));
          block := Block(header, block.vtx + [available[i].value]);
        }
        i := i + 1;
      }
      if |missing| != offset { return Invalid, block; }
      assert block.vtx + [] == block.vtx;
      var verdict := check(block);
      status := if verdict == Valid then Ok else if verdict == CorruptionPossible then Failed else Invalid;
    }
  }

  /** None of the first `n` short ids made a bucket of the table crowded. */
  predicate Uncrowded(crowded: nat -> bool, n: nat) {
    forall j :: 0 <= j < n ==> !crowded(j)
  }

  /** No bucket of the table is crowded, and no two short ids are the same. */
  predicate Even(msg: Message, crowded: nat -> bool, places: seq<nat>)
    requires |msg.shortIds| == |places|
  {
    Uncrowded(crowded, |msg.shortIds|) && |IdMap(places, msg.shortIds, |msg.shortIds|)| == |msg.shortIds|
  }

  /** The first `i` short ids are in the table, and `offset` filled slots were passed on the way. */
  ghost predicate Mapped(msg: Message, places: seq<nat>, ids: map<nat, nat>, i: nat, offset: nat) {
    && i <= |msg.shortIds| == |places| && offset <= MAX_INDEX
    && i + offset == (if i == 0 then 0 else places[i - 1] + 1) && ids == IdMap(places, msg.shortIds, i)
  }

  /** The search for a slot ends unless it is too far, and the table is accepted exactly when it is even. */
  ghost predicate MapOutcome(msg: Message, crowded: nat -> bool, places: seq<nat>, status: Status, ids: map<nat, nat>) {
    && |msg.shortIds| == |places| && status != Invalid && (status == Endless <==> !AllNear(places))
    && (status == Ok <==> AllNear(places) && Even(msg, crowded, places))
    && (status == Ok ==> ids == IdMap(places, msg.shortIds, |msg.shortIds|))
  }

  /** All slots are near, or no short id has been entered and the search for its slot never ends. */
  ghost predicate MayMap(slots: Slots, places: seq<nat>, i: nat) {
    OpenPlaces(slots, places) && (AllNear(places) || (i == 0 && places != [] && NeverEnds(slots, i, i)))
  }

  lemma StillNear(slots: Slots, places: seq<nat>, i: nat)
    requires OpenPlaces(slots, places) && AllNear(places)
    ensures MayMap(slots, places, i)
  {
  }

  lemma CrowdedOne(msg: Message, crowded: nat -> bool, places: seq<nat>, ids: map<nat, nat>, i: nat)
    requires i < |msg.shortIds| == |places| && Uncrowded(crowded, i) && AllNear(places)
    ensures crowded(i) ==> MapOutcome(msg, crowded, places, Failed, ids)
    ensures !crowded(i) ==> Uncrowded(crowded, i + 1)
  {
  }

  lemma AllMapped(slots: Slots, msg: Message, crowded: nat -> bool, places: seq<nat>, ids: map<nat, nat>, offset: nat)
    requires Mapped(msg, places, ids, |msg.shortIds|, offset) && MayMap(slots, places, |msg.shortIds|)
    requires Uncrowded(crowded, |msg.shortIds|)
    ensures MapOutcome(msg, crowded, places, if |ids| == |msg.shortIds| then Ok else Failed, ids)
  {
  }

  ghost predicate OpenPlaces(slots: Slots, places: seq<nat>) {
    |places| == Rank(slots, |slots|) && forall j :: 0 <= j < |places| ==> places[j] == Open(slots, j)
  }

  /** Every slot is within 16 bits of its short id. */
  ghost predicate AllNear(places: seq<nat>) {
    forall j :: 0 <= j < |places| ==> places[j] - j <= MAX_INDEX
  }

  /** After some steps of a search, all of them at filled slots. */
  ghost predicate Searching(slots: Slots, i: nat, offset: nat, steps: nat, next: nat)
    requires i < Rank(slots, |slots|)
  {
    && next <= MAX_INDEX && i + next == Probe(i, offset, steps)
    && (forall k: nat :: k < steps ==> Probe(i, offset, k) < |slots| && slots[Probe(i, offset, k)].Some?)
    && (Open(slots, i) - i <= MAX_INDEX ==> next == offset + steps && i + next <= Open(slots, i))
  }

  /** The search stays within the slots. */
  lemma SearchInRange(slots: Slots, i: nat, offset: nat, steps: nat, next: nat)
    requires i < Rank(slots, |slots|) && (Open(slots, i) - i <= MAX_INDEX || NeverEnds(slots, i, offset))
    requires Searching(slots, i, offset, steps, next)
    ensures i + next < |slots|
  {
  }

  lemma SearchStep(slots: Slots, i: nat, offset: nat, steps: nat, next: nat)
    requires i < Rank(slots, |slots|) && Searching(slots, i, offset, steps, next)
    requires i + next < |slots| && slots[i + next].Some?
    ensures Searching(slots, i, offset, steps + 1, (next + 1) % 0x1_0000)
  {
  }

  /** All values of the offset have been tried: the others repeat them. */
  lemma RoundAgain(slots: Slots, i: nat, offset: nat, next: nat)
    requires i < Rank(slots, |slots|) && Searching(slots, i, offset, 0x1_0000, next)
    ensures NeverEnds(slots, i, offset)
  {
    forall k: nat ensures Probe(i, offset, k) < |slots| && slots[Probe(i, offset, k)].Some? {
      ArithMath.ModShift(offset, k, k % 0x1_0000, 0x1_0000);
      assert Probe(i, offset, k) == Probe(i, offset, k % 0x1_0000);
    }
  }

  /** The first open slot that is met is that of the short id. */
  lemma FoundOpen(slots: Slots, i: nat, offset: nat, steps: nat, next: nat)
    requires i < Rank(slots, |slots|) && i + offset == SearchFrom(slots, i)
    requires Open(slots, i) - i <= MAX_INDEX || NeverEnds(slots, i, offset)
    requires Searching(slots, i, offset, steps, next) && i + next < |slots| && slots[i + next].None?
    ensures !NeverEnds(slots, i, offset) && i + next == Open(slots, i)
  {
  }

  lemma OpenEnds(slots: Slots, i: nat, offset: nat)
    requires i < Rank(slots, |slots|) && offset <= MAX_INDEX && i + offset == SearchFrom(slots, i)
    ensures Open(slots, i) - i <= MAX_INDEX ==> !NeverEnds(slots, i, offset)
  {
    if Open(slots, i) - i <= MAX_INDEX {
      var k: nat := Open(slots, i) - i - offset;
      assert Probe(i, offset, k) == Open(slots, i);
    }
  }

  /** What the search for the slots of an acceptable message starts from. */
  lemma SearchesPrepared(msg: Message, slots: Slots)
    requires CanPlace(msg, |msg.prefilled|) && slots == Placed(msg, |msg.prefilled|)
    ensures |msg.shortIds| == |Places(slots)| && OpenPlaces(slots, Places(slots))
    ensures AllNear(Places(slots)) <==> Searchable(msg)
    ensures !Searchable(msg) ==> msg.shortIds != [] && NeverEnds(slots, 0, 0)
  {
    SearchesEndExactly(msg, slots);
    if AllNear(Places(slots)) {
      forall i | 0 <= i < |msg.shortIds| ensures Open(slots, i) - i <= MAX_INDEX {
        assert Places(slots)[i] - i <= MAX_INDEX;
      }
    }
  }

  lemma NeverEndsFar(slots: Slots)
    requires 0 < Rank(slots, |slots|) && NeverEnds(slots, 0, 0)
    ensures Open(slots, 0) > MAX_INDEX
  {
    var k := Open(slots, 0);
    assert slots[Probe(0, 0, k)].Some?;
  }

  function Held(have: seq<bool>): set<nat> {
    set p: nat | p < |have| && have[p]
  }

  lemma HeldSet(have: seq<bool>, p: nat)
    requires p < |have|
    ensures Held(have[p := true]) == Held(have) + {p}
  {
  }

  /** Once the scan has stopped, nothing changes any more. */
  lemma {:induction false} ScanStopped(ids: map<nat, nat>, slots: Slots, sid: nat -> nat, pool: seq<Tx>, m: nat, n: nat)
    requires m <= n <= |pool| && (forall i :: i in ids ==> ids[i] < |slots|) && ScanPool(ids, slots, sid, pool, m).count == |ids|
    ensures ScanPool(ids, slots, sid, pool, n) == ScanPool(ids, slots, sid, pool, m)
    decreases n
  {
    if m < n { ScanStopped(ids, slots, sid, pool, m, n - 1); }
  }

  /** The whole result is what has been rebuilt, followed by the rest. */
  ghost predicate Rebuilt(all: Option<seq<Tx>>, done: seq<Tx>, rest: Option<seq<Tx>>) {
    if rest.None? then all.None? else all == Some(done + rest.value)
  }

  lemma RebuiltNext(all: Option<seq<Tx>>, done: seq<Tx>, t: Tx, rest: Option<seq<Tx>>, next: Option<seq<Tx>>)
    requires Rebuilt(all, done, rest) && rest == Prepend(t, next)
    ensures Rebuilt(all, done + [t], next)
  {
    if next.Some? { assert done + ([t] + next.value) == done + [t] + next.value; }
  }

  // ---------------------------------------------------------------------
  // Messages of more than 65536 transactions
  // ---------------------------------------------------------------------

  /** An acceptable message without collisions can be relied upon exactly up to 65536 transactions. */
  lemma ReliableExactly(msg: Message, sid: nat -> nat)
    requires Acceptable(msg) && |Table(msg)| == |msg.shortIds|
    ensures msg.TxCount() <= 0x1_0000 ==> Searchable(msg) && AlwaysAgrees(msg, Prepared(msg), Table(msg), sid)
    ensures Covers(msg, sid) ==>
      (Searchable(msg) && AlwaysAgrees(msg, Prepared(msg), Table(msg), sid) <==> msg.TxCount() <= 0x1_0000)
  {
    PlacedCount(msg, |msg.prefilled|);
    ReconstructsExactly(msg, Prepared(msg), Table(msg), sid);
  }

  /** Short ids that count up do not collide. */
  lemma {:induction false} CountingIds(places: seq<nat>, ids: seq<nat>, k: nat)
    requires k <= |ids| <= |places| && forall i :: 0 <= i < |ids| ==> ids[i] == i
    ensures |IdMap(places, ids, k)| == k && forall id :: id in IdMap(places, ids, k) ==> id < k
  {
    if k > 0 {
      CountingIds(places, ids, k - 1);
      assert IdMap(places, ids, k).Keys == IdMap(places, ids, k - 1).Keys + {k - 1};
    }
  }

  /** The first transaction in full and 65536 short ids. */
  ghost predicate FirstInFull(msg: Message, first: Tx, sid: nat -> nat) {
    && first == Tx(0x1_0000, false) && msg == Message(Header(1, false), seq(0x1_0000, i => i), [Prefilled(0, first)])
    && forall h: nat :: sid(h) == h
  }

  lemma FirstCovered(msg: Message, first: Tx, sid: nat -> nat)
    requires FirstInFull(msg, first, sid)
    ensures Covers(msg, sid)
  {
    forall k | 0 <= k < |msg.shortIds| ensures Taken(sid, msg.shortIds[k]) { assert sid(k) == msg.shortIds[k]; }
  }

  /** The last short id leads to the slot of the first transaction, and a pool transaction replaces it there. */
  lemma FirstReplaced(msg: Message, first: Tx, t: Tx, sid: nat -> nat)
    requires FirstInFull(msg, first, sid) && t == Tx(MAX_INDEX, false)
    ensures Acceptable(msg) && Searchable(msg) && |Table(msg)| == |msg.shortIds| && Covers(msg, sid)
    ensures Prepared(msg)[0] == Some(first) && ScanPool(Table(msg), Prepared(msg), sid, [t], 1).slots[0] == Some(t)
  {
    FirstCovered(msg, first, sid);
    assert Position(msg.prefilled, 0) == 0;
    var slots := Placed(msg, 1);
    PlacedCount(msg, 1);
    var last := |slots| - 1;
    RankAfterFirst(slots, last);
    CountingIds(Places(slots), msg.shortIds, |msg.shortIds|);
    WrappedEntry(msg, slots, Table(msg), last, last - 1);
    ScanOne(Table(msg), slots, sid, t, 0);
  }

  lemma {:induction false} InARow(prefilled: seq<Prefilled>, i: nat)
    requires i < |prefilled| && forall j :: 0 <= j < |prefilled| ==> prefilled[j].index == 0
    ensures Position(prefilled, i) == i
  {
    if i > 0 { InARow(prefilled, i - 1); }
  }

  /** As many transactions in full as there are positions, and one short id: the search for its slot never ends. */
  lemma EndlessSearch(msg: Message)
    requires msg == Message(Header(1, false), [7], seq(0x1_0000, _ => Prefilled(0, Tx(1, false))))
    ensures Acceptable(msg) && !Searchable(msg) && NeverEnds(Prepared(msg), 0, 0)
  {
    forall i | 0 <= i < |msg.prefilled| ensures Position(msg.prefilled, i) == i { InARow(msg.prefilled, i); }
    SearchesEndExactly(msg, Placed(msg, |msg.prefilled|));
  }
}
