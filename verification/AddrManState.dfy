/** The address manager's tables as values, its operations as functions on
    them, and the consistency invariant that the operations keep.

    Bucket counts, the keyed hashes and the routability test are parameters;
    clocks and random draws are arguments of the operations. A grid of buckets is
    a map that holds its occupied slots only. */
module AddrManState {
  import opened Common

  type NetAddr = nat

  datatype Service = Service(ip: NetAddr, port: nat)

  /** What a peer announces: a service, when it was last seen, and its service bits. */
  datatype Address = Address(svc: Service, time: int, services: bv64)

  datatype AddrInfo = AddrInfo(
    svc: Service,
    time: int,
    services: bv64,
    source: NetAddr,
    lastTry: int,
    lastCountAttempt: int,
    lastSuccess: int,
    attempts: int,
    refCount: int,
    inTried: bool,
    randomPos: int)

  datatype Slot = Slot(bucket: int, pos: int)

  const NEW_BUCKETS_PER_ADDRESS := 8
  const HORIZON_SECONDS := 30 * 24 * 60 * 60
  const RETRIES := 3
  const MAX_FAILURES := 10
  const MIN_FAIL_SECONDS := 7 * 24 * 60 * 60
  const GETADDR_MAX_PCT := 23
  const GETADDR_MAX := 2500

  datatype Params = Params(
    newBuckets: int,
    triedBuckets: int,
    bucketSize: int,
    newHash: (nat, Service, NetAddr) -> nat,
    triedHash: (nat, Service) -> nat,
    posHash: (nat, Service, bool, int) -> nat,
    routable: NetAddr -> bool)
  {
    predicate Valid() {
      newBuckets > 0 && triedBuckets > 0 && bucketSize > 0
    }

    function Pos(key: nat, svc: Service, isNew: bool, bucket: int): int
      requires Valid()
    {
      posHash(key, svc, isNew, bucket) % bucketSize
    }

    function NewSlot(key: nat, svc: Service, source: NetAddr): Slot
      requires Valid()
    {
      var b := newHash(key, svc, source) % newBuckets;
      Slot(b, Pos(key, svc, true, b))
    }

    function TriedSlot(key: nat, svc: Service): Slot
      requires Valid()
    {
      var b := triedHash(key, svc) % triedBuckets;
      Slot(b, Pos(key, svc, false, b))
    }
  }

  datatype State = State(
    idCount: int,
    info: map<int, AddrInfo>,
    addr: map<NetAddr, int>,
    rnd: seq<int>,
    nTried: int,
    triedSlots: map<Slot, int>,
    nNew: int,
    newSlots: map<Slot, int>,
    lastGood: int,
    key: nat)

  function Init(key: nat): State {
    State(0, map[], map[], [], 0, map[], 0, map[], 1, key)
  }

  // ---------------------------------------------------------------------
  // The invariant
  // ---------------------------------------------------------------------

  ghost predicate IdsOk(s: State) {
    0 <= s.idCount && forall id :: id in s.info ==> 0 <= id < s.idCount
  }

  /** The address index is the inverse of the entry table. */
  ghost predicate AddrOk(s: State) {
    && (forall id :: id in s.info ==> s.info[id].svc.ip in s.addr && s.addr[s.info[id].svc.ip] == id)
    && (forall a :: a in s.addr ==> s.addr[a] in s.info && s.info[s.addr[a]].svc.ip == a)
  }

  /** The random order and the positions stored in the entries are inverse to each other. */
  ghost predicate RandomOk(s: State) {
    && (forall id {:trigger s.info[id].randomPos} :: id in s.info ==>
        0 <= s.info[id].randomPos < |s.rnd| && s.rnd[s.info[id].randomPos] == id)
    && (forall i {:trigger s.rnd[i]} :: 0 <= i < |s.rnd| ==> s.rnd[i] in s.info && s.info[s.rnd[i]].randomPos == i)
  }

  /** Every occupied "new" slot holds an untried entry at the position computed for it. */
  ghost predicate NewOk(p: Params, s: State)
    requires p.Valid()
  {
    forall sl :: sl in s.newSlots ==>
      && 0 <= sl.bucket < p.newBuckets
      && s.newSlots[sl] in s.info
      && !s.info[s.newSlots[sl]].inTried
      && sl.pos == p.Pos(s.key, s.info[s.newSlots[sl]].svc, true, sl.bucket)
  }

  /** The "tried" slots hold exactly the tried entries, each at its own slot. */
  ghost predicate TriedOk(p: Params, s: State)
    requires p.Valid()
  {
    && (forall sl :: sl in s.triedSlots ==>
      && s.triedSlots[sl] in s.info
      && s.info[s.triedSlots[sl]].inTried
      && sl == p.TriedSlot(s.key, s.info[s.triedSlots[sl]].svc))
    && (forall id :: id in s.info && s.info[id].inTried ==>
      && var sl := p.TriedSlot(s.key, s.info[id].svc); sl in s.triedSlots && s.triedSlots[sl] == id)
  }

  ghost function Refs(s: State, id: int): set<Slot> {
    set sl | sl in s.newSlots && s.newSlots[sl] == id
  }

  /** Reference counts are exact; only the ids in `zero` have none. */
  ghost predicate RefsOk(s: State, zero: set<int>) {
    && (forall id :: id in zero ==> id in s.info && !s.info[id].inTried)
    && (forall id :: id in s.info ==>
      && s.info[id].refCount == |Refs(s, id)|
      && s.info[id].refCount <= NEW_BUCKETS_PER_ADDRESS
      && (s.info[id].refCount == 0 <==> s.info[id].inTried || id in zero))
  }

  /** Times are non-negative and a tried entry has succeeded once. */
  ghost predicate TimesOk(s: State) {
    forall id :: id in s.info ==>
      && 0 <= s.info[id].lastTry
      && 0 <= s.info[id].lastSuccess
      && (s.info[id].inTried ==> s.info[id].lastSuccess != 0)
  }

  ghost function TriedIds(s: State): set<int> {
    set id | id in s.info && s.info[id].inTried
  }

  ghost function NewIds(s: State): set<int> {
    set id | id in s.info && !s.info[id].inTried
  }

  /** The counters are exact, but for the ids in `uncounted`. */
  ghost predicate CountsOk(s: State, uncounted: set<int>) {
    && uncounted <= NewIds(s)
    && s.nTried == |TriedIds(s)|
    && s.nNew == |NewIds(s)| - |uncounted|
    && |s.rnd| == s.nTried + s.nNew + |uncounted|
  }

  /** All that the invariant says of the tables, but for the address index; the entries of `zero` are
      in no bucket and those of `uncounted` are not in nNew. */
  ghost predicate Unindexed(p: Params, s: State, zero: set<int>, uncounted: set<int>)
    requires p.Valid()
  {
    && IdsOk(s) && RandomOk(s) && NewOk(p, s) && TriedOk(p, s)
    && RefsOk(s, zero) && CountsOk(s, uncounted) && uncounted <= zero
  }

  /** The part of the invariant that holds between the steps of one operation. */
  ghost predicate Core(p: Params, s: State, zero: set<int>, uncounted: set<int>)
    requires p.Valid()
  {
    AddrOk(s) && Unindexed(p, s, zero, uncounted)
  }

  ghost predicate Inv(p: Params, s: State)
    requires p.Valid()
  {
    Core(p, s, {}, {}) && TimesOk(s) && s.key != 0
  }

  // ---------------------------------------------------------------------
  // The internal steps
  // ---------------------------------------------------------------------

  function SwapRandom(s: State, i: int, j: int): State
    requires RandomOk(s) && 0 <= i < |s.rnd| && 0 <= j < |s.rnd|
  {
    if i == j then s else
    var a, b := s.rnd[i], s.rnd[j];
    s.(info := s.info[a := s.info[a].(randomPos := j)][b := s.info[b].(randomPos := i)],
       rnd := s.rnd[i := b][j := a])
  }

  function Create(s: State, a: Address, source: NetAddr): State {
    s.(idCount := s.idCount + 1,
       info := s.info[s.idCount := AddrInfo(a.svc, a.time, a.services, source, 0, 0, 0, 0, 0, false, |s.rnd|)],
       addr := s.addr[a.svc.ip := s.idCount],
       rnd := s.rnd + [s.idCount])
  }

  /** Takes `id`, the last entry of the random order, out of all indexes. */
  function DropLast(s: State, id: int): State
    requires id in s.info && |s.rnd| > 0
  {
    s.(rnd := s.rnd[..|s.rnd| - 1], addr := s.addr - {s.info[id].svc.ip}, info := s.info - {id}, nNew := s.nNew - 1)
  }

  function Delete(s: State, id: int): State
    requires RandomOk(s) && id in s.info
  {
    DropLast(SwapRandom(s, s.info[id].randomPos, |s.rnd| - 1), id)
  }

  /** The entries, with the reference count of `id` set to `n`. */
  function WithRefs(info: map<int, AddrInfo>, id: int, n: int): map<int, AddrInfo>
    requires id in info
  {
    info[id := info[id].(refCount := n)]
  }

  /** Drops one reference of `id`, from slot `sl`. */
  function Release(s: State, sl: Slot, id: int): State
    requires id in s.info
  {
    s.(info := WithRefs(s.info, id, s.info[id].refCount - 1), newSlots := s.newSlots - {sl})
  }

  function ClearNew(s: State, sl: Slot): (r: State)
    requires RandomOk(s)
    requires sl in s.newSlots ==> s.newSlots[sl] in s.info
    ensures forall id :: id in s.info && (sl in s.newSlots ==> s.newSlots[sl] != id) ==> id in r.info
  {
    if sl !in s.newSlots then s else
    var id := s.newSlots[sl];
    var t := Release(s, sl, id);
    if t.info[id].refCount == 0 then Delete(t, id) else t
  }

  /** The slots where the loop over all new buckets finds `id`: one position is looked at in each bucket. */
  function FoundSlots(p: Params, s: State, id: int): set<Slot>
    requires p.Valid() && id in s.info
  {
    set sl | sl in s.newSlots && s.newSlots[sl] == id && 0 <= sl.bucket < p.newBuckets
             && sl.pos == p.Pos(s.key, s.info[id].svc, true, sl.bucket)
  }

  /** Removes `id` from all new buckets and from the count of new entries. */
  function Unlink(p: Params, s: State, id: int): State
    requires p.Valid() && id in s.info
  {
    var found := FoundSlots(p, s, id);
    s.(newSlots := s.newSlots - found,
       info := WithRefs(s.info, id, s.info[id].refCount - |found|),
       nNew := s.nNew - 1)
  }

  /** Enters `id` into slot `sl` of the new buckets with the given reference count. */
  function Link(s: State, sl: Slot, id: int, refCount: int): State
    requires id in s.info
  {
    s.(info := WithRefs(s.info, id, refCount), newSlots := s.newSlots[sl := id])
  }

  /** Takes the entry in tried slot `sl` out of the tried set. */
  function Untry(s: State, sl: Slot): State
    requires sl in s.triedSlots && s.triedSlots[sl] in s.info
  {
    var e := s.triedSlots[sl];
    s.(info := s.info[e := s.info[e].(inTried := false)], triedSlots := s.triedSlots - {sl}, nTried := s.nTried - 1)
  }

  /** The new slot that the source of an entry selects. */
  function HomeSlot(p: Params, s: State, id: int): Slot
    requires p.Valid() && id in s.info
  {
    p.NewSlot(s.key, s.info[id].svc, s.info[id].source)
  }

  /** Takes the entry in tried slot `sl` out of the tried set, and clears its home slot. */
  function Unseat(p: Params, s: State, sl: Slot): (r: State)
    requires p.Valid() && RandomOk(s) && NewOk(p, s) && TriedOk(p, s) && sl in s.triedSlots
    ensures forall id :: id in s.info && id !in s.newSlots.Values ==> id in r.info
  {
    ClearNew(Untry(s, sl), HomeSlot(p, s, s.triedSlots[sl]))
  }

  /** Moves the entry in tried slot `sl` back to its home slot in the new buckets. */
  function Evict(p: Params, s: State, sl: Slot): (r: State)
    requires p.Valid() && RandomOk(s) && NewOk(p, s) && TriedOk(p, s) && sl in s.triedSlots
    ensures forall id :: id in s.info && id !in s.newSlots.Values ==> id in r.info
  {
    var e, t := s.triedSlots[sl], Unseat(p, s, sl);
    Link(t, HomeSlot(p, s, e), e, 1).(nNew := t.nNew + 1)
  }

  /** Makes sure that tried slot `sl` is free. */
  function Vacate(p: Params, s: State, sl: Slot): (r: State)
    requires p.Valid() && RandomOk(s) && NewOk(p, s) && TriedOk(p, s)
    ensures forall id :: id in s.info && id !in s.newSlots.Values ==> id in r.info
  {
    if sl in s.triedSlots then Evict(p, s, sl) else s
  }

  function Promote(s: State, sl: Slot, id: int): State
    requires id in s.info
  {
    s.(triedSlots := s.triedSlots[sl := id], nTried := s.nTried + 1, info := s.info[id := s.info[id].(inTried := true)])
  }

  function MakeTried(p: Params, s: State, id: int): State
    requires p.Valid() && RandomOk(s) && NewOk(p, s) && TriedOk(p, s) && id in s.info && !s.info[id].inTried
  {
    var t := Unlink(p, s, id);
    var sl := p.TriedSlot(s.key, s.info[id].svc);
    Promote(Vacate(p, t, sl), sl, id)
  }

  // ---------------------------------------------------------------------
  // The operations
  // ---------------------------------------------------------------------

  predicate IsTerrible(i: AddrInfo, now: int) {
    if i.lastTry != 0 && i.lastTry >= now - 60 then false
    else if i.time > now + 10 * 60 then true
    else if i.time == 0 || now - i.time > HORIZON_SECONDS then true
    else if i.lastSuccess == 0 && i.attempts >= RETRIES then true
    else now - i.lastSuccess > MIN_FAIL_SECONDS && i.attempts >= MAX_FAILURES
  }

  /** Looks an address up by network address alone, then asks for the same port too. */
  predicate Knows(s: State, svc: Service) {
    svc.ip in s.addr && s.addr[svc.ip] in s.info && s.info[s.addr[svc.ip]].svc == svc
  }

  function Update(s: State, id: int, i: AddrInfo): State {
    s.(info := s.info[id := i])
  }

  /** The times of an entry after a success, before it is moved. */
  function Marked(s: State, id: int, time: int): State
    requires id in s.info
  {
    Update(s.(lastGood := time), id, s.info[id].(lastSuccess := time, lastTry := time, attempts := 0))
  }

  function Good(p: Params, s: State, svc: Service, time: int): State
    requires p.Valid() && RandomOk(s) && NewOk(p, s) && TriedOk(p, s)
  {
    if !Knows(s, svc) then s.(lastGood := time) else
    var id := s.addr[svc.ip];
    var t := Marked(s, id, time);
    if t.info[id].inTried || FoundSlots(p, t, id) == {} then t else MakeTried(p, t, id)
  }

  function Attempt(s: State, svc: Service, countFailure: bool, time: int): State {
    if !Knows(s, svc) then s else
    var id := s.addr[svc.ip];
    var i := s.info[id].(lastTry := time);
    Update(s, id, if countFailure && i.lastCountAttempt < s.lastGood
                  then i.(lastCountAttempt := time, attempts := i.attempts + 1) else i)
  }

  function Connected(s: State, svc: Service, time: int): State {
    if !Knows(s, svc) then s else
    var id := s.addr[svc.ip];
    if time - s.info[id].time > 20 * 60 then Update(s, id, s.info[id].(time := time)) else s
  }

  function SetServices(s: State, svc: Service, services: bv64): State {
    if !Knows(s, svc) then s else
    Update(s, s.addr[svc.ip], s.info[s.addr[svc.ip]].(services := services))
  }

  /** The refresh of a known entry's time and service bits when it is announced again. */
  function Refresh(i: AddrInfo, a: Address, penalty: int, now: int): AddrInfo {
    var interval := if now - a.time < 24 * 60 * 60 then 60 * 60 else 24 * 60 * 60;
    var time := if a.time != 0 && (i.time == 0 || i.time < a.time - interval - penalty)
                then Max(0, a.time - penalty) else i.time;
    i.(time := time, services := i.services | a.services)
  }

  function Power2(n: int): int {
    if n <= 0 then 1 else 2 * Power2(n - 1)
  }

  /** Whether a known entry is given the chance of one more reference; `draw` is the random number. */
  predicate WantsReference(i: AddrInfo, a: Address, draw: nat) {
    && a.time != 0 && (i.time == 0 || a.time > i.time)
    && !i.inTried
    && i.refCount != NEW_BUCKETS_PER_ADDRESS
    && (Power2(i.refCount) > 1 ==> draw % Power2(i.refCount) == 0)
  }

  /** Whether `id` may have slot `sl`: it is free, or its holder is terrible, or the holder has
      another slot and `id` has none. */
  predicate MayTake(s: State, sl: Slot, id: int, now: int)
    requires id in s.info && (sl in s.newSlots ==> s.newSlots[sl] in s.info)
  {
    sl in s.newSlots ==>
      var held := s.info[s.newSlots[sl]];
      IsTerrible(held, now) || (held.refCount > 1 && s.info[id].refCount == 0)
  }

  function TakeOver(s: State, sl: Slot, id: int): State
    requires RandomOk(s) && (sl in s.newSlots ==> s.newSlots[sl] in s.info && s.newSlots[sl] != id) && id in s.info
  {
    Link(ClearNew(s, sl), sl, id, s.info[id].refCount + 1)
  }

  /** Tries to enter `id` into the new bucket that `source` selects. */
  function Place(p: Params, s: State, id: int, source: NetAddr, now: int): State
    requires p.Valid() && RandomOk(s) && NewOk(p, s) && id in s.info
  {
    var sl := p.NewSlot(s.key, s.info[id].svc, source);
    if sl in s.newSlots && s.newSlots[sl] == id then s
    else if MayTake(s, sl, id, now) then TakeOver(s, sl, id)
    else if s.info[id].refCount == 0 then Delete(s, id)
    else s
  }

  /** A known address is announced again. */
  function AddAgain(p: Params, s: State, a: Address, source: NetAddr, penalty: int, now: int, draw: nat): State
    requires p.Valid() && RandomOk(s) && NewOk(p, s) && a.svc.ip in s.addr && s.addr[a.svc.ip] in s.info
  {
    var id := s.addr[a.svc.ip];
    var i := Refresh(s.info[id], a, penalty, now);
    var t := Update(s, id, i);
    if WantsReference(i, a, draw) then Place(p, t, id, source, now) else t
  }

  /** An address is entered, and counted as new. */
  function CreateNew(s: State, a: Address, source: NetAddr): State {
    Create(s, a, source).(nNew := s.nNew + 1)
  }

  /** An unknown address is announced. */
  function AddNew(p: Params, s: State, a: Address, source: NetAddr, penalty: int, now: int): State
    requires p.Valid() && IdsOk(s) && RandomOk(s) && NewOk(p, s)
  {
    Place(p, CreateNew(s, a.(time := Max(0, a.time - penalty)), source), s.idCount, source, now)
  }

  /** The state after an announcement, and whether it was of a new address. */
  function Add(p: Params, s: State, a: Address, source: NetAddr, penalty: int, now: int, draw: nat): (State, bool)
    requires p.Valid() && IdsOk(s) && AddrOk(s) && RandomOk(s) && NewOk(p, s)
  {
    if !p.routable(a.svc.ip) then (s, false)
    else if a.svc.ip in s.addr then (AddAgain(p, s, a, source, penalty, now, draw), false)
    else (AddNew(p, s, a, source, penalty, now), true)
  }

  function GetAddrLimit(s: State): int {
    var n := GETADDR_MAX_PCT * |s.rnd| / 100;
    if n > GETADDR_MAX then GETADDR_MAX else n
  }
}
