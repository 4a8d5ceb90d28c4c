/** The public operations of the address manager over whole runs. */
module AddrManRuns {
  import opened Common
  import opened AddrManState
  import opened AddrManProofs

  // ---------------------------------------------------------------------
  // Operations that touch one entry's times or services
  // ---------------------------------------------------------------------

  lemma TouchCore(p: Params, s: State, id: int, i: AddrInfo, t: State, zero: set<int>)
    requires p.Valid() && Core(p, s, zero, {}) && id in s.info && t == Update(s, id, i)
    requires i.svc == s.info[id].svc && i.inTried == s.info[id].inTried
    requires i.refCount == s.info[id].refCount && i.randomPos == s.info[id].randomPos
    ensures Core(p, t, zero, {})
  {
    TouchSame(s, id, i, t);
    RandomSame(s, t);
    SimilarCore(p, s, t, zero, {});
  }

  lemma TouchSame(s: State, id: int, i: AddrInfo, t: State)
    requires id in s.info && t == Update(s, id, i).(lastGood := t.lastGood)
    requires i.svc == s.info[id].svc && i.inTried == s.info[id].inTried
    requires i.refCount == s.info[id].refCount && i.randomPos == s.info[id].randomPos
    ensures SameHomes(s, t) && SameRefs(s, t) && SameRandom(s, t)
  {
  }

  lemma TouchInv(p: Params, s: State, id: int, i: AddrInfo, t: State)
    requires p.Valid() && Inv(p, s) && id in s.info && t == Update(s, id, i)
    requires i.svc == s.info[id].svc && i.inTried == s.info[id].inTried
    requires i.refCount == s.info[id].refCount && i.randomPos == s.info[id].randomPos
    requires 0 <= i.lastTry && 0 <= i.lastSuccess && (i.inTried ==> i.lastSuccess != 0)
    ensures Inv(p, t)
  {
    TouchCore(p, s, id, i, t, {});
  }

  /** An attempt keeps the invariant exactly when its time is not negative, if it is of a known service at all. */
  lemma AttemptInv(p: Params, s: State, svc: Service, countFailure: bool, time: int)
    requires p.Valid() && Inv(p, s)
    ensures Inv(p, Attempt(s, svc, countFailure, time)) <==> (Knows(s, svc) ==> time >= 0)
  {
    if Knows(s, svc) {
      var t := Attempt(s, svc, countFailure, time);
      assert t.info[s.addr[svc.ip]].lastTry == time;
      if time >= 0 {
        TouchInv(p, s, s.addr[svc.ip], t.info[s.addr[svc.ip]], t);
      }
    }
  }

  lemma ConnectedInv(p: Params, s: State, svc: Service, time: int)
    requires p.Valid() && Inv(p, s)
    ensures Inv(p, Connected(s, svc, time))
  {
    if Knows(s, svc) {
      var t := Connected(s, svc, time);
      TouchInv(p, s, s.addr[svc.ip], t.info[s.addr[svc.ip]], Update(s, s.addr[svc.ip], t.info[s.addr[svc.ip]]));
    }
  }

  lemma SetServicesInv(p: Params, s: State, svc: Service, services: bv64)
    requires p.Valid() && Inv(p, s)
    ensures Inv(p, SetServices(s, svc, services))
  {
    if Knows(s, svc) {
      var t := SetServices(s, svc, services);
      TouchInv(p, s, s.addr[svc.ip], t.info[s.addr[svc.ip]], t);
    }
  }

  // ---------------------------------------------------------------------
  // Good
  // ---------------------------------------------------------------------

  /** An untried entry is always found in a new bucket. */
  lemma AlwaysInABucket(p: Params, s: State, id: int)
    requires p.Valid() && Core(p, s, {}, {}) && id in s.info && !s.info[id].inTried
    ensures FoundSlots(p, s, id) == Refs(s, id) != {}
  {
    UnlinkRefs(p, s, id, {});
  }

  lemma MarkedCore(p: Params, s: State, id: int, time: int, t: State)
    requires p.Valid() && Core(p, s, {}, {}) && id in s.info && t == Marked(s, id, time)
    ensures Core(p, t, {}, {})
  {
    TouchSame(s, id, t.info[id], t);
    RandomSame(s, t);
    SimilarCore(p, s, t, {}, {});
  }

  lemma PromotedTimes(p: Params, s: State, id: int, time: int, t: State)
    requires p.Valid() && id in s.info && TimesOk(s) && Promoted(p, Marked(s, id, time), t, id)
    ensures TimesOk(t) <==> time > 0
  {
    assert t.info[id].lastSuccess == time;
  }

  /** Good on a known untried entry promotes it: the bail-out for an entry in no bucket is never taken. */
  lemma GoodPromotes(p: Params, s: State, svc: Service, time: int, t: State)
    requires p.Valid() && Inv(p, s) && Knows(s, svc) && !s.info[s.addr[svc.ip]].inTried && t == Good(p, s, svc, time)
    ensures Core(p, t, {}, {}) && Promoted(p, Marked(s, s.addr[svc.ip], time), t, s.addr[svc.ip])
  {
    var id := s.addr[svc.ip];
    var m := Marked(s, id, time);
    MarkedCore(p, s, id, time, m);
    AlwaysInABucket(p, m, id);
    MakeTriedCore(p, m, id, t);
  }

  /** Good keeps the invariant exactly when its time is positive, if it is of a known service at all. */
  lemma GoodInv(p: Params, s: State, svc: Service, time: int, t: State)
    requires p.Valid() && Inv(p, s) && t == Good(p, s, svc, time)
    ensures Core(p, t, {}, {})
    ensures Inv(p, t) <==> (Knows(s, svc) ==> time > 0)
  {
    if !Knows(s, svc) {
      RandomSame(s, t);
      SimilarCore(p, s, t, {}, {});
    } else {
      var id := s.addr[svc.ip];
      if s.info[id].inTried {
        MarkedCore(p, s, id, time, t);
        assert t.info[id].lastSuccess == time;
      } else {
        GoodPromotes(p, s, svc, time, t);
        PromotedTimes(p, s, id, time, t);
      }
    }
  }

  // ---------------------------------------------------------------------
  // Add
  // ---------------------------------------------------------------------

  lemma CreateTables(p: Params, s: State, a: Address, source: NetAddr, t: State)
    requires p.Valid() && IdsOk(s) && AddrOk(s) && NewOk(p, s) && TriedOk(p, s) && a.svc.ip !in s.addr
    requires t == Create(s, a, source)
    ensures IdsOk(t) && AddrOk(t) && NewOk(p, t) && TriedOk(p, t)
  {
  }

  lemma CreateRandom(s: State, a: Address, source: NetAddr, t: State)
    requires IdsOk(s) && RandomOk(s) && t == Create(s, a, source)
    ensures RandomOk(t)
  {
  }

  lemma CreateCounts(p: Params, s: State, a: Address, source: NetAddr, t: State)
    requires p.Valid() && IdsOk(s) && NewOk(p, s) && RefsOk(s, {}) && CountsOk(s, {}) && t == Create(s, a, source)
    ensures RefsOk(t, {s.idCount}) && CountsOk(t, {s.idCount})
  {
    RefsSame(s, t);
    assert Refs(s, s.idCount) == {};
    assert s.idCount !in s.info;
    forall id ensures id in TriedIds(t) <==> id in TriedIds(s) {}
    forall id ensures id in NewIds(t) <==> id in NewIds(s) + {s.idCount} {}
    assert NewIds(t) == NewIds(s) + {s.idCount};
    assert TriedIds(t) == TriedIds(s);
  }

  lemma CreateCore(p: Params, s: State, a: Address, source: NetAddr, c: State, t: State)
    requires p.Valid() && Core(p, s, {}, {}) && a.svc.ip !in s.addr
    requires c == Create(s, a, source) && t == c.(nNew := c.nNew + 1)
    ensures Core(p, t, {s.idCount}, {})
  {
    CreateTables(p, s, a, source, c);
    CreateRandom(s, a, source, c);
    CreateCounts(p, s, a, source, c);
    CountCore(p, c, s.idCount, {s.idCount}, {s.idCount});
    assert {s.idCount} - {s.idCount} == {};
  }

  /** Whether an entry without references is turned away from an occupied slot. */
  predicate Blocked(s: State, sl: Slot, now: int) {
    && sl in s.newSlots && s.newSlots[sl] in s.info
    && !IsTerrible(s.info[s.newSlots[sl]], now) && s.info[s.newSlots[sl]].refCount <= 1
  }

  /** `t` has entries of `s` only, and says the same of them but for references and random position. */
  ghost predicate KeepsFacts(s: State, t: State) {
    SameFacts(t, s) && t.key == s.key && forall id {:trigger t.info[id]} :: id in t.info ==> t.info[id].inTried == s.info[id].inTried
  }

  lemma KeepsTimes(s: State, t: State)
    requires KeepsFacts(s, t) && TimesOk(s)
    ensures TimesOk(t)
  {
  }

  /** An entry that was in the address index still is, exactly if it is still an entry. */
  lemma KeepsAddr(s: State, t: State, id: int)
    requires KeepsFacts(s, t) && AddrOk(s) && AddrOk(t) && id in s.info
    ensures s.info[id].svc.ip in t.addr <==> id in t.info
  {
    var ip := s.info[id].svc.ip;
    if ip in t.addr {
      var j := t.addr[ip];
      assert t.info[j].svc.ip == ip;
      assert j in s.info && t.info[j].svc == s.info[j].svc;
      assert s.addr[s.info[j].svc.ip] == j;
    }
    if id in t.info {
      assert t.info[id].svc.ip == ip;
    }
  }

  lemma OverKeeps(s: State, c: State, sl: Slot, id: int, n: int)
    requires Cleared(s, c, sl) && id in c.info
    ensures KeepsFacts(s, Link(c, sl, id, n))
  {
  }

  lemma TakeOverCore(p: Params, s: State, id: int, sl: Slot, c: State, t: State, zero: set<int>)
    requires p.Valid() && Core(p, s, zero, {}) && zero <= {id} && id in s.info && !s.info[id].inTried
    requires 0 <= sl.bucket < p.newBuckets && sl.pos == p.Pos(s.key, s.info[id].svc, true, sl.bucket)
    requires (sl in s.newSlots ==> s.newSlots[sl] != id) && c == ClearNew(s, sl)
    requires s.info[id].refCount < NEW_BUCKETS_PER_ADDRESS && t == Link(c, sl, id, s.info[id].refCount + 1)
    ensures Core(p, t, {}, {}) && KeepsFacts(s, t)
  {
    ClearNewCore(p, s, sl, c, zero, {});
    LinkCore(p, c, sl, id, t, zero, {});
    assert zero - {id} == {};
    OverKeeps(s, c, sl, id, s.info[id].refCount + 1);
  }

  lemma TurnedAway(p: Params, s: State, id: int, t: State, zero: set<int>)
    requires p.Valid() && Core(p, s, zero, {}) && zero <= {id} && id in s.info && !s.info[id].inTried
    requires s.info[id].refCount == 0 && t == Delete(s, id)
    ensures Core(p, t, {}, {}) && KeepsFacts(s, t) && id !in t.info && id in zero
  {
    DeleteCore(p, s, id, t, zero, {});
    DeletedKeeps(s, t, id);
    assert zero - {id} == {};
  }

  lemma DeletedKeeps(s: State, t: State, id: int)
    requires Deleted(s, t, id)
    ensures KeepsFacts(s, t) && id !in t.info
  {
  }

  /** Placing an entry keeps the invariant, and it leaves the entry in a bucket unless it is turned away. */
  lemma PlaceCore(p: Params, s: State, id: int, source: NetAddr, now: int, t: State, zero: set<int>)
    requires p.Valid() && Core(p, s, zero, {}) && zero <= {id} && id in s.info && !s.info[id].inTried
    requires s.info[id].refCount < NEW_BUCKETS_PER_ADDRESS && t == Place(p, s, id, source, now)
    ensures Core(p, t, {}, {}) && KeepsFacts(s, t)
    ensures var sl := p.NewSlot(s.key, s.info[id].svc, source);
      id in t.info <==> !(id in zero && Blocked(s, sl, now))
  {
    var sl := p.NewSlot(s.key, s.info[id].svc, source);
    if sl in s.newSlots && s.newSlots[sl] == id {
      assert t == s && zero == {} by { assert sl in Refs(s, id); }
    } else if MayTake(s, sl, id, now) {
      assert t == TakeOver(s, sl, id);
      TakeOverCore(p, s, id, sl, ClearNew(s, sl), t, zero);
    } else if s.info[id].refCount == 0 {
      assert t == Delete(s, id);
      TurnedAway(p, s, id, t, zero);
    }
  }

  lemma AddKnown(p: Params, s: State, a: Address, source: NetAddr, penalty: int, now: int, draw: nat)
    requires p.Valid() && Inv(p, s) && p.routable(a.svc.ip) && a.svc.ip in s.addr
    ensures var (t, isNew) := Add(p, s, a, source, penalty, now, draw); Inv(p, t) && !isNew && a.svc.ip in t.addr
  {
    var id := s.addr[a.svc.ip];
    var i := Refresh(s.info[id], a, penalty, now);
    var t := Update(s, id, i);
    TouchInv(p, s, id, i, t);
    if WantsReference(i, a, draw) {
      PlaceInv(p, t, id, source, now, Place(p, t, id, source, now), {});
    }
  }

  lemma PlaceInv(p: Params, s: State, id: int, source: NetAddr, now: int, t: State, zero: set<int>)
    requires p.Valid() && Core(p, s, zero, {}) && zero <= {id} && TimesOk(s) && s.key != 0 && id in s.info && !s.info[id].inTried
    requires s.info[id].refCount < NEW_BUCKETS_PER_ADDRESS && t == Place(p, s, id, source, now)
    ensures Inv(p, t)
    ensures s.info[id].svc.ip in t.addr <==> !(id in zero && Blocked(s, p.NewSlot(s.key, s.info[id].svc, source), now))
  {
    PlaceCore(p, s, id, source, now, t, zero);
    KeepsTimes(s, t);
    KeepsAddr(s, t, id);
  }

  /** The state between the creation of an entry and its placement. */
  lemma Created(p: Params, s: State, a: Address, source: NetAddr, sl: Slot, now: int, u: State)
    requires p.Valid() && Inv(p, s) && a.svc.ip !in s.addr && u == CreateNew(s, a, source)
    ensures Core(p, u, {s.idCount}, {}) && TimesOk(u) && u.key == s.key
    ensures s.idCount in u.info && !u.info[s.idCount].inTried && u.info[s.idCount].refCount == 0 && u.info[s.idCount].svc == a.svc
    ensures Blocked(s, sl, now) == Blocked(u, sl, now)
  {
    CreateCore(p, s, a, source, Create(s, a, source), u);
    CreateTimes(s, a, source, u);
    CreateBlocked(s, a, source, u, sl, now);
  }

  /** What adding an unknown routable address leads to. */
  ghost predicate Announced(p: Params, s: State, a: Address, source: NetAddr, now: int, t: State)
    requires p.Valid() && Inv(p, s)
  {
    Inv(p, t) && (a.svc.ip in t.addr <==> !Blocked(s, p.NewSlot(s.key, a.svc, source), now))
  }

  lemma PlacedAnnounced(p: Params, s: State, a: Address, b: Address, source: NetAddr, now: int, u: State, t: State)
    requires p.Valid() && Inv(p, s) && a.svc.ip !in s.addr && b.svc == a.svc && u == CreateNew(s, b, source)
    requires s.idCount in u.info && RandomOk(u) && NewOk(p, u) && t == Place(p, u, s.idCount, source, now)
    ensures Announced(p, s, a, source, now, t)
  {
    Created(p, s, b, source, p.NewSlot(s.key, a.svc, source), now, u);
    PlaceInv(p, u, s.idCount, source, now, t, {s.idCount});
  }

  lemma PlacedNew(p: Params, s: State, a: Address, source: NetAddr, penalty: int, now: int, b: Address, u: State, t: State)
    requires p.Valid() && IdsOk(s) && RandomOk(s) && NewOk(p, s) && RandomOk(u) && NewOk(p, u) && s.idCount in u.info
    requires b == a.(time := Max(0, a.time - penalty)) && u == CreateNew(s, b, source)
    requires t == Place(p, u, s.idCount, source, now)
    ensures t == AddNew(p, s, a, source, penalty, now)
  {
    assert AddNew(p, s, a, source, penalty, now) == Place(p, u, s.idCount, source, now);
  }

  /** A new routable address is entered unless its slot is held by a healthy entry that has no other reference;
      the result says that it was new even then. */
  lemma AddUnknown(p: Params, s: State, a: Address, source: NetAddr, penalty: int, now: int, draw: nat)
    requires p.Valid() && Inv(p, s) && p.routable(a.svc.ip) && a.svc.ip !in s.addr
    ensures Add(p, s, a, source, penalty, now, draw).1
    ensures Inv(p, Add(p, s, a, source, penalty, now, draw).0)
    ensures a.svc.ip in Add(p, s, a, source, penalty, now, draw).0.addr <==> !Blocked(s, p.NewSlot(s.key, a.svc, source), now)
  {
    var b := a.(time := Max(0, a.time - penalty));
    var u := CreateNew(s, b, source);
    Created(p, s, b, source, p.NewSlot(s.key, a.svc, source), now, u);
    var t := Place(p, u, s.idCount, source, now);
    PlacedAnnounced(p, s, a, b, source, now, u, t);
    PlacedNew(p, s, a, source, penalty, now, b, u, t);
    assert Add(p, s, a, source, penalty, now, draw) == (AddNew(p, s, a, source, penalty, now), true);
  }

  lemma CreateTimes(s: State, a: Address, source: NetAddr, t: State)
    requires IdsOk(s) && TimesOk(s) && t == CreateNew(s, a, source)
    ensures TimesOk(t)
  {
  }

  lemma CreateBlocked(s: State, a: Address, source: NetAddr, t: State, sl: Slot, now: int)
    requires IdsOk(s) && t == CreateNew(s, a, source) && (sl in s.newSlots ==> s.newSlots[sl] in s.info)
    ensures Blocked(s, sl, now) == Blocked(t, sl, now)
  {
  }

  // ---------------------------------------------------------------------
  // GetAddr
  // ---------------------------------------------------------------------

  /** The first `n` places of the random order were looked at, and `got` lists, in order, those not terrible. */
  ghost predicate Picked(s: State, n: nat, got: seq<AddrInfo>, now: int)
    requires RandomOk(s) && n <= |s.rnd|
  {
    && (forall k {:trigger got[k]} :: 0 <= k < |got| ==>
          0 <= got[k].randomPos < n && s.info[s.rnd[got[k].randomPos]] == got[k] && !IsTerrible(got[k], now))
    && (forall j, k :: 0 <= j < k < |got| ==> got[j].randomPos < got[k].randomPos)
    && (forall i {:trigger s.rnd[i]} :: 0 <= i < n && !IsTerrible(s.info[s.rnd[i]], now) ==> s.info[s.rnd[i]] in got)
  }

  lemma SwapPicked(s: State, n: nat, m: int, got: seq<AddrInfo>, now: int, t: State)
    requires RandomOk(s) && n <= m < |s.rnd| && Picked(s, n, got, now) && t == SwapRandom(s, n, m) && RandomOk(t)
    ensures Picked(t, n, got, now)
  {
    forall i | 0 <= i < n ensures t.rnd[i] == s.rnd[i] && t.info[t.rnd[i]] == s.info[s.rnd[i]] {
      assert s.info[s.rnd[i]].randomPos == i && s.info[s.rnd[n]].randomPos == n && s.info[s.rnd[m]].randomPos == m;
    }
  }

  lemma PickNext(s: State, n: nat, got: seq<AddrInfo>, now: int, more: seq<AddrInfo>)
    requires RandomOk(s) && n < |s.rnd| && Picked(s, n, got, now)
    requires more == if IsTerrible(s.info[s.rnd[n]], now) then got else got + [s.info[s.rnd[n]]]
    ensures Picked(s, n + 1, more, now)
  {
    assert s.info[s.rnd[n]].randomPos == n;
    assert forall k :: 0 <= k < |got| ==> got[k] in more;
    forall i | 0 <= i < n + 1 && !IsTerrible(s.info[s.rnd[i]], now) ensures s.info[s.rnd[i]] in more {
      if i == n { assert more[|got|] == s.info[s.rnd[n]]; }
    }
  }

  /** `t` is `s` with another random order. */
  ghost predicate Reordered(s: State, t: State) {
    t.info.Keys == s.info.Keys && SameButPos(t, s) && |t.rnd| == |s.rnd| && t == s.(rnd := t.rnd, info := t.info)
  }

  /** The selection returns distinct entries, none terrible, at most `limit` of them, and when fewer, then
      all that are not terrible. */
  ghost predicate Selected(s: State, r: seq<AddrInfo>, limit: int, now: int) {
    RandomOk(s) && exists k: nat :: k <= |s.rnd| && Picked(s, k, r, now) && |r| <= Max(0, limit) && (|r| < limit ==> k == |s.rnd|)
  }

  lemma ReorderedInv(p: Params, s: State, t: State)
    requires p.Valid() && Inv(p, s) && Reordered(s, t) && RandomOk(t)
    ensures Inv(p, t)
  {
    SimilarCore(p, s, t, {}, {});
  }

  /** One step of the selection: draw a place at or after `n`, swap it to `n`, look at what is there. */
  lemma GetAddrStep(s: State, n: nat, m: int, got: seq<AddrInfo>, now: int, t: State, more: seq<AddrInfo>)
    requires RandomOk(s) && n <= m < |s.rnd| && Picked(s, n, got, now) && t == SwapRandom(s, n, m)
    requires RandomOk(t) && |t.rnd| == |s.rnd|
    requires more == if IsTerrible(t.info[t.rnd[n]], now) then got else got + [t.info[t.rnd[n]]]
    ensures Picked(t, n + 1, more, now)
  {
    SwapPicked(s, n, m, got, now, t);
    PickNext(t, n, got, now, more);
  }

  // ---------------------------------------------------------------------
  // Runs
  // ---------------------------------------------------------------------

  datatype Op =
    | OpAdd(a: Address, source: NetAddr, penalty: int, now: int, draw: nat)
    | OpGood(svc: Service, time: int)
    | OpAttempt(svc: Service, countFailure: bool, time: int)
    | OpConnected(svc: Service, time: int)
    | OpSetServices(svc: Service, services: bv64)
    | OpGetAddr

  /** The times that callers pass: a success has a positive time, an attempt a non-negative one. */
  predicate TimesGiven(op: Op) {
    match op
    case OpGood(_, time) => time > 0
    case OpAttempt(_, _, time) => time >= 0
    case _ => true
  }

  /** One operation. On inconsistent tables the code may fail an assert or use a dangling entry, so
      anything may follow. */
  ghost predicate Step(p: Params, s: State, op: Op, t: State)
    requires p.Valid()
  {
    Inv(p, s) ==>
      match op
      case OpAdd(a, source, penalty, now, draw) => t == Add(p, s, a, source, penalty, now, draw).0
      case OpGood(svc, time) => t == Good(p, s, svc, time)
      case OpAttempt(svc, countFailure, time) => t == Attempt(s, svc, countFailure, time)
      case OpConnected(svc, time) => t == Connected(s, svc, time)
      case OpSetServices(svc, services) => t == SetServices(s, svc, services)
      case OpGetAddr => Reordered(s, t) && RandomOk(t)
  }

  lemma StepInv(p: Params, s: State, op: Op, t: State)
    requires p.Valid() && Inv(p, s) && TimesGiven(op) && Step(p, s, op, t)
    ensures Inv(p, t)
  {
    match op
    case OpAdd(a, source, penalty, now, draw) =>
      if p.routable(a.svc.ip) {
        if a.svc.ip in s.addr { AddKnown(p, s, a, source, penalty, now, draw); }
        else { AddUnknown(p, s, a, source, penalty, now, draw); }
      }
    case OpGood(svc, time) => GoodInv(p, s, svc, time, t);
    case OpAttempt(svc, countFailure, time) => AttemptInv(p, s, svc, countFailure, time);
    case OpConnected(svc, time) => ConnectedInv(p, s, svc, time);
    case OpSetServices(svc, services) => SetServicesInv(p, s, svc, services);
    case OpGetAddr => ReorderedInv(p, s, t);
  }

  ghost predicate IsRun(p: Params, ops: seq<Op>, trace: seq<State>)
    requires p.Valid()
  {
    |trace| == |ops| + 1 && forall i :: 0 <= i < |ops| ==> Step(p, trace[i], ops[i], trace[i + 1])
  }

  /** From a fresh manager, every run of operations keeps every clause of the consistency check at every state. */
  lemma {:induction false} RunInv(p: Params, key: nat, ops: seq<Op>, trace: seq<State>, i: nat)
    requires p.Valid() && key != 0 && IsRun(p, ops, trace) && trace[0] == Init(key)
    requires (forall j :: 0 <= j < |ops| ==> TimesGiven(ops[j])) && i < |trace|
    ensures Inv(p, trace[i])
  {
    if i == 0 {
      InitInv(p, key);
    } else {
      RunInv(p, key, ops, trace, i - 1);
      assert Step(p, trace[i - 1], ops[i - 1], trace[i - 1 + 1]) && TimesGiven(ops[i - 1]);
      StepInv(p, trace[i - 1], ops[i - 1], trace[i]);
    }
  }

  lemma InitInv(p: Params, key: nat)
    requires p.Valid() && key != 0
    ensures Inv(p, Init(key))
  {
    assert TriedIds(Init(key)) == {} && NewIds(Init(key)) == {};
  }
}
