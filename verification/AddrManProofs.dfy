/** Every step of the address manager keeps the consistency invariant. */
module AddrManProofs {
  import opened AddrManState

  // ---------------------------------------------------------------------
  // What unchanged entries carry over
  // ---------------------------------------------------------------------

  /** The entries of `t` are entries of `s`, but for their place in the random order. */
  ghost predicate SameButPos(t: State, s: State) {
    forall id {:trigger t.info[id]} :: id in t.info ==> id in s.info && t.info[id] == s.info[id].(randomPos := t.info[id].randomPos)
  }

  /** Same ids, services, tried flags and tried slots. */
  ghost predicate SameHomes(s: State, t: State) {
    && t.info.Keys == s.info.Keys
    && (forall id {:trigger t.info[id]} :: id in s.info ==> t.info[id].svc == s.info[id].svc && t.info[id].inTried == s.info[id].inTried)
    && t.idCount == s.idCount && t.addr == s.addr && |t.rnd| == |s.rnd| && t.key == s.key
    && t.nTried == s.nTried && t.triedSlots == s.triedSlots
  }

  ghost predicate SameRefs(s: State, t: State) {
    && t.info.Keys == s.info.Keys && t.newSlots == s.newSlots
    && (forall id {:trigger t.info[id]} :: id in s.info ==> t.info[id].refCount == s.info[id].refCount)
  }

  ghost predicate SameRandom(s: State, t: State) {
    && t.info.Keys == s.info.Keys && t.rnd == s.rnd
    && (forall id {:trigger t.info[id]} :: id in s.info ==> t.info[id].randomPos == s.info[id].randomPos)
  }

  lemma RandomSame(s: State, t: State)
    requires SameRandom(s, t) && RandomOk(s)
    ensures RandomOk(t)
  {
  }

  lemma RefsSame(s: State, t: State)
    requires s.newSlots == t.newSlots
    ensures forall id :: Refs(s, id) == Refs(t, id)
  {
    forall id ensures Refs(s, id) == Refs(t, id) {
      assert forall sl :: sl in Refs(s, id) <==> sl in Refs(t, id);
    }
  }

  lemma HomesIds(s: State, t: State)
    requires SameHomes(s, t)
    ensures TriedIds(t) == TriedIds(s) && NewIds(t) == NewIds(s)
  {
    forall id ensures id in TriedIds(t) <==> id in TriedIds(s) {}
    forall id ensures id in NewIds(t) <==> id in NewIds(s) {}
  }

  lemma HomesTables(p: Params, s: State, t: State)
    requires p.Valid() && SameHomes(s, t) && IdsOk(s) && TriedOk(p, s)
    ensures IdsOk(t) && TriedOk(p, t)
  {
    forall id | id in t.info ensures 0 <= id < t.idCount { assert id in s.info; }
  }

  lemma HomesAddresses(s: State, t: State)
    requires SameHomes(s, t) && AddrOk(s)
    ensures AddrOk(t)
  {
    forall id | id in t.info
      ensures t.info[id].svc.ip in t.addr && t.addr[t.info[id].svc.ip] == id
    {
      assert id in s.info;
    }
  }

  /** The new table of `t` is part of that of `s`. */
  lemma HomesNew(p: Params, s: State, t: State)
    requires p.Valid() && SameHomes(s, t) && NewOk(p, s)
    requires forall sl :: sl in t.newSlots ==> sl in s.newSlots && t.newSlots[sl] == s.newSlots[sl]
    ensures NewOk(p, t)
  {
  }

  /** A change of times, services or random positions alone. */
  lemma SimilarCore(p: Params, s: State, t: State, zero: set<int>, uncounted: set<int>)
    requires p.Valid() && Core(p, s, zero, uncounted) && SameHomes(s, t) && SameRefs(s, t) && t.nNew == s.nNew && RandomOk(t)
    ensures Core(p, t, zero, uncounted)
  {
    HomesAddresses(s, t);
    SimilarUnindexed(p, s, t, zero, uncounted);
  }

  lemma SimilarUnindexed(p: Params, s: State, t: State, zero: set<int>, uncounted: set<int>)
    requires p.Valid() && Unindexed(p, s, zero, uncounted)
    requires SameHomes(s, t) && SameRefs(s, t) && t.nNew == s.nNew && RandomOk(t)
    ensures Unindexed(p, t, zero, uncounted)
  {
    HomesTables(p, s, t);
    HomesNew(p, s, t);
    HomesIds(s, t);
    RefsSame(s, t);
    SimilarRefs(s, t, zero);
  }

  lemma SimilarRefs(s: State, t: State, zero: set<int>)
    requires RefsOk(s, zero) && SameRefs(s, t)
    requires forall id :: id in s.info ==> t.info[id].inTried == s.info[id].inTried
    ensures RefsOk(t, zero)
  {
    RefsSame(s, t);
  }

  // ---------------------------------------------------------------------
  // The random order
  // ---------------------------------------------------------------------

  lemma SwapRandomOk(s: State, i: int, j: int, t: State)
    requires RandomOk(s) && 0 <= i < |s.rnd| && 0 <= j < |s.rnd| && t == SwapRandom(s, i, j)
    ensures RandomOk(t) && SameHomes(s, t) && SameRefs(s, t) && SameButPos(t, s)
    ensures t.nNew == s.nNew && t.rnd[j] == s.rnd[i]
  {
    if i != j {
      var a, b := s.rnd[i], s.rnd[j];
      assert a != b by { assert s.info[a].randomPos == i && s.info[b].randomPos == j; }
      assert t.info.Keys == s.info.Keys;
      forall id | id in t.info
        ensures t.info[id] == s.info[id].(randomPos := t.info[id].randomPos)
        ensures 0 <= t.info[id].randomPos < |t.rnd| && t.rnd[t.info[id].randomPos] == id
      {
        assert s.rnd[s.info[id].randomPos] == id;
      }
      forall k | 0 <= k < |t.rnd| ensures t.rnd[k] in t.info && t.info[t.rnd[k]].randomPos == k {
        assert s.info[s.rnd[k]].randomPos == k;
      }
    }
  }

  // ---------------------------------------------------------------------
  // Deletion
  // ---------------------------------------------------------------------

  lemma DropLastIndexes(s: State, id: int)
    requires IdsOk(s) && RandomOk(s) && |s.rnd| > 0 && s.rnd[|s.rnd| - 1] == id
    ensures var t := DropLast(s, id); IdsOk(t) && RandomOk(t)
  {
  }

  lemma DropLastTables(p: Params, s: State, id: int)
    requires p.Valid() && id in s.info && |s.rnd| > 0 && NewOk(p, s) && TriedOk(p, s)
    requires Refs(s, id) == {} && !s.info[id].inTried
    ensures var t := DropLast(s, id); NewOk(p, t) && TriedOk(p, t)
  {
    assert forall sl :: sl in s.newSlots ==> sl !in Refs(s, id);
  }

  lemma DropLastCounts(s: State, id: int, zero: set<int>, uncounted: set<int>)
    requires RefsOk(s, zero) && CountsOk(s, uncounted) && id in zero && id !in uncounted && |s.rnd| > 0
    ensures var t := DropLast(s, id); RefsOk(t, zero - {id}) && CountsOk(t, uncounted)
  {
    var t := DropLast(s, id);
    RefsSame(s, t);
    assert TriedIds(t) == TriedIds(s);
    assert NewIds(t) == NewIds(s) - {id};
  }

  /** `t` is `s` without `id`; nothing else but the random order differs. */
  ghost predicate Deleted(s: State, t: State, id: int) {
    && t.info.Keys == s.info.Keys - {id} && SameButPos(t, s)
    && t.newSlots == s.newSlots && t.triedSlots == s.triedSlots && t.key == s.key
  }

  lemma DropLastUnindexed(p: Params, s: State, r: State, id: int, t: State, zero: set<int>, uncounted: set<int>)
    requires p.Valid() && Unindexed(p, s, zero, uncounted) && id in zero && id !in uncounted
    requires RandomOk(r) && SameHomes(s, r) && SameRefs(s, r) && r.nNew == s.nNew && SameButPos(r, s)
    requires |r.rnd| > 0 && r.rnd[|r.rnd| - 1] == id && t == DropLast(r, id)
    ensures Unindexed(p, t, zero - {id}, uncounted) && Deleted(s, t, id)
  {
    SimilarUnindexed(p, s, r, zero, uncounted);
    DropLastIndexes(r, id);
    DropLastTables(p, r, id);
    DropLastCounts(r, id, zero, uncounted);
  }

  lemma SwapToEnd(s: State, id: int, r: State)
    requires RandomOk(s) && id in s.info && r == SwapRandom(s, s.info[id].randomPos, |s.rnd| - 1)
    ensures RandomOk(r) && SameHomes(s, r) && SameRefs(s, r) && r.nNew == s.nNew && SameButPos(r, s)
    ensures |r.rnd| > 0 && r.rnd[|r.rnd| - 1] == id
  {
    SwapRandomOk(s, s.info[id].randomPos, |s.rnd| - 1, r);
  }

  lemma DeleteSwapped(p: Params, s: State, id: int, r: State, t: State, zero: set<int>, uncounted: set<int>)
    requires p.Valid() && Unindexed(p, s, zero, uncounted) && id in zero && id !in uncounted
    requires r == SwapRandom(s, s.info[id].randomPos, |s.rnd| - 1) && t == DropLast(r, id)
    ensures Unindexed(p, t, zero - {id}, uncounted) && Deleted(s, t, id)
  {
    SwapToEnd(s, id, r);
    DropLastUnindexed(p, s, r, id, t, zero, uncounted);
  }

  lemma DeleteUnindexed(p: Params, s: State, id: int, t: State, zero: set<int>, uncounted: set<int>)
    requires p.Valid() && Unindexed(p, s, zero, uncounted) && id in zero && id !in uncounted && t == Delete(s, id)
    ensures Unindexed(p, t, zero - {id}, uncounted) && Deleted(s, t, id)
  {
    DeleteSwapped(p, s, id, SwapRandom(s, s.info[id].randomPos, |s.rnd| - 1), t, zero, uncounted);
  }

  lemma DropLastAddresses(s: State, id: int, t: State)
    requires AddrOk(s) && id in s.info && |s.rnd| > 0 && t == DropLast(s, id)
    ensures AddrOk(t)
  {
  }

  lemma DeleteAddresses(s: State, id: int, r: State, t: State)
    requires AddrOk(s) && RandomOk(s) && id in s.info
    requires r == SwapRandom(s, s.info[id].randomPos, |s.rnd| - 1) && t == DropLast(r, id)
    ensures AddrOk(t)
  {
    SwapToEnd(s, id, r);
    HomesAddresses(s, r);
    DropLastAddresses(r, id, t);
  }

  /** Deleting an entry that is in no bucket but counted leaves the rest consistent. */
  lemma DeleteCore(p: Params, s: State, id: int, t: State, zero: set<int>, uncounted: set<int>)
    requires p.Valid() && Core(p, s, zero, uncounted) && id in zero && id !in uncounted && t == Delete(s, id)
    ensures Core(p, t, zero - {id}, uncounted) && Deleted(s, t, id)
  {
    DeleteUnindexed(p, s, id, t, zero, uncounted);
    DeleteIndex(s, id, t);
  }

  lemma DeleteIndex(s: State, id: int, t: State)
    requires AddrOk(s) && RandomOk(s) && id in s.info && t == Delete(s, id)
    ensures AddrOk(t)
  {
    DeleteAddresses(s, id, SwapRandom(s, s.info[id].randomPos, |s.rnd| - 1), t);
  }

  // ---------------------------------------------------------------------
  // References from the new buckets
  // ---------------------------------------------------------------------

  lemma ReleaseRefs(s: State, sl: Slot, id: int, zero: set<int>)
    requires RefsOk(s, zero) && sl in s.newSlots && s.newSlots[sl] == id && id in s.info && !s.info[id].inTried
    ensures s.info[id].refCount > 0
    ensures RefsOk(Release(s, sl, id), if s.info[id].refCount == 1 then zero + {id} else zero)
  {
    var t := Release(s, sl, id);
    assert sl in Refs(s, id);
    assert Refs(t, id) == Refs(s, id) - {sl};
    forall x | x != id ensures Refs(t, x) == Refs(s, x) {
      assert forall y :: y in Refs(t, x) <==> y in Refs(s, x);
    }
  }

  lemma ReleaseCore(p: Params, s: State, sl: Slot, id: int, t: State, zero: set<int>, uncounted: set<int>)
    requires p.Valid() && Core(p, s, zero, uncounted) && sl in s.newSlots && s.newSlots[sl] == id && t == Release(s, sl, id)
    ensures s.info[id].refCount > 0
    ensures Core(p, t, if s.info[id].refCount == 1 then zero + {id} else zero, uncounted)
  {
    RandomSame(s, t);
    HomesAddresses(s, t);
    HomesTables(p, s, t);
    HomesNew(p, s, t);
    HomesIds(s, t);
    ReleaseRefs(s, sl, id, zero);
  }

  /** What clearing a new slot does: the occupant loses that reference, and goes if it was its last. */
  ghost predicate Cleared(s: State, t: State, sl: Slot) {
    && t.newSlots == s.newSlots - {sl} && t.triedSlots == s.triedSlots && t.key == s.key
    && (forall x {:trigger t.info[x]} :: x in t.info ==>
          x in s.info && t.info[x] == s.info[x].(randomPos := t.info[x].randomPos, refCount := t.info[x].refCount))
    && (forall x {:trigger t.info[x]} :: x in t.info && (sl !in s.newSlots || x != s.newSlots[sl]) ==> t.info[x].refCount == s.info[x].refCount)
    && t.info.Keys == s.info.Keys - Displaced(s, sl)
  }

  /** The entries whose only reference is slot `sl`. */
  ghost function Displaced(s: State, sl: Slot): set<int> {
    if sl in s.newSlots && s.newSlots[sl] in s.info && s.info[s.newSlots[sl]].refCount == 1
    then {s.newSlots[sl]} else {}
  }

  lemma ClearedByDelete(s: State, sl: Slot, id: int, t: State)
    requires sl in s.newSlots && s.newSlots[sl] == id && id in s.info && s.info[id].refCount == 1
    requires Deleted(Release(s, sl, id), t, id)
    ensures Cleared(s, t, sl)
  {
  }

  lemma ClearedByRelease(s: State, sl: Slot, id: int)
    requires sl in s.newSlots && s.newSlots[sl] == id && id in s.info && s.info[id].refCount != 1
    ensures Cleared(s, Release(s, sl, id), sl)
  {
  }

  lemma ClearLastCore(p: Params, s: State, sl: Slot, id: int, r: State, t: State, zero: set<int>, uncounted: set<int>)
    requires p.Valid() && Core(p, s, zero, uncounted) && sl in s.newSlots && s.newSlots[sl] == id && id in s.info && id !in zero
    requires s.info[id].refCount == 1 && r == Release(s, sl, id) && Core(p, r, zero + {id}, uncounted) && t == Delete(r, id)
    ensures Core(p, t, zero, uncounted) && Cleared(s, t, sl)
  {
    DeleteCore(p, r, id, t, zero + {id}, uncounted);
    ClearedByDelete(s, sl, id, t);
    assert zero + {id} - {id} == zero;
  }

  lemma ClearNewCore(p: Params, s: State, sl: Slot, t: State, zero: set<int>, uncounted: set<int>)
    requires p.Valid() && Core(p, s, zero, uncounted) && t == ClearNew(s, sl)
    ensures Core(p, t, zero, uncounted) && Cleared(s, t, sl)
  {
    if sl in s.newSlots {
      var id := s.newSlots[sl];
      var r := Release(s, sl, id);
      ReleaseCore(p, s, sl, id, r, zero, uncounted);
      if s.info[id].refCount == 1 {
        assert t == Delete(r, id);
        ClearLastCore(p, s, sl, id, r, t, zero, uncounted);
      } else {
        assert t == r;
        ClearedByRelease(s, sl, id);
      }
    }
  }

  /** An entry may be linked at slot `sl`: the slot is free and its position is the one computed for the entry. */
  ghost predicate Fits(p: Params, s: State, sl: Slot, id: int)
    requires p.Valid()
  {
    && id in s.info && !s.info[id].inTried && sl !in s.newSlots
    && 0 <= sl.bucket < p.newBuckets && sl.pos == p.Pos(s.key, s.info[id].svc, true, sl.bucket)
  }

  lemma LinkRefs(s: State, sl: Slot, id: int, zero: set<int>)
    requires RefsOk(s, zero) && sl !in s.newSlots && id in s.info && !s.info[id].inTried
    requires s.info[id].refCount < NEW_BUCKETS_PER_ADDRESS
    ensures RefsOk(Link(s, sl, id, s.info[id].refCount + 1), zero - {id})
  {
    var t := Link(s, sl, id, s.info[id].refCount + 1);
    assert Refs(t, id) == Refs(s, id) + {sl};
    forall x | x != id ensures Refs(t, x) == Refs(s, x) {
      assert forall y :: y in Refs(t, x) <==> y in Refs(s, x);
    }
  }

  lemma LinkCore(p: Params, s: State, sl: Slot, id: int, t: State, zero: set<int>, uncounted: set<int>)
    requires p.Valid() && Core(p, s, zero, uncounted) && Fits(p, s, sl, id) && id !in uncounted
    requires s.info[id].refCount < NEW_BUCKETS_PER_ADDRESS && t == Link(s, sl, id, s.info[id].refCount + 1)
    ensures Core(p, t, zero - {id}, uncounted)
  {
    HomesAddresses(s, t);
    LinkUnindexed(p, s, sl, id, t, zero, uncounted);
  }

  lemma LinkUnindexed(p: Params, s: State, sl: Slot, id: int, t: State, zero: set<int>, uncounted: set<int>)
    requires p.Valid() && Unindexed(p, s, zero, uncounted) && Fits(p, s, sl, id) && id !in uncounted
    requires s.info[id].refCount < NEW_BUCKETS_PER_ADDRESS && t == Link(s, sl, id, s.info[id].refCount + 1)
    ensures Unindexed(p, t, zero - {id}, uncounted)
  {
    RandomSame(s, t);
    HomesTables(p, s, t);
    HomesIds(s, t);
    LinkRefs(s, sl, id, zero);
  }

  /** Counting an entry as new. */
  lemma CountCore(p: Params, s: State, id: int, zero: set<int>, uncounted: set<int>)
    requires p.Valid() && Core(p, s, zero, uncounted) && id in uncounted
    ensures Core(p, s.(nNew := s.nNew + 1), zero, uncounted - {id})
  {
    var t := s.(nNew := s.nNew + 1);
    RefsSame(s, t);
    HomesIds(s, t);
  }

  lemma UnlinkRefs(p: Params, s: State, id: int, zero: set<int>)
    requires p.Valid() && RefsOk(s, zero) && NewOk(p, s) && id in s.info && !s.info[id].inTried
    ensures FoundSlots(p, s, id) == Refs(s, id)
    ensures RefsOk(Unlink(p, s, id), zero + {id}) && Refs(Unlink(p, s, id), id) == {}
  {
    var t := Unlink(p, s, id);
    assert FoundSlots(p, s, id) == Refs(s, id);
    assert Refs(t, id) == {};
    forall x | x != id ensures Refs(t, x) == Refs(s, x) {
      assert forall y :: y in Refs(t, x) <==> y in Refs(s, x);
    }
  }

  lemma UnlinkHomes(p: Params, s: State, id: int, t: State)
    requires p.Valid() && NewOk(p, s) && RandomOk(s) && id in s.info && t == Unlink(p, s, id)
    ensures SameHomes(s, t) && RandomOk(t) && NewOk(p, t)
  {
    RandomSame(s, t);
    HomesNew(p, s, t);
  }

  lemma UnlinkCore(p: Params, s: State, id: int, t: State)
    requires p.Valid() && Core(p, s, {}, {}) && id in s.info && !s.info[id].inTried && t == Unlink(p, s, id)
    ensures Core(p, t, {id}, {id}) && SameHomes(s, t)
  {
    UnlinkHomes(p, s, id, t);
    HomesAddresses(s, t);
    HomesTables(p, s, t);
    HomesIds(s, t);
    UnlinkRefs(p, s, id, {});
    assert {} + {id} == {id};
  }

  // ---------------------------------------------------------------------
  // The tried table
  // ---------------------------------------------------------------------

  lemma UntryIds(s: State, sl: Slot)
    requires sl in s.triedSlots && s.triedSlots[sl] in s.info && s.info[s.triedSlots[sl]].inTried
    ensures var t := Untry(s, sl); var e := s.triedSlots[sl];
      && e in TriedIds(s) && TriedIds(t) == TriedIds(s) - {e}
      && e !in NewIds(s) && NewIds(t) == NewIds(s) + {e}
  {
    var t := Untry(s, sl);
    forall id ensures id in TriedIds(t) <==> id in TriedIds(s) && id != s.triedSlots[sl] {}
    forall id ensures id in NewIds(t) <==> id in NewIds(s) || id == s.triedSlots[sl] {}
  }

  lemma UntryTables(p: Params, s: State, sl: Slot)
    requires p.Valid() && IdsOk(s) && AddrOk(s) && NewOk(p, s) && TriedOk(p, s) && sl in s.triedSlots
    ensures var t := Untry(s, sl); IdsOk(t) && AddrOk(t) && NewOk(p, t) && TriedOk(p, t)
  {
  }

  lemma UntryCore(p: Params, s: State, sl: Slot, t: State, zero: set<int>, uncounted: set<int>)
    requires p.Valid() && Core(p, s, zero, uncounted) && sl in s.triedSlots && t == Untry(s, sl)
    ensures Core(p, t, zero + {s.triedSlots[sl]}, uncounted + {s.triedSlots[sl]})
  {
    RandomSame(s, t);
    UntryTables(p, s, sl);
    UntryRefs(s, sl, t, zero);
    UntryCounts(s, sl, t, uncounted);
  }

  lemma UntryRefs(s: State, sl: Slot, t: State, zero: set<int>)
    requires RefsOk(s, zero) && sl in s.triedSlots && s.triedSlots[sl] in s.info && s.info[s.triedSlots[sl]].inTried
    requires t == Untry(s, sl)
    ensures RefsOk(t, zero + {s.triedSlots[sl]})
  {
    RefsSame(s, t);
  }

  lemma UntryCounts(s: State, sl: Slot, t: State, uncounted: set<int>)
    requires CountsOk(s, uncounted) && sl in s.triedSlots && s.triedSlots[sl] in s.info
    requires s.info[s.triedSlots[sl]].inTried && t == Untry(s, sl)
    ensures CountsOk(t, uncounted + {s.triedSlots[sl]})
  {
    UntryIds(s, sl);
    assert s.triedSlots[sl] !in uncounted;
  }

  lemma PromoteIds(s: State, sl: Slot, id: int)
    requires id in s.info && !s.info[id].inTried
    ensures var t := Promote(s, sl, id);
      && id in NewIds(s) && NewIds(t) == NewIds(s) - {id}
      && id !in TriedIds(s) && TriedIds(t) == TriedIds(s) + {id}
  {
    var t := Promote(s, sl, id);
    forall x ensures x in NewIds(t) <==> x in NewIds(s) && x != id {}
    forall x ensures x in TriedIds(t) <==> x in TriedIds(s) || x == id {}
  }

  lemma PromoteTables(p: Params, s: State, sl: Slot, id: int)
    requires p.Valid() && IdsOk(s) && AddrOk(s) && NewOk(p, s) && TriedOk(p, s) && Refs(s, id) == {}
    requires id in s.info && sl == p.TriedSlot(s.key, s.info[id].svc) && sl !in s.triedSlots
    ensures var t := Promote(s, sl, id); IdsOk(t) && AddrOk(t) && NewOk(p, t) && TriedOk(p, t)
  {
    assert forall y :: y in s.newSlots ==> y !in Refs(s, id);
  }

  lemma PromoteCore(p: Params, s: State, sl: Slot, id: int, t: State)
    requires p.Valid() && Core(p, s, {id}, {id})
    requires sl == p.TriedSlot(s.key, s.info[id].svc) && sl !in s.triedSlots && t == Promote(s, sl, id)
    ensures Core(p, t, {}, {})
  {
    RandomSame(s, t);
    RefsSame(s, t);
    PromoteTables(p, s, sl, id);
    PromoteIds(s, sl, id);
  }

  /** The entries of `t` are entries of `s` with the same service, source, times and counts of attempts. */
  ghost predicate SameFacts(t: State, s: State) {
    forall x {:trigger t.info[x]} :: x in t.info ==>
      x in s.info && t.info[x] == s.info[x].(randomPos := t.info[x].randomPos, refCount := t.info[x].refCount, inTried := t.info[x].inTried)
  }

  /** What an eviction from tried slot `sl` does: the entry there goes to its own new slot, with
      that one reference, and only the occupant of that slot may lose a reference or go. */
  ghost predicate Evicted(s: State, t: State, sl: Slot, ns: Slot)
    requires sl in s.triedSlots
  {
    var e := s.triedSlots[sl];
    && t.triedSlots == s.triedSlots - {sl} && t.newSlots == s.newSlots[ns := e] && t.key == s.key
    && t.info.Keys == s.info.Keys - Displaced(s, ns)
    && e in t.info && !t.info[e].inTried && t.info[e].refCount == 1
    && SameFacts(t, s)
    && (forall x {:trigger t.info[x]} :: x in t.info && x != e ==> t.info[x].inTried == s.info[x].inTried)
    && (forall x {:trigger t.info[x]} :: x in t.info && x != e && (ns !in s.newSlots || x != s.newSlots[ns]) ==>
          t.info[x].refCount == s.info[x].refCount)
  }

  lemma EvictEffect(s: State, sl: Slot, u: State, ns: Slot, c: State, t: State)
    requires sl in s.triedSlots && s.triedSlots[sl] in s.info && s.info[s.triedSlots[sl]].refCount != 1
    requires ns in s.newSlots ==> s.newSlots[ns] != s.triedSlots[sl]
    requires u == Untry(s, sl) && Cleared(u, c, ns) && s.triedSlots[sl] in c.info
    requires t == Link(c.(nNew := c.nNew + 1), ns, s.triedSlots[sl], 1)
    ensures Evicted(s, t, sl, ns)
  {
  }

  lemma EvictCore(p: Params, s: State, sl: Slot, id: int, t: State)
    requires p.Valid() && Core(p, s, {id}, {id}) && sl in s.triedSlots && t == Evict(p, s, sl)
    ensures Core(p, t, {id}, {id})
    ensures Evicted(s, t, sl, HomeSlot(p, s, s.triedSlots[sl]))
  {
    var e := s.triedSlots[sl];
    var ns := HomeSlot(p, s, e);
    var u := Untry(s, sl);
    UntryCore(p, s, sl, u, {id}, {id});
    var both := {id} + {e};
    var c := ClearNew(u, ns);
    ClearNewCore(p, u, ns, c, both, both);
    assert u.info[e].refCount == 0 && (ns in u.newSlots ==> u.newSlots[ns] != e) by { assert Refs(u, e) == {}; assert forall y :: y in u.newSlots ==> y !in Refs(u, e); }
    EvictRelink(p, c, e, ns, id, t);
    EvictEffect(s, sl, u, ns, c, t);
  }

  lemma EvictRelink(p: Params, c: State, e: int, ns: Slot, id: int, t: State)
    requires p.Valid() && Core(p, c, {id} + {e}, {id} + {e}) && e != id && Fits(p, c, ns, e)
    requires t == Link(c, ns, e, 1).(nNew := c.nNew + 1)
    ensures Core(p, t, {id}, {id}) && t == Link(c.(nNew := c.nNew + 1), ns, e, 1)
  {
    var d := c.(nNew := c.nNew + 1);
    CountCore(p, c, e, {id} + {e}, {id} + {e});
    assert {id} + {e} - {e} == {id};
    LinkCore(p, d, ns, e, t, {id} + {e}, {id});
  }

  /** What a promotion of `id` does, in terms of the tables before it. */
  ghost predicate Promoted(p: Params, s: State, t: State, id: int)
    requires p.Valid() && id in s.info
  {
    var ts := p.TriedSlot(s.key, s.info[id].svc);
    // the entry is at its own tried slot and in no new bucket
    && t.triedSlots == s.triedSlots[ts := id] && t.key == s.key
    && id in t.info && t.info[id].inTried && t.info[id].refCount == 0
    && SameFacts(t, s)
    && if !(ts in s.triedSlots && s.triedSlots[ts] in s.info) then
         // nothing to evict: no other entry is touched
         && t.newSlots == s.newSlots - Refs(s, id)
         && t.info.Keys == s.info.Keys
         && (forall x {:trigger t.info[x]} :: x in t.info && x != id ==> t.info[x] == s.info[x])
       else
         var e := s.triedSlots[ts];
         var ns := HomeSlot(p, s, e);
         // the evicted entry is in its own new slot only; the one entry displaced from there
         // loses that reference, and is removed exactly if it had no other
         && t.newSlots == (s.newSlots - Refs(s, id))[ns := e]
         && e in t.info && !t.info[e].inTried && t.info[e].refCount == 1
         && t.info.Keys == s.info.Keys - (Displaced(s, ns) - {id})
         && (forall x {:trigger t.info[x]} :: x in t.info && x != id && x != e ==> t.info[x].inTried == s.info[x].inTried)
         && (forall x {:trigger t.info[x]} :: x in t.info && x != id && x != e && (ns !in s.newSlots || x != s.newSlots[ns]) ==>
               t.info[x].refCount == s.info[x].refCount)
  }

  lemma PromotedEvicting(p: Params, s: State, id: int, u: State, v: State, t: State, ts: Slot, ns: Slot)
    requires p.Valid() && id in s.info && ts == p.TriedSlot(s.key, s.info[id].svc) && ts in s.triedSlots
    requires s.triedSlots[ts] in s.info && ns == HomeSlot(p, s, s.triedSlots[ts]) && s.triedSlots[ts] != id
    requires FoundSlots(p, s, id) == Refs(s, id)
    requires u == Unlink(p, s, id) && Evicted(u, v, ts, ns) && id in v.info && v.info[id].refCount == 0
    requires t == Promote(v, ts, id)
    ensures Promoted(p, s, t, id)
  {
  }

  lemma MakeTriedEvicting(p: Params, s: State, id: int, u: State, v: State, t: State, ts: Slot)
    requires p.Valid() && Core(p, s, {}, {}) && id in s.info && !s.info[id].inTried
    requires ts == p.TriedSlot(s.key, s.info[id].svc) && ts in s.triedSlots
    requires u == Unlink(p, s, id) && Core(p, u, {id}, {id}) && v == Evict(p, u, ts) && t == Promote(v, ts, id)
    ensures Core(p, t, {}, {}) && Promoted(p, s, t, id)
  {
    UnlinkRefs(p, s, id, {});
    EvictCore(p, u, ts, id, v);
    PromoteCore(p, v, ts, id, t);
    PromotedEvicting(p, s, id, u, v, t, ts, HomeSlot(p, s, s.triedSlots[ts]));
  }

  lemma PromotedPlain(p: Params, s: State, id: int, u: State, t: State, ts: Slot)
    requires p.Valid() && id in s.info && ts == p.TriedSlot(s.key, s.info[id].svc) && ts !in s.triedSlots
    requires FoundSlots(p, s, id) == Refs(s, id) && u == Unlink(p, s, id) && u.info[id].refCount == 0 && t == Promote(u, ts, id)
    ensures Promoted(p, s, t, id)
  {
  }

  lemma MakeTriedPlain(p: Params, s: State, id: int, u: State, t: State, ts: Slot)
    requires p.Valid() && Core(p, s, {}, {}) && id in s.info && !s.info[id].inTried
    requires ts == p.TriedSlot(s.key, s.info[id].svc) && ts !in s.triedSlots
    requires u == Unlink(p, s, id) && Core(p, u, {id}, {id}) && t == Promote(u, ts, id)
    ensures Core(p, t, {}, {}) && Promoted(p, s, t, id)
  {
    UnlinkRefs(p, s, id, {});
    PromoteCore(p, u, ts, id, t);
    PromotedPlain(p, s, id, u, t, ts);
  }

  lemma MakeTriedCore(p: Params, s: State, id: int, t: State)
    requires p.Valid() && Core(p, s, {}, {}) && id in s.info && !s.info[id].inTried && t == MakeTried(p, s, id)
    ensures Core(p, t, {}, {}) && Promoted(p, s, t, id)
  {
    var ts := p.TriedSlot(s.key, s.info[id].svc);
    var u := Unlink(p, s, id);
    UnlinkCore(p, s, id, u);
    if ts in s.triedSlots {
      MakeTriedEvicting(p, s, id, u, Evict(p, u, ts), t, ts);
    } else {
      MakeTriedPlain(p, s, id, u, t, ts);
    }
  }
}
