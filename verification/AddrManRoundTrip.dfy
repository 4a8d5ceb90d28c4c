/** Loading what was saved rebuilds the tables, up to one renumbering of the ids. */
module AddrManRoundTrip {
  import opened Common
  import opened AddrManState
  import opened AddrManDisk
  import opened AddrManLoad

  // ---------------------------------------------------------------------
  // The renumbering
  // ---------------------------------------------------------------------

  lemma {:induction false} ListPrefix(s: State, m: int, n: int, tried: bool)
    requires m <= n
    ensures List(s, m, tried) <= List(s, n, tried)
    decreases n
  {
    if m < n && n > 0 { ListPrefix(s, m, n - 1, tried); }
  }

  lemma ListAt(s: State, n: int, id: int, tried: bool)
    requires 0 <= id < n && Listed(s, id, tried)
    ensures |List(s, id, tried)| < |List(s, n, tried)| && List(s, n, tried)[|List(s, id, tried)|] == id
  {
    ListPrefix(s, id + 1, n, tried);
    assert List(s, id + 1, tried) == List(s, id, tried) + [id];
  }

  lemma {:induction false} ListRank(s: State, n: int, i: nat, tried: bool)
    requires i < |List(s, n, tried)|
    ensures |List(s, List(s, n, tried)[i], tried)| == i
    decreases n
  {
    if i < |List(s, n - 1, tried)| {
      ListPrefix(s, n - 1, n, tried);
      ListRank(s, n - 1, i, tried);
    }
  }

  ghost function ListedBelow(s: State, n: int, tried: bool): set<int> {
    set id | id in s.info && 0 <= id < n && Listed(s, id, tried)
  }

  lemma {:induction false} ListCount(s: State, n: int, tried: bool)
    ensures |List(s, n, tried)| == |ListedBelow(s, n, tried)|
    decreases n
  {
    if n <= 0 {
      assert ListedBelow(s, n, tried) == {};
    } else {
      ListCount(s, n - 1, tried);
      if Listed(s, n - 1, tried) {
        assert ListedBelow(s, n, tried) == ListedBelow(s, n - 1, tried) + {n - 1};
      } else {
        assert ListedBelow(s, n, tried) == ListedBelow(s, n - 1, tried);
      }
    }
  }

  /** Both lists are complete: as many entries are written as the counters announce. */
  lemma ListCounts(p: Params, s: State)
    requires p.Valid() && Core(p, s, {}, {})
    ensures |List(s, s.idCount, false)| == s.nNew && |List(s, s.idCount, true)| == s.nTried
  {
    ListCount(s, s.idCount, false);
    ListCount(s, s.idCount, true);
    assert ListedBelow(s, s.idCount, false) == NewIds(s);
    assert ListedBelow(s, s.idCount, true) == TriedIds(s);
  }

  /** The number that an entry gets in the file, and its id after loading. */
  function NewId(s: State, id: int): int
    requires id in s.info
  {
    if s.info[id].inTried then s.nNew + |List(s, id, true)| else |List(s, id, false)|
  }

  function Order(s: State): seq<int> {
    List(s, s.idCount, false) + List(s, s.idCount, true)
  }

  function Numbers(s: State): map<int, int> {
    map id | id in s.info :: NewId(s, id)
  }

  /** `order` lists all ids, new ones first, and `number` is its inverse. */
  ghost predicate Renumbering(s: State, order: seq<int>, number: map<int, int>) {
    && 0 <= s.nNew && 0 <= s.nTried && |order| == s.nNew + s.nTried && number.Keys == s.info.Keys
    && (forall j {:trigger order[j]} :: 0 <= j < |order| ==>
        order[j] in s.info && number[order[j]] == j && (s.info[order[j]].inTried <==> j >= s.nNew))
    && (forall id {:trigger number[id]} :: id in s.info ==> 0 <= number[id] < |order| && order[number[id]] == id)
  }

  lemma OrderIsRenumbering(p: Params, s: State)
    requires p.Valid() && Core(p, s, {}, {})
    ensures Renumbering(s, Order(s), Numbers(s))
  {
    ListCounts(p, s);
    CountedOrder(s);
  }

  lemma CountedOrder(s: State)
    requires IdsOk(s) && RefsOk(s, {}) && |List(s, s.idCount, false)| == s.nNew && |List(s, s.idCount, true)| == s.nTried
    ensures Renumbering(s, Order(s), Numbers(s))
  {
    var order, number := Order(s), Numbers(s);
    forall j | 0 <= j < |order|
      ensures order[j] in s.info && number[order[j]] == j && (s.info[order[j]].inTried <==> j >= s.nNew)
    {
      OrderAt(s, j);
    }
    forall id | id in s.info ensures 0 <= number[id] < |order| && order[number[id]] == id {
      PlaceOf(s, id);
    }
  }

  lemma PlaceOf(s: State, id: int)
    requires IdsOk(s) && RefsOk(s, {}) && |List(s, s.idCount, false)| == s.nNew && id in s.info
    ensures 0 <= NewId(s, id) < |Order(s)| && Order(s)[NewId(s, id)] == id
  {
    ListAt(s, s.idCount, id, s.info[id].inTried);
  }

  lemma OrderAt(s: State, j: int)
    requires RefsOk(s, {}) && 0 <= j < |Order(s)| && |List(s, s.idCount, false)| == s.nNew
    ensures Order(s)[j] in s.info && NewId(s, Order(s)[j]) == j && (s.info[Order(s)[j]].inTried <==> j >= s.nNew)
  {
    if j < s.nNew {
      ListRank(s, s.idCount, j, false);
      assert Listed(s, List(s, s.idCount, false)[j], false);
    } else {
      ListRank(s, s.idCount, j - s.nNew, true);
      assert Listed(s, List(s, s.idCount, true)[j - s.nNew], true);
    }
  }

  // ---------------------------------------------------------------------
  // The tables while loading
  // ---------------------------------------------------------------------

  /** The entry `id` as loaded with number `j` when the slots of `done` have been read. */
  ghost function Entry(s: State, id: int, j: int, done: set<Slot>): AddrInfo
    requires id in s.info
  {
    InfoOf(RecordOf(s.info[id]), |Refs(s, id) * done|, s.info[id].inTried, j)
  }

  ghost function Infos(s: State, order: seq<int>, number: map<int, int>, n: int, done: set<Slot>): map<int, AddrInfo>
    requires Renumbering(s, order, number) && n <= |order|
  {
    map j | 0 <= j < n :: Entry(s, order[j], j, done)
  }

  ghost function Addresses(s: State, number: map<int, int>, n: int): map<NetAddr, int>
    requires AddrOk(s) && number.Keys == s.info.Keys
  {
    map a | a in s.addr && number[s.addr[a]] < n :: number[s.addr[a]]
  }

  ghost function Tried(p: Params, s: State, number: map<int, int>, n: int): map<Slot, int>
    requires p.Valid() && TriedOk(p, s) && number.Keys == s.info.Keys
  {
    map sl | sl in s.triedSlots && number[s.triedSlots[sl]] < n :: number[s.triedSlots[sl]]
  }

  ghost function NewTable(p: Params, s: State, number: map<int, int>, done: set<Slot>): map<Slot, int>
    requires p.Valid() && NewOk(p, s) && number.Keys == s.info.Keys
  {
    map sl | sl in s.newSlots && sl in done :: number[s.newSlots[sl]]
  }

  lemma NextAddresses(s: State, order: seq<int>, number: map<int, int>, n: nat)
    requires AddrOk(s) && Renumbering(s, order, number) && n < |order|
    ensures Addresses(s, number, n + 1) == Addresses(s, number, n)[s.info[order[n]].svc.ip := n]
  {
    var id := order[n];
    assert id in s.info && s.addr[s.info[id].svc.ip] == id && number[id] == n;
    forall a | a in s.addr ensures s.addr[a] in number && (number[s.addr[a]] == n <==> a == s.info[id].svc.ip) {
      AddressNumber(s, order, number, a);
    }
  }

  lemma NumberOf(s: State, order: seq<int>, number: map<int, int>, id: int)
    requires Renumbering(s, order, number) && id in s.info
    ensures 0 <= number[id] < |order| && order[number[id]] == id && (s.info[id].inTried <==> number[id] >= s.nNew)
  {
    assert s.info[order[number[id]]].inTried <==> number[id] >= s.nNew;
  }

  lemma AddressNumber(s: State, order: seq<int>, number: map<int, int>, a: NetAddr)
    requires AddrOk(s) && Renumbering(s, order, number) && a in s.addr
    ensures s.addr[a] in s.info && 0 <= number[s.addr[a]] < |order| && order[number[s.addr[a]]] == s.addr[a]
    ensures s.info[s.addr[a]].svc.ip == a
  {
    NumberOf(s, order, number, s.addr[a]);
  }

  lemma NextUntried(p: Params, s: State, order: seq<int>, number: map<int, int>, n: nat)
    requires p.Valid() && TriedOk(p, s) && Renumbering(s, order, number) && n < s.nNew
    ensures Tried(p, s, number, n + 1) == Tried(p, s, number, n)
  {
    forall sl | sl in s.triedSlots ensures number[s.triedSlots[sl]] != n {
      NumberOf(s, order, number, s.triedSlots[sl]);
    }
  }

  lemma NextTried(p: Params, s: State, order: seq<int>, number: map<int, int>, n: nat, sl: Slot)
    requires p.Valid() && TriedOk(p, s) && Renumbering(s, order, number) && s.nNew <= n < |order|
    requires sl == p.TriedSlot(s.key, s.info[order[n]].svc)
    ensures sl !in Tried(p, s, number, n) && Tried(p, s, number, n + 1) == Tried(p, s, number, n)[sl := n]
  {
    var id := order[n];
    assert id in s.info && s.info[id].inTried && number[id] == n;
    assert s.triedSlots[sl] == id;
    forall y | y in s.triedSlots ensures number[s.triedSlots[y]] == n <==> y == sl {
      NumberOf(s, order, number, s.triedSlots[y]);
    }
  }

  lemma NextInfos(s: State, order: seq<int>, number: map<int, int>, n: nat)
    requires Renumbering(s, order, number) && n < |order|
    ensures var i := s.info[order[n]];
            Infos(s, order, number, n + 1, {}) == Infos(s, order, number, n, {})[n := InfoOf(RecordOf(i), 0, i.inTried, n)]
  {
    assert Refs(s, order[n]) * {} == {};
  }

  function Iota(n: nat): seq<int> {
    seq(n, i => i)
  }

  lemma NextIota(n: nat)
    ensures Iota(n + 1) == Iota(n) + [n]
  {
  }

  ghost predicate Ready(p: Params, s: State, order: seq<int>, number: map<int, int>) {
    && p.Valid() && AddrOk(s) && TriedOk(p, s) && NewOk(p, s) && Renumbering(s, order, number)
    && (forall id {:trigger Counts(s, id)} :: Counts(s, id))
  }

  /** The reference count of one entry is exact and within its bounds. */
  ghost predicate Counts(s: State, id: int) {
    id in s.info ==>
      && s.info[id].refCount == |Refs(s, id)| <= NEW_BUCKETS_PER_ADDRESS
      && (s.info[id].refCount == 0 <==> s.info[id].inTried)
  }

  /** The tables after reading the first `n` entries and the slots of `done`. */
  ghost function Partial(p: Params, s: State, order: seq<int>, number: map<int, int>, n: nat, done: set<Slot>): State
    requires Ready(p, s, order, number) && n <= |order|
  {
    State(n, Infos(s, order, number, n, done), Addresses(s, number, n), Iota(n), s.nTried,
          Tried(p, s, number, n), s.nNew, NewTable(p, s, number, done), 1, s.key)
  }

  // ---------------------------------------------------------------------
  // Reading the entries
  // ---------------------------------------------------------------------

  /** `f` holds the entries of `s` in the given order. */
  ghost predicate Describes(p: Params, f: Saved, s: State, order: seq<int>)
    requires 0 <= s.nNew && 0 <= s.nTried && |order| == s.nNew + s.nTried && forall j :: 0 <= j < |order| ==> order[j] in s.info
  {
    && Usable(p, f) && f.key == s.key && f.nNew == s.nNew == |f.newInfos| && f.nTried == s.nTried == |f.triedInfos|
    && (forall j :: 0 <= j < s.nNew ==> f.newInfos[j] == RecordOf(s.info[order[j]]))
    && (forall j :: s.nNew <= j < |order| ==> f.triedInfos[j - s.nNew] == RecordOf(s.info[order[j]]))
  }

  lemma SavedDescribes(p: Params, s: State, f: Saved)
    requires p.Valid() && Renumbering(s, Order(s), Numbers(s)) && f == Save(p, s)
    requires |List(s, s.idCount, false)| == s.nNew && |List(s, s.idCount, true)| == s.nTried
    ensures Describes(p, f, s, Order(s))
  {
    FlipTwice(p.newBuckets);
    OrderParts(List(s, s.idCount, false), List(s, s.idCount, true), Order(s));
  }

  lemma OrderParts(news: seq<int>, tried: seq<int>, order: seq<int>)
    requires order == news + tried
    ensures forall j :: 0 <= j < |news| ==> order[j] == news[j]
    ensures forall j :: |news| <= j < |order| ==> order[j] == tried[j - |news|]
  {
  }

  lemma FirstAddresses(s: State, order: seq<int>, number: map<int, int>)
    requires AddrOk(s) && Renumbering(s, order, number)
    ensures Addresses(s, number, 0) == map[]
  {
    forall a | a in s.addr ensures number[s.addr[a]] >= 0 { AddressNumber(s, order, number, a); }
  }

  lemma FirstTried(p: Params, s: State, order: seq<int>, number: map<int, int>)
    requires p.Valid() && TriedOk(p, s) && Renumbering(s, order, number)
    ensures Tried(p, s, number, 0) == map[]
  {
    forall sl | sl in s.triedSlots ensures number[s.triedSlots[sl]] >= 0 { NumberOf(s, order, number, s.triedSlots[sl]); }
  }

  lemma FirstTables(p: Params, s: State, order: seq<int>, number: map<int, int>)
    requires Ready(p, s, order, number)
    ensures Partial(p, s, order, number, 0, {}) == Init(s.key).(nNew := s.nNew, nTried := s.nTried)
  {
    FirstAddresses(s, order, number);
    FirstTried(p, s, order, number);
    assert Infos(s, order, number, 0, {}) == map[];
    assert NewTable(p, s, number, {}) == map[];
  }

  lemma NextNew(p: Params, f: Saved, s: State, order: seq<int>, number: map<int, int>, n: nat, t: State, u: State)
    requires Ready(p, s, order, number) && n < s.nNew && Describes(p, f, s, order)
    requires t == Partial(p, s, order, number, n, {}) && u == Partial(p, s, order, number, n + 1, {})
    ensures ReadNew(p, f, t, n, f.newInfos[n]).(idCount := n + 1) == u
  {
    NextAddresses(s, order, number, n);
    NextUntried(p, s, order, number, n);
    NextInfos(s, order, number, n);
    assert order[n] in s.info;
    NextIota(n);
  }

  lemma NextOld(p: Params, s: State, order: seq<int>, number: map<int, int>, n: nat, r: Record, t: State, u: State)
    requires Ready(p, s, order, number) && s.nNew <= n < |order| && r == RecordOf(s.info[order[n]])
    requires t == Partial(p, s, order, number, n, {}) && u == Partial(p, s, order, number, n + 1, {})
    ensures ReadTried(p, t, r) == u
  {
    NextIota(n);
    NextAddresses(s, order, number, n);
    NextTried(p, s, order, number, n, p.TriedSlot(s.key, r.svc));
    NextInfos(s, order, number, n);
    assert s.info[order[n]].inTried;
  }

  lemma ReadNewAnyCount(p: Params, f: Saved, b: State, t: State, n: nat, r: Record)
    requires p.Valid() && b.(idCount := n) == t
    ensures ReadNew(p, f, b, n, r).(idCount := n + 1) == ReadNew(p, f, t, n, r).(idCount := n + 1)
  {
  }

  /** Reading new entry `k` leads from one table to the next. */
  ghost predicate NewStep(p: Params, f: Saved, tables: seq<State>, k: int)
    requires p.Valid() && 0 <= k < |f.newInfos| && k + 1 < |tables|
  {
    tables[k + 1] == ReadNew(p, f, tables[k], k, f.newInfos[k]).(idCount := k + 1)
  }

  /** Reading the tried entry that is entry `n` of the file leads from one table to the next. */
  ghost predicate TriedStep(p: Params, f: Saved, tables: seq<State>, n: int)
    requires p.Valid() && f.nNew <= n < f.nNew + |f.triedInfos| && n + 1 < |tables|
  {
    tables[n + 1] == ReadTried(p, tables[n], f.triedInfos[n - f.nNew])
  }

  /** Loading follows a sequence of tables whose neighbours are one entry apart. */
  lemma {:induction false} FollowNew(p: Params, f: Saved, tables: seq<State>, n: nat)
    requires p.Valid() && n <= |f.newInfos| && n < |tables|
    requires tables[0] == Init(f.key).(nNew := f.nNew, nTried := f.nTried)
    requires forall k :: 0 <= k < n ==> NewStep(p, f, tables, k)
    ensures LoadNew(p, f, n).(idCount := n) == tables[n]
  {
    if n > 0 {
      FollowNew(p, f, tables, n - 1);
      assert NewStep(p, f, tables, n - 1);
      ReadNewAnyCount(p, f, LoadNew(p, f, n - 1), tables[n - 1], n - 1, f.newInfos[n - 1]);
    }
  }

  lemma {:induction false} FollowTried(p: Params, f: Saved, tables: seq<State>, n: nat)
    requires p.Valid() && f.nNew <= |f.newInfos| && n <= |f.triedInfos| && f.nNew + n < |tables|
    requires tables[f.nNew] == LoadNew(p, f, f.nNew).(idCount := f.nNew)
    requires forall k :: f.nNew <= k < f.nNew + n ==> TriedStep(p, f, tables, k)
    ensures LoadTried(p, f, n) == tables[f.nNew + n]
  {
    if n > 0 {
      FollowTried(p, f, tables, n - 1);
      assert TriedStep(p, f, tables, f.nNew + n - 1);
      var t := tables[f.nNew + n - 1];
      assert LoadTried(p, f, n - 1) == t;
      assert LoadTried(p, f, n) == ReadTried(p, t, f.triedInfos[n - 1]);
    }
  }

  /** The tables as the entries are read, one after the other. */
  ghost predicate EntryTables(p: Params, s: State, order: seq<int>, number: map<int, int>, tables: seq<State>)
    requires Ready(p, s, order, number)
  {
    |tables| == |order| + 1 && forall n :: 0 <= n <= |order| ==> tables[n] == Partial(p, s, order, number, n, {})
  }

  lemma NewSteps(p: Params, f: Saved, s: State, order: seq<int>, number: map<int, int>, tables: seq<State>)
    requires Ready(p, s, order, number) && Describes(p, f, s, order) && EntryTables(p, s, order, number, tables)
    ensures tables[0] == Init(f.key).(nNew := f.nNew, nTried := f.nTried)
    ensures forall k :: 0 <= k < s.nNew ==> NewStep(p, f, tables, k)
  {
    FirstTables(p, s, order, number);
    forall k | 0 <= k < s.nNew ensures NewStep(p, f, tables, k) {
      NextNew(p, f, s, order, number, k, tables[k], tables[k + 1]);
    }
  }

  lemma TriedSteps(p: Params, f: Saved, s: State, order: seq<int>, number: map<int, int>, tables: seq<State>)
    requires Ready(p, s, order, number) && Describes(p, f, s, order) && EntryTables(p, s, order, number, tables)
    ensures forall n :: s.nNew <= n < |order| ==> TriedStep(p, f, tables, n)
  {
    forall n | s.nNew <= n < |order| ensures TriedStep(p, f, tables, n) {
      NextOld(p, s, order, number, n, f.triedInfos[n - s.nNew], tables[n], tables[n + 1]);
    }
  }

  lemma FollowEntries(p: Params, f: Saved, tables: seq<State>, n: nat)
    requires p.Valid() && f.nNew == |f.newInfos| && f.nTried == |f.triedInfos| && n == f.nNew + f.nTried && |tables| == n + 1
    requires tables[0] == Init(f.key).(nNew := f.nNew, nTried := f.nTried)
    requires forall k :: 0 <= k < f.nNew ==> NewStep(p, f, tables, k)
    requires forall k :: f.nNew <= k < n ==> TriedStep(p, f, tables, k)
    ensures LoadTried(p, f, f.nTried) == tables[n]
  {
    FollowNew(p, f, tables, f.nNew);
    FollowTried(p, f, tables, f.nTried);
  }

  lemma LoadTriedSaved(p: Params, f: Saved, s: State, order: seq<int>, number: map<int, int>)
    requires Ready(p, s, order, number) && Describes(p, f, s, order)
    ensures LoadTried(p, f, f.nTried) == Partial(p, s, order, number, |order|, {})
  {
    var tables := seq(|order| + 1, n requires 0 <= n <= |order| => Partial(p, s, order, number, n, {}));
    assert EntryTables(p, s, order, number, tables);
    NewSteps(p, f, s, order, number, tables);
    TriedSteps(p, f, s, order, number, tables);
    FollowEntries(p, f, tables, |order|);
  }

  // ---------------------------------------------------------------------
  // Reading the bucket lists
  // ---------------------------------------------------------------------

  lemma NextRefs(s: State, id: int, sl: Slot, done: set<Slot>)
    requires id in s.info && sl !in done && sl in s.newSlots
    ensures |Refs(s, id) * (done + {sl})| == |Refs(s, id) * done| + (if s.newSlots[sl] == id then 1 else 0)
    ensures s.newSlots[sl] == id ==> |Refs(s, id) * done| < |Refs(s, id)|
  {
    var refs := Refs(s, id);
    if s.newSlots[sl] == id {
      assert refs * (done + {sl}) == refs * done + {sl};
      Smaller(refs * done, refs, sl);
    } else {
      assert refs * (done + {sl}) == refs * done;
    }
  }

  lemma Smaller(a: set<Slot>, b: set<Slot>, x: Slot)
    requires a <= b && x in b && x !in a
    ensures |a| < |b|
  {
    Subset(a, b - {x});
  }

  lemma {:induction false} Subset<T>(a: set<T>, b: set<T>)
    requires a <= b
    ensures |a| <= |b|
  {
    if x :| x in a {
      Subset(a - {x}, b - {x});
    }
  }

  lemma NextEntry(s: State, order: seq<int>, number: map<int, int>, done: set<Slot>, sl: Slot, k: int)
    requires Renumbering(s, order, number) && sl in s.newSlots && sl !in done && s.newSlots[sl] in s.info && 0 <= k < |order|
    ensures var e := Entry(s, order[k], k, done);
            Entry(s, order[k], k, done + {sl}) == if k == number[s.newSlots[sl]] then e.(refCount := e.refCount + 1) else e
  {
    NextRefs(s, order[k], sl, done);
    NumberOf(s, order, number, s.newSlots[sl]);
    assert number[order[k]] == k;
  }

  lemma NextLinked(p: Params, s: State, order: seq<int>, number: map<int, int>, done: set<Slot>, sl: Slot, j: int,
                   t: map<int, AddrInfo>, u: map<int, AddrInfo>)
    requires Renumbering(s, order, number) && sl in s.newSlots && sl !in done && s.newSlots[sl] in s.info
    requires j == number[s.newSlots[sl]]
    requires t == Infos(s, order, number, |order|, done) && u == Infos(s, order, number, |order|, done + {sl})
    ensures j in t && u == t[j := t[j].(refCount := t[j].refCount + 1)]
  {
    NumberOf(s, order, number, s.newSlots[sl]);
    forall k | 0 <= k < |order| ensures u[k] == if k == j then t[k].(refCount := t[k].refCount + 1) else t[k] {
      NextEntry(s, order, number, done, sl, k);
    }
  }

  lemma ReadIndexLinks(p: Params, f: Saved, t: State, sl: Slot, j: int, u: State)
    requires p.Valid() && Usable(p, f) && j in t.info && 0 <= j < f.nNew
    requires sl.pos == p.Pos(t.key, t.info[j].svc, true, sl.bucket) && sl !in t.newSlots
    requires t.info[j].refCount < NEW_BUCKETS_PER_ADDRESS
    requires u == t.(info := t.info[j := t.info[j].(refCount := t.info[j].refCount + 1)], newSlots := t.newSlots[sl := j])
    ensures ReadIndex(p, f, t, sl.bucket, j) == u
  {
  }

  lemma ReadIndexSaved(p: Params, f: Saved, s: State, order: seq<int>, number: map<int, int>, done: set<Slot>,
                       sl: Slot, t: State, u: State)
    requires Ready(p, s, order, number) && sl in s.newSlots && sl !in done && Usable(p, f) && f.nNew == s.nNew
    requires t == Partial(p, s, order, number, |order|, done) && u == Partial(p, s, order, number, |order|, done + {sl})
    ensures ReadIndex(p, f, t, sl.bucket, number[s.newSlots[sl]]) == u
  {
    var id := s.newSlots[sl];
    var j := number[id];
    NumberOf(s, order, number, id);
    assert Counts(s, id);
    NextLinked(p, s, order, number, done, sl, j, t.info, u.info);
    NextRefs(s, id, sl, done);
    assert t.info[j] == Entry(s, id, j, done);
    NextNewTable(p, s, number, done, sl);
    ReadIndexLinks(p, f, t, sl, j, u);
  }

  lemma NextNewTable(p: Params, s: State, number: map<int, int>, done: set<Slot>, sl: Slot)
    requires p.Valid() && NewOk(p, s) && number.Keys == s.info.Keys && sl in s.newSlots && sl !in done
    ensures sl !in NewTable(p, s, number, done)
    ensures NewTable(p, s, number, done + {sl}) == NewTable(p, s, number, done)[sl := number[s.newSlots[sl]]]
  {
  }

  /** The slots read when `i` positions of bucket `b` have been read. */
  ghost function Done(s: State, b: int, i: int): set<Slot> {
    set sl | sl in s.newSlots && (sl.bucket < b || (sl.bucket == b && sl.pos < i))
  }

  lemma NextDone(p: Params, s: State, b: int, i: int)
    requires p.Valid() && NewOk(p, s)
    ensures Slot(b, i) in s.newSlots ==> Done(s, b, i + 1) == Done(s, b, i) + {Slot(b, i)}
    ensures Slot(b, i) !in s.newSlots ==> Done(s, b, i + 1) == Done(s, b, i)
    ensures Slot(b, i) !in Done(s, b, i)
    ensures Done(s, b, p.bucketSize) == Done(s, b + 1, 0)
    ensures Done(s, 0, 0) == {} && Done(s, p.newBuckets, 0) == s.newSlots.Keys
  {
    forall sl | sl in s.newSlots ensures 0 <= sl.pos < p.bucketSize && 0 <= sl.bucket < p.newBuckets {}
    forall sl ensures sl in Done(s, b, i + 1) <==> sl in Done(s, b, i) || (sl == Slot(b, i) && sl in s.newSlots) {}
  }

  /** Reading position `k` of bucket `b` of the file leads from `t` to `u`. */
  ghost predicate Reads(p: Params, f: Saved, s: State, b: int, k: int, t: State, u: State)
    requires p.Valid()
  {
    if Slot(b, k) in s.newSlots
    then ReadIndex(p, f, t, b, |List(s, s.newSlots[Slot(b, k)], false)|) == u else t == u
  }

  ghost predicate SlotStep(p: Params, f: Saved, s: State, b: int, tables: seq<State>, k: int)
    requires p.Valid() && 0 <= k && k + 1 < |tables|
  {
    Reads(p, f, s, b, k, tables[k], tables[k + 1])
  }

  lemma {:induction false} FollowBucket(p: Params, f: Saved, s: State, b: int, tables: seq<State>, i: nat)
    requires p.Valid() && i < |tables|
    requires forall k :: 0 <= k < i ==> SlotStep(p, f, s, b, tables, k)
    ensures LoadBucket(p, f, tables[0], b, BucketList(s, b, i)) == tables[i]
  {
    if i > 0 {
      FollowBucket(p, f, s, b, tables, i - 1);
      assert SlotStep(p, f, s, b, tables, i - 1);
      if Slot(b, i - 1) in s.newSlots {
        var list, x := BucketList(s, b, i - 1), |List(s, s.newSlots[Slot(b, i - 1)], false)|;
        assert BucketList(s, b, i) == list + [x] && (list + [x])[..|list|] == list;
      }
    }
  }

  /** The tables when all entries and the slots of `done` have been read. */
  ghost function Filled(p: Params, s: State, order: seq<int>, number: map<int, int>, done: set<Slot>): State
    requires Ready(p, s, order, number)
  {
    Partial(p, s, order, number, |order|, done)
  }

  lemma NextPosition(p: Params, f: Saved, s: State, order: seq<int>, number: map<int, int>, b: int, k: int, t: State,
                     u: State)
    requires Ready(p, s, order, number) && Usable(p, f) && f.nNew == s.nNew && number == Numbers(s)
    requires t == Filled(p, s, order, number, Done(s, b, k)) && u == Filled(p, s, order, number, Done(s, b, k + 1))
    ensures Reads(p, f, s, b, k, t, u)
  {
    NextDone(p, s, b, k);
    if Slot(b, k) in s.newSlots {
      ReadIndexSaved(p, f, s, order, number, Done(s, b, k), Slot(b, k), t, u);
      NumberOfNew(p, s, number, Slot(b, k));
    }
  }

  /** The files and the numbers agree on the entries in the buckets. */
  lemma NumberOfNew(p: Params, s: State, number: map<int, int>, sl: Slot)
    requires p.Valid() && NewOk(p, s) && number == Numbers(s) && sl in s.newSlots
    ensures number[s.newSlots[sl]] == |List(s, s.newSlots[sl], false)|
  {
  }

  /** The tables as the positions of bucket `b` are read, one after the other. */
  ghost predicate BucketTables(p: Params, s: State, order: seq<int>, number: map<int, int>, b: int, tables: seq<State>)
    requires Ready(p, s, order, number)
  {
    |tables| == p.bucketSize + 1 && forall k :: 0 <= k <= p.bucketSize ==> tables[k] == Filled(p, s, order, number, Done(s, b, k))
  }

  lemma SlotSteps(p: Params, f: Saved, s: State, order: seq<int>, number: map<int, int>, b: int, tables: seq<State>)
    requires Ready(p, s, order, number) && Usable(p, f) && f.nNew == s.nNew && number == Numbers(s)
    requires BucketTables(p, s, order, number, b, tables)
    ensures forall k :: 0 <= k < p.bucketSize ==> SlotStep(p, f, s, b, tables, k)
  {
    forall k | 0 <= k < p.bucketSize ensures SlotStep(p, f, s, b, tables, k) {
      NextPosition(p, f, s, order, number, b, k, tables[k], tables[k + 1]);
    }
  }

  lemma LoadBucketSaved(p: Params, f: Saved, s: State, order: seq<int>, number: map<int, int>, b: int, t: State, u: State)
    requires Ready(p, s, order, number) && Usable(p, f) && f.nNew == s.nNew && number == Numbers(s)
    requires t == Filled(p, s, order, number, Done(s, b, 0)) && u == Filled(p, s, order, number, Done(s, b + 1, 0))
    ensures LoadBucket(p, f, t, b, BucketList(s, b, p.bucketSize)) == u
  {
    var tables := seq(p.bucketSize + 1, k => Filled(p, s, order, number, Done(s, b, k)));
    assert BucketTables(p, s, order, number, b, tables);
    SlotSteps(p, f, s, order, number, b, tables);
    FollowBucket(p, f, s, b, tables, p.bucketSize);
    NextDone(p, s, b, 0);
  }

  /** Reading bucket `b` of the file leads from one row to the next. */
  ghost predicate BucketStep(p: Params, f: Saved, rows: seq<State>, b: int)
    requires p.Valid() && 0 <= b < |f.buckets| && b + 1 < |rows|
  {
    LoadBucket(p, f, rows[b], b, f.buckets[b]) == rows[b + 1]
  }

  lemma {:induction false} FollowBuckets(p: Params, f: Saved, rows: seq<State>, n: nat)
    requires p.Valid() && f.nNew <= |f.newInfos| && f.nTried <= |f.triedInfos| && n <= |f.buckets| && n < |rows|
    requires rows[0] == LoadTried(p, f, f.nTried)
    requires forall b :: 0 <= b < n ==> BucketStep(p, f, rows, b)
    ensures LoadBuckets(p, f, n) == rows[n]
  {
    if n > 0 {
      FollowBuckets(p, f, rows, n - 1);
      assert BucketStep(p, f, rows, n - 1);
    }
  }

  /** The tables as the buckets are read, one after the other. */
  ghost predicate BucketRows(p: Params, s: State, order: seq<int>, number: map<int, int>, rows: seq<State>)
    requires Ready(p, s, order, number)
  {
    |rows| == p.newBuckets + 1 && forall b :: 0 <= b <= p.newBuckets ==> rows[b] == Filled(p, s, order, number, Done(s, b, 0))
  }

  /** Rows `b` and `b + 1` are the tables before and after bucket `b`, and the file lists that bucket. */
  ghost predicate RowAt(p: Params, f: Saved, s: State, order: seq<int>, number: map<int, int>, rows: seq<State>, b: int)
    requires Ready(p, s, order, number)
  {
    && 0 <= b < |f.buckets| && b + 1 < |rows| && f.buckets[b] == BucketList(s, b, p.bucketSize)
    && rows[b] == Filled(p, s, order, number, Done(s, b, 0))
    && rows[b + 1] == Filled(p, s, order, number, Done(s, b + 1, 0))
  }

  lemma OneBucketStep(p: Params, f: Saved, s: State, order: seq<int>, number: map<int, int>, rows: seq<State>, b: int)
    requires Ready(p, s, order, number) && Usable(p, f) && f.nNew == s.nNew && number == Numbers(s)
    requires RowAt(p, f, s, order, number, rows, b)
    ensures BucketStep(p, f, rows, b)
  {
    LoadBucketSaved(p, f, s, order, number, b, rows[b], rows[b + 1]);
  }

  lemma RowsInPlace(p: Params, f: Saved, s: State, order: seq<int>, number: map<int, int>, rows: seq<State>)
    requires Ready(p, s, order, number) && f.buckets == Buckets(p, s) && BucketRows(p, s, order, number, rows)
    ensures forall b :: 0 <= b < p.newBuckets ==> RowAt(p, f, s, order, number, rows, b)
  {
  }

  lemma BucketSteps(p: Params, f: Saved, s: State, order: seq<int>, number: map<int, int>, rows: seq<State>, n: nat)
    requires Ready(p, s, order, number) && Usable(p, f) && f.nNew == s.nNew && number == Numbers(s)
    requires n <= |f.buckets| && n < |rows| && forall b :: 0 <= b < n ==> RowAt(p, f, s, order, number, rows, b)
    ensures forall b :: 0 <= b < n ==> BucketStep(p, f, rows, b)
  {
    forall b | 0 <= b < n ensures BucketStep(p, f, rows, b) {
      OneBucketStep(p, f, s, order, number, rows, b);
    }
  }

  /** Every stage of loading the saved file, up to pruning. */
  lemma LoadBucketsSaved(p: Params, f: Saved, s: State, order: seq<int>, number: map<int, int>)
    requires Ready(p, s, order, number) && Describes(p, f, s, order) && number == Numbers(s) && f.buckets == Buckets(p, s)
    ensures LoadBuckets(p, f, p.newBuckets) == Filled(p, s, order, number, s.newSlots.Keys)
  {
    var rows := seq(p.newBuckets + 1, b => Filled(p, s, order, number, Done(s, b, 0)));
    assert BucketRows(p, s, order, number, rows);
    LoadTriedSaved(p, f, s, order, number);
    RowsInPlace(p, f, s, order, number, rows);
    BucketSteps(p, f, s, order, number, rows, p.newBuckets);
    NextDone(p, s, 0, 0);
    FollowBuckets(p, f, rows, p.newBuckets);
  }

  // ---------------------------------------------------------------------
  // The file is accepted
  // ---------------------------------------------------------------------

  lemma {:induction false} RowSize(row: set<Slot>, b: int, n: nat)
    requires forall sl :: sl in row ==> sl.bucket == b && 0 <= sl.pos < n
    ensures |row| <= n
  {
    if n == 0 {
      assert row == {};
    } else {
      RowSize(row - {Slot(b, n - 1)}, b, n - 1);
    }
  }

  lemma {:induction false} GridSize(slots: set<Slot>, m: nat, n: nat)
    requires forall sl :: sl in slots ==> 0 <= sl.bucket < m && 0 <= sl.pos < n
    ensures |slots| <= m * n
  {
    if m == 0 {
      assert slots == {};
    } else {
      var row := set sl | sl in slots && sl.bucket == m - 1;
      RowSize(row, m - 1, n);
      GridSize(slots - row, m - 1, n);
      assert |slots| == |slots - row| + |row|;
      assert m * n == (m - 1) * n + n;
    }
  }

  lemma SomeElement<T>(ids: set<T>) returns (id: T)
    requires ids != {}
    ensures id in ids
  {
    id :| id in ids;
  }

  lemma {:induction false} HoldersSize(table: map<Slot, int>, ids: set<int>)
    requires ids <= table.Values
    ensures |ids| <= |table.Keys|
  {
    if ids != {} {
      var id := SomeElement(ids);
      assert id in table.Values;
      var sl :| sl in table && table[sl] == id;
      var rest := table - {sl};
      forall x | x in ids - {id} ensures x in rest.Values {
        assert x in table.Values;
        var y :| y in table && table[y] == x;
        assert y in rest && rest[y] == x;
      }
      HoldersSize(rest, ids - {id});
      assert table.Keys == rest.Keys + {sl};
    }
  }

  lemma NewFits(p: Params, s: State)
    requires p.Valid() && NewOk(p, s) && RefsOk(s, {})
    ensures |NewIds(s)| <= p.newBuckets * p.bucketSize
  {
    forall id | id in NewIds(s) ensures id in s.newSlots.Values {
      var sl :| sl in Refs(s, id);
      assert s.newSlots[sl] == id;
    }
    HoldersSize(s.newSlots, NewIds(s));
    GridSize(s.newSlots.Keys, p.newBuckets, p.bucketSize);
  }

  lemma TriedFits(p: Params, s: State)
    requires p.Valid() && TriedOk(p, s)
    ensures |TriedIds(s)| <= p.triedBuckets * p.bucketSize
  {
    forall id | id in TriedIds(s) ensures id in s.triedSlots.Values {
      var sl := p.TriedSlot(s.key, s.info[id].svc);
      assert sl in s.triedSlots && s.triedSlots[sl] == id;
    }
    HoldersSize(s.triedSlots, TriedIds(s));
    GridSize(s.triedSlots.Keys, p.triedBuckets, p.bucketSize);
  }

  lemma SavedDistinct(p: Params, f: Saved, s: State, order: seq<int>, number: map<int, int>)
    requires Ready(p, s, order, number) && Describes(p, f, s, order)
    ensures Distinct(f)
  {
    forall i, j | 0 <= i < j < |order| ensures s.info[order[i]].svc.ip != s.info[order[j]].svc.ip {
      var a, b := order[i], order[j];
      assert a in s.info && b in s.info && number[a] == i && number[b] == j;
      assert s.addr[s.info[a].svc.ip] == a && s.addr[s.info[b].svc.ip] == b;
    }
    forall i | 0 <= i < f.nNew ensures !From(f.newInfos[i].svc.ip, f.newInfos, i) {
      assert order[i] in s.info;
    }
    forall i | 0 <= i < f.nTried
      ensures !From(f.triedInfos[i].svc.ip, f.newInfos, f.nNew) && !From(f.triedInfos[i].svc.ip, f.triedInfos, i)
    {
      var k := s.nNew + i;
      assert f.triedInfos[i] == RecordOf(s.info[order[k]]);
      forall m | 0 <= m < i ensures f.triedInfos[m] == RecordOf(s.info[order[s.nNew + m]]) {}
    }
  }

  lemma SavedTimes(p: Params, f: Saved, s: State, order: seq<int>, number: map<int, int>)
    requires Ready(p, s, order, number) && Describes(p, f, s, order) && TimesOk(s)
    ensures TimesRecorded(f)
  {
    forall id | id in s.info ensures 0 <= s.info[id].lastSuccess && (s.info[id].inTried ==> 0 < s.info[id].lastSuccess) {
      assert 0 <= s.info[id].lastTry;
    }
    forall i | 0 <= i < |f.newInfos| ensures 0 <= f.newInfos[i].lastSuccess {
      assert order[i] in s.info && f.newInfos[i] == RecordOf(s.info[order[i]]);
    }
    forall i | 0 <= i < |f.triedInfos| ensures 0 < f.triedInfos[i].lastSuccess {
      var k := s.nNew + i;
      assert order[k] in s.info && s.info[order[k]].inTried && f.triedInfos[i] == RecordOf(s.info[order[k]]);
    }
  }

  // ---------------------------------------------------------------------
  // The round trip
  // ---------------------------------------------------------------------

  lemma AllRefs(s: State, id: int)
    ensures Refs(s, id) * s.newSlots.Keys == Refs(s, id)
  {
  }

  lemma NoneInNoBucket(p: Params, s: State, order: seq<int>, number: map<int, int>, t: State)
    requires Ready(p, s, order, number) && t == Filled(p, s, order, number, s.newSlots.Keys)
    ensures Zero(t) == {}
  {
    forall j | j in t.info ensures t.info[j].inTried || t.info[j].refCount != 0 {
      assert order[j] in s.info && t.info[j] == Entry(s, order[j], j, s.newSlots.Keys);
      assert Counts(s, order[j]);
      AllRefs(s, order[j]);
    }
  }

  lemma {:induction false} PruneNothing(t: State, n: nat)
    requires RandomOk(t) && Zero(t) == {}
    ensures Prune(t, n) == t
  {
    if n > 0 {
      PruneNothing(t, n - 1);
      assert n - 1 !in Zero(t);
    }
  }

  /** Saving and loading keeps the tables, but for the memory-only fields and one renumbering of the ids. */
  ghost predicate SameTables(s: State, t: State, number: map<int, int>) {
    && number.Keys == s.info.Keys && number.Values == t.info.Keys
    && (forall x, y :: x in number && y in number && number[x] == number[y] ==> x == y)
    && (forall id :: id in s.info ==>
        number[id] in t.info &&
        t.info[number[id]] == s.info[id].(lastTry := 0, lastCountAttempt := 0, randomPos := t.info[number[id]].randomPos))
    && SameTable(s.addr, t.addr, number) && SameTable(s.newSlots, t.newSlots, number) && SameTable(s.triedSlots, t.triedSlots, number)
    && t.nNew == s.nNew && t.nTried == s.nTried && t.key == s.key
    && t.idCount == |s.info| && t.lastGood == 1
  }

  ghost predicate SameTable<K>(m: map<K, int>, n: map<K, int>, number: map<int, int>) {
    n.Keys == m.Keys && forall k :: k in m ==> m[k] in number && n[k] == number[m[k]]
  }

  lemma FilledEntry(p: Params, s: State, order: seq<int>, number: map<int, int>, t: State, id: int)
    requires Ready(p, s, order, number) && t == Filled(p, s, order, number, s.newSlots.Keys) && id in s.info
    ensures number[id] in t.info
    ensures t.info[number[id]] == s.info[id].(lastTry := 0, lastCountAttempt := 0, randomPos := t.info[number[id]].randomPos)
  {
    NumberOf(s, order, number, id);
    assert t.info[number[id]] == Entry(s, order[number[id]], number[id], s.newSlots.Keys);
    assert Counts(s, id);
    AllRefs(s, id);
  }

  lemma FilledTables(p: Params, s: State, order: seq<int>, number: map<int, int>)
    requires Ready(p, s, order, number)
    ensures SameTable(s.addr, Addresses(s, number, |order|), number)
    ensures SameTable(s.triedSlots, Tried(p, s, number, |order|), number)
    ensures SameTable(s.newSlots, NewTable(p, s, number, s.newSlots.Keys), number)
  {
    forall a | a in s.addr ensures s.addr[a] in s.info && number[s.addr[a]] < |order| {
      AddressNumber(s, order, number, a);
    }
    forall sl | sl in s.triedSlots ensures number[s.triedSlots[sl]] < |order| {
      NumberOf(s, order, number, s.triedSlots[sl]);
    }
  }

  lemma FilledNumbers(s: State, order: seq<int>, number: map<int, int>, ids: set<int>)
    requires Renumbering(s, order, number) && forall j :: j in ids <==> 0 <= j < |order|
    ensures number.Values == ids
    ensures forall x, y :: x in number && y in number && number[x] == number[y] ==> x == y
  {
    forall j | j in ids ensures j in number.Values { assert number[order[j]] == j; }
    forall x | x in number ensures order[number[x]] == x {}
  }

  lemma FilledSame(p: Params, s: State, order: seq<int>, number: map<int, int>, t: State)
    requires Ready(p, s, order, number) && t == Filled(p, s, order, number, s.newSlots.Keys) && t.idCount == |s.info|
    ensures SameTables(s, t, number)
  {
    FilledNumbers(s, order, number, t.info.Keys);
    FilledTables(p, s, order, number);
    forall id | id in s.info
      ensures number[id] in t.info
      ensures t.info[number[id]] == s.info[id].(lastTry := 0, lastCountAttempt := 0, randomPos := t.info[number[id]].randomPos)
    {
      FilledEntry(p, s, order, number, t, id);
    }
  }

  lemma SavedAccepted(p: Params, s: State, f: Saved)
    requires p.Valid() && Core(p, s, {}, {}) && f == Save(p, s)
    ensures Accepted(p, f) && |s.info| == s.nNew + s.nTried
  {
    ListCounts(p, s);
    FlipTwice(p.newBuckets);
    NewFits(p, s);
    TriedFits(p, s);
    assert s.info.Keys == NewIds(s) + TriedIds(s) && NewIds(s) !! TriedIds(s);
  }

  lemma SavedReady(p: Params, s: State, f: Saved)
    requires p.Valid() && Core(p, s, {}, {}) && f == Save(p, s)
    ensures Ready(p, s, Order(s), Numbers(s)) && Describes(p, f, s, Order(s))
  {
    OrderIsRenumbering(p, s);
    ListCounts(p, s);
    SavedDescribes(p, s, f);
    forall id ensures Counts(s, id) {}
  }

  /** Saving consistent tables and loading the file succeeds, loses and prunes no entry, and gives back
      consistent tables that are the same up to one renumbering. */
  lemma RoundTrip(p: Params, s: State, f: Saved)
    requires p.Valid() && Inv(p, s) && f == Save(p, s)
    ensures Accepted(p, f)
    ensures LoadBuckets(p, f, BucketCount(f)) == Load(p, f)
    ensures SameTables(s, Load(p, f), Numbers(s))
    ensures Inv(p, Load(p, f))
  {
    SavedReady(p, s, f);
    SavedAccepted(p, s, f);
    LoadSaved(p, s, f, Order(s), Numbers(s));
  }

  lemma LoadSaved(p: Params, s: State, f: Saved, order: seq<int>, number: map<int, int>)
    requires Ready(p, s, order, number) && Describes(p, f, s, order) && number == Numbers(s) && f.buckets == Buckets(p, s)
    requires Accepted(p, f) && TimesOk(s) && f.key != 0 && |s.info| == |order|
    ensures LoadBuckets(p, f, BucketCount(f)) == Load(p, f)
    ensures SameTables(s, Load(p, f), number) && Inv(p, Load(p, f))
  {
    var t := Filled(p, s, order, number, s.newSlots.Keys);
    LoadBucketsSaved(p, f, s, order, number);
    NoneInNoBucket(p, s, order, number, t);
    FilledSame(p, s, order, number, t);
    SavedDistinct(p, f, s, order, number);
    SavedTimes(p, f, s, order, number);
    LoadUnpruned(p, f, t);
  }

  lemma LoadUnpruned(p: Params, f: Saved, t: State)
    requires p.Valid() && Accepted(p, f) && Distinct(f) && TimesRecorded(f) && f.key != 0
    requires t == LoadBuckets(p, f, Max(0, BucketCount(f))) && Zero(t) == {}
    ensures Load(p, f) == t && Inv(p, t)
  {
    DistinctLoads(p, f, t);
    LoadInv(p, f, t, Load(p, f));
    LoadBucketsNumbered(p, f, Max(0, BucketCount(f)), t);
    PruneNothing(t, t.idCount);
  }
}
