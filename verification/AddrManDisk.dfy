/** Saving the address manager to disk and loading it again.

    A saved file is the list of the values written, in the order in which they are written;
    their encoding as bytes is not modelled. */
module AddrManDisk {
  import opened Common
  import opened AddrManState
  import opened AddrManProofs

  /** The fields of an entry that are written; the others are kept in memory only. */
  datatype Record = Record(svc: Service, time: int, services: bv64, source: NetAddr, lastSuccess: int, attempts: int)

  datatype Saved = Saved(
    version: nat,
    keySize: nat,
    key: nat,
    nNew: nat,
    nTried: nat,
    nBuckets: int,
    newInfos: seq<Record>,
    triedInfos: seq<Record>,
    buckets: seq<seq<int>>)

  const KEY_SIZE := 32
  const MARK := 0x4000_0000

  /** Exclusive or with 2^30, on 32-bit numbers. */
  function Flip(n: int): int {
    if n / MARK % 2 == 0 then n + MARK else n - MARK
  }

  lemma FlipTwice(n: int)
    ensures Flip(Flip(n)) == n
  {
    assert (n + MARK) / MARK == n / MARK + 1 && (n - MARK) / MARK == n / MARK - 1;
  }

  function RecordOf(i: AddrInfo): Record {
    Record(i.svc, i.time, i.services, i.source, i.lastSuccess, i.attempts)
  }

  /** The entry read back from a record. */
  function InfoOf(r: Record, refCount: int, inTried: bool, randomPos: int): AddrInfo {
    AddrInfo(r.svc, r.time, r.services, r.source, 0, 0, r.lastSuccess, r.attempts, refCount, inTried, randomPos)
  }

  // ---------------------------------------------------------------------
  // Saving
  // ---------------------------------------------------------------------

  /** Whether an entry is written with the new or with the tried entries. */
  predicate Listed(s: State, id: int, tried: bool) {
    id in s.info && if tried then s.info[id].inTried else s.info[id].refCount != 0
  }

  /** The listed ids below `n`, in order. */
  function List(s: State, n: int, tried: bool): (ids: seq<int>)
    ensures forall i :: 0 <= i < |ids| ==> 0 <= ids[i] < n && Listed(s, ids[i], tried)
    decreases n
  {
    if n <= 0 then []
    else if Listed(s, n - 1, tried) then List(s, n - 1, tried) + [n - 1]
    else List(s, n - 1, tried)
  }

  function Records(s: State, ids: seq<int>): seq<Record>
    requires forall i :: 0 <= i < |ids| ==> ids[i] in s.info
  {
    seq(|ids|, i requires 0 <= i < |ids| => RecordOf(s.info[ids[i]]))
  }

  /** The entries of the first `n` positions of a bucket, by their number in the file. */
  function BucketList(s: State, bucket: int, n: int): seq<int>
    decreases n
  {
    if n <= 0 then []
    else if Slot(bucket, n - 1) in s.newSlots
    then BucketList(s, bucket, n - 1) + [|List(s, s.newSlots[Slot(bucket, n - 1)], false)|]
    else BucketList(s, bucket, n - 1)
  }

  function Buckets(p: Params, s: State): seq<seq<int>>
    requires p.Valid()
  {
    seq(p.newBuckets, b => BucketList(s, b, p.bucketSize))
  }

  function Save(p: Params, s: State): Saved
    requires p.Valid() && s.nNew >= 0 && s.nTried >= 0
  {
    Saved(1, KEY_SIZE, s.key, s.nNew, s.nTried, Flip(p.newBuckets),
          Records(s, List(s, s.idCount, false)), Records(s, List(s, s.idCount, true)), Buckets(p, s))
  }

  // ---------------------------------------------------------------------
  // Loading
  // ---------------------------------------------------------------------

  /** The number of new buckets recorded in a file. */
  function BucketCount(f: Saved): int {
    if f.version != 0 then Flip(f.nBuckets) else f.nBuckets
  }

  /** Whether the bucket lists of a file can be used. */
  predicate Usable(p: Params, f: Saved) {
    f.version == 1 && BucketCount(f) == p.newBuckets
  }

  /** The checks that raise an exception; the last three are an early end of the file. */
  predicate Accepted(p: Params, f: Saved) {
    && f.keySize == KEY_SIZE
    && f.nNew <= p.newBuckets * p.bucketSize
    && f.nTried <= p.triedBuckets * p.bucketSize
    && f.nNew <= |f.newInfos|
    && f.nTried <= |f.triedInfos|
    && BucketCount(f) <= |f.buckets|
  }

  /** One entry of the new table is read and given number `n`. */
  function ReadNew(p: Params, f: Saved, s: State, n: int, r: Record): State
    requires p.Valid()
  {
    var sl := p.NewSlot(s.key, r.svc, r.source);
    var own := !Usable(p, f) && sl !in s.newSlots;
    s.(info := s.info[n := InfoOf(r, if own then 1 else 0, false, |s.rnd|)],
       addr := s.addr[r.svc.ip := n],
       rnd := s.rnd + [n],
       newSlots := if own then s.newSlots[sl := n] else s.newSlots)
  }

  /** The tables after the first `n` entries of the new table. */
  function LoadNew(p: Params, f: Saved, n: nat): State
    requires p.Valid() && n <= |f.newInfos|
  {
    if n == 0 then Init(f.key).(nNew := f.nNew, nTried := f.nTried)
    else ReadNew(p, f, LoadNew(p, f, n - 1), n - 1, f.newInfos[n - 1])
  }

  /** The ids are `0..n`, in the order in which they were read. */
  ghost predicate Numbered(s: State, n: int) {
    && RandomOk(s)
    && (forall id :: id in s.info <==> 0 <= id < n)
  }

  /** One entry of the tried table is read; it is lost if its slot is taken. */
  function ReadTried(p: Params, s: State, r: Record): State
    requires p.Valid()
  {
    var sl := p.TriedSlot(s.key, r.svc);
    if sl in s.triedSlots then s.(nTried := s.nTried - 1) else
    s.(idCount := s.idCount + 1,
       info := s.info[s.idCount := InfoOf(r, 0, true, |s.rnd|)],
       addr := s.addr[r.svc.ip := s.idCount],
       rnd := s.rnd + [s.idCount],
       triedSlots := s.triedSlots[sl := s.idCount])
  }

  function LoadTried(p: Params, f: Saved, n: nat): State
    requires p.Valid() && f.nNew <= |f.newInfos| && n <= |f.triedInfos|
  {
    if n == 0 then LoadNew(p, f, f.nNew).(idCount := f.nNew)
    else ReadTried(p, LoadTried(p, f, n - 1), f.triedInfos[n - 1])
  }

  lemma {:induction false} LoadNewNumbered(p: Params, f: Saved, n: nat, s: State)
    requires p.Valid() && n <= |f.newInfos| && s == LoadNew(p, f, n)
    ensures Numbered(s, n)
  {
    if n > 0 { LoadNewNumbered(p, f, n - 1, LoadNew(p, f, n - 1)); }
  }

  lemma {:induction false} LoadTriedNumbered(p: Params, f: Saved, n: nat, s: State)
    requires p.Valid() && f.nNew <= |f.newInfos| && n <= |f.triedInfos| && s == LoadTried(p, f, n)
    ensures Numbered(s, s.idCount) && f.nNew <= s.idCount
  {
    if n == 0 {
      LoadNewNumbered(p, f, f.nNew, LoadNew(p, f, f.nNew));
    } else {
      LoadTriedNumbered(p, f, n - 1, LoadTried(p, f, n - 1));
      ReadTriedNumbered(p, LoadTried(p, f, n - 1), f.triedInfos[n - 1], s);
    }
  }

  lemma ReadTriedNumbered(p: Params, s: State, r: Record, t: State)
    requires p.Valid() && Numbered(s, s.idCount) && s.idCount >= 0 && t == ReadTried(p, s, r)
    ensures Numbered(t, t.idCount) && s.idCount <= t.idCount
  {
  }

  /** One number in a bucket list is read. The entries below `nNew` have all been read by then. */
  function ReadIndex(p: Params, f: Saved, s: State, bucket: int, index: int): State
    requires p.Valid()
  {
    if !(0 <= index < f.nNew) || index !in s.info then s else
    var sl := Slot(bucket, p.Pos(s.key, s.info[index].svc, true, bucket));
    if Usable(p, f) && sl !in s.newSlots && s.info[index].refCount < NEW_BUCKETS_PER_ADDRESS
    then Link(s, sl, index, s.info[index].refCount + 1) else s
  }

  /** The tables after reading a bucket list. */
  function LoadBucket(p: Params, f: Saved, s: State, bucket: int, list: seq<int>): State
    requires p.Valid()
  {
    if list == [] then s
    else ReadIndex(p, f, LoadBucket(p, f, s, bucket, list[..|list| - 1]), bucket, list[|list| - 1])
  }

  function LoadBuckets(p: Params, f: Saved, n: nat): State
    requires p.Valid() && f.nNew <= |f.newInfos| && f.nTried <= |f.triedInfos| && n <= |f.buckets|
  {
    if n == 0 then LoadTried(p, f, f.nTried)
    else LoadBucket(p, f, LoadBuckets(p, f, n - 1), n - 1, f.buckets[n - 1])
  }

  lemma ReadIndexNumbered(p: Params, f: Saved, s: State, bucket: int, index: int, t: State)
    requires p.Valid() && Numbered(s, s.idCount) && t == ReadIndex(p, f, s, bucket, index)
    ensures Numbered(t, t.idCount) && t.idCount == s.idCount
  {
    RandomSame(s, t);
  }

  lemma {:induction false} LoadBucketNumbered(p: Params, f: Saved, s: State, bucket: int, list: seq<int>, t: State)
    requires p.Valid() && Numbered(s, s.idCount) && t == LoadBucket(p, f, s, bucket, list)
    ensures Numbered(t, t.idCount) && t.idCount == s.idCount
    decreases |list|
  {
    if list != [] {
      var u := LoadBucket(p, f, s, bucket, list[..|list| - 1]);
      LoadBucketNumbered(p, f, s, bucket, list[..|list| - 1], u);
      ReadIndexNumbered(p, f, u, bucket, list[|list| - 1], t);
    }
  }

  lemma {:induction false} LoadBucketsNumbered(p: Params, f: Saved, n: nat, s: State)
    requires p.Valid() && f.nNew <= |f.newInfos| && f.nTried <= |f.triedInfos| && n <= |f.buckets|
    requires s == LoadBuckets(p, f, n)
    ensures Numbered(s, s.idCount) && f.nNew <= s.idCount
  {
    if n == 0 {
      LoadTriedNumbered(p, f, f.nTried, s);
    } else {
      var b := LoadBuckets(p, f, n - 1);
      LoadBucketsNumbered(p, f, n - 1, b);
      LoadBucketNumbered(p, f, b, n - 1, f.buckets[n - 1], s);
    }
  }

  /** Deletes `id` if it is in no bucket. */
  function PruneId(s: State, id: int): (t: State)
    requires RandomOk(s)
    ensures RandomOk(t)
  {
    if id in s.info && !s.info[id].inTried && s.info[id].refCount == 0
    then DeleteRandom(s, id, Delete(s, id)); Delete(s, id) else s
  }

  /** The tables after the ids below `n` have been looked at. */
  function Prune(s: State, n: nat): (t: State)
    requires RandomOk(s)
    ensures RandomOk(t)
  {
    if n == 0 then s else PruneId(Prune(s, n - 1), n - 1)
  }

  lemma DropLastRandom(r: State, id: int, t: State)
    requires RandomOk(r) && |r.rnd| > 0 && r.rnd[|r.rnd| - 1] == id && t == DropLast(r, id)
    ensures RandomOk(t)
  {
  }

  lemma DeleteRandom(s: State, id: int, t: State)
    requires RandomOk(s) && id in s.info && t == Delete(s, id)
    ensures RandomOk(t)
  {
    var r := SwapRandom(s, s.info[id].randomPos, |s.rnd| - 1);
    SwapRandomOk(s, s.info[id].randomPos, |s.rnd| - 1, r);
    DropLastRandom(r, id, t);
  }

  function Load(p: Params, f: Saved): State
    requires p.Valid() && Accepted(p, f)
  {
    var s := LoadBuckets(p, f, Max(0, BucketCount(f)));
    LoadBucketsNumbered(p, f, Max(0, BucketCount(f)), s);
    Prune(s, s.idCount)
  }
}
