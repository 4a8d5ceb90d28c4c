/** The wire form of transaction requests: indexes as differences, and short ids as two words. */
module CompactBlockCodec {
  import opened Common
  import opened CompactBlock

  const WORD := 0x1_0000_0000
  const WIDE := 0x1_0000_0000_0000_0000

  predicate Increasing(s: seq<nat>) {
    forall i :: 0 < i < |s| ==> s[i - 1] < s[i]
  }

  predicate Short(s: seq<nat>) {
    forall i :: 0 <= i < |s| ==> s[i] <= MAX_INDEX
  }

  /** The difference that is written for an index, in unsigned 64-bit arithmetic. */
  function Difference(s: seq<nat>, i: nat): nat
    requires i < |s|
  {
    (s[i] - if i == 0 then 0 else s[i - 1] + 1) % WIDE
  }

  function Differences(s: seq<nat>): seq<nat> {
    seq(|s|, i requires 0 <= i < |s| => Difference(s, i))
  }

  /** The indexes of the first `n` differences, or nothing if one of them does not fit 16 bits. */
  function Indexes(ds: seq<nat>, n: nat): (r: Option<seq<nat>>)
    requires n <= |ds|
    ensures r.Some? ==> |r.value| == n && Short(r.value)
  {
    if n == 0 then Some([]) else
    var prev := Indexes(ds, n - 1);
    if prev.None? || ds[n - 1] + OffsetAfter(prev.value) > MAX_INDEX then None
    else Some(prev.value + [ds[n - 1] + OffsetAfter(prev.value)])
  }

  /** The 16-bit offset after a list of indexes. */
  function OffsetAfter(s: seq<nat>): nat {
    if s == [] then 0 else (s[|s| - 1] + 1) % (MAX_INDEX + 1)
  }

  /** What a reader makes of a list of differences. */
  function Decode(ds: seq<nat>): Option<seq<nat>> {
    if !Short(ds) then None else Indexes(ds, |ds|)
  }

  lemma {:induction false} IndexesOf(s: seq<nat>, n: nat)
    requires n <= |s| && Increasing(s) && Short(s)
    ensures Indexes(Differences(s), n) == Some(s[..n])
  {
    if n > 0 {
      IndexesOf(s, n - 1);
      NextIndex(s, n - 1, s[..n - 1]);
      assert s[..n] == s[..n - 1] + [s[n - 1]];
    }
  }

  lemma NextIndex(s: seq<nat>, i: nat, prev: seq<nat>)
    requires i < |s| && Increasing(s) && Short(s) && prev == s[..i]
    ensures Difference(s, i) + OffsetAfter(prev) == s[i]
  {
    SmallDifference(s, i);
    if i > 0 {
      assert prev[i - 1] == s[i - 1] < s[i] <= MAX_INDEX;
    }
  }

  lemma SmallDifference(s: seq<nat>, i: nat)
    requires i < |s| && Increasing(s) && Short(s)
    ensures Difference(s, i) == s[i] - (if i == 0 then 0 else s[i - 1] + 1) <= MAX_INDEX
  {
    if i > 0 { assert s[i - 1] < s[i]; }
  }

  /** Every strictly increasing list of 16-bit indexes is read back. */
  lemma IndexesRoundTrip(s: seq<nat>)
    requires Increasing(s) && Short(s)
    ensures Decode(Differences(s)) == Some(s)
  {
    forall i | 0 <= i < |s| ensures Differences(s)[i] <= MAX_INDEX { SmallDifference(s, i); }
    IndexesOf(s, |s|);
    assert s[..|s|] == s;
  }

  lemma {:induction false} IndexAt(ds: seq<nat>, n: nat, s: seq<nat>, k: nat)
    requires k < n <= |ds| && Indexes(ds, n) == Some(s)
    ensures s[k] == ds[k] + if k == 0 then 0 else (s[k - 1] + 1) % (MAX_INDEX + 1)
  {
    if k < n - 1 {
      var prev := Indexes(ds, n - 1).value;
      IndexAt(ds, n - 1, prev, k);
      assert s[..n - 1] == prev;
    }
  }

  /** The sum of the first `n` differences. */
  function Total(ds: seq<nat>, n: nat): nat
    requires n <= |ds|
  {
    if n == 0 then 0 else Total(ds, n - 1) + ds[n - 1]
  }

  lemma {:induction false} TotalGrows(ds: seq<nat>, m: nat, n: nat)
    requires m <= n <= |ds|
    ensures Total(ds, m) <= Total(ds, n)
  {
    if m < n { TotalGrows(ds, m, n - 1); }
  }

  /** The number that the first `i + 1` differences add up to, with one more for each after the first. */
  function IndexSum(ds: seq<nat>, i: nat): nat
    requires i < |ds|
  {
    Total(ds, i + 1) + i
  }

  /** Until the largest index is met, the indexes are these sums. */
  lemma {:induction false} IndexTotal(ds: seq<nat>, n: nat, s: seq<nat>, k: nat)
    requires k < n <= |ds| && Indexes(ds, n) == Some(s)
    requires forall i :: 0 <= i < k ==> IndexSum(ds, i) != MAX_INDEX
    ensures s[k] == IndexSum(ds, k)
  {
    IndexAt(ds, n, s, k);
    if k > 0 {
      IndexTotal(ds, n, s, k - 1);
      assert s[k - 1] == IndexSum(ds, k - 1) != MAX_INDEX && s[k - 1] <= MAX_INDEX;
      assert IndexSum(ds, k) == IndexSum(ds, k - 1) + 1 + ds[k];
    } else {
      assert Total(ds, 0) == 0;
    }
  }

  /** The largest index before the end is followed by a smaller one. */
  lemma NotIncreasing(ds: seq<nat>, n: nat, s: seq<nat>, k: nat)
    requires k < n - 1 && n <= |ds| && Indexes(ds, n) == Some(s) && IndexSum(ds, k) == MAX_INDEX
    ensures s[k] == MAX_INDEX && !Increasing(s)
  {
    forall i | 0 <= i < k ensures IndexSum(ds, i) != MAX_INDEX { TotalGrows(ds, i + 1, k + 1); }
    IndexTotal(ds, n, s, k);
    assert s[k + 1] <= s[k] && s[(k + 1) - 1] == s[k];
  }

  /** A list that is read is strictly increasing exactly when its differences do not add up to the largest index
      before the end: the offset of 16 bits starts again at zero after that index. */
  lemma DecodedIncreasing(ds: seq<nat>, n: nat, s: seq<nat>)
    requires n <= |ds| && Indexes(ds, n) == Some(s)
    ensures Increasing(s) <==> forall i :: 0 <= i < n - 1 ==> IndexSum(ds, i) != MAX_INDEX
  {
    if k :| 0 <= k < n - 1 && IndexSum(ds, k) == MAX_INDEX {
      NotIncreasing(ds, n, s, k);
    } else {
      forall i | 0 < i < |s| ensures s[i - 1] < s[i] {
        IndexTotal(ds, n, s, i - 1);
        IndexTotal(ds, n, s, i);
      }
    }
  }

  /** Two differences that are read as indexes that go down. */
  lemma LargestFirst(ds: seq<nat>)
    requires ds == [MAX_INDEX, 0]
    ensures Decode(ds) == Some([MAX_INDEX, 0]) && !Increasing([MAX_INDEX, 0])
  {
    assert Indexes(ds, 0) == Some([]) && [] + [ds[0]] == [MAX_INDEX];
    assert Indexes(ds, 1) == Some([MAX_INDEX]);
    assert ds[1] == 0 && OffsetAfter([MAX_INDEX]) == 0;
    var s := [MAX_INDEX] + [0];
    assert Indexes(ds, 2) == Some(s) && s == [MAX_INDEX, 0];
    assert Total(ds, 0) == 0 && IndexSum(ds, 0) == MAX_INDEX;
    NotIncreasing(ds, 2, s, 0);
  }

  /** Reads the differences in place: they become indexes. */
  method ReadIndexes(indexes: array<nat>) returns (ok: bool)
    modifies indexes
    ensures ok <==> Decode(old(indexes[..])).Some?
    ensures ok ==> Decode(old(indexes[..])) == Some(indexes[..])
  {
    ghost var ds := indexes[..];
    var i := 0;
    while i < indexes.Length
      invariant 0 <= i <= indexes.Length && forall j :: 0 <= j < i ==> indexes[j] <= MAX_INDEX
    {
      if indexes[i] > MAX_INDEX {
        assert !Short(ds);
        return false;
      }
      i := i + 1;
    }
    var offset := 0;
    i := 0;
    while i < indexes.Length
      invariant 0 <= i <= indexes.Length && (forall j :: i <= j < indexes.Length ==> indexes[j] == ds[j])
      invariant Indexes(ds, i) == Some(indexes[..i]) && offset == OffsetAfter(indexes[..i])
    {
      if indexes[i] + offset > MAX_INDEX {
        NoneStays(ds, i + 1, |ds|);
        return false;
      }
      ghost var before := indexes[..i];
      indexes[i] := indexes[i] + offset;
      offset := (indexes[i] + 1) % 0x1_0000;
      assert indexes[..i + 1] == before + [indexes[i]];
      i := i + 1;
    }
    assert indexes[..i] == indexes[..];
    return true;
  }

  lemma {:induction false} NoneStays(ds: seq<nat>, m: nat, n: nat)
    requires m <= n <= |ds| && Indexes(ds, m).None?
    ensures Indexes(ds, n).None?
    decreases n
  {
    if m < n { NoneStays(ds, m, n - 1); }
  }

  /** Writes the differences of a list of indexes. */
  method WriteIndexes(indexes: seq<nat>) returns (ds: seq<nat>)
    ensures ds == Differences(indexes)
  {
    ds := [];
    var i := 0;
    while i < |indexes|
      invariant 0 <= i <= |indexes| && ds == Differences(indexes)[..i]
    {
      ds := ds + [(indexes[i] - if i == 0 then 0 else indexes[i - 1] + 1) % WIDE];
      i := i + 1;
    }
  }

  /** A short id survives its two words exactly when it has no more than 48 bits. */
  lemma ShortIdWords(id: nat)
    ensures id / WORD % 0x1_0000 * WORD + id % WORD == id <==> id < 0x1_0000_0000_0000
  {
    var high := id / WORD;
    assert id == high * WORD + id % WORD;
  }
}
