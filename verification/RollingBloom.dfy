/** The rolling bloom filter: two bit planes hold, for each position, in which of the last three
    generations it was last hit. A 64-bit word is modelled by its bits, least significant first. */
module RollingBloom {
  import opened ArithMath

  type Key = seq<bv8>

  // ---------------------------------------------------------------------
  // Words
  // ---------------------------------------------------------------------

  type Word = w: seq<bool> | |w| == 64 witness seq(64, _ => false)

  function And(x: Word, y: Word): Word { seq(64, i requires 0 <= i < 64 => x[i] && y[i]) }

  function Or(x: Word, y: Word): Word { seq(64, i requires 0 <= i < 64 => x[i] || y[i]) }

  function Xor(x: Word, y: Word): Word { seq(64, i requires 0 <= i < 64 => x[i] != y[i]) }

  function Not(x: Word): Word { seq(64, i requires 0 <= i < 64 => !x[i]) }

  /** A zero or one, shifted left by `b`. */
  function Shifted(v: bool, b: nat): Word { seq(64, i => i == b && v) }

  /** A zero or one, negated: all bits are the same. */
  function Negated(v: bool): Word { seq(64, _ => v) }

  const ZERO: Word := seq(64, _ => false)

  /** The number that the two planes hold at one bit: 0, or the generation of the last hit. */
  function Code(p1: Word, p2: Word, b: nat): int
    requires b < 64
  {
    (if p1[b] then 1 else 0) + (if p2[b] then 2 else 0)
  }

  /** The two bits of a generation number. */
  predicate Low(g: int) { g % 2 == 1 }

  predicate High(g: int) { g / 2 % 2 == 1 }

  // ---------------------------------------------------------------------
  // Positions
  // ---------------------------------------------------------------------

  datatype Place = Place(word: nat, bit: nat)

  /** The hash functions of a filter with `words` words in each plane. */
  datatype Hashing = Hashing(hash: (nat, nat, Key) -> nat, funcs: nat, tweak: nat, words: nat)

  /** Position number `n` of a key. */
  function KeyPlace(h: Hashing, key: Key, n: nat): (pl: Place)
    requires h.words > 0
    ensures pl.word < h.words && pl.bit < 64
  {
    var x := h.hash(n, h.tweak, key);
    var pos := x / 64 % (2 * h.words);
    assert pos < 2 * h.words;
    Place(pos / 2, x % 64)
  }

  /** Whether one of the first `n` positions of a key is `pl`. */
  ghost predicate HitBy(h: Hashing, key: Key, n: int, pl: Place)
    requires h.words > 0
  {
    exists k :: 0 <= k < n && KeyPlace(h, key, k) == pl
  }

  predicate InRange(words: nat, pl: Place) {
    pl.word < words && pl.bit < 64
  }

  function CodeAt(data: seq<Word>, pl: Place): int
    requires 2 * pl.word + 1 < |data| && pl.bit < 64
  {
    Code(data[2 * pl.word], data[2 * pl.word + 1], pl.bit)
  }

  // ---------------------------------------------------------------------
  // What the planes mean
  // ---------------------------------------------------------------------

  /** The last of the inserted keys that hits a position, or -1. */
  ghost function LastHit(h: Hashing, keys: seq<Key>, pl: Place): (i: int)
    requires h.words > 0
    ensures -1 <= i < |keys|
    ensures i >= 0 ==> HitBy(h, keys[i], h.funcs, pl)
    ensures forall j :: i < j < |keys| ==> !HitBy(h, keys[j], h.funcs, pl)
  {
    if keys == [] then -1
    else if HitBy(h, keys[|keys| - 1], h.funcs, pl) then |keys| - 1
    else LastHit(h, keys[..|keys| - 1], pl)
  }

  /** The generation that insert number `i` belongs to. */
  function Generation(i: nat, size: nat): nat
    requires size > 0
  {
    i / size
  }

  /** The generation after `n` inserts. */
  function Now(n: nat, size: nat): nat
    requires size > 0
  {
    if n == 0 then 0 else Generation(n - 1, size)
  }

  /** What the planes hold for a position in generation `now`, if insert `i` was the last to hit it. */
  function Held(i: int, size: nat, now: int): int
    requires size > 0
  {
    if i < 0 || Generation(i, size) < now - 2 then 0 else Generation(i, size) % 3 + 1
  }

  /** Wiping the number of the new generation forgets the hits of the generation that leaves the window. */
  lemma HeldNext(i: int, size: nat, now: nat)
    requires size > 0 && (i >= 0 ==> Generation(i, size) <= now)
    ensures Held(i, size, now + 1) == if Held(i, size, now) == (now + 1) % 3 + 1 then 0 else Held(i, size, now)
  {
    if i >= 0 && Generation(i, size) >= now - 2 {
      var g := Generation(i, size);
      assert g == now - 2 || g == now - 1 || g == now;
    }
  }

  lemma GenerationIs(i: nat, size: nat, g: nat)
    requires size > 0 && g * size <= i < g * size + size
    ensures Generation(i, size) == g
  {
    DivModUnique(i, size, g, i - g * size);
  }

  lemma GenerationFull(n: nat, size: nat, g: nat)
    requires size > 0 && n == g * size + size
    ensures Generation(n, size) == g + 1 && n == (g + 1) * size
  {
    assert (g + 1) * size == g * size + size;
    GenerationIs(n, size, g + 1);
  }

  lemma GenerationMono(i: nat, j: nat, size: nat)
    requires size > 0 && i <= j
    ensures Generation(i, size) <= Generation(j, size)
  {
    var a, b := i / size, j / size;
    assert i == size * a + i % size && j == size * b + j % size;
    if b < a { MulMono(b + 1, a, size); }
  }

  /** The last `2 * size` inserts are in the current generation or in the two before. */
  lemma RecentInWindow(i: nat, n: nat, size: nat)
    requires size > 0 && i < n <= i + 2 * size
    ensures Generation(i, size) >= Now(n, size) - 2
  {
    GenerationMono(n - 1, i + 2 * size, size);
    var g := i / size;
    assert i == size * g + i % size;
    assert (g + 2) * size == size * g + 2 * size;
    GenerationIs(i + 2 * size, size, g + 2);
  }

  /** Whether a position was hit in the current generation or in the two before. */
  ghost predicate HitRecently(h: Hashing, keys: seq<Key>, size: nat, pl: Place)
    requires h.words > 0 && size > 0
  {
    exists i :: 0 <= i < |keys| && Generation(i, size) >= Now(|keys|, size) - 2 && HitBy(h, keys[i], h.funcs, pl)
  }

  /** The planes hold a position exactly when it was hit recently. */
  lemma HeldIsRecent(h: Hashing, keys: seq<Key>, size: nat, pl: Place)
    requires h.words > 0 && size > 0
    ensures Held(LastHit(h, keys, pl), size, Now(|keys|, size)) != 0 <==> HitRecently(h, keys, size, pl)
  {
    var i := LastHit(h, keys, pl);
    if HitRecently(h, keys, size, pl) {
      var j :| 0 <= j < |keys| && Generation(j, size) >= Now(|keys|, size) - 2 && HitBy(h, keys[j], h.funcs, pl);
      assert j <= i;
      GenerationMono(j, i, size);
    }
  }

  /** The planes refine the map from positions to the insert that hit them last. */
  ghost predicate Refines(data: seq<Word>, h: Hashing, keys: seq<Key>, size: nat, now: int)
    requires h.words > 0 && size > 0 && |data| == 2 * h.words
  {
    forall pl: Place :: InRange(h.words, pl) ==> CodeAt(data, pl) == Held(LastHit(h, keys, pl), size, now)
  }

  // ---------------------------------------------------------------------
  // The planes
  // ---------------------------------------------------------------------

  /** Writes generation `g` at one position. */
  method WriteCode(data: array<Word>, pl: Place, g: int)
    requires 2 * pl.word + 1 < data.Length && pl.bit < 64 && 1 <= g <= 3
    modifies data
    ensures forall q: Place :: 2 * q.word + 1 < data.Length && q.bit < 64 ==>
      CodeAt(data[..], q) == if q == pl then g else old(CodeAt(data[..], q))
  {
    var i, b := 2 * pl.word, pl.bit;
    data[i] := Or(And(data[i], Not(Shifted(true, b))), Shifted(Low(g), b));
    data[i + 1] := Or(And(data[i + 1], Not(Shifted(true, b))), Shifted(High(g), b));
  }

  /** Generation `g` has been wiped from the positions below word `p`, and nothing else is changed. */
  ghost predicate Wiped(before: seq<Word>, after: seq<Word>, g: int, p: nat) {
    |after| == |before| && forall q: Place :: 2 * q.word + 1 < |before| && q.bit < 64 ==>
      CodeAt(after, q) == if 2 * q.word < p && CodeAt(before, q) == g then 0 else CodeAt(before, q)
  }

  ghost predicate WipedBits(p1: Word, p2: Word, q1: Word, q2: Word, g: int) {
    forall b: nat :: b < 64 ==> Code(q1, q2, b) == if Code(p1, p2, b) == g then 0 else Code(p1, p2, b)
  }

  /** Wipes generation `g` from the two words at `p`. */
  method WipeWords(data: array<Word>, g: int, p: nat)
    requires p + 1 < data.Length && p % 2 == 0 && 1 <= g <= 3
    modifies data
    ensures data[..] == old(data[..])[p := data[p]][p + 1 := data[p + 1]]
    ensures WipedBits(old(data[p]), old(data[p + 1]), data[p], data[p + 1], g)
  {
    var m1, m2 := Negated(Low(g)), Negated(High(g));
    var p1, p2 := data[p], data[p + 1];
    var mask := Or(Xor(p1, m1), Xor(p2, m2));
    data[p] := And(p1, mask);
    data[p + 1] := And(p2, mask);
  }

  /** Wipes generation `g` from all positions. */
  method Wipe(data: array<Word>, g: int)
    requires data.Length % 2 == 0 && 1 <= g <= 3
    modifies data
    ensures Wiped(old(data[..]), data[..], g, data.Length)
  {
    ghost var before := data[..];
    var p := 0;
    while p < data.Length
      invariant 0 <= p <= data.Length && p % 2 == 0 && Wiped(before, data[..], g, p)
    {
      ghost var was := data[..];
      WipeWords(data, g, p);
      WipedNext(before, was, data[..], g, p);
      p := p + 2;
    }
  }

  lemma WipedNext(before: seq<Word>, was: seq<Word>, now: seq<Word>, g: int, p: nat)
    requires Wiped(before, was, g, p) && p + 1 < |was| == |now| && p % 2 == 0
    requires now == was[p := now[p]][p + 1 := now[p + 1]] && WipedBits(was[p], was[p + 1], now[p], now[p + 1], g)
    ensures Wiped(before, now, g, p + 2)
  {
    forall q: Place | 2 * q.word + 1 < |before| && q.bit < 64
      ensures CodeAt(now, q) == if 2 * q.word < p + 2 && CodeAt(before, q) == g then 0 else CodeAt(before, q)
    {
      if 2 * q.word == p {
        assert CodeAt(was, q) == CodeAt(before, q);
      } else {
        assert CodeAt(now, q) == CodeAt(was, q);
      }
    }
  }

  /** Marks the positions of a key with generation `g`. */
  method Mark(data: array<Word>, h: Hashing, key: Key, g: int)
    requires h.words > 0 && data.Length == 2 * h.words && 1 <= g <= 3
    modifies data
    ensures forall q: Place :: InRange(h.words, q) ==>
      CodeAt(data[..], q) == if HitBy(h, key, h.funcs, q) then g else old(CodeAt(data[..], q))
  {
    var n := 0;
    while n < h.funcs
      invariant 0 <= n <= h.funcs
      invariant forall q: Place :: InRange(h.words, q) ==>
        CodeAt(data[..], q) == if HitBy(h, key, n, q) then g else old(CodeAt(data[..], q))
    {
      var pl := KeyPlace(h, key, n);
      WriteCode(data, pl, g);
      forall q: Place ensures HitBy(h, key, n + 1, q) <==> HitBy(h, key, n, q) || q == pl {
        HitNext(h, key, n, q);
      }
      n := n + 1;
    }
  }

  lemma HitNext(h: Hashing, key: Key, n: nat, q: Place)
    requires h.words > 0
    ensures HitBy(h, key, n + 1, q) <==> HitBy(h, key, n, q) || q == KeyPlace(h, key, n)
  {
  }

  /** Entering a new generation keeps the refinement. */
  lemma WipedRefines(data: seq<Word>, after: seq<Word>, h: Hashing, keys: seq<Key>, size: nat, now: nat, g: int,
                     n: nat)
    requires h.words > 0 && size > 0 && |data| == |after| == n == 2 * h.words && now == Now(|keys|, size)
    requires Refines(data, h, keys, size, now) && g == (now + 1) % 3 + 1 && Wiped(data, after, g, n)
    ensures Refines(after, h, keys, size, now + 1)
  {
    forall q: Place | InRange(h.words, q) ensures CodeAt(after, q) == Held(LastHit(h, keys, q), size, now + 1) {
      var i := LastHit(h, keys, q);
      if i >= 0 { GenerationMono(i, |keys| - 1, size); }
      HeldNext(i, size, now);
    }
  }

  /** Marking the positions of a key keeps the refinement. */
  lemma MarkedRefines(data: seq<Word>, after: seq<Word>, h: Hashing, keys: seq<Key>, key: Key, size: nat, now: nat)
    requires h.words > 0 && size > 0 && |data| == |after| == 2 * h.words && Generation(|keys|, size) == now
    requires Refines(data, h, keys, size, now)
    requires forall q: Place :: InRange(h.words, q) ==>
      CodeAt(after, q) == if HitBy(h, key, h.funcs, q) then now % 3 + 1 else CodeAt(data, q)
    ensures Refines(after, h, keys + [key], size, now)
  {
    forall q: Place | InRange(h.words, q) ensures CodeAt(after, q) == Held(LastHit(h, keys + [key], q), size, now) {
      assert (keys + [key])[..|keys|] == keys;
      assert LastHit(h, keys + [key], q) == if HitBy(h, key, h.funcs, q) then |keys| else LastHit(h, keys, q);
    }
  }

  /** The first `n` positions of a key were all hit recently. */
  ghost predicate AllRecent(h: Hashing, keys: seq<Key>, size: nat, key: Key, n: nat)
    requires h.words > 0 && size > 0
  {
    forall k :: 0 <= k < n ==> HitRecently(h, keys, size, KeyPlace(h, key, k))
  }

  lemma OneMissed(h: Hashing, keys: seq<Key>, size: nat, key: Key, k: nat, n: nat)
    requires h.words > 0 && size > 0 && k < n && !HitRecently(h, keys, size, KeyPlace(h, key, k))
    ensures !AllRecent(h, keys, size, key, n)
  {
  }

  // ---------------------------------------------------------------------
  // The filter
  // ---------------------------------------------------------------------

  class RollingBloomFilter {
    const hash: (nat, nat, Key) -> nat
    const nHashFuncs: nat
    const nEntriesPerGeneration: nat
    const words: nat
    const data: array<Word>
    var nEntriesThisGeneration: nat
    var nGeneration: int
    var nTweak: nat
    /** The keys inserted since the last reset. */
    ghost var keys: seq<Key>

    ghost function Hashes(): Hashing
      reads this
    {
      Hashing(hash, nHashFuncs, nTweak, words)
    }

    ghost predicate Valid()
      reads this, data
    {
      && words > 0 && data.Length == 2 * words && nEntriesPerGeneration > 0
      && var now := Now(|keys|, nEntriesPerGeneration);
      && nEntriesThisGeneration == |keys| - now * nEntriesPerGeneration <= nEntriesPerGeneration
      && (keys != [] ==> nEntriesThisGeneration > 0)
      && nGeneration == now % 3 + 1
      && Refines(data[..], Hashes(), keys, nEntriesPerGeneration, now)
    }

    /** A filter for the last `elements` keys. The numbers of hash functions and words come from the
        false positive rate. It can be used exactly when it is for at least one key and has at least one word. */
    constructor (elements: nat, hash: (nat, nat, Key) -> nat, funcs: nat, words: nat, tweak: nat)
      ensures Valid() <==> elements >= 1 && words >= 1
      ensures fresh(data) && keys == [] && nHashFuncs == funcs && elements <= 2 * nEntriesPerGeneration
    {
      this.hash := hash;
      nHashFuncs := funcs;
      nEntriesPerGeneration := (elements + 1) / 2;
      this.words := words;
      data := new Word[2 * words](_ => ZERO);
      nTweak, nEntriesThisGeneration, nGeneration := tweak, 0, 1;
      keys := [];
      new;
    }

    method Reset(tweak: nat)
      requires Valid()
      modifies this, data
      ensures Valid() && keys == []
    {
      nTweak, nEntriesThisGeneration, nGeneration := tweak, 0, 1;
      var i := 0;
      while i < data.Length
        invariant 0 <= i <= data.Length && forall j :: 0 <= j < i ==> data[j] == ZERO
        modifies data
      {
        data[i] := ZERO;
        i := i + 1;
      }
      keys := [];
    }

    /** Starts a new generation. */
    method NextGeneration(ghost now: nat)
      requires words > 0 && data.Length == 2 * words && nEntriesPerGeneration > 0 && nGeneration == now % 3 + 1
      requires now == Now(|keys|, nEntriesPerGeneration) && Refines(data[..], Hashes(), keys, nEntriesPerGeneration, now)
      modifies this`nEntriesThisGeneration, this`nGeneration, data
      ensures nEntriesThisGeneration == 0 && nGeneration == (now + 1) % 3 + 1
      ensures Refines(data[..], Hashes(), keys, nEntriesPerGeneration, now + 1)
    {
      nEntriesThisGeneration := 0;
      nGeneration := nGeneration + 1;
      if nGeneration == 4 {
        nGeneration := 1;
      }
      ghost var before := data[..];
      Wipe(data, nGeneration);
      WipedRefines(before, data[..], Hashes(), keys, nEntriesPerGeneration, now, nGeneration, data.Length);
    }

    /** Starts a new generation when the current one is full. */
    method Turn() returns (ghost now: nat)
      requires Valid()
      modifies this`nEntriesThisGeneration, this`nGeneration, data
      ensures now == Generation(|keys|, nEntriesPerGeneration) && nGeneration == now % 3 + 1
      ensures nEntriesThisGeneration == |keys| - now * nEntriesPerGeneration < nEntriesPerGeneration
      ensures Refines(data[..], Hashes(), keys, nEntriesPerGeneration, now)
    {
      now := Now(|keys|, nEntriesPerGeneration);
      if nEntriesThisGeneration == nEntriesPerGeneration {
        NextGeneration(now);
        GenerationFull(|keys|, nEntriesPerGeneration, now);
        now := now + 1;
      } else {
        GenerationIs(|keys|, nEntriesPerGeneration, now);
      }
    }

    method Insert(key: Key)
      requires Valid()
      modifies this, data
      ensures Valid() && keys == old(keys) + [key] && nTweak == old(nTweak)
    {
      ghost var now := Turn();
      ghost var before := data[..];
      nEntriesThisGeneration := nEntriesThisGeneration + 1;
      Mark(data, Hashing(hash, nHashFuncs, nTweak, words), key, nGeneration);
      MarkedRefines(before, data[..], Hashes(), keys, key, nEntriesPerGeneration, now);
      keys := keys + [key];
    }

    /** A key is reported exactly when all its positions were hit in the current generation or in the
        two before. */
    method Contains(key: Key) returns (found: bool)
      requires Valid()
      ensures found <==> AllRecent(Hashes(), keys, nEntriesPerGeneration, key, nHashFuncs)
    {
      ghost var h := Hashes();
      var n := 0;
      while n < nHashFuncs
        invariant 0 <= n <= nHashFuncs && AllRecent(h, keys, nEntriesPerGeneration, key, n)
      {
        var pl := KeyPlace(Hashing(hash, nHashFuncs, nTweak, words), key, n);
        HeldIsRecent(h, keys, nEntriesPerGeneration, pl);
        assert CodeAt(data[..], pl) == Held(LastHit(h, keys, pl), nEntriesPerGeneration, Now(|keys|, nEntriesPerGeneration));
        if !Or(data[2 * pl.word], data[2 * pl.word + 1])[pl.bit] {
          OneMissed(h, keys, nEntriesPerGeneration, key, n, nHashFuncs);
          return false;
        }
        n := n + 1;
      }
      return true;
    }
  }

  /** Every one of the last `elements` keys is reported. */
  lemma RecentReported(h: Hashing, keys: seq<Key>, size: nat, elements: nat, i: nat)
    requires h.words > 0 && size > 0 && elements <= 2 * size && i < |keys| <= i + elements
    ensures AllRecent(h, keys, size, keys[i], h.funcs)
  {
    RecentInWindow(i, |keys|, size);
    forall n | 0 <= n < h.funcs ensures HitRecently(h, keys, size, KeyPlace(h, keys[i], n)) {
      assert HitBy(h, keys[i], h.funcs, KeyPlace(h, keys[i], n));
    }
  }
}
