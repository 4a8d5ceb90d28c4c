/** BLAKE: the padding of a message, and what closing the hash does to reach it. */
module BlakeClose {
  import opened Blake

  // ---------------------------------------------------------------------
  // The padded message
  // ---------------------------------------------------------------------

  /** The last byte of a message with `n` bits in it: those bits, a one, zeros. */
  function Marker(ub: Byte, n: nat): Byte
    requires n < 8
  {
    match n
    case 0 => 128
    case 1 => ub - ub % 128 + 64
    case 2 => ub - ub % 64 + 32
    case 3 => ub - ub % 32 + 16
    case 4 => ub - ub % 16 + 8
    case 5 => ub - ub % 8 + 4
    case 6 => ub - ub % 4 + 2
    case _ => ub - ub % 2 + 1
  }

  lemma MarkerMeans(ub: Byte, n: nat, high: nat)
    requires n < 8 && high == [256, 128, 64, 32, 16, 8, 4, 2][n]
    ensures Marker(ub, n) / high == ub / high && Marker(ub, n) % high == high / 2
  {
  }

  function Zeros(n: nat): (s: seq<Byte>)
    ensures |s| == n
  {
    if n == 0 then [] else [0] + Zeros(n - 1)
  }

  lemma {:induction false} ZerosSplit(m: nat, n: nat)
    ensures Zeros(m + n) == Zeros(m) + Zeros(n)
  {
    if m > 0 { ZerosSplit(m - 1, n); }
  }

  /** A word in `n` bytes, most significant first. */
  function BigEndian(x: int, n: nat): (s: seq<Byte>)
    ensures |s| == n
    decreases n
  {
    if n == 0 then [] else BigEndian(x / 256, n - 1) + [x % 256]
  }

  /** Sets the lowest bit of a byte. */
  function Flagged(x: Byte, full: bool): Byte {
    if full && x % 2 == 0 then x + 1 else x
  }

  /** The last byte of the message, with the one that ends it, and zeros, with the flag in the last of them. */
  function Tail(last: Byte, z: nat, full: bool): (s: seq<Byte>)
    ensures |s| == z + 1
  {
    if z == 0 then [Flagged(last, full)] else [last] + Zeros(z - 1) + [Flagged(0, full)]
  }

  /** With `z` zero bytes after the marker of a message of `m` bytes and `n` bits, the length ends a
      block, and the bit before it is not the marker's. */
  predicate Fits(a: Alg, m: nat, n: nat, z: nat)
    requires a.Valid()
  {
    Multiple(m + 1 + z + 2 * a.word, a.block) && (z > 0 || n < 7)
  }

  /** As few zero bytes as fit. */
  ghost predicate Least(a: Alg, m: nat, n: nat, z: nat)
    requires a.Valid()
  {
    Fits(a, m, n, z) && forall y: nat :: y < z ==> !Fits(a, m, n, y)
  }

  /** The two words of the length of the message. */
  function Length(a: Alg, t: Counter): (s: seq<Byte>)
    ensures |s| == 2 * a.word
  {
    BigEndian(t.hi, a.word) + BigEndian(t.lo, a.word)
  }

  /** The padded message: its bits, a one, zeros, the flag, and its length in bits. */
  function Padded(a: Alg, bytes: seq<Byte>, last: Byte, n: nat, full: bool, z: nat): (s: seq<Byte>)
    requires a.Valid() && n < 8
    ensures |s| == |bytes| + 1 + z + 2 * a.word
  {
    bytes + (Tail(last, z, full) + Length(a, Words(a, 8 * |bytes| + n)))
  }

  lemma PaddedWhole(a: Alg, bytes: seq<Byte>, last: Byte, n: nat, full: bool, z: nat)
    requires a.Valid() && n < 8 && Fits(a, |bytes|, n, z)
    ensures |Padded(a, bytes, last, n, full, z)| % a.block == 0
  {
    MultipleMeans(|Padded(a, bytes, last, n, full, z)|, a.block);
  }

  /** The chain value of a message, block by block over its padded form. */
  function Reference(a: Alg, h: Chain, bytes: seq<Byte>, last: Byte, n: nat, full: bool, z: nat): Chain
    requires a.Valid() && n < 8
  {
    Chained(a, h, Padded(a, bytes, last, n, full, z), 0, 8 * |bytes| + n)
  }

  // ---------------------------------------------------------------------
  // Closing
  // ---------------------------------------------------------------------

  /** Whether the marker, the flag and the length fit in the block that is being filled. */
  predicate OneBlockLeft(a: Alg, ptr: nat, n: nat) {
    ptr + 1 + 2 * a.word < a.block || (ptr + 1 + 2 * a.word == a.block && n < 7)
  }

  /** The last one or two blocks: what is left of the message, the padding and the length, each block with
      its counter. */
  function LastBlocks(a: Alg, h: Chain, pending: seq<Byte>, last: Byte, n: nat, full: bool, length: seq<Byte>,
                      t1: Counter, t2: Counter): Chain
    requires a.Valid() && |pending| < a.block
  {
    if OneBlockLeft(a, |pending|, n) then
      Step(a, h, pending + (Tail(last, a.block - 2 * a.word - 1 - |pending|, full) + length), t1)
    else
      Step(a, Step(a, h, pending + ([last] + Zeros(a.block - 1 - |pending|)), t1),
           Zeros(a.block - 2 * a.word - 1) + [Flagged(0, full)] + length, t2)
  }

  /** The chain value of a message of which `n` bits stand in its last byte: the counter is adjusted for the
      block that ends the message, and set to wrap to zero for another block. */
  function Close(a: Alg, s: State, last: Byte, n: nat, full: bool): Chain
    requires a.Valid() && |s.pending| < a.block && n < 8
  {
    var bitLen := 8 * |s.pending| + n;
    LastBlocks(a, s.h, s.pending, last, n, full, Length(a, Counter(s.t.lo + bitLen, s.t.hi)),
               Next(a, Adjusted(a, s.t, bitLen)), Next(a, BeforeZero(a)))
  }

  /** The zero bytes that closing writes. */
  function ZeroBytes(a: Alg, ptr: nat, n: nat): nat
    requires a.Valid() && ptr < a.block
  {
    if OneBlockLeft(a, ptr, n) then a.block - 2 * a.word - 1 - ptr else (a.block - 1 - ptr) + (a.block - 2 * a.word)
  }

  /** They are as few as fit. */
  lemma LeastZeros(a: Alg, ptr: nat, n: nat, z: nat)
    requires a.Valid() && ptr < a.block && n < 8
    ensures Least(a, ptr, n, z) <==> z == ZeroBytes(a, ptr, n)
  {
    var w := ZeroBytes(a, ptr, n);
    forall y: nat | y <= w ensures Fits(a, ptr, n, y) <==> y == w {
      Few(ptr + 1 + y + 2 * a.word, a.block);
    }
    assert Least(a, ptr, n, w);
  }

  /** The multiples up to the second. */
  lemma Few(x: nat, b: nat)
    requires 0 < x <= 2 * b
    ensures Multiple(x, b) <==> x == b || x == 2 * b
  {
    if x >= b {
      assert Multiple(x, b) <==> Multiple(x - b, b);
      assert x - b < b && x != b ==> !Multiple(x - b, b);
    }
  }

  /** Full blocks make no difference. */
  lemma LeastShift(a: Alg, m: nat, less: nat, n: nat, z: nat)
    requires a.Valid() && m == less + a.block
    ensures Least(a, m, n, z) <==> Least(a, less, n, z)
  {
    forall y: nat ensures Fits(a, m, n, y) <==> Fits(a, less, n, y) {
      assert m + 1 + y + 2 * a.word - a.block == less + 1 + y + 2 * a.word;
    }
  }

  /** The zero bytes that closing writes after a message are as few as fit it. */
  lemma {:induction false} LeastRest(a: Alg, s: State, bytes: seq<Byte>, n: nat, z: nat)
    requires a.Valid() && s.pending == [] && n < 8 && Least(a, |bytes|, n, z)
    ensures z == ZeroBytes(a, |Absorb(a, s, bytes).pending|, n)
    decreases |bytes|
  {
    assert [] + bytes == bytes;
    if |bytes| < a.block {
      LeastZeros(a, |bytes|, n, z);
    } else {
      var t := Next(a, s.t);
      LeastShift(a, |bytes|, |bytes| - a.block, n, z);
      LeastRest(a, State(Step(a, s.h, bytes[..a.block], t), t, []), bytes[a.block..], n, z);
    }
  }

  // ---------------------------------------------------------------------
  // Closing gives the hash of the padded message
  // ---------------------------------------------------------------------

  lemma TailSplit(last: Byte, y: nat, z: nat, full: bool)
    requires z > 0
    ensures Tail(last, y + z, full) == ([last] + Zeros(y)) + (Zeros(z - 1) + [Flagged(0, full)])
  {
    ZerosSplit(y, z - 1);
    assert y + z - 1 == y + (z - 1);
  }

  lemma TwoBlocks(pending: seq<Byte>, last: Byte, y: nat, z: nat, full: bool, length: seq<Byte>)
    requires z > 0
    ensures pending + (Tail(last, y + z, full) + length) == (pending + ([last] + Zeros(y))) + (Zeros(z - 1) + [Flagged(0, full)] + length)
  {
    TailSplit(last, y, z, full);
  }

  /** One block ends the data. */
  lemma InOne(a: Alg, h: Chain, done: nat, length: nat, data: seq<Byte>, t1: Counter)
    requires a.Valid() && |data| == a.block && t1 == Words(a, CounterOf(a, done, length))
    ensures Chained(a, h, data, done, length) == Step(a, h, data, t1)
  {
    assert data[..a.block] == data && data[a.block..] == [];
  }

  /** Two blocks end the data. */
  lemma InTwo(a: Alg, h: Chain, done: nat, length: nat, first: seq<Byte>, second: seq<Byte>, t1: Counter, t2: Counter)
    requires a.Valid() && |first| == |second| == a.block && t1 == Words(a, CounterOf(a, done, length))
    requires t2 == Words(a, CounterOf(a, done + a.Bits(), length))
    ensures Chained(a, h, first + second, done, length) == Step(a, Step(a, h, first, t1), second, t2)
  {
    assert (first + second)[..a.block] == first && (first + second)[a.block..] == second;
    InOne(a, Step(a, h, first, t1), done + a.Bits(), length, second, t2);
  }

  /** The last blocks are those of the padded message. */
  lemma LastBlocksChained(a: Alg, h: Chain, done: nat, pending: seq<Byte>, last: Byte, n: nat, full: bool,
                          bytes: seq<Byte>, length: nat, t1: Counter, t2: Counter, data: seq<Byte>)
    requires a.Valid() && |pending| < a.block && n < 8 && |bytes| == 2 * a.word
    requires t1 == Words(a, CounterOf(a, done, length)) && t2 == Words(a, CounterOf(a, done + a.Bits(), length))
    requires data == pending + (Tail(last, ZeroBytes(a, |pending|, n), full) + bytes)
    ensures LastBlocks(a, h, pending, last, n, full, bytes, t1, t2) == Chained(a, h, data, done, length)
  {
    if OneBlockLeft(a, |pending|, n) {
      InOne(a, h, done, length, data, t1);
    } else {
      var y, z := a.block - 1 - |pending|, a.block - 2 * a.word;
      TwoBlocks(pending, last, y, z, full, bytes);
      InTwo(a, h, done, length, pending + ([last] + Zeros(y)), Zeros(z - 1) + [Flagged(0, full)] + bytes, t1, t2);
    }
  }

  /** Closing hashes the last blocks with the right length and counters. */
  lemma CloseCounts(a: Alg, done: nat, s: State, last: Byte, n: nat, full: bool, length: nat)
    requires a.Valid() && Multiple(done, a.Bits()) && n < 8 && |s.pending| < a.block && s.t == Words(a, done)
    requires length == done + (8 * |s.pending| + n)
    ensures Close(a, s, last, n, full) ==
            LastBlocks(a, s.h, s.pending, last, n, full, Length(a, Words(a, length)),
                       Words(a, CounterOf(a, done, length)), Words(a, CounterOf(a, done + a.Bits(), length)))
  {
    var bitLen := 8 * |s.pending| + n;
    WordsPlus(a, done, bitLen);
    AdjustedCounts(a, done, bitLen);
    AdjustedCounts(a, 0, 0);
  }

  /** Absorbing counts the full blocks of the message, and leaves the rest. */
  lemma {:induction false} FullCounted(a: Alg, h: Chain, done: nat, bytes: seq<Byte>, s: State)
    requires a.Valid() && Multiple(done, a.Bits()) && s == Absorb(a, State(h, Words(a, done), []), bytes)
    ensures |s.pending| <= |bytes|
    ensures var total := done + 8 * (|bytes| - |s.pending|); Multiple(total, a.Bits()) && s.t == Words(a, total)
    decreases |bytes|
  {
    assert [] + bytes == bytes;
    if |bytes| >= a.block {
      NextCounts(a, done);
      FullCounted(a, Step(a, h, bytes[..a.block], Words(a, done + a.Bits())), done + a.Bits(), bytes[a.block..], s);
    }
  }

  /** It takes the full blocks off the chain. */
  lemma {:induction false} FullBlocks(a: Alg, h: Chain, done: nat, bytes: seq<Byte>, rest: seq<Byte>, length: nat,
                                      s: State, total: nat, c: Chain)
    requires a.Valid() && done + 8 * |bytes| <= length && s == Absorb(a, State(h, Words(a, done), []), bytes)
    requires total == done + 8 * (|bytes| - |s.pending|) && c == Chained(a, h, bytes + rest, done, length)
    ensures c == Chained(a, s.h, s.pending + rest, total, length)
    decreases |bytes|
  {
    if |bytes| < a.block {
      assert [] + bytes == bytes;
    } else {
      var h1 := Step(a, h, bytes[..a.block], Words(a, done + a.Bits()));
      FullBlock(a, h, done, bytes, rest, length, h1);
      FullBlocks(a, h1, done + a.Bits(), bytes[a.block..], rest, length, s, total, c);
    }
  }

  lemma CloseFull(a: Alg, h: Chain, start: nat, bytes: seq<Byte>, last: Byte, n: nat, full: bool, length: nat,
                  words: seq<Byte>, tail: seq<Byte>, s: State)
    requires a.Valid() && n < 8 && start == 0 && length == 8 * |bytes| + n && words == Length(a, Words(a, length))
    requires s == Absorb(a, State(h, Words(a, start), []), bytes)
    requires tail == Tail(last, ZeroBytes(a, |s.pending|, n), full) + words
    ensures Close(a, s, last, n, full) == Chained(a, h, bytes + tail, start, length)
  {
    FullCounted(a, h, start, bytes, s);
    var done := 8 * (|bytes| - |s.pending|);
    FullBlocks(a, h, start, bytes, tail, length, s, done, Chained(a, h, bytes + tail, start, length));
    CloseCounts(a, done, s, last, n, full, length);
    LastBlocksChained(a, s.h, done, s.pending, last, n, full, words, length, Words(a, CounterOf(a, done, length)),
                      Words(a, CounterOf(a, done + a.Bits(), length)), s.pending + tail);
  }

  lemma CloseZeros(a: Alg, h: Chain, start: nat, bytes: seq<Byte>, last: Byte, n: nat, full: bool, z: nat, s: State,
                   c: Chain)
    requires a.Valid() && n < 8 && start == 0 && s == Absorb(a, State(h, Words(a, start), []), bytes)
    requires z == ZeroBytes(a, |s.pending|, n) && c == Reference(a, h, bytes, last, n, full, z)
    ensures Close(a, s, last, n, full) == c
  {
    var words := Length(a, Words(a, 8 * |bytes| + n));
    CloseFull(a, h, start, bytes, last, n, full, 8 * |bytes| + n, words, Tail(last, z, full) + words, s);
  }

  /** Whatever the message, absorbing it and closing chains the blocks of its padded form, each with its
      own counter. */
  lemma CloseIsReference(a: Alg, h: Chain, bytes: seq<Byte>, last: Byte, n: nat, full: bool, z: nat)
    requires a.Valid() && n < 8 && Least(a, |bytes|, n, z)
    ensures Close(a, Absorb(a, Initial(h), bytes), last, n, full) == Reference(a, h, bytes, last, n, full, z)
  {
    LeastRest(a, Initial(h), bytes, n, z);
    CloseZeros(a, h, 0, bytes, last, n, full, z, Absorb(a, Initial(h), bytes), Reference(a, h, bytes, last, n, full, z));
  }

  /** Every message can be padded. */
  lemma {:induction false} LeastExists(a: Alg, m: nat, n: nat) returns (z: nat)
    requires a.Valid() && n < 8
    ensures Least(a, m, n, z)
  {
    if m < a.block {
      z := ZeroBytes(a, m, n);
      LeastZeros(a, m, n, z);
    } else {
      z := LeastExists(a, m - a.block, n);
      LeastShift(a, m, m - a.block, n, z);
    }
  }

  /** The hash of any message, however it was cut into pieces and with any bits at its end, is that of its padded
      form; `z` is the number of zero bytes that the message calls for. */
  lemma HashOfPieces(a: Alg, h: Chain, pieces: seq<seq<Byte>>, ub: Byte, n: nat, full: bool) returns (z: nat)
    requires a.Valid() && n < 8
    ensures Least(a, |Joined(pieces)|, n, z) && |AbsorbAll(a, Initial(h), pieces).pending| < a.block
    ensures Close(a, AbsorbAll(a, Initial(h), pieces), Marker(ub, n), n, full)
            == Reference(a, h, Joined(pieces), Marker(ub, n), n, full, z)
  {
    z := LeastExists(a, |Joined(pieces)|, n);
    PiecesJoined(a, Initial(h), pieces);
    CloseIsReference(a, h, Joined(pieces), Marker(ub, n), n, full, z);
  }
}
