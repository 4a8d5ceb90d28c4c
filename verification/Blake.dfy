/** BLAKE: buffering of a message given in pieces, counters and padding, around an uninterpreted
    compression function (sections 2.1.3 and 2.2.3 of the SHA-3 proposal BLAKE). Remainders are written
    as repeated subtraction, which keeps the arithmetic of the proofs linear. */
module Blake {
  import opened ArithMath

  type Byte = x: nat | x < 256

  /** The chain value. */
  datatype Chain = Chain(h0: nat, h1: nat, h2: nat, h3: nat, h4: nat, h5: nat, h6: nat, h7: nat)

  predicate Multiple(x: nat, b: nat) {
    x == 0 || (0 < b <= x && Multiple(x - b, b))
  }

  lemma {:induction false} MultipleMeans(x: nat, b: nat)
    requires b > 0
    ensures Multiple(x, b) <==> x % b == 0
  {
    if x >= b {
      MultipleMeans(x - b, b);
      ModPlus(x - b, b);
    } else {
      DivModUnique(x, b, 0, x);
    }
  }

  /** Between multiples there is room for one more. */
  lemma {:induction false} MultipleGap(x: nat, m: nat, b: nat)
    requires b > 0 && Multiple(x, b) && Multiple(m, b) && x < m
    ensures x + b <= m && (x == 0 || x >= b)
  {
    if x > 0 { MultipleGap(x - b, m - b, b); }
  }

  /** A counter of message bits in two words. */
  datatype Counter = Counter(lo: int, hi: int)

  /** A member of the family: the bytes of a block and of a word, the number of values of a word, and
      the compression function, which takes a block and the two words of the counter. */
  datatype Alg = Alg(block: nat, word: nat, modulus: nat, compress: (Chain, seq<Byte>, int, int) -> Chain)
  {
    function Bits(): nat { 8 * block }

    predicate Valid() {
      word > 0 && block == 16 * word && Bits() < modulus && Multiple(modulus, Bits())
    }
  }

  /** BLAKE-224 and BLAKE-256. */
  function Small(compress: (Chain, seq<Byte>, int, int) -> Chain): (a: Alg)
    ensures a.Valid()
  {
    MultipleMeans(0x1_0000_0000, 512);
    Alg(64, 4, 0x1_0000_0000, compress)
  }

  /** BLAKE-384 and BLAKE-512. */
  function Big(compress: (Chain, seq<Byte>, int, int) -> Chain): (a: Alg)
    ensures a.Valid()
  {
    MultipleMeans(0x1_0000_0000_0000_0000, 1024);
    Alg(128, 8, 0x1_0000_0000_0000_0000, compress)
  }

  /** One call of the compression function. */
  function Step(a: Alg, h: Chain, block: seq<Byte>, t: Counter): Chain {
    a.compress(h, block, t.lo, t.hi)
  }

  // ---------------------------------------------------------------------
  // Counters
  // ---------------------------------------------------------------------

  /** The sum of two words, without its carry. */
  function Sum(a: Alg, x: int, y: int): int {
    if x + y < a.modulus then x + y else x + y - a.modulus
  }

  /** The two words that hold a number of bits. */
  function Words(a: Alg, x: nat): Counter
    requires a.Valid()
  {
    if x < a.modulus then Counter(x, 0)
    else var t := Words(a, x - a.modulus); Counter(t.lo, Sum(a, t.hi, 1))
  }

  lemma {:induction false} WordsBound(a: Alg, x: nat)
    requires a.Valid()
    ensures 0 <= Words(a, x).lo < a.modulus && 0 <= Words(a, x).hi < a.modulus
  {
    if x >= a.modulus { WordsBound(a, x - a.modulus); }
  }

  lemma {:induction false} WordsMean(a: Alg, x: nat)
    requires a.Valid()
    ensures Words(a, x) == Counter(x % a.modulus, (x / a.modulus) % a.modulus)
  {
    var m := a.modulus;
    if x < m {
      DivModUnique(x, m, 0, x);
      DivModUnique(0, m, 0, 0);
    } else {
      WordsMean(a, x - m);
      var q, r := (x - m) / m, (x - m) % m;
      assert x - m == m * q + r;
      assert (q + 1) * m == m * q + m;
      DivModUnique(x, m, q + 1, r);
      ModShift(1, q, q % m, m);
      if q % m + 1 == m { DivModUnique(m, m, 1, 0); } else { DivModUnique(q % m + 1, m, 0, q % m + 1); }
    }
  }

  /** One more block: the low word is advanced and a carry is seen by its having become small. */
  function Next(a: Alg, t: Counter): Counter
    requires a.Valid()
  {
    var lo := Sum(a, t.lo, a.Bits());
    Counter(lo, if lo < a.Bits() then Sum(a, t.hi, 1) else t.hi)
  }

  lemma {:induction false} NextCounts(a: Alg, x: nat)
    requires a.Valid()
    ensures Next(a, Words(a, x)) == Words(a, x + a.Bits())
  {
    if x >= a.modulus {
      NextCounts(a, x - a.modulus);
      assert x + a.Bits() - a.modulus == (x - a.modulus) + a.Bits();
    } else if x + a.Bits() >= a.modulus {
      assert Words(a, x + a.Bits() - a.modulus) == Counter(x + a.Bits() - a.modulus, 0);
    }
  }

  /** The counter that the next step takes to zero. */
  function BeforeZero(a: Alg): Counter
    requires a.Valid()
  {
    Counter(a.modulus - a.Bits(), a.modulus - 1)
  }

  /** The counter set before the last block of the message, so that the step that follows it gives the
      length of the message, or zero when the block holds no message bits. */
  function Adjusted(a: Alg, t: Counter, bitLen: nat): Counter
    requires a.Valid() && bitLen < a.Bits()
  {
    if bitLen == 0 then BeforeZero(a)
    else if t.lo == 0 then Counter(a.modulus - a.Bits() + bitLen, Sum(a, t.hi, a.modulus - 1))
    else Counter(Sum(a, t.lo, a.modulus - (a.Bits() - bitLen)), t.hi)
  }

  /** The low word stays clear of a carry until the block is full. */
  lemma {:induction false} WordsPlus(a: Alg, x: nat, bits: nat)
    requires a.Valid() && Multiple(x, a.Bits()) && bits < a.Bits()
    ensures Words(a, x + bits) == Counter(Words(a, x).lo + bits, Words(a, x).hi)
    ensures Words(a, x).lo + bits < a.modulus && (Words(a, x).lo == 0 || Words(a, x).lo >= a.Bits())
  {
    if x < a.modulus {
      MultipleGap(x, a.modulus, a.Bits());
    } else {
      MultipleLess(x, a.modulus, a.Bits());
      WordsPlus(a, x - a.modulus, bits);
      assert x + bits - a.modulus == (x - a.modulus) + bits;
    }
  }

  lemma {:induction false} MultipleLess(x: nat, m: nat, b: nat)
    requires b > 0 && Multiple(x, b) && Multiple(m, b) && m <= x
    ensures Multiple(x - m, b)
  {
    if m > 0 {
      MultipleLess(x - b, m - b, b);
      assert x - m == (x - b) - (m - b);
    }
  }

  /** The step that follows the adjustment counts every message bit of the last block. */
  lemma AdjustedCounts(a: Alg, x: nat, bitLen: nat)
    requires a.Valid() && Multiple(x, a.Bits()) && bitLen < a.Bits()
    ensures Next(a, Adjusted(a, Words(a, x), bitLen)) == Words(a, if bitLen == 0 then 0 else x + bitLen)
  {
    WordsPlus(a, x, bitLen);
    WordsBound(a, x);
  }

  // ---------------------------------------------------------------------
  // Absorbing a message
  // ---------------------------------------------------------------------

  /** The chain value, the counter, and the bytes that do not fill a block yet. */
  datatype State = State(h: Chain, t: Counter, pending: seq<Byte>)

  function Initial(h: Chain): State { State(h, Counter(0, 0), []) }

  function Absorb(a: Alg, s: State, data: seq<Byte>): (r: State)
    requires a.Valid()
    ensures |r.pending| < a.block
    decreases |s.pending| + |data|
  {
    var all := s.pending + data;
    if |all| < a.block then s.(pending := all)
    else
      var t := Next(a, s.t);
      Absorb(a, State(Step(a, s.h, all[..a.block], t), t, []), all[a.block..])
  }

  /** It makes no difference in how many pieces data is given. */
  lemma {:induction false} AbsorbSplit(a: Alg, s: State, x: seq<Byte>, y: seq<Byte>)
    requires a.Valid()
    ensures Absorb(a, Absorb(a, s, x), y) == Absorb(a, s, x + y)
    decreases |s.pending| + |x|
  {
    var all := s.pending + x;
    assert s.pending + (x + y) == all + y;
    if |all| < a.block {
    } else {
      var t := Next(a, s.t);
      var next := State(Step(a, s.h, all[..a.block], t), t, []);
      AbsorbSplit(a, next, all[a.block..], y);
      assert (all + y)[..a.block] == all[..a.block] && (all + y)[a.block..] == all[a.block..] + y;
      assert next.pending + all[a.block..] == all[a.block..];
    }
  }

  /** Data that completes a block. */
  lemma AbsorbBlock(a: Alg, s: State, x: seq<Byte>)
    requires a.Valid() && |s.pending| + |x| == a.block
    ensures Absorb(a, s, x) == State(Step(a, s.h, s.pending + x, Next(a, s.t)), Next(a, s.t), [])
  {
    var all := s.pending + x;
    assert all[..a.block] == all && all[a.block..] == [];
  }

  /** All pieces of a message, one after the other. */
  function AbsorbAll(a: Alg, s: State, pieces: seq<seq<Byte>>): State
    requires a.Valid()
  {
    if pieces == [] then s else Absorb(a, AbsorbAll(a, s, pieces[..|pieces| - 1]), pieces[|pieces| - 1])
  }

  function Joined(pieces: seq<seq<Byte>>): seq<Byte> {
    if pieces == [] then [] else Joined(pieces[..|pieces| - 1]) + pieces[|pieces| - 1]
  }

  lemma {:induction false} PiecesJoined(a: Alg, s: State, pieces: seq<seq<Byte>>)
    requires a.Valid() && |s.pending| < a.block
    ensures AbsorbAll(a, s, pieces) == Absorb(a, s, Joined(pieces))
  {
    if pieces == [] {
      assert s.pending + [] == s.pending;
    } else {
      PiecesJoined(a, s, pieces[..|pieces| - 1]);
      AbsorbSplit(a, s, Joined(pieces[..|pieces| - 1]), pieces[|pieces| - 1]);
    }
  }

  // ---------------------------------------------------------------------
  // The reference: blocks and their counters
  // ---------------------------------------------------------------------

  /** The message bits up to the end of the block that starts after `done` bits of a message of `length`
      bits; zero for a block without message bits. */
  function CounterOf(a: Alg, done: nat, length: nat): nat {
    if done >= length then 0
    else if done + a.Bits() <= length then done + a.Bits() else length
  }

  /** The chain value of the blocks of `data`, which starts after `done` bits of a message of `length` bits. */
  function Chained(a: Alg, h: Chain, data: seq<Byte>, done: nat, length: nat): Chain
    requires a.Valid()
    decreases |data|
  {
    if |data| < a.block then h
    else
      Chained(a, Step(a, h, data[..a.block], Words(a, CounterOf(a, done, length))), data[a.block..], done + a.Bits(), length)
  }

  /** A full block of the message is the same step for both. */
  lemma FullBlock(a: Alg, h: Chain, done: nat, bytes: seq<Byte>, rest: seq<Byte>, length: nat, h1: Chain)
    requires a.Valid() && |bytes| >= a.block && done + a.Bits() <= length
    requires h1 == Step(a, h, bytes[..a.block], Words(a, done + a.Bits()))
    ensures Absorb(a, State(h, Words(a, done), []), bytes) ==
            Absorb(a, State(h1, Words(a, done + a.Bits()), []), bytes[a.block..])
    ensures Chained(a, h, bytes + rest, done, length) == Chained(a, h1, bytes[a.block..] + rest, done + a.Bits(), length)
  {
    NextCounts(a, done);
    assert [] + bytes == bytes;
    assert (bytes + rest)[..a.block] == bytes[..a.block] && (bytes + rest)[a.block..] == bytes[a.block..] + rest;
  }
}
