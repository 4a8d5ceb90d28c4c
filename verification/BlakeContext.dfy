/** The hashing context as an object: a buffer that is filled, and blocks that are compressed as it fills up. */
module BlakeContext {
  import opened ArithMath
  import opened Blake
  import opened BlakeClose

  // ---------------------------------------------------------------------
  // Bytes
  // ---------------------------------------------------------------------

  /** Copies bytes into a buffer. */
  method Store(buf: array<Byte>, at: nat, data: seq<Byte>)
    requires at + |data| <= buf.Length
    modifies buf
    ensures buf[..] == old(buf[..at]) + data + old(buf[at + |data|..])
  {
    var i := 0;
    while i < |data|
      invariant 0 <= i <= |data|
      invariant forall j :: 0 <= j < buf.Length ==> buf[j] == if at <= j < at + i then data[j - at] else old(buf[j])
    {
      buf[at + i] := data[i];
      i := i + 1;
    }
  }

  /** The byte that ends a message: the bits of `ub` below `z` are cleared, and `z` is set. */
  method MarkerByte(ub: Byte, n: nat) returns (b: Byte)
    requires n < 8
    ensures b == Marker(ub, n)
  {
    var z, i := 128, 0;
    while i < n
      invariant 0 <= i <= n && z == [128, 64, 32, 16, 8, 4, 2, 1][i]
    {
      z := z / 2;
      i := i + 1;
    }
    var high := ub - ub % z;
    SetBit(ub, z, high);
    MarkerIs(ub, n, z);
    b := if high / z % 2 == 0 then high + z else high;
  }

  /** Clearing the bits below `z` and setting `z`. */
  lemma SetBit(x: nat, z: nat, high: int)
    requires z > 0 && high == x - x % z
    ensures (if high / z % 2 == 0 then high + z else high) == x - x % (2 * z) + z
  {
    var q, r := x / (2 * z), x % (2 * z);
    assert x == 2 * z * q + r;
    assert 2 * z * q == 2 * q * z;
    if r >= z {
      assert (2 * q + 1) * z == 2 * q * z + z;
      DivModUnique(x, z, 2 * q + 1, r - z);
      DivModUnique(high, z, 2 * q + 1, 0);
    } else {
      DivModUnique(x, z, 2 * q, r);
      DivModUnique(high, z, 2 * q, 0);
    }
  }

  lemma MarkerIs(ub: Byte, n: nat, z: nat)
    requires n < 8 && z == [128, 64, 32, 16, 8, 4, 2, 1][n]
    ensures Marker(ub, n) == ub - ub % (2 * z) + z
  {
  }

  /** Writes the length of the message at the end of a block. */
  method StoreLength(u: array<Byte>, a: Alg, room: nat, tl: int, th: int)
    requires u.Length == room + 2 * a.word
    modifies u
    ensures u[..] == old(u[..room]) + Length(a, Counter(tl, th))
  {
    Store(u, room, BigEndian(th, a.word));
    Store(u, room + a.word, BigEndian(tl, a.word));
  }

  /** Zeros after the marker, and the flag. */
  method StoreTail(u: array<Byte>, ptr: nat, room: nat, full: bool, ghost last: Byte)
    requires ptr < room <= u.Length && u[ptr] == last
    modifies u
    ensures u[ptr..room] == Tail(last, room - 1 - ptr, full)
  {
    var z := room - 1 - ptr;
    Store(u, ptr + 1, Zeros(z));
    ghost var s := u[ptr..room];
    assert s == [last] + Zeros(z);
    TailFlagged(s, last, z, full);
    if full && u[room - 1] % 2 == 0 {
      u[room - 1] := u[room - 1] + 1;
    }
    assert u[ptr..room] == s[..z] + [Flagged(s[z], full)];
  }

  /** Zeros, the flag and the length after the marker in the block that is being filled. */
  method PadOne(u: array<Byte>, a: Alg, ptr: nat, full: bool, tl: int, th: int, ghost last: Byte)
    requires a.Valid() && u.Length == a.block && ptr + 1 + 2 * a.word <= a.block && u[ptr] == last
    modifies u
    ensures u[ptr..] == Tail(last, a.block - 2 * a.word - 1 - ptr, full) + Length(a, Counter(tl, th))
  {
    var room := a.block - 2 * a.word;
    StoreTail(u, ptr, room, full, last);
    ghost var s := u[..];
    StoreLength(u, a, room, tl, th);
    assert u[ptr..] == s[ptr..room] + Length(a, Counter(tl, th));
  }

  lemma TailFlagged(s: seq<Byte>, last: Byte, z: nat, full: bool)
    requires s == [last] + Zeros(z)
    ensures s[..z] + [Flagged(s[z], full)] == Tail(last, z, full)
  {
    if z > 0 {
      ZerosSplit(z - 1, 1);
      assert Zeros(1) == [0];
      assert s == [last] + Zeros(z - 1) + [0];
    }
  }

  /** Zeros, the flag and the length in a block of their own. */
  method PadTwo(u: array<Byte>, a: Alg, full: bool, tl: int, th: int)
    requires a.Valid() && u.Length == a.block
    modifies u
    ensures u[..] == Zeros(a.block - 2 * a.word - 1) + [Flagged(0, full)] + Length(a, Counter(tl, th))
  {
    var room := a.block - 2 * a.word;
    Store(u, 0, Zeros(room));
    ZerosSplit(room - 1, 1);
    assert u[..room] == Zeros(room - 1) + [0];
    if full {
      u[room - 1] := 1;
    }
    assert u[..room] == Zeros(room - 1) + [Flagged(0, full)];
    StoreLength(u, a, room, tl, th);
  }

  function Word(h: Chain, k: nat): nat {
    match k
    case 0 => h.h0
    case 1 => h.h1
    case 2 => h.h2
    case 3 => h.h3
    case 4 => h.h4
    case 5 => h.h5
    case 6 => h.h6
    case _ => h.h7
  }

  /** The first words of a chain value as bytes. */
  function Digest(a: Alg, h: Chain, words: nat): seq<Byte> {
    if words == 0 then [] else Digest(a, h, words - 1) + BigEndian(Word(h, words - 1), a.word)
  }

  // ---------------------------------------------------------------------
  // The context
  // ---------------------------------------------------------------------

  class Context {
    const a: Alg
    const iv: Chain
    const buf: array<Byte>
    var h: Chain
    var lo: int
    var hi: int
    var ptr: nat

    ghost predicate Valid()
      reads this
    {
      a.Valid() && buf.Length == a.block && ptr < a.block && 0 <= lo < a.modulus && 0 <= hi < a.modulus
    }

    ghost function View(): State
      requires Valid()
      reads this, buf
    {
      State(h, Counter(lo, hi), buf[..ptr])
    }

    constructor (a: Alg, iv: Chain)
      requires a.Valid()
      ensures Valid() && fresh(buf) && this.a == a && this.iv == iv && View() == Initial(iv)
    {
      this.a, this.iv := a, iv;
      buf := new Byte[a.block](_ => 0);
      h, lo, hi, ptr := iv, 0, 0, 0;
    }

    method Init()
      requires Valid()
      modifies this
      ensures Valid() && View() == Initial(iv)
    {
      h, lo, hi, ptr := iv, 0, 0, 0;
    }

    /** Compresses the full buffer: the low word of the counter is advanced, and a carry is seen by its having
        become small. */
    method Compress()
      requires a.Valid() && buf.Length == a.block && 0 <= lo < a.modulus && 0 <= hi < a.modulus
      modifies this`h, this`lo, this`hi
      ensures 0 <= lo < a.modulus && 0 <= hi < a.modulus
      ensures Counter(lo, hi) == Next(a, old(Counter(lo, hi))) && h == Step(a, old(h), buf[..], Counter(lo, hi))
    {
      SumWraps(a, lo, a.Bits());
      SumWraps(a, hi, 1);
      lo := (lo + a.Bits()) % a.modulus;
      if lo < a.Bits() {
        hi := (hi + 1) % a.modulus;
      }
      h := a.compress(h, buf[..], lo, hi);
    }

    /** Takes as many bytes as the buffer has room for. */
    method Chunk(data: seq<Byte>, pos: nat) returns (next: nat)
      requires Valid() && pos < |data|
      modifies this, buf
      ensures Valid() && pos < next <= |data| && View() == Absorb(a, old(View()), data[pos..next])
    {
      ghost var s := View();
      var clen := if a.block - ptr > |data| - pos then |data| - pos else a.block - ptr;
      next := pos + clen;
      Store(buf, ptr, data[pos..next]);
      ptr := ptr + clen;
      assert buf[..ptr] == s.pending + data[pos..next];
      if ptr == a.block {
        assert buf[..ptr] == buf[..];
        Compress();
        ptr := 0;
        AbsorbBlock(a, s, data[pos..next]);
      }
    }

    /** Takes a piece of the message. */
    method Update(data: seq<Byte>)
      requires Valid()
      modifies this, buf
      ensures Valid() && View() == Absorb(a, old(View()), data)
    {
      ghost var s := View();
      if |data| < a.block - ptr {
        Store(buf, ptr, data);
        ptr := ptr + |data|;
        assert buf[..ptr] == s.pending + data;
        return;
      }
      var pos := 0;
      assert s == Absorb(a, s, data[..0]) by { assert s.pending + data[..0] == s.pending; }
      while pos < |data|
        invariant 0 <= pos <= |data| && Valid() && View() == Absorb(a, s, data[..pos])
      {
        ghost var before := pos;
        pos := Chunk(data, pos);
        AbsorbSplit(a, s, data[..before], data[before..pos]);
        assert data[..before] + data[before..pos] == data[..pos];
      }
      assert data[..pos] == data;
    }

    /** The counter for the last block of the message. */
    method Adjust(bitLen: nat)
      requires Valid() && bitLen < a.Bits()
      modifies this`lo, this`hi
      ensures Valid() && Counter(lo, hi) == Adjusted(a, old(Counter(lo, hi)), bitLen)
    {
      if bitLen == 0 {
        lo, hi := a.modulus - a.Bits(), a.modulus - 1;
      } else if lo == 0 {
        BorrowWraps(a, hi, 1);
        lo, hi := a.modulus - a.Bits() + bitLen, (hi - 1) % a.modulus;
      } else {
        BorrowWraps(a, lo, a.Bits() - bitLen);
        lo := (lo - (a.Bits() - bitLen)) % a.modulus;
      }
    }

    /** Takes what completes the block. */
    method Complete(data: seq<Byte>)
      requires Valid() && ptr + |data| == a.block
      modifies this, buf
      ensures Valid() && View() == State(Step(a, old(h), old(View()).pending + data, Next(a, old(Counter(lo, hi)))),
                                         Next(a, old(Counter(lo, hi))), [])
    {
      AbsorbBlock(a, View(), data);
      Update(data);
    }

    /** The first words of the chain value. */
    method Output(words: nat) returns (out: seq<Byte>)
      ensures out == Digest(a, h, words)
    {
      out := [];
      var k := 0;
      while k < words
        invariant 0 <= k <= words && out == Digest(a, h, k)
      {
        out := out + BigEndian(Word(h, k), a.word);
        k := k + 1;
      }
    }

    /** The padding ends in the block that is being filled. */
    method PadHere(u: array<Byte>, marker: Byte, n: nat, full: bool, tl: int, th: int)
      requires Valid() && n < 8 && OneBlockLeft(a, ptr, n) && u != buf && u.Length == a.block && u[ptr] == marker
      modifies this, buf, u
      ensures Valid() && h == LastBlocks(a, old(h), old(buf[..ptr]), marker, n, full, Length(a, Counter(tl, th)),
                                         Next(a, old(Counter(lo, hi))), Next(a, BeforeZero(a)))
    {
      PadOne(u, a, ptr, full, tl, th, marker);
      Complete(u[ptr..]);
    }

    /** The padding goes on in a block of its own. */
    method PadOn(u: array<Byte>, marker: Byte, n: nat, full: bool, tl: int, th: int)
      requires Valid() && n < 8 && !OneBlockLeft(a, ptr, n) && u != buf && u.Length == a.block && u[ptr] == marker
      modifies this, buf, u
      ensures Valid() && h == LastBlocks(a, old(h), old(buf[..ptr]), marker, n, full, Length(a, Counter(tl, th)),
                                         Next(a, old(Counter(lo, hi))), Next(a, BeforeZero(a)))
    {
      Store(u, ptr + 1, Zeros(a.block - 1 - ptr));
      assert u[ptr..] == [marker] + Zeros(a.block - 1 - ptr);
      Complete(u[ptr..]);
      lo, hi := a.modulus - a.Bits(), a.modulus - 1;
      PadTwo(u, a, full, tl, th);
      assert [] + u[..] == u[..];
      Complete(u[..]);
    }

    /** Pads the message, of which `n` bits are in `ub`, and takes the padding. */
    method Pad(ub: Byte, n: nat, full: bool)
      requires Valid() && n < 8
      modifies this, buf
      ensures Valid() && h == Close(a, old(View()), Marker(ub, n), n, full)
    {
      var bitLen := 8 * ptr + n;
      var u := new Byte[a.block](_ => 0);
      var marker := MarkerByte(ub, n);
      u[ptr] := marker;
      var tl, th := lo + bitLen, hi;
      Adjust(bitLen);
      RoomLeft(a, ptr, n);
      if bitLen <= a.Bits() - 16 * a.word - 2 {
        PadHere(u, marker, n, full, tl, th);
      } else {
        PadOn(u, marker, n, full, tl, th);
      }
    }

    /** Ends the message with `n` more bits, gives its hash, and starts again. */
    method Finish(ub: Byte, n: nat, words: nat) returns (out: seq<Byte>)
      requires Valid() && n < 8 && words <= 8
      modifies this, buf
      ensures Valid() && View() == Initial(iv)
      ensures out == Digest(a, Close(a, old(View()), Marker(ub, n), n, words == 8), words)
    {
      Pad(ub, n, words == 8);
      out := Output(words);
      Init();
    }
  }

  /** The marker, the flag and the length fit in the block. */
  lemma RoomLeft(a: Alg, ptr: nat, n: nat)
    requires n < 8
    ensures 8 * ptr + n <= a.Bits() - 16 * a.word - 2 <==> OneBlockLeft(a, ptr, n)
  {
  }

  /** The difference of two words. */
  lemma BorrowWraps(a: Alg, x: nat, y: nat)
    requires a.Valid() && x < a.modulus && 0 < y <= a.modulus
    ensures (x - y) % a.modulus == Sum(a, x, a.modulus - y) && 0 <= Sum(a, x, a.modulus - y) < a.modulus
  {
    if x < y {
      DivModUnique(x - y, a.modulus, -1, x - y + a.modulus);
    } else {
      DivModUnique(x - y, a.modulus, 0, x - y);
    }
  }

  /** The sum of two words. */
  lemma SumWraps(a: Alg, x: nat, y: nat)
    requires a.Valid() && x < a.modulus && y <= a.modulus
    ensures (x + y) % a.modulus == Sum(a, x, y) && 0 <= Sum(a, x, y) < a.modulus
  {
    if x + y < a.modulus {
      DivModUnique(x + y, a.modulus, 0, x + y);
    } else {
      DivModUnique(x + y, a.modulus, 1, x + y - a.modulus);
    }
  }
}
