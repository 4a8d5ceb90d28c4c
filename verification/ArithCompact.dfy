/** The compact form of difficulty targets, and the proof of work of a block. */
module ArithCompact {
  import opened ArithMath
  import opened ArithLimbs
  import opened ArithDivide

  const WIDTH := 8
  const MANTISSA := 0x80_0000
  const SIZE_UNIT := 0x100_0000

  // ---------------------------------------------------------------------
  // The format
  // ---------------------------------------------------------------------

  function Mantissa(c: u32): int { c % MANTISSA }

  function Exponent(c: u32): int { c / SIZE_UNIT }

  predicate Sign(c: u32) { c / MANTISSA % 2 == 1 }

  /** The number that a compact form denotes, leaving the sign aside: mantissa times 256^(exponent - 3). */
  function CompactValue(c: u32): int {
    var e := Exponent(c);
    if e <= 3 then Mantissa(c) / Pow2(8 * (3 - e)) else Shl(Mantissa(c), 8 * (e - 3))
  }

  function BitLen(x: nat): nat {
    if x == 0 then 0 else 1 + BitLen(x / 2)
  }

  lemma {:induction false} BitLenBounds(x: nat)
    ensures x > 0 ==> BitLen(x) > 0 && Pow2(BitLen(x) - 1) <= x < Pow2(BitLen(x))
  {
    if x > 1 { BitLenBounds(x / 2); }
  }

  lemma BitLenUnique(x: nat, n: nat)
    requires if n == 0 then x == 0 else Pow2(n - 1) <= x < Pow2(n)
    ensures n == BitLen(x)
  {
    BitLenBounds(x);
    if n > 0 {
      if BitLen(x) < n { Pow2Mono(BitLen(x), n - 1); }
      if n < BitLen(x) { Pow2Mono(n, BitLen(x) - 1); }
    }
  }

  /** The number of bytes that hold a number and a clear sign bit above it. */
  function Size(x: nat): nat {
    if x == 0 then 0 else BitLen(x) / 8 + 1
  }

  lemma SizeBounds(x: nat)
    requires x > 0
    ensures Size(x) > 0 && x < Pow2(8 * Size(x) - 1) && (Size(x) > 1 ==> Pow2(8 * Size(x) - 9) <= x)
  {
    BitLenBounds(x);
    var n, s := BitLen(x), Size(x);
    Pow2Mono(n, 8 * s - 1);
    if s > 1 { Pow2Mono(8 * s - 9, n - 1); }
  }

  lemma SizeUnique(x: nat, s: nat)
    requires s > 0 && 0 < x < Pow2(8 * s - 1) && (s > 1 ==> Pow2(8 * s - 9) <= x)
    ensures s == Size(x)
  {
    SizeBounds(x);
    var z := Size(x);
    if z < s { Pow2Mono(8 * z - 1, 8 * s - 9); }
    if s < z { Pow2Mono(8 * s - 1, 8 * z - 9); }
  }

  /** The first three of the `n` bytes of a number. */
  function FirstBytes(x: nat, n: nat): int {
    if n <= 3 then Shl(x, 8 * (3 - n)) else x / Pow2(8 * (n - 3))
  }

  /** The leading bytes of a number, as many as fit the mantissa. */
  function Leading(x: nat): int {
    FirstBytes(x, Size(x))
  }

  lemma LeadingBound(x: nat)
    ensures 0 <= Leading(x) < MANTISSA
    ensures Size(x) > 3 ==> Leading(x) >= 0x8000
  {
    var s := Size(x);
    if x == 0 {
      ShlZero(24);
    } else {
      SizeBounds(x);
      assert Pow2(23) == MANTISSA by { Pow2Small(); }
      if s <= 3 {
        ShlLess(x, Pow2(8 * s - 1), 8 * (3 - s));
        ShlShl(1, 8 * s - 1, 8 * (3 - s));
        ShlMono(0, x, 8 * (3 - s));
        ShlZero(8 * (3 - s));
      } else {
        LeadingOfLong(x, 8 * (s - 3), x / Pow2(8 * (s - 3)));
      }
    }
  }

  lemma Pow2Small()
    ensures Pow2(15) == 0x8000 && Pow2(23) == 0x80_0000 && Pow2(8) == 256 && Pow2(16) == 0x1_0000
  {
    Shl8(1);
    Shl8(Shl(1, 8));
    ShlShl(1, 8, 8);
    ShlShl(1, 8, 7);
    ShlShl(1, 16, 7);
    Shl7(Shl(1, 8));
    Shl7(Shl(1, 16));
  }

  lemma LeadingOfLong(x: nat, k: nat, q: int)
    requires q == x / Pow2(k) && Pow2(k + 15) <= x < Pow2(k + 23)
    ensures 0x8000 <= q < MANTISSA
  {
    DivPow2(x, k);
    Pow2Small();
    if q >= Pow2(23) { ShlMono(Pow2(23), q, k); ShlShl(1, 23, k); }
    if q < Pow2(15) { ShlMono(q + 1, Pow2(15), k); ShlAdd(q, 1, k); ShlShl(1, 15, k); }
  }

  /** The compact form of a number. */
  function CompactOf(x: nat): int {
    Size(x) * SIZE_UNIT + Leading(x)
  }

  // ---------------------------------------------------------------------
  // Round trip and order
  // ---------------------------------------------------------------------

  lemma CompactParts(c: u32, s: int, m: int)
    requires c == s * SIZE_UNIT + m && 0 <= m < MANTISSA && 0 <= s
    ensures Exponent(c) == s && Mantissa(c) == m && !Sign(c)
  {
  }

  lemma SizeAtMost(x: nat, n: nat)
    requires x < Pow2(8 * n)
    ensures Size(x) <= n + 1
  {
    if x > 0 {
      SizeBounds(x);
      var s := Size(x);
      if s > n + 1 { Pow2Mono(8 * n, 8 * s - 9); }
    }
  }

  /** The number of low-order bits that the compact form of a number drops. */
  function Dropped(x: nat): nat {
    if Size(x) <= 3 then 0 else 8 * (Size(x) - 3)
  }

  /** Decoding the compact form of a number gives the number with its low-order bytes cleared. */
  lemma CompactRoundTrip(x: nat)
    requires x < Pow2(256)
    ensures 0 <= CompactOf(x) < BASE && !Sign(CompactOf(x))
    ensures CompactValue(CompactOf(x)) == Shl(x / Pow2(Dropped(x)), Dropped(x))
  {
    SizeAtMost(x, 32);
    LeadingBound(x);
    var s := Size(x);
    CompactParts(CompactOf(x), s, Leading(x));
    if s <= 3 {
      DivPow2Unique(Leading(x), 8 * (3 - s), x, 0);
    }
  }

  /** The round trip is idempotent. */
  lemma CompactIdempotent(x: nat)
    requires x < Pow2(256)
    ensures 0 <= CompactOf(x) < BASE && 0 <= CompactValue(CompactOf(x)) <= x
    ensures CompactOf(CompactValue(CompactOf(x))) == CompactOf(x)
  {
    CompactRoundTrip(x);
    var s, k := Size(x), Dropped(x);
    var q := x / Pow2(k);
    DivPow2(x, k);
    if s > 3 {
      var y := Shl(q, k);
      LeadingBound(x);
      SizeBounds(x);
      Pow2Small();
      ShlMono(Pow2(15), q, k);
      ShlShl(1, 15, k);
      SizeUnique(y, s);
      DivPow2Unique(y, k, q, 0);
    }
  }

  /** What is read back of the compact form of a number with a sign: the number with its low-order bytes
      cleared, which never overflows, and the sign, unless the number is zero. */
  lemma CompactSigned(x: nat, negative: bool, c: int)
    requires x < Pow2(256) && c == CompactOf(x) + if negative && x != 0 then MANTISSA else 0
    ensures 0 <= c < BASE && CompactValue(c) == Shl(x / Pow2(Dropped(x)), Dropped(x)) < Pow2(256)
    ensures CompactValue(c) != 0 && Sign(c) <==> negative && x != 0
  {
    CompactRoundTrip(x);
    CompactIdempotent(x);
    SignBit(CompactOf(x));
    SizeAtMost(x, 32);
    CompactFields(x, Size(x), Leading(x));
    if CompactValue(CompactOf(x)) == 0 { CompactZero(x); }
  }

  /** The sign bit changes neither field. */
  lemma SignBit(c: u32)
    requires !Sign(c)
    ensures c + MANTISSA < BASE && Sign(c + MANTISSA) && CompactValue(c + MANTISSA) == CompactValue(c)
  {
    assert c == Exponent(c) * SIZE_UNIT + Mantissa(c);
    assert Exponent(c + MANTISSA) == Exponent(c) && Mantissa(c + MANTISSA) == Mantissa(c);
  }

  lemma CompactZero(x: nat)
    requires x < Pow2(256) && Shl(x / Pow2(Dropped(x)), Dropped(x)) == 0
    ensures x == 0
  {
    var k := Dropped(x);
    var q := x / Pow2(k);
    DivPow2(x, k);
    ShlZero(k);
    if q > 0 {
      ShlLess(0, q, k);
    } else if Size(x) > 3 {
      LeadingBound(x);
      assert false;
    }
  }

  /** Compact forms are ordered as the numbers they come from. */
  lemma CompactMonotone(x: nat, y: nat)
    requires x <= y
    ensures CompactOf(x) <= CompactOf(y)
  {
    LeadingBound(x);
    LeadingBound(y);
    SizeMonotone(x, y);
    if Size(x) == Size(y) {
      var s := Size(x);
      if s <= 3 { ShlMono(x, y, 8 * (3 - s)); } else { DivMono(x, y, 8 * (s - 3)); }
    }
  }

  lemma SizeMonotone(x: nat, y: nat)
    requires x <= y
    ensures Size(x) <= Size(y)
  {
    if x > 0 {
      SizeBounds(x);
      SizeBounds(y);
      if Size(y) < Size(x) { Pow2Mono(8 * Size(y) - 1, 8 * Size(x) - 9); }
    }
  }

  lemma DivMono(x: nat, y: nat, k: nat)
    requires x <= y
    ensures x / Pow2(k) <= y / Pow2(k)
  {
    DivPow2(x, k);
    DivPow2(y, k);
    var a, b := x / Pow2(k), y / Pow2(k);
    if b < a { ShlMono(b + 1, a, k); ShlAdd(b, 1, k); }
  }

  // ---------------------------------------------------------------------
  // Conversions
  // ---------------------------------------------------------------------

  const TWO64 := 0x1_0000_0000_0000_0000

  /** Assignment of a 64-bit number. */
  method Assign(pn: array<u32>, b: nat)
    requires pn.Length >= 2 && b < TWO64
    modifies pn
    ensures Value(pn[..]) == b
  {
    pn[0] := b % BASE;
    pn[1] := b / BASE;
    var i := 2;
    while i < pn.Length
      invariant 2 <= i <= pn.Length && pn[0] == b % BASE && pn[1] == b / BASE
      invariant forall j :: 2 <= j < i ==> pn[j] == 0
    {
      pn[i] := 0;
      i := i + 1;
    }
    ValueZeros(pn[..][2..]);
    assert pn[..][1..][1..] == pn[..][2..];
  }

  lemma LowLimbs(s: seq<u32>)
    requires |s| >= 2 && Value(s) < TWO64
    ensures s[0] + BASE * s[1] == Value(s)
  {
    assert s[1..][1..] == s[2..];
    ValueBound(s[2..]);
  }

  /** The number denoted by a compact form, with its sign and whether it exceeds 256 bits. */
  method SetCompact(pn: array<u32>, compact: u32) returns (negative: bool, overflow: bool)
    requires pn.Length == WIDTH
    modifies pn
    ensures overflow <==> CompactValue(compact) >= Pow2(256)
    ensures negative <==> CompactValue(compact) != 0 && Sign(compact)
    ensures Value(pn[..]) == CompactValue(compact) % Pow2(256)
    ensures !overflow ==> Value(pn[..]) == CompactValue(compact)
  {
    var size, word: int := compact / 0x100_0000, compact % 0x80_0000;
    ghost var v := CompactValue(compact);
    if size <= 3 {
      word := word / Pow2(8 * (3 - size));
      Assign(pn, word);
    } else {
      Assign(pn, word);
      ShiftLeft(pn, 8 * (size - 3));
      ShlIsProduct(word, 8 * (size - 3));
    }
    negative := word != 0 && compact / 0x80_0000 % 2 == 1;
    overflow := word != 0 && (size > 34 || (word > 0xff && size > 33) || (word > 0xffff && size > 32));
    CompactFits(compact, word);
    if !overflow { SmallMod(v, Pow2(256)); }
  }

  lemma CompactFits(c: u32, word: int)
    requires word == if Exponent(c) <= 3 then CompactValue(c) else Mantissa(c)
    ensures 0 <= CompactValue(c) && (word != 0 <==> CompactValue(c) != 0)
    ensures CompactValue(c) >= Pow2(256) <==>
            word != 0 && (Exponent(c) > 34 || (word > 0xff && Exponent(c) > 33) || (word > 0xffff && Exponent(c) > 32))
  {
    var e, m := Exponent(c), Mantissa(c);
    if e <= 3 {
      SmallFits(m, 8 * (3 - e));
    } else {
      var k := 8 * (e - 3);
      ShlZero(k);
      Pow2Small();
      if m > 0 {
        ShlLess(0, m, k);
        ShiftFits(m, e, k);
      }
    }
  }

  lemma SmallFits(m: nat, k: nat)
    requires m < MANTISSA
    ensures 0 <= m / Pow2(k) <= m && m / Pow2(k) + 1 < Pow2(256)
  {
    DivPow2(m, k);
    ShiftGrows(m / Pow2(k), k);
    Pow2Small();
    Pow2Mono(24, 256);
  }

  lemma {:induction false} ShiftGrows(x: nat, k: nat)
    ensures Shl(x, k) >= x
  {
    if k > 0 { ShiftGrows(x, k - 1); }
  }

  lemma ShiftFits(m: int, e: int, k: nat)
    requires 0 < m < MANTISSA && e > 3 && k == 8 * (e - 3)
    ensures Shl(m, k) >= Pow2(256) <==> e > 34 || (m > 0xff && e > 33) || (m > 0xffff && e > 32)
  {
    Pow2Small();
    if e <= 32 {
      ShlLess(m, Pow2(23), k);
      ShlShl(1, 23, k);
      Pow2Mono(23 + k, 256);
    } else if e <= 34 {
      var j := 256 - k;
      ShlShl(1, j, k);
      if m >= Pow2(j) { ShlMono(Pow2(j), m, k); } else { ShlLess(m, Pow2(j), k); }
    } else {
      ShlMono(1, m, k);
      Pow2Mono(256, k);
    }
  }

  /** The leading bytes before a set sign bit is shifted away. */
  lemma LeadingAdjusted(x: nat, n: nat, m: int)
    requires n == (BitLen(x) + 7) / 8
    requires m == FirstBytes(x, n)
    ensures 0 <= m < SIZE_UNIT
    ensures if m >= MANTISSA then Size(x) == n + 1 && Leading(x) == m / 256 else Size(x) == n && Leading(x) == m
  {
    if x > 0 && BitLen(x) == 8 * n {
      BitLenBounds(x);
      TopBitKept(x, n, m);
      Narrowed(x, n, m, FirstBytes(x, n + 1));
    } else {
      assert Size(x) == n;
      LeadingBound(x);
    }
  }

  lemma Narrowed(x: nat, n: nat, m: int, w: int)
    requires m == FirstBytes(x, n) && w == FirstBytes(x, n + 1)
    ensures w == m / 256
  {
    if n < 3 {
      var k := 8 * (2 - n);
      ShlShl(x, k, 8);
      Shl8(Shl(x, k));
    } else if n == 3 {
      Pow2Small();
    } else {
      DivDiv(x, 8 * (n - 3));
    }
  }

  lemma TopBitKept(x: nat, n: nat, m: int)
    requires n > 0 && Pow2(8 * n - 1) <= x < Pow2(8 * n) && m == FirstBytes(x, n)
    ensures MANTISSA <= m < SIZE_UNIT
  {
    Pow2Small();
    if n <= 3 {
      var k := 8 * (3 - n);
      ShlMono(Pow2(8 * n - 1), x, k);
      ShlShl(1, 8 * n - 1, k);
      ShlLess(x, Pow2(8 * n), k);
      ShlShl(1, 8 * n, k);
    } else {
      var k := 8 * (n - 3);
      DivPow2(x, k);
      if m < Pow2(23) { ShlMono(m + 1, Pow2(23), k); ShlAdd(m, 1, k); ShlShl(1, 23, k); }
      if m >= Pow2(24) { ShlMono(Pow2(24), m, k); ShlShl(1, 24, k); }
    }
  }

  lemma SmallMod(x: int, m: int)
    requires 0 <= x < m
    ensures x % m == x
  {
    DivModUnique(x, m, 0, x);
  }

  lemma DivDiv(x: nat, k: nat)
    ensures x / Pow2(k) / 256 == x / Pow2(k + 8)
  {
    DivPow2(x, k);
    var q, r := x / Pow2(k), x % Pow2(k);
    var p, t := q / 256, q % 256;
    Shl8(p);
    ShlShl(p, 8, k);
    ShlAdd(256 * p, t, k);
    ShlMono(t, 255, k);
    ShlMono(0, t, k);
    ShlZero(k);
    ShlAdd(255, 1, k);
    Pow2Small();
    ShlShl(1, 8, k);
    DivPow2Unique(x, k + 8, p, Shl(t, k) + r);
  }

  lemma {:induction false} LeadingZero(x: nat)
    ensures Leading(x) == 0 <==> x == 0
  {
    if x > 0 {
      LeadingBound(x);
      if Size(x) <= 3 { ShiftGrows(x, 8 * (3 - Size(x))); }
    } else {
      ShlZero(24);
    }
  }

  /** The compact form of a number; the assertions of the source hold. */
  method GetCompact(pn: array<u32>, negative: bool) returns (compact: u32)
    requires pn.Length == WIDTH
    ensures Value(pn[..]) >= 0
    ensures compact == CompactOf(Value(pn[..])) + (if negative && Value(pn[..]) != 0 then MANTISSA else 0)
  {
    ValueBound(pn[..]);
    ScaleIsShl(1, WIDTH);
    ghost var x: nat := Value(pn[..]);
    var bits := Bits(pn);
    BitLenUnique(x, bits);
    var size := (bits + 7) / 8;
    var word := LeadingWord(pn, size, x);
    if word / 0x80_0000 % 2 == 1 {
      word, size := word / 256, size + 1;
    }
    CompactFields(x, size, word);
    assert word / 0x80_0000 == 0 && size < 256;
    compact := size * 0x100_0000 + word;
    if negative && compact % 0x80_0000 != 0 {
      compact := compact + 0x80_0000;
    }
  }

  lemma CompactFields(x: nat, size: nat, word: int)
    requires x < Pow2(256) && size == Size(x) && word == Leading(x)
    ensures 0 <= word < MANTISSA && size < 256 && size * SIZE_UNIT + word == CompactOf(x)
    ensures (size * SIZE_UNIT + word) % MANTISSA == word && (word == 0 <==> x == 0)
  {
    SizeAtMost(x, 32);
    LeadingBound(x);
    LeadingZero(x);
    CompactParts(size * SIZE_UNIT + word, size, word);
  }

  method LeadingWord(pn: array<u32>, size: nat, ghost x: nat) returns (word: int)
    requires pn.Length == WIDTH && x == Value(pn[..]) && size == (BitLen(x) + 7) / 8
    ensures 0 <= word < SIZE_UNIT
    ensures if word >= MANTISSA then Size(x) == size + 1 && Leading(x) == word / 256 else Size(x) == size && Leading(x) == word
  {
    ghost var w := FirstBytes(x, size);
    LeadingAdjusted(x, size, w);
    if size <= 3 {
      word := LowWord(pn, 8 * (3 - size), x);
    } else {
      word := HighWord(pn, 8 * (size - 3), x);
    }
    assert word == w;
  }

  method LowWord(pn: array<u32>, k: nat, ghost x: nat) returns (word: int)
    requires pn.Length == WIDTH && x == Value(pn[..]) && Shl(x, k) < SIZE_UNIT
    ensures word == Shl(x, k)
  {
    ShiftGrows(x, k);
    var low := GetLow64(pn);
    word := Shl(low, k) % TWO64 % BASE;
  }

  method HighWord(pn: array<u32>, k: nat, ghost x: nat) returns (word: int)
    requires pn.Length == WIDTH && x == Value(pn[..]) && 0 <= x / Pow2(k) < SIZE_UNIT
    ensures word == x / Pow2(k)
  {
    var bn := Copy(pn);
    ShiftRight(bn, k);
    var low := GetLow64(bn);
    word := low % BASE;
  }

  method GetLow64(pn: array<u32>) returns (low: nat)
    requires pn.Length >= 2
    ensures 0 <= Value(pn[..]) < TWO64 ==> low == Value(pn[..])
  {
    if Value(pn[..]) < TWO64 { LowLimbs(pn[..]); }
    low := pn[0] + BASE * pn[1];
  }

  // ---------------------------------------------------------------------
  // Proof of work
  // ---------------------------------------------------------------------

  /** A target in compact form is never the largest 256-bit number, so adding one does not wrap. */
  lemma TargetBelowMax(c: u32)
    requires CompactValue(c) < Pow2(256)
    ensures CompactValue(c) + 1 < Pow2(256)
  {
    var e, m := Exponent(c), Mantissa(c);
    if e <= 3 {
      SmallFits(m, 8 * (3 - e));
    } else {
      assert CompactValue(c) == 2 * Shl(m, 8 * (e - 3) - 1) && Pow2(256) == 2 * Pow2(255);
    }
  }

  lemma ProofQuotient(p: int, t: nat, q: int)
    requires t > 0 && t + 1 < p && q == (p - 1 - t) / (t + 1)
    ensures (q + 1) % p == p / (t + 1)
  {
    var r := (p - 1 - t) % (t + 1);
    assert p - 1 - t == (t + 1) * q + r;
    assert p == (t + 1) * (q + 1) + r;
    DivModUnique(p, t + 1, q + 1, r);
    assert q >= 0;
    if q + 1 >= p {
      MulMono(p, q + 1, t + 1);
      assert p * (t + 1) >= p * 2 by { MulMono(2, t + 1, p); }
    }
    SmallMod(q + 1, p);
  }

  /** The expected number of hashes behind a block: 2^256 divided by the target plus one. */
  method GetBlockProof(nBits: u32) returns (proof: array<u32>)
    ensures fresh(proof) && proof.Length == WIDTH
    ensures Value(proof[..]) == WorkOf(nBits)
  {
    var target := new u32[WIDTH];
    var negative, overflow := SetCompact(target, nBits);
    proof := new u32[WIDTH];
    Assign(proof, 0);
    var order := CompareTo(target, proof);
    if negative || overflow || order == 0 {
      return;
    }
    proof := QuotientOf(target, CompactValue(nBits), nBits);
  }

  function WorkOf(nBits: u32): int {
    var target := CompactValue(nBits);
    if target <= 0 || Sign(nBits) || target >= Pow2(256) then 0 else Pow2(256) / (target + 1)
  }

  method QuotientOf(target: array<u32>, ghost t: nat, ghost nBits: u32) returns (proof: array<u32>)
    requires target.Length == WIDTH && t == Value(target[..]) == CompactValue(nBits) && 0 < t < Pow2(256)
    modifies target
    ensures fresh(proof) && proof.Length == WIDTH
    ensures Value(proof[..]) == Pow2(256) / (t + 1)
  {
    TargetBelowMax(nBits);
    SmallMod(t + 1, Pow2(256));
    proof := ComplementOf(target);
    Increment(target);
    var ok := DivAssign(proof, target);
    assert ok;
    ProofQuotient(Pow2(256), t, Value(proof[..]));
    Increment(proof);
  }
}
