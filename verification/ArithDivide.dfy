/** Comparison, bit length and restoring division of limb arrays. */
module ArithDivide {
  import opened ArithMath
  import opened ArithLimbs

  // ---------------------------------------------------------------------
  // Comparison and bit length
  // ---------------------------------------------------------------------

  /** The highest limb that differs decides. */
  lemma {:induction false} HighestDecides(s: seq<u32>, t: seq<u32>, i: nat)
    requires |s| == |t| && i < |s| && s[i + 1..] == t[i + 1..] && s[i] < t[i]
    ensures Value(s) < Value(t)
  {
    if i > 0 {
      assert s[1..][i..] == s[i + 1..] && t[1..][i..] == t[i + 1..];
      HighestDecides(s[1..], t[1..], i - 1);
    }
  }

  method CompareTo(pn: array<u32>, b: array<u32>) returns (r: int)
    requires pn.Length == b.Length
    ensures r < 0 <==> Value(pn[..]) < Value(b[..])
    ensures r > 0 <==> Value(pn[..]) > Value(b[..])
  {
    var i := pn.Length - 1;
    while i >= 0
      invariant -1 <= i < pn.Length
      invariant pn[i + 1..] == b[i + 1..]
    {
      if pn[i] < b[i] {
        HighestDecides(pn[..], b[..], i);
        return -1;
      }
      if pn[i] > b[i] {
        HighestDecides(b[..], pn[..], i);
        return 1;
      }
      i := i - 1;
    }
    assert pn[..] == b[..];
    return 0;
  }

  lemma TopBit(x: u32, b: nat)
    requires x < Pow2(b + 1)
    ensures LimbShr(x, b) % 2 == 1 <==> x >= Pow2(b)
  {
    var h := LimbShr(x, b);
    if h >= 2 { ShlMono(2, h, b); ShlAdd(1, 1, b); }
    if h == 0 { ShlZero(b); }
  }

  /** The bit length of a value, from its highest limb that is not zero and that limb's highest bit. */
  lemma BitLength(s: seq<u32>, pos: nat, b: nat)
    requires pos < |s| && (forall j :: pos < j < |s| ==> s[j] == 0) && Pow2(b) <= s[pos] < Pow2(b + 1)
    ensures Pow2(32 * pos + b) <= Value(s) < Pow2(32 * pos + b + 1)
  {
    ValueSplit(s, pos + 1);
    ValueZeros(s[pos + 1..]);
    ScaleZero(pos + 1);
    ValuePrefix(s, pos);
    ValueBound(s[..pos]);
    var x: int := s[pos];
    ScaleAdd(x, 1, pos);
    ScaleWithin(Pow2(b), x, pos);
    ScaleWithin(x + 1, Pow2(b + 1), pos);
    ScaleIsShl(Pow2(b), pos);
    ScaleIsShl(Pow2(b + 1), pos);
    ShlShl(1, b, 32 * pos);
    ShlShl(1, b + 1, 32 * pos);
  }

  method Bits(pn: array<u32>) returns (r: nat)
    ensures r <= 32 * pn.Length
    ensures r == 0 ==> Value(pn[..]) == 0
    ensures r > 0 ==> Pow2(r - 1) <= Value(pn[..]) < Pow2(r)
  {
    var pos := pn.Length - 1;
    while pos >= 0
      invariant -1 <= pos < pn.Length && forall j :: pos < j < pn.Length ==> pn[j] == 0
    {
      if pn[pos] != 0 {
        var bits := 31;
        Shl32(1);
        while bits > 0
          invariant 0 <= bits <= 31 && pn[pos] < Pow2(bits + 1)
        {
          TopBit(pn[pos], bits);
          if LimbShr(pn[pos], bits) % 2 == 1 {
            BitLength(pn[..], pos, bits);
            return 32 * pos + bits + 1;
          }
          bits := bits - 1;
        }
        BitLength(pn[..], pos, 0);
        return 32 * pos + 1;
      }
      pos := pos - 1;
    }
    ValueZeros(pn[..]);
    return 0;
  }

  // ---------------------------------------------------------------------
  // Division
  // ---------------------------------------------------------------------

  /** The bits of a limb below bit `t` are clear. */
  ghost predicate ClearBelow(x: int, t: nat) {
    exists c: nat :: x == Shl(c, t)
  }

  /** The bits of a number below bit `n` are clear. */
  ghost predicate LowClear(s: seq<u32>, n: nat) {
    && (forall j :: 0 <= j < |s| && 32 * j + 32 <= n ==> s[j] == 0)
    && (forall j :: 0 <= j < |s| && 32 * j <= n < 32 * j + 32 ==> ClearBelow(s[j], n - 32 * j))
  }

  lemma SetBit(x: u32, t: nat)
    requires t < 32 && ClearBelow(x, t + 1)
    ensures BitOr(x, Pow2(t)) == x + Pow2(t) < BASE && ClearBelow(x + Pow2(t), t) && ClearBelow(x, t)
  {
    var c: nat :| x == Shl(c, t + 1);
    ShlLess(0, 1, t);
    ShlZero(t);
    OrDisjoint(c, Pow2(t), t + 1);
    SetBitBound(c, t);
    ShlShl(c, 1, t);
    assert Shl(c, 1) == 2 * c;
    ShlAdd(2 * c, 1, t);
    assert x == Shl(2 * c, t) && x + Pow2(t) == Shl(2 * c + 1, t);
  }

  lemma SetBitBound(c: nat, t: nat)
    requires t < 32 && Shl(c, t + 1) < BASE
    ensures Shl(c, t + 1) + Pow2(t) < BASE
  {
    Shl32(1);
    ShlShl(1, 31 - t, t + 1);
    if c >= Pow2(31 - t) { ShlMono(Pow2(31 - t), c, t + 1); }
    ShlMono(c + 1, Pow2(31 - t), t + 1);
    ShlAdd(c, 1, t + 1);
  }

  lemma LowClearAt(s: seq<u32>, n: nat, j: nat)
    requires LowClear(s, n + 1) && j < |s| && 32 * j <= n < 32 * j + 32
    ensures ClearBelow(s[j], n - 32 * j + 1)
  {
    if n + 1 == 32 * j + 32 {
      ShlZero(n - 32 * j + 1);
      assert s[j] == Shl(0, n - 32 * j + 1);
    }
  }

  lemma LowClearNext(s: seq<u32>, n: nat)
    requires LowClear(s, n + 1)
    ensures LowClear(s, n)
  {
    forall j | 0 <= j < |s| && 32 * j <= n < 32 * j + 32 ensures ClearBelow(s[j], n - 32 * j) {
      LowClearAt(s, n, j);
      SetBit(s[j], n - 32 * j);
    }
  }

  lemma SetBitValue(s: seq<u32>, shift: nat, m: nat, t: nat, x: u32)
    requires m < |s| && t < 32 && shift == 32 * m + t && x == s[m] + Pow2(t)
    ensures Value(s[m := x]) == Value(s) + Pow2(shift)
  {
    ValueUpdate(s, m, x);
    ScaleAdd(s[m], Pow2(t), m);
    ScaleIsShl(Pow2(t), m);
    ShlShl(1, t, 32 * m);
  }

  lemma SetBitClear(s: seq<u32>, shift: nat, m: nat, x: u32)
    requires m < |s| && 32 * m <= shift < 32 * m + 32 && LowClear(s, shift) && ClearBelow(x, shift - 32 * m)
    ensures LowClear(s[m := x], shift)
  {
  }

  /** Sets one bit of the quotient, below which all bits are clear. */
  method SetQuotientBit(pn: array<u32>, shift: nat)
    requires shift < 32 * pn.Length && LowClear(pn[..], shift + 1)
    modifies pn
    ensures Value(pn[..]) == old(Value(pn[..])) + Pow2(shift) && LowClear(pn[..], shift)
  {
    var m, t := shift / 32, shift % 32;
    ghost var s := pn[..];
    LowClearAt(s, shift, m);
    SetBit(s[m], t);
    LowClearNext(s, shift);
    BitInLimb(t);
    ghost var x: u32 := s[m] + Pow2(t);
    SetBitValue(s, shift, m, t, x);
    SetBitClear(s, shift, m, x);
    pn[m] := BitOr(pn[m], LimbShl(1, t));
    assert pn[..] == s[m := x];
  }

  lemma BitInLimb(t: nat)
    requires t < 32
    ensures LimbShl(1, t) == Pow2(t)
  {
    Shl32(1);
    ShlShl(1, t, 32 - t);
    ShlLess(0, 1, t);
    ShlZero(t);
    Pow2Less(t, 32);
  }

  lemma {:induction false} Pow2Less(j: nat, k: nat)
    requires j < k
    ensures Pow2(j) < Pow2(k)
  {
    Pow2Mono(j, k - 1);
  }

  method Copy(b: array<u32>) returns (r: array<u32>)
    ensures fresh(r) && r.Length == b.Length && r[..] == b[..]
  {
    r := new u32[b.Length];
    for i := 0 to b.Length
      invariant forall j :: 0 <= j < i ==> r[j] == b[j]
    {
      r[i] := b[i];
    }
  }

  /** The state of the division at bit `shift`: `n` is the dividend, `d` the divisor, `q` the quotient so far,
      and `num` and `div` are what is left of the one and the shifted other. */
  ghost predicate Dividing(n: int, d: int, q: int, num: int, div: int, shift: int) {
    && shift >= -1 && n == q * d + num
    && 0 <= num < Shl(d, shift + 1)
    && (shift >= 0 ==> div == Shl(d, shift))
  }

  lemma DivideStep(n: int, d: int, q: int, num: int, div: int, shift: nat)
    requires Dividing(n, d, q, num, div, shift)
    ensures num >= div ==> Dividing(n, d, q + Pow2(shift), num - div, div / 2, shift - 1)
    ensures num < div ==> Dividing(n, d, q, num, div / 2, shift - 1)
  {
    ShlIsProduct(d, shift);
    assert (q + Pow2(shift)) * d == q * d + d * Pow2(shift);
  }

  /** Before the loop the divisor is aligned with the dividend. */
  lemma DivideStart(n: int, d: int, nBits: nat, dBits: nat, width: nat)
    requires 0 < dBits <= nBits <= 32 * width
    requires Pow2(dBits - 1) <= d < Pow2(dBits) && Pow2(nBits - 1) <= n < Pow2(nBits)
    ensures var shift := nBits - dBits;
      Dividing(n, d, 0, n, Shl(d, shift), shift) && Shl(d, shift) == (d * Pow2(shift)) % Pow2(32 * width)
  {
    var shift := nBits - dBits;
    ShlMono(Pow2(dBits - 1), d, shift + 1);
    ShlShl(1, dBits - 1, shift + 1);
    ShlLess(d, Pow2(dBits), shift);
    ShlShl(1, dBits, shift);
    Pow2Mono(nBits, 32 * width);
    ShlMono(0, d, shift);
    ShlZero(shift);
    ShlIsProduct(d, shift);
    ShlZero(32 * width);
    DivPow2Unique(Shl(d, shift), 32 * width, 0, Shl(d, shift));
  }

  /** One round of the division: subtract the shifted divisor if it fits, and note the bit. */
  method DivideBit(pn: array<u32>, num: array<u32>, div: array<u32>, shift: nat, ghost n: int, ghost d: int)
    requires div.Length == num.Length == pn.Length > shift / 32 && div != num && pn != num && pn != div
    requires Dividing(n, d, Value(pn[..]), Value(num[..]), Value(div[..]), shift) && LowClear(pn[..], shift + 1)
    modifies pn, num, div
    ensures Dividing(n, d, Value(pn[..]), Value(num[..]), Value(div[..]), shift - 1) && LowClear(pn[..], shift)
  {
    DivideStep(n, d, Value(pn[..]), Value(num[..]), Value(div[..]), shift);
    LowClearNext(pn[..], shift);
    var c := CompareTo(num, div);
    if c >= 0 {
      ValueBound(num[..]);
      ValueBound(div[..]);
      SmallDifference(Value(num[..]), Value(div[..]), pn.Length);
      SubAssign(num, div);
      SetQuotientBit(pn, shift);
    }
    ShiftRight(div, 1);
  }

  /** The rounds of the division, from the highest bit of the quotient down. */
  method DivideLoop(pn: array<u32>, num: array<u32>, div: array<u32>, start: nat, ghost n: int, ghost d: int)
    requires div.Length == num.Length == pn.Length > start / 32 && div != num && pn != num && pn != div
    requires Dividing(n, d, Value(pn[..]), Value(num[..]), Value(div[..]), start) && LowClear(pn[..], start + 1)
    modifies pn, num, div
    ensures d > 0 ==> Value(pn[..]) == n / d
  {
    var shift: int := start;
    while shift >= 0
      invariant -1 <= shift <= start
      invariant Dividing(n, d, Value(pn[..]), Value(num[..]), Value(div[..]), shift) && LowClear(pn[..], shift + 1)
    {
      DivideBit(pn, num, div, shift, n, d);
      shift := shift - 1;
    }
    if d > 0 { DivModUnique(n, d, Value(pn[..]), Value(num[..])); }
  }

  /** Divides in place; fails, with the number already zeroed, exactly when the divisor is zero. */
  method DivAssign(pn: array<u32>, b: array<u32>) returns (ok: bool)
    requires pn.Length == b.Length > 0
    modifies pn
    ensures ok <==> old(Value(b[..])) != 0
    ensures ok ==> Value(pn[..]) == old(Value(pn[..])) / old(Value(b[..]))
    ensures !ok ==> Value(pn[..]) == 0
  {
    ghost var n, d := Value(pn[..]), Value(b[..]);
    var div := Copy(b);
    var num := Copy(pn);
    SetZero(pn);
    ValueBound(num[..]);
    var numBits := Bits(num);
    var divBits := Bits(div);
    if divBits == 0 { return false; }
    ok := true;
    if divBits > numBits {
      SmallQuotient(n, d, numBits, divBits);
    } else {
      var shift := numBits - divBits;
      DivideStart(n, d, numBits, divBits, pn.Length);
      ShiftLeft(div, shift);
      AllClear(pn[..], shift + 1);
      DivideLoop(pn, num, div, shift, n, d);
    }
  }

  lemma SmallDifference(a: int, b: int, width: nat)
    requires 0 <= b <= a < Scale(1, width)
    ensures (a - b) % Pow2(32 * width) == a - b
  {
    ScaleIsShl(1, width);
    ShlZero(32 * width);
    DivPow2Unique(a - b, 32 * width, 0, a - b);
  }

  lemma SmallQuotient(n: int, d: int, nBits: nat, dBits: nat)
    requires nBits < dBits && Pow2(dBits - 1) <= d && (if nBits == 0 then n == 0 else 0 <= n < Pow2(nBits))
    ensures n / d == 0
  {
    if nBits > 0 { Pow2Mono(nBits, dBits - 1); }
    DivModUnique(n, d, 0, n);
  }

  lemma AllClear(s: seq<u32>, n: nat)
    requires forall j :: 0 <= j < |s| ==> s[j] == 0
    ensures LowClear(s, n)
  {
    forall j | 0 <= j < |s| && 32 * j <= n < 32 * j + 32 ensures ClearBelow(s[j], n - 32 * j) {
      ShlZero(n - 32 * j);
      assert s[j] == Shl(0, n - 32 * j);
    }
  }
}
