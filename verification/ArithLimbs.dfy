/** The in-place limb operations of fixed-width unsigned integers, for every width. */
module ArithLimbs {
  import opened ArithMath

  // ---------------------------------------------------------------------
  // Addition
  // ---------------------------------------------------------------------

  method AddAssign(pn: array<u32>, b: array<u32>)
    requires pn.Length == b.Length
    modifies pn
    ensures Value(pn[..]) == (old(Value(pn[..])) + old(Value(b[..]))) % Pow2(32 * pn.Length)
  {
    ghost var s, t := pn[..], b[..];
    var carry: nat, i := 0, 0;
    while i < pn.Length
      invariant 0 <= i <= pn.Length && carry <= 1
      invariant forall k :: i <= k < pn.Length ==> pn[k] == s[k] && b[k] == t[k]
      invariant Value(pn[..i]) + Scale(carry, i) == Value(s[..i]) + Value(t[..i])
    {
      assert pn[i] == s[i] && b[i] == t[i];
      var n: nat := carry + pn[i] + b[i];
      ghost var low := pn[..i];
      pn[i] := n % BASE;
      assert pn[..i + 1] == low + [n % BASE];
      AddStep(low, s, t, carry, n, i);
      carry := n / BASE;
      i := i + 1;
    }
    assert pn[..] == pn[..i] && s == s[..i] && t == t[..i];
    Truncated(pn[..], carry, Value(s) + Value(t));
  }

  lemma AddStep(low: seq<u32>, s: seq<u32>, t: seq<u32>, carry: nat, n: nat, i: nat)
    requires i < |s| == |t| && |low| == i && n == carry + s[i] + t[i]
    requires Value(low) + Scale(carry, i) == Value(s[..i]) + Value(t[..i])
    ensures Value(low + [n % BASE]) + Scale(n / BASE, i + 1) == Value(s[..i + 1]) + Value(t[..i + 1])
  {
    ValuePrefix(s, i);
    ValuePrefix(t, i);
    ValueAppend(low, n % BASE);
    CarryStep(n, i);
    ScaleAdd(carry + s[i], t[i], i);
    ScaleAdd(carry, s[i], i);
  }

  // ---------------------------------------------------------------------
  // Complement, increment, negation, subtraction
  // ---------------------------------------------------------------------

  function Complement(s: seq<u32>): seq<u32> {
    seq(|s|, i requires 0 <= i < |s| => BASE - 1 - s[i])
  }

  lemma {:induction false} ComplementValue(s: seq<u32>)
    ensures Value(Complement(s)) == Scale(1, |s|) - 1 - Value(s)
  {
    if s != [] {
      ComplementValue(s[1..]);
      assert Complement(s)[1..] == Complement(s[1..]);
    }
  }

  method ComplementOf(pn: array<u32>) returns (r: array<u32>)
    ensures fresh(r) && r.Length == pn.Length && r[..] == Complement(pn[..])
    ensures Value(r[..]) == Pow2(32 * pn.Length) - 1 - Value(pn[..])
  {
    r := new u32[pn.Length];
    for i := 0 to pn.Length
      invariant forall k :: 0 <= k < i ==> r[k] == BASE - 1 - pn[k]
    {
      r[i] := BASE - 1 - pn[i];
    }
    assert r[..] == Complement(pn[..]);
    ComplementValue(pn[..]);
    ScaleIsShl(1, pn.Length);
  }

  /** Adds one, carrying while limbs wrap to zero. */
  method Increment(pn: array<u32>)
    requires pn.Length > 0
    modifies pn
    ensures Value(pn[..]) == (old(Value(pn[..])) + 1) % Pow2(32 * pn.Length)
  {
    ghost var v := Value(pn[..]);
    var i := 0;
    while true
      invariant 0 <= i < pn.Length
      invariant Value(pn[..]) + Scale(1, i) == v + 1
      decreases pn.Length - i
    {
      ghost var s := pn[..];
      var x := (pn[i] + 1) % BASE;
      IncrementStep(s, i, x);
      pn[i] := x;
      assert pn[..] == s[i := x];
      if pn[i] != 0 || i == pn.Length - 1 { break; }
      i := i + 1;
    }
    if pn[i] != 0 { Exact(pn[..], v + 1); } else { Truncated(pn[..], 1, v + 1); }
  }

  lemma Exact(s: seq<u32>, v: int)
    requires Value(s) == v
    ensures Value(s) == v % Pow2(32 * |s|)
  {
    ScaleZero(|s|);
    Truncated(s, 0, v);
  }

  lemma IncrementStep(s: seq<u32>, i: nat, x: u32)
    requires i < |s| && x == (s[i] + 1) % BASE
    ensures Value(s[i := x]) + (if x == 0 then Scale(1, i + 1) else 0) == Value(s) + Scale(1, i)
  {
    ValueUpdate(s, i, x);
    var y: int := s[i];
    ScaleAdd(y, 1, i);
    if x == 0 {
      ScaleBase(1, i);
      ScaleZero(i);
    }
  }

  method Negated(b: array<u32>) returns (r: array<u32>)
    requires b.Length > 0
    ensures fresh(r) && r.Length == b.Length && Value(r[..]) == (-Value(b[..])) % Pow2(32 * b.Length)
  {
    r := ComplementOf(b);
    Increment(r);
    ModPlus(-Value(b[..]), Pow2(32 * b.Length));
  }

  method SubAssign(pn: array<u32>, b: array<u32>)
    requires pn.Length == b.Length > 0
    modifies pn
    ensures Value(pn[..]) == (old(Value(pn[..])) - old(Value(b[..]))) % Pow2(32 * pn.Length)
  {
    ghost var v, w := Value(pn[..]), Value(b[..]);
    var r := Negated(b);
    AddAssign(pn, r);
    ModShift(v, -w, (-w) % Pow2(32 * pn.Length), Pow2(32 * pn.Length));
  }

  // ---------------------------------------------------------------------
  // Multiplication
  // ---------------------------------------------------------------------

  lemma ProductBound(x: u32, y: u32)
    ensures 0 <= x * y <= (BASE - 1) * (BASE - 1)
  {
    MulMono(x, BASE - 1, y);
    MulMono(y, BASE - 1, BASE - 1);
    MulMono(0, x, y);
  }

  /** The next limb of a row `a * b`, added at limb `j` to the limbs `s`. */
  lemma RowStep(low: seq<u32>, s: seq<u32>, a: u32, b: seq<u32>, carry: nat, n: nat, i: nat, j: nat)
    requires i < |b| && i + j < |s| && |low| == i + j && n == carry + s[i + j] + a * b[i]
    requires Value(low) + Scale(carry, i + j) == Value(s[..i + j]) + Scale(a * Value(b[..i]), j)
    ensures Value(low + [n % BASE]) + Scale(n / BASE, i + j + 1) == Value(s[..i + j + 1]) + Scale(a * Value(b[..i + 1]), j)
  {
    ValuePrefix(s, i + j);
    ValuePrefix(b, i);
    ValueAppend(low, n % BASE);
    CarryStep(n, i + j);
    var p, d: int := a * b[i], s[i + j];
    ScaleAdd(carry + d, p, i + j);
    ScaleAdd(carry, d, i + j);
    RowTerm(a, Value(b[..i]), b[i], i, j);
  }

  lemma RowTerm(a: int, v: int, d: int, i: nat, j: nat)
    ensures Scale(a * (v + Scale(d, i)), j) == Scale(a * v, j) + Scale(a * d, i + j)
  {
    ScaleMul(a, d, i);
    assert a * (v + Scale(d, i)) == a * v + a * Scale(d, i);
    ScaleAdd(a * v, Scale(a * d, i), j);
    ScaleScale(a * d, i, j);
  }

  predicate AllZero(s: seq<u32>) {
    forall i :: 0 <= i < |s| ==> s[i] == 0
  }

  /** Adds the row `a * b` at limb `j`, dropping what does not fit; returns the carry out of the top. A number
      that is added to itself is zero. */
  method AddRow(pn: array<u32>, a: u32, b: array<u32>, j: nat) returns (carry: nat)
    requires pn.Length == b.Length && (pn == b ==> AllZero(pn[..])) && j <= pn.Length
    modifies pn
    ensures b[..] == old(b[..]) && (pn == b ==> AllZero(pn[..]))
    ensures Value(pn[..]) + Scale(carry, pn.Length) == old(Value(pn[..])) + Scale(a * Value(b[..pn.Length - j]), j)
  {
    ghost var s, t := pn[..], b[..];
    carry := 0;
    var i := 0;
    ScaleZero(j);
    assert pn[..j] == s[..j] && Value(t[..0]) == 0 && a * 0 == 0;
    while i + j < pn.Length
      invariant 0 <= i && i + j <= pn.Length && carry < BASE
      invariant forall k :: i + j <= k < pn.Length ==> pn[k] == s[k]
      invariant b[..] == t && (pn == b ==> carry == 0 && AllZero(t))
      invariant Value(pn[..i + j]) + Scale(carry, i + j) == Value(s[..i + j]) + Scale(a * Value(t[..i]), j)
    {
      assert pn[i + j] == s[i + j];
      ProductBound(a, b[i]);
      var n: nat := carry + pn[i + j] + a * b[i];
      assert n < BASE * BASE;
      ghost var low := pn[..i + j];
      assert pn == b ==> n == 0 by { assert t[i + j] == b[i + j] && t[i] == b[i]; }
      pn[i + j] := n % BASE;
      assert pn[..i + j + 1] == low + [n % BASE];
      RowStep(low, s, a, t, carry, n, i, j);
      carry := n / BASE;
      i := i + 1;
    }
    assert pn[..] == pn[..i + j] && s == s[..i + j];
  }

  /** The exact product of one more limb of the first factor, split at the width. */
  lemma ProductStep(a: seq<u32>, b: seq<u32>, j: nat, width: nat, v: int, high: int, w: int, carry: int)
    requires |a| == |b| == width && j < width
    requires v + Scale(high, width) == Value(a[..j]) * Value(b)
    requires w + Scale(carry, width) == v + Scale(a[j] * Value(b[..width - j]), j)
    ensures w + Scale(high + carry + a[j] * Value(b[width - j..]), width) == Value(a[..j + 1]) * Value(b)
  {
    ValuePrefix(a, j);
    ValueSplit(b, width - j);
    ProductTerm(Value(a[..j]), a[j], Value(b[..width - j]), Value(b[width - j..]), Value(b), j, width - j);
    ScaleAdd(high + carry, a[j] * Value(b[width - j..]), width);
    ScaleAdd(high, carry, width);
  }

  lemma ProductTerm(a: int, d: int, low: int, top: int, b: int, j: nat, m: nat)
    requires b == low + Scale(top, m)
    ensures (a + Scale(d, j)) * b == a * b + Scale(d * low, j) + Scale(d * top, j + m)
  {
    ScaleMul(b, d, j);
    RowTerm(d, low, top, m, j);
    Distribute(a, Scale(d, j), b);
    assert b * d == d * b;
  }

  lemma Distribute(x: int, y: int, z: int)
    ensures (x + y) * z == x * z + z * y
  {
  }

  /** Multiplies in place by another number. A number that is multiplied by itself in place becomes zero, since the
      second factor is read after the result is cleared. */
  method MulAssign(pn: array<u32>, b: array<u32>)
    requires pn.Length == b.Length
    modifies pn
    ensures pn != b ==> Value(pn[..]) == (old(Value(pn[..])) * old(Value(b[..]))) % Pow2(32 * pn.Length)
    ensures pn == b ==> Value(pn[..]) == 0
  {
    var a, j := pn[..], 0;
    SetZero(pn);
    ghost var t, width := b[..], pn.Length;
    ghost var high := 0;
    ScaleZero(width);
    assert Value(a[..0]) * Value(t) == 0;
    while j < pn.Length
      invariant 0 <= j <= pn.Length && b[..] == t && (pn == b ==> AllZero(pn[..]))
      invariant Value(pn[..]) + Scale(high, width) == Value(a[..j]) * Value(t)
    {
      ghost var v := Value(pn[..]);
      var carry := AddRow(pn, a[j], b, j);
      ProductStep(a, t, j, width, v, high, Value(pn[..]), carry);
      high := high + carry + a[j] * Value(t[width - j..]);
      j := j + 1;
    }
    assert a[..j] == a;
    Truncated(pn[..], high, Value(a) * Value(t));
    if pn == b { ValueZeros(pn[..]); }
  }

  method SetZero(pn: array<u32>)
    modifies pn
    ensures forall i :: 0 <= i < pn.Length ==> pn[i] == 0
    ensures Value(pn[..]) == 0
  {
    for i := 0 to pn.Length
      invariant forall k :: 0 <= k < i ==> pn[k] == 0
    {
      pn[i] := 0;
    }
    ValueZeros(pn[..]);
  }

  // ---------------------------------------------------------------------
  // Shifts
  // ---------------------------------------------------------------------

  /** A limb shifted left by less than its width, split at the width. */
  lemma SplitLeft(x: u32, s: nat, h: int, l: int)
    requires s < 32 && x == Shl(h, 32 - s) + l && 0 <= l < Pow2(32 - s) && 0 <= h
    ensures Shl(x, s) == Shl(l, s) + BASE * h && 0 <= Shl(l, s) < BASE && h < Pow2(s)
  {
    ShlAdd(Shl(h, 32 - s), l, s);
    ShlShl(h, 32 - s, s);
    Shl32(h);
    ShlLess(l, Pow2(32 - s), s);
    ShlShl(1, 32 - s, s);
    Shl32(1);
    ShlMono(0, l, s);
    ShlZero(s);
    HighPart(x, s, h);
  }

  lemma HighPart(x: u32, s: nat, h: int)
    requires s < 32 && Shl(h, 32 - s) <= x
    ensures h < Pow2(s)
  {
    if h >= Pow2(s) {
      ShlMono(Pow2(s), h, 32 - s);
      ShlShl(1, s, 32 - s);
      Shl32(1);
    }
  }

  /** Or-ing the low part of a shifted limb beside the high part of the one before it. */
  lemma OrLow(y: u32, l: nat, s: nat)
    requires s < 32 && y < Pow2(s) && l < Pow2(32 - s)
    ensures 0 <= Shl(l, s) && BitOr(y, Shl(l, s)) == y + Shl(l, s) < BASE
  {
    OrDisjoint(l, y, s);
    ShlMono(l + 1, Pow2(32 - s), s);
    ShlAdd(l, 1, s);
    ShlShl(1, 32 - s, s);
    Shl32(1);
  }

  /** The 32-bit operators on a limb. */
  function LimbShr(x: u32, k: nat): (h: u32)
    ensures 0 <= x - Shl(h, k) < Pow2(k)
  {
    DivPow2(x, k);
    var h := x / Pow2(k);
    ShrAtMost(x, h, k);
    h
  }

  lemma {:induction false} ShrAtMost(x: int, h: int, k: nat)
    requires 0 <= h && Shl(h, k) <= x
    ensures h <= x
  {
    if k > 0 { ShlMono(0, h, k - 1); ShlZero(k - 1); ShrAtMost(x, h, k - 1); }
  }

  function LimbShl(x: u32, k: nat): u32 {
    Shl(x, k) % BASE
  }

  lemma LimbSplit(x: u32, s: nat)
    requires s < 32
    ensures var h, l := LimbShr(x, 32 - s), x - Shl(LimbShr(x, 32 - s), 32 - s);
      && LimbShl(x, s) == Shl(l, s) && Shl(x, s) == Shl(l, s) + BASE * h && h < Pow2(s)
  {
    SplitLeft(x, s, LimbShr(x, 32 - s), x - Shl(LimbShr(x, 32 - s), 32 - s));
  }

  /** Ors the limb `d` in at place `m`, where it meets no set bit; `high` is its part that falls off the top. */
  method PutLimb(pn: array<u32>, m: nat, d: u32) returns (ghost high: int)
    requires m < pn.Length ==> BitOr(pn[m], d) == pn[m] + d < BASE
    modifies pn
    ensures m < pn.Length ==> pn[..] == old(pn[..])[m := old(pn[m]) + d]
    ensures if m < pn.Length then high == 0 && Value(pn[..]) == old(Value(pn[..])) + Scale(d, m) else pn[..] == old(pn[..])
    ensures Value(pn[..]) + Scale(high, pn.Length) == old(Value(pn[..])) + Scale(d, m)
  {
    if m < pn.Length {
      ghost var u := pn[..];
      ValueUpdate(u, m, u[m] + d);
      ScaleAdd(u[m], d, m);
      ScaleZero(pn.Length);
      pn[m] := BitOr(pn[m], d);
      assert pn[..] == u[m := u[m] + d];
      high := 0;
    } else {
      high := Scale(d, m - pn.Length);
      ScaleScale(d, m - pn.Length, pn.Length);
    }
  }

  /** Adds limb `x`, shifted left by `s` bits, at limb `m`; `high` is what falls off the top. */
  method PutLeft(pn: array<u32>, x: u32, m: nat, s: nat) returns (ghost high: int)
    requires s < 32 && (forall j :: m < j < pn.Length ==> pn[j] == 0) && (m < pn.Length ==> pn[m] < Pow2(s))
    modifies pn
    ensures Value(pn[..]) + Scale(high, pn.Length) == old(Value(pn[..])) + Scale(Shl(x, s), m)
    ensures (forall j :: m + 1 < j < pn.Length ==> pn[j] == 0) && (m + 1 < pn.Length ==> pn[m + 1] < Pow2(s))
  {
    ghost var h, l := LimbShr(x, 32 - s), x - Shl(LimbShr(x, 32 - s), 32 - s);
    LimbSplit(x, s);
    OrZero(h);
    OrSym(0, h);
    high := 0;
    ScaleZero(pn.Length);
    if s != 0 {
      high := PutLimb(pn, m + 1, LimbShr(x, 32 - s));
    } else {
      assert h == 0;
      ScaleZero(m + 1);
    }
    if m < pn.Length { OrLow(pn[m], l, s); }
    ghost var more := PutLimb(pn, m, LimbShl(x, s));
    ScaleAdd(high, more, pn.Length);
    ScaleAdd(Shl(l, s), BASE * h, m);
    ScaleBase(h, m);
    high := high + more;
  }

  lemma ShlScale(x: int, i: nat, k: nat, s: nat)
    ensures Shl(Scale(x, i), 32 * k + s) == Scale(Shl(x, s), i + k)
  {
    ScaleIsShl(x, i);
    ShlShl(x, 32 * i, 32 * k + s);
    ScaleIsShl(Shl(x, s), i + k);
    ShlShl(x, s, 32 * (i + k));
  }

  method ShiftLeft(pn: array<u32>, shift: nat)
    modifies pn
    ensures Value(pn[..]) == (old(Value(pn[..])) * Pow2(shift)) % Pow2(32 * pn.Length)
  {
    var a := pn[..];
    SetZero(pn);
    var k, s := shift / 32, shift % 32;
    ghost var high := 0;
    ScaleZero(pn.Length);
    ShlZero(shift);
    var i := 0;
    while i < pn.Length
      invariant 0 <= i <= pn.Length == |a|
      invariant Value(pn[..]) + Scale(high, pn.Length) == Shl(Value(a[..i]), shift)
      invariant (forall j :: i + k < j < pn.Length ==> pn[j] == 0) && (i + k < pn.Length ==> pn[i + k] < Pow2(s))
    {
      ValuePrefix(a, i);
      ShlAdd(Value(a[..i]), Scale(a[i], i), shift);
      ShlScale(a[i], i, k, s);
      ghost var more := PutLeft(pn, a[i], i + k, s);
      ScaleAdd(high, more, pn.Length);
      high := high + more;
      i := i + 1;
    }
    assert a[..i] == a;
    Truncated(pn[..], high, Shl(Value(a), shift));
    ShlIsProduct(Value(a), shift);
  }

  /** The parts of limb `i`, shifted right by `32 k + s` bits. */
  lemma RightParts(x: u32, i: nat, k: nat, s: nat, q: int, r: int)
    requires s < 32 && x == Shl(q, s) + r
    ensures i >= k ==> Scale(x, i) == Shl(Scale(q, i - k), 32 * k + s) + Scale(r, i)
    ensures i > k && s > 0 ==> Scale(r, i) == Shl(Scale(Shl(r, 32 - s), i - k - 1), 32 * k + s)
  {
    ScaleAdd(Shl(q, s), r, i);
    if i >= k {
      ShlScale(q, i - k, k, s);
    }
    if i > k && s > 0 {
      ShlScale(Shl(r, 32 - s), i - k - 1, k, s);
      ShlShl(r, 32 - s, s);
      Shl32(r);
      ScaleBase(r, i - 1);
    }
  }

  /** The bits that a right shift moves out of a limb. */
  function LimbRest(x: u32, s: nat): (r: int)
    ensures 0 <= r < Pow2(s) && x == Shl(LimbShr(x, s), s) + r
  {
    x - Shl(LimbShr(x, s), s)
  }

  /** The part of limb `i` that a right shift moves to the limb below it. */
  method PutRest(pn: array<u32>, x: u32, i: nat, k: nat, s: nat)
    requires s < 32 && k < i < pn.Length && pn[i - k - 1] < Pow2(32 - s)
    modifies pn
    ensures Shl(Value(pn[..]), 32 * k + s) == Shl(old(Value(pn[..])), 32 * k + s) + Scale(LimbRest(x, s), i)
    ensures forall j :: 0 <= j < pn.Length && j != i - k - 1 ==> pn[j] == old(pn[j])
  {
    ghost var r, v := LimbRest(x, s), Value(pn[..]);
    if s != 0 {
      RightParts(x, i, k, s, LimbShr(x, s), r);
      LimbSplit(x, 32 - s);
      OrLow(pn[i - k - 1], r, 32 - s);
      ShlAdd(v, Scale(Shl(r, 32 - s), i - k - 1), 32 * k + s);
      var _ := PutLimb(pn, i - k - 1, LimbShl(x, 32 - s));
    } else {
      ScaleZero(i);
    }
  }

  /** Adds limb `i`, shifted right by `32 k + s` bits; `low` is what falls off the bottom. */
  method PutRight(pn: array<u32>, x: u32, i: nat, k: nat, s: nat) returns (ghost low: int)
    requires s < 32 && i < pn.Length
    requires (forall j :: 0 <= j && i - k <= j < pn.Length ==> pn[j] == 0) && (i > k ==> pn[i - k - 1] < Pow2(32 - s))
    modifies pn
    ensures Shl(Value(pn[..]), 32 * k + s) + low == Shl(old(Value(pn[..])), 32 * k + s) + Scale(x, i)
    ensures (forall j :: 0 <= j && i - k < j < pn.Length ==> pn[j] == 0) && (i >= k ==> pn[i - k] < Pow2(32 - s))
    ensures i > k ==> low == 0
    ensures i == k ==> 0 <= low <= Scale(Pow2(s) - 1, i)
    ensures i < k ==> low == Scale(x, i) && pn[..] == old(pn[..])
  {
    if i < k {
      low := Scale(x, i);
    } else {
      ghost var q, r := LimbShr(x, s), LimbRest(x, s);
      RightParts(x, i, k, s, q, r);
      low := if i > k then 0 else Scale(r, i);
      if i > k {
        PutRest(pn, x, i, k, s);
      } else {
        ScaleWithin(r, Pow2(s) - 1, i);
      }
      LimbShrBound(x, s);
      OrZero(q);
      OrSym(0, q);
      ShlAdd(Value(pn[..]), Scale(q, i - k), 32 * k + s);
      var _ := PutLimb(pn, i - k, LimbShr(x, s));
    }
  }

  lemma ScaleWithin(r: int, m: int, i: nat)
    requires 0 <= r <= m
    ensures 0 <= Scale(r, i) <= Scale(m, i)
  {
    ScaleZero(i);
    if 0 < r { ScaleLess(0, r, i); }
    if r < m { ScaleLess(r, m, i); }
  }

  lemma LimbShrBound(x: u32, s: nat)
    requires s < 32
    ensures LimbShr(x, s) < Pow2(32 - s)
  {
    if s == 0 { Shl32(1); } else { HighPart(x, 32 - s, LimbShr(x, s)); }
  }

  method ShiftRight(pn: array<u32>, shift: nat)
    modifies pn
    ensures Value(pn[..]) == old(Value(pn[..])) / Pow2(shift)
  {
    var a := pn[..];
    SetZero(pn);
    var k, s := shift / 32, shift % 32;
    ghost var low := 0;
    ShlZero(shift);
    var i := 0;
    while i < pn.Length
      invariant 0 <= i <= pn.Length == |a|
      invariant Shl(Value(pn[..]), shift) + low == Value(a[..i])
      invariant i <= k ==> Value(pn[..]) == 0 && low == Value(a[..i])
      invariant i > k ==> 0 <= low < Pow2(shift)
      invariant (forall j :: 0 <= j && i - k <= j < pn.Length ==> pn[j] == 0) && (i > k ==> pn[i - k - 1] < Pow2(32 - s))
    {
      ValuePrefix(a, i);
      ValueBound(a[..i]);
      LowBound(low, i, k, s);
      ghost var more := PutRight(pn, a[i], i, k, s);
      low := low + more;
      i := i + 1;
    }
    assert a[..i] == a;
    ValueBound(a);
    if |a| <= k { SmallValue(a, k, shift); }
    DivPow2Unique(Value(a), shift, Value(pn[..]), low);
  }

  /** What falls off the bottom up to limb `k` is less than one unit of the result. */
  lemma LowBound(low: int, i: nat, k: nat, s: nat)
    ensures i == k && 0 <= low < Scale(1, i) ==> low + Scale(Pow2(s) - 1, i) < Pow2(32 * k + s)
  {
    if i == k && 0 <= low < Scale(1, i) {
      ScaleAdd(1, Pow2(s) - 1, i);
      ScaleIsShl(Pow2(s), i);
      ShlShl(1, s, 32 * k);
    }
  }

  lemma SmallValue(a: seq<u32>, k: nat, shift: nat)
    requires 32 * k <= shift && |a| <= k
    ensures Value(a) < Pow2(shift)
  {
    ValueBound(a);
    ScaleIsShl(1, |a|);
    Pow2Mono(32 * |a|, shift);
  }
}
