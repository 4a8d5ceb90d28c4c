/** Numbers as sequences of 32-bit limbs, least significant first. Products with powers of two are
    written as repeated doubling, which keeps the arithmetic of the proofs linear. */
module ArithMath {

  const BASE := 0x1_0000_0000

  type u32 = x: int | 0 <= x < BASE

  // ---------------------------------------------------------------------
  // Shifts of numbers
  // ---------------------------------------------------------------------

  /** `x` times `2^k`. */
  function Shl(x: int, k: nat): int {
    if k == 0 then x else 2 * Shl(x, k - 1)
  }

  function Pow2(k: nat): (p: int)
    ensures p > 0
  {
    ShlPositive(k);
    Shl(1, k)
  }

  lemma {:induction false} ShlPositive(k: nat)
    ensures Shl(1, k) > 0
  {
    if k > 0 { ShlPositive(k - 1); }
  }

  lemma {:induction false} ShlIsProduct(x: int, k: nat)
    ensures Shl(x, k) == x * Pow2(k)
  {
    if k > 0 { ShlIsProduct(x, k - 1); }
  }

  lemma {:induction false} ShlAdd(x: int, y: int, k: nat)
    ensures Shl(x + y, k) == Shl(x, k) + Shl(y, k)
  {
    if k > 0 { ShlAdd(x, y, k - 1); }
  }

  lemma {:induction false} ShlShl(x: int, j: nat, k: nat)
    ensures Shl(Shl(x, j), k) == Shl(x, j + k)
  {
    if k > 0 { ShlShl(x, j, k - 1); }
  }

  lemma {:induction false} ShlMono(x: int, y: int, k: nat)
    requires x <= y
    ensures Shl(x, k) <= Shl(y, k)
  {
    if k > 0 { ShlMono(x, y, k - 1); }
  }

  lemma {:induction false} ShlLess(x: int, y: int, k: nat)
    requires x < y
    ensures Shl(x, k) < Shl(y, k)
  {
    if k > 0 { ShlLess(x, y, k - 1); }
  }

  lemma {:induction false} ShlZero(k: nat)
    ensures Shl(0, k) == 0
  {
    if k > 0 { ShlZero(k - 1); }
  }

  lemma {:induction false} Pow2Mono(j: nat, k: nat)
    requires j <= k
    ensures Pow2(j) <= Pow2(k)
    decreases k
  {
    if j < k { Pow2Mono(j, k - 1); }
  }

  /** `x` times `2^(32 i)`. */
  function Scale(x: int, i: nat): int {
    if i == 0 then x else BASE * Scale(x, i - 1)
  }

  lemma Shl8(x: int)
    ensures Shl(x, 8) == 256 * x
  {
    assert Shl(x, 1) == 2 * x;
    assert Shl(x, 2) == 4 * x;
    assert Shl(x, 3) == 8 * x;
    assert Shl(x, 4) == 16 * x;
    assert Shl(x, 5) == 32 * x;
    assert Shl(x, 6) == 64 * x;
  }

  lemma Shl7(x: int)
    ensures Shl(x, 7) == 128 * x
  {
    Shl8(x);
  }

  lemma Shl32(x: int)
    ensures Shl(x, 32) == BASE * x
  {
    Shl8(x);
    Shl8(Shl(x, 8));
    Shl8(Shl(x, 16));
    Shl8(Shl(x, 24));
    ShlShl(x, 8, 8);
    ShlShl(x, 16, 8);
    ShlShl(x, 24, 8);
  }

  lemma {:induction false} ScaleIsShl(x: int, i: nat)
    ensures Scale(x, i) == Shl(x, 32 * i)
  {
    if i > 0 {
      ScaleIsShl(x, i - 1);
      ShlShl(x, 32 * (i - 1), 32);
      Shl32(Shl(x, 32 * (i - 1)));
    }
  }

  lemma {:induction false} ScaleAdd(x: int, y: int, i: nat)
    ensures Scale(x + y, i) == Scale(x, i) + Scale(y, i)
  {
    if i > 0 { ScaleAdd(x, y, i - 1); }
  }

  lemma {:induction false} ScaleLess(x: int, y: int, i: nat)
    requires x < y
    ensures Scale(x, i) < Scale(y, i)
  {
    if i > 0 { ScaleLess(x, y, i - 1); }
  }

  lemma {:induction false} ScaleBase(x: int, i: nat)
    ensures Scale(BASE * x, i) == Scale(x, i + 1)
  {
    if i > 0 { ScaleBase(x, i - 1); }
  }

  lemma {:induction false} ScaleZero(i: nat)
    ensures Scale(0, i) == 0
  {
    if i > 0 { ScaleZero(i - 1); }
  }

  /** Splitting off a carry loses nothing. */
  lemma CarryStep(n: int, i: nat)
    ensures Scale(n % BASE, i) + Scale(n / BASE, i + 1) == Scale(n, i)
  {
    ScaleAdd(n % BASE, BASE * (n / BASE), i);
    ScaleBase(n / BASE, i);
  }

  // ---------------------------------------------------------------------
  // Limbs
  // ---------------------------------------------------------------------

  function Value(s: seq<u32>): int {
    if s == [] then 0 else s[0] + BASE * Value(s[1..])
  }

  lemma {:induction false} ValueAppend(low: seq<u32>, digit: u32)
    ensures Value(low + [digit]) == Value(low) + Scale(digit, |low|)
  {
    if low != [] {
      ValueAppend(low[1..], digit);
      assert (low + [digit])[1..] == low[1..] + [digit];
    }
  }

  lemma ValuePrefix(s: seq<u32>, i: nat)
    requires i < |s|
    ensures Value(s[..i + 1]) == Value(s[..i]) + Scale(s[i], i)
  {
    ValueAppend(s[..i], s[i]);
    assert s[..i + 1] == s[..i] + [s[i]];
  }

  lemma {:induction false} ValueBound(s: seq<u32>)
    ensures 0 <= Value(s) < Scale(1, |s|)
  {
    if s != [] { ValueBound(s[1..]); }
  }

  lemma {:induction false} ValueUpdate(s: seq<u32>, i: nat, x: u32)
    requires i < |s|
    ensures Value(s[i := x]) == Value(s) - Scale(s[i], i) + Scale(x, i)
  {
    if i > 0 {
      ValueUpdate(s[1..], i - 1, x);
      assert s[i := x][1..] == s[1..][i - 1 := x];
    } else {
      assert s[i := x][1..] == s[1..];
    }
  }

  lemma {:induction false} ValueZeros(s: seq<u32>)
    requires forall i :: 0 <= i < |s| ==> s[i] == 0
    ensures Value(s) == 0
  {
    if s != [] { ValueZeros(s[1..]); }
  }

  // ---------------------------------------------------------------------
  // Bitwise or
  // ---------------------------------------------------------------------

  function BitOr(x: nat, y: nat): nat {
    if x == 0 && y == 0 then 0
    else 2 * BitOr(x / 2, y / 2) + if x % 2 == 1 || y % 2 == 1 then 1 else 0
  }

  lemma {:induction false} OrZero(x: nat)
    ensures BitOr(x, 0) == x
  {
    if x > 0 { OrZero(x / 2); }
  }

  lemma {:induction false} OrSym(x: nat, y: nat)
    ensures BitOr(x, y) == BitOr(y, x)
    decreases x + y
  {
    if x != 0 || y != 0 { OrSym(x / 2, y / 2); }
  }

  /** The bits of a number below `2^k` fit beside those of a multiple of `2^k`. */
  lemma {:induction false} OrDisjoint(q: nat, y: nat, k: nat)
    requires y < Pow2(k)
    ensures Shl(q, k) >= 0 && BitOr(Shl(q, k), y) == Shl(q, k) + y && BitOr(y, Shl(q, k)) == Shl(q, k) + y
  {
    ShlMono(0, q, k);
    ShlZero(k);
    var x := Shl(q, k);
    OrSym(x, y);
    if k == 0 {
      OrZero(x);
    } else if x != 0 || y != 0 {
      OrDisjoint(q, y / 2, k - 1);
    }
  }

  // ---------------------------------------------------------------------
  // Division with remainder
  // ---------------------------------------------------------------------

  lemma MulMono(x: int, y: int, w: int)
    requires x <= y && w >= 0
    ensures x * w <= y * w
  {
  }

  lemma DivModUnique(a: int, d: int, q: int, r: int)
    requires d > 0 && a == q * d + r && 0 <= r < d
    ensures a / d == q && a % d == r
  {
    var q1, r1 := a / d, a % d;
    assert a == d * q1 + r1;
    assert (q - q1) * d == r1 - r;
    if q > q1 {
      MulMono(1, q - q1, d);
    } else if q < q1 {
      MulMono(q - q1, -1, d);
    }
  }

  /** The value that is left when `high` is carried out of the top limb is the exact value modulo the width. */
  lemma Truncated(s: seq<u32>, high: int, exact: int)
    requires Value(s) + Scale(high, |s|) == exact
    ensures Value(s) == exact % Pow2(32 * |s|)
  {
    ValueBound(s);
    ScaleIsShl(1, |s|);
    ScaleIsShl(high, |s|);
    ShlIsProduct(high, 32 * |s|);
    DivModUnique(exact, Pow2(32 * |s|), high, Value(s));
  }

  lemma {:induction false} ScaleScale(x: int, i: nat, j: nat)
    ensures Scale(Scale(x, i), j) == Scale(x, i + j)
  {
    if j > 0 { ScaleScale(x, i, j - 1); }
  }

  lemma {:induction false} ScaleMul(c: int, x: int, i: nat)
    ensures Scale(c * x, i) == c * Scale(x, i)
  {
    if i > 0 {
      ScaleMul(c, x, i - 1);
      assert BASE * (c * Scale(x, i - 1)) == c * (BASE * Scale(x, i - 1));
    }
  }

  lemma {:induction false} ValueSplit(s: seq<u32>, i: nat)
    requires i <= |s|
    ensures Value(s) == Value(s[..i]) + Scale(Value(s[i..]), i)
  {
    if i > 0 {
      ValueSplit(s[1..], i - 1);
      assert s[..i][1..] == s[1..][..i - 1] && s[1..][i - 1..] == s[i..];
    }
  }

  /** Division by a power of two, by shifting back. */
  lemma DivPow2(x: int, k: nat)
    ensures x == Shl(x / Pow2(k), k) + x % Pow2(k) && 0 <= x % Pow2(k) < Pow2(k)
    ensures x >= 0 ==> x / Pow2(k) >= 0
  {
    var q, r := x / Pow2(k), x % Pow2(k);
    assert x == Pow2(k) * q + r;
    ShlIsProduct(q, k);
    if q < 0 { MulMono(q, -1, Pow2(k)); }
  }

  lemma DivPow2Unique(x: int, k: nat, q: int, r: int)
    requires x == Shl(q, k) + r && 0 <= r < Pow2(k)
    ensures x / Pow2(k) == q && x % Pow2(k) == r
  {
    ShlIsProduct(q, k);
    DivModUnique(x, Pow2(k), q, r);
  }

  lemma ModPlus(a: int, m: int)
    requires m > 0
    ensures (a + m) % m == a % m
  {
    var q, x := a / m, a % m;
    assert a == m * q + x;
    assert a + m == (q + 1) * m + x;
    DivModUnique(a + m, m, q + 1, x);
  }

  lemma ModShift(a: int, b: int, y: int, m: int)
    requires m > 0 && y == b % m
    ensures (a + y) % m == (a + b) % m
  {
    var k, x, q := b / m, (a + b) % m, (a + b) / m;
    assert b == m * k + y && a + b == m * q + x;
    assert a + y == (q - k) * m + x;
    DivModUnique(a + y, m, q - k, x);
  }
}
