/** Numbers written in the bases 58 and 256, and the text encoding of byte strings that goes between them. */
module Base58 {
  import opened ArithMath

  type Byte = x: int | 0 <= x < 256

  // ---------------------------------------------------------------------
  // Numbers in a base
  // ---------------------------------------------------------------------

  function Power(base: nat, n: nat): nat {
    if n == 0 then 1 else base * Power(base, n - 1)
  }

  lemma {:induction false} PowerPositive(base: nat, n: nat)
    requires base > 0
    ensures Power(base, n) > 0
  {
    if n > 0 {
      PowerPositive(base, n - 1);
      MulMono(1, base, Power(base, n - 1));
    }
  }

  lemma {:induction false} PowerAdd(base: nat, m: nat, n: nat)
    ensures Power(base, m + n) == Power(base, m) * Power(base, n)
  {
    if m > 0 {
      PowerAdd(base, m - 1, n);
      Associate(base, Power(base, m - 1), Power(base, n));
    }
  }

  lemma Associate(x: int, y: int, z: int)
    ensures x * (y * z) == x * y * z
  {
  }

  lemma MulLess(x: nat, y: nat, u: nat, v: nat)
    requires x <= y && u <= v
    ensures x * u <= y * v
  {
    MulMono(x, y, u);
    MulMono(u, v, y);
  }

  lemma PowerMono(base: nat, m: nat, n: nat)
    requires base > 0 && m <= n
    ensures Power(base, m) <= Power(base, n)
  {
    PowerAdd(base, n - m, m);
    PowerPositive(base, n - m);
    PowerPositive(base, m);
    MulMono(1, Power(base, n - m), Power(base, m));
  }

  predicate AreDigits(base: nat, s: seq<int>) {
    forall i :: 0 <= i < |s| ==> 0 <= s[i] < base
  }

  /** The number that big-endian digits write. */
  function Number(base: nat, s: seq<int>): int {
    if s == [] then 0 else Number(base, s[..|s| - 1]) * base + s[|s| - 1]
  }

  /** The digits of a number, without leading zeros. */
  function Digits(base: nat, n: nat): (s: seq<int>)
    requires base > 1
    ensures AreDigits(base, s) && (s != [] ==> s[0] != 0) && (s == [] <==> n == 0)
  {
    if n == 0 then [] else
    Shrinks(n, base);
    Digits(base, n / base) + [n % base]
  }

  lemma Shrinks(n: nat, base: nat)
    requires n > 0 && base > 1
    ensures 0 <= n / base < n
  {
    var q := n / base;
    assert n == base * q + n % base;
    if q >= n { MulMono(2, base, q); }
  }

  lemma {:induction false} NumberOfDigits(base: nat, n: nat)
    requires base > 1
    ensures Number(base, Digits(base, n)) == n
  {
    if n > 0 {
      Shrinks(n, base);
      NumberOfDigits(base, n / base);
      NumberAppend(base, Digits(base, n / base), n % base);
      QuotientAndRest(n, base);
    }
  }

  lemma NumberAppend(base: nat, s: seq<int>, d: int)
    ensures Number(base, s + [d]) == Number(base, s) * base + d
  {
    assert (s + [d])[..|s|] == s;
  }

  lemma QuotientAndRest(n: nat, base: nat)
    requires base > 0
    ensures n / base * base + n % base == n
  {
  }

  lemma AppendBound(x: int, p: int, d: int, base: nat)
    requires 0 <= x < p && 0 <= d < base
    ensures 0 <= x * base + d < base * p
  {
    MulMono(x + 1, p, base);
    MulMono(0, x, base);
    assert (x + 1) * base == x * base + base;
  }

  lemma {:induction false} NumberBounds(base: nat, s: seq<int>)
    requires base > 0 && AreDigits(base, s)
    ensures 0 <= Number(base, s) < Power(base, |s|)
  {
    if s != [] {
      var t := s[..|s| - 1];
      NumberBounds(base, t);
      AppendBound(Number(base, t), Power(base, |t|), s[|s| - 1], base);
    }
  }

  /** Digits without leading zeros are the digits of the number they write. */
  lemma {:induction false} DigitsOfNumber(base: nat, s: seq<int>)
    requires base > 1 && AreDigits(base, s) && (s != [] ==> s[0] != 0)
    ensures 0 <= Number(base, s) && Digits(base, Number(base, s)) == s
  {
    if s != [] {
      var t, d := s[..|s| - 1], s[|s| - 1];
      DigitsOfNumber(base, t);
      MulMono(0, Number(base, t), base);
      DivModUnique(Number(base, s), base, Number(base, t), d);
      if t != [] { assert Number(base, s) > 0 by { FirstPositive(base, s); } }
    }
  }

  lemma {:induction false} FirstPositive(base: nat, s: seq<int>)
    requires base > 0 && AreDigits(base, s) && s != [] && s[0] != 0
    ensures Number(base, s) > 0
  {
    if |s| > 1 {
      FirstPositive(base, s[..|s| - 1]);
      MulMono(1, Number(base, s[..|s| - 1]), base);
    }
  }

  /** The number that two stretches of digits write. */
  lemma {:induction false} NumberConcat(base: nat, s: seq<int>, t: seq<int>)
    ensures Number(base, s + t) == Number(base, s) * Power(base, |t|) + Number(base, t)
  {
    if t == [] {
      assert s + t == s;
    } else {
      var u := t[..|t| - 1];
      NumberConcat(base, s, u);
      assert (s + t)[..|s + t| - 1] == s + u;
      ShiftBoth(Number(base, s), Power(base, |u|), Number(base, u), base);
    }
  }

  lemma ShiftBoth(a: int, p: int, b: int, base: int)
    ensures (a * p + b) * base == a * (base * p) + b * base
  {
    Associate(a, p, base);
    assert (a * p + b) * base == a * p * base + b * base;
    assert p * base == base * p;
  }

  lemma {:induction false} LeadingZeros(base: nat, s: seq<int>, k: nat)
    requires k <= |s| && forall i :: 0 <= i < k ==> s[i] == 0
    ensures Number(base, s) == Number(base, s[k..])
  {
    assert s == s[..k] + s[k..];
    NumberConcat(base, s[..k], s[k..]);
    ZeroNumber(base, s[..k]);
  }

  lemma {:induction false} ZeroNumber(base: nat, s: seq<int>)
    requires forall i :: 0 <= i < |s| ==> s[i] == 0
    ensures Number(base, s) == 0
  {
    if s != [] { ZeroNumber(base, s[..|s| - 1]); }
  }

  // ---------------------------------------------------------------------
  // The buffers are large enough
  // ---------------------------------------------------------------------

  /** The digits reserved for `n` bytes. */
  function EncodeSize(n: nat): nat { n * 138 / 100 + 1 }

  /** The bytes reserved for `n` characters. */
  function DecodeSize(n: nat): nat { n * 733 / 1000 + 1 }

  lemma Powers58()
    ensures Power(58, 7) == 2207984167552 && Power(58, 14) == 4875194084160298409672704
    ensures Power(58, 11) == 24986644000165537792 && Power(58, 15) == 282761256881297307761016832
  {
    assert Power(58, 3) == 195112 && Power(58, 4) == 11316496;
    PowerAdd(58, 4, 3);
    PowerAdd(58, 7, 7);
    PowerAdd(58, 7, 4);
    PowerAdd(58, 1, 14);
  }

  lemma Powers256()
    ensures Power(256, 4) == 4294967296 && Power(256, 8) == 18446744073709551616
    ensures Power(256, 11) == 309485009821345068724781056 && Power(256, 16) == 340282366920938463463374607431768211456
  {
    PowerAdd(256, 4, 4);
    assert Power(256, 3) == 16777216;
    PowerAdd(256, 8, 3);
    PowerAdd(256, 8, 8);
  }

  lemma Period8()
    ensures Power(256, 8) <= Power(58, 11)
  {
    Powers58();
    Powers256();
  }

  lemma Period15()
    ensures Power(58, 15) <= Power(256, 11)
  {
    Powers58();
    Powers256();
  }

  lemma Period71()
    ensures Power(58, 71) <= Power(256, 52)
  {
    Powers58();
    Powers256();
    PowerAdd(58, 14, 14);
    PowerAdd(58, 28, 28);
    PowerAdd(58, 56, 14);
    PowerAdd(58, 1, 70);
    PowerAdd(256, 16, 16);
    PowerAdd(256, 32, 16);
    PowerAdd(256, 48, 4);
  }

  lemma Grow(x: nat, u: nat, base: nat, c: nat, m: nat, n: nat)
    requires base > 0 && x <= Power(base, m) && u <= Power(base, n) && m + n <= c
    ensures x * u <= Power(base, c)
  {
    MulLess(x, Power(base, m), u, Power(base, n));
    PowerAdd(base, m, n);
    PowerMono(base, m + n, c);
  }

  /** `n` bytes fit the digits reserved for them. */
  lemma {:induction false} EncodeFits(n: nat)
    ensures Power(256, n) <= Power(58, EncodeSize(n))
  {
    if n >= 8 {
      EncodeFits(n - 8);
      Period8();
      PowerAdd(256, 8, n - 8);
      assert EncodeSize(n) >= 11 + EncodeSize(n - 8);
      Grow(Power(256, 8), Power(256, n - 8), 58, EncodeSize(n), 11, EncodeSize(n - 8));
    } else {
      var _ := FewBytesFit(n);
    }
  }

  lemma FewBytesFit(n: nat) returns (size: nat)
    requires n < 8
    ensures Power(256, n) <= Power(58, size) && size == EncodeSize(n)
  {
    match n
    case 0 =>
      size := 1;
      assert Power(256, 0) <= Power(58, 1);
    case 1 =>
      size := 2;
      assert Power(256, 1) <= Power(58, 2);
    case 2 =>
      size := 3;
      assert Power(256, 2) <= Power(58, 3);
    case 3 =>
      size := 5;
      assert Power(256, 3) <= Power(58, 5);
    case 4 =>
      size := 6;
      assert Power(256, 4) <= Power(58, 6);
    case 5 =>
      size := 7;
      assert Power(256, 5) <= Power(58, 7);
    case 6 =>
      size := 9;
      assert Power(256, 6) <= Power(58, 9);
    case 7 =>
      size := 10;
      assert Power(256, 7) <= Power(58, 10);
  }

  lemma FewCharactersFit(n: nat) returns (bytes: nat)
    requires n < 15
    ensures Power(58, n) <= Power(256, bytes) && 1000 * bytes <= 733 * n + 980
  {
    var q, r := n / 4, n % 4;
    bytes := 3 * q + r;
    assert Power(58, 4) <= Power(256, 3);
    ChunksFit(4, 3, q);
    assert Power(58, r) <= Power(256, r);
    MoreFit(4 * q, r, 3 * q, r, bytes);
  }

  lemma {:induction false} ChunksFit(c: nat, d: nat, k: nat)
    requires Power(58, c) <= Power(256, d)
    ensures Power(58, c * k) <= Power(256, d * k)
  {
    if k > 0 {
      ChunksFit(c, d, k - 1);
      assert c * k == c + c * (k - 1) && d * k == d + d * (k - 1);
      PowerAdd(58, c, c * (k - 1));
      Grow(Power(58, c), Power(58, c * (k - 1)), 256, d * k, d, d * (k - 1));
    } else {
      assert c * k == 0 && d * k == 0;
    }
  }

  lemma FifteensFit(k: nat)
    ensures Power(58, 15 * k) <= Power(256, 11 * k)
  {
    Period15();
    ChunksFit(15, 11, k);
  }

  lemma FewerThan71Fit(n: nat)
    requires n < 71
    ensures Power(58, n) <= Power(256, DecodeSize(n))
  {
    var k, r := n / 15, n % 15;
    FifteensFit(k);
    var bytes := FewCharactersFit(r);
    PowerAdd(58, 15 * k, r);
    Grow(Power(58, 15 * k), Power(58, r), 256, DecodeSize(n), 11 * k, bytes);
  }

  lemma MoreFit(n: nat, c: nat, a: nat, d: nat, size: nat)
    requires Power(58, n) <= Power(256, a) && Power(58, c) <= Power(256, d) && a + d <= size
    ensures Power(58, n + c) <= Power(256, size)
  {
    PowerAdd(58, n, c);
    Grow(Power(58, n), Power(58, c), 256, size, a, d);
  }

  /** `n` characters fit the bytes reserved for them. */
  lemma {:induction false} DecodeFits(n: nat)
    ensures Power(58, n) <= Power(256, DecodeSize(n))
  {
    if n >= 71 {
      DecodeFits(n - 71);
      Period71();
      MoreFit(n - 71, 71, DecodeSize(n - 71), 52, DecodeSize(n));
    } else {
      FewerThan71Fit(n);
    }
  }
}
