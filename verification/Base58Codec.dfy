/** Base 58 text: encoding, decoding, and the variants with a checksum. */
module Base58Codec {
  import opened Common
  import opened ArithMath
  import opened Base58

  // ---------------------------------------------------------------------
  // The alphabet
  // ---------------------------------------------------------------------

  const ALPHABET: string := "123456789" + "ABCDEFGH" + "JKLMN" + "PQRSTUVWXYZ" + "abcdefghijk" + "mnopqrstuvwxyz"

  /** Character number `d` of the alphabet, by its ranges. */
  function CharOf(d: nat): char
    requires d < 58
  {
    if d < 9 then '1' + (d as char)
    else if d < 17 then 'A' + ((d - 9) as char)
    else if d < 22 then 'J' + ((d - 17) as char)
    else if d < 33 then 'P' + ((d - 22) as char)
    else if d < 44 then 'a' + ((d - 33) as char)
    else 'm' + ((d - 44) as char)
  }

  lemma Numerals(d: nat)
    requires 0 <= d < 9
    ensures ALPHABET[d] == CharOf(d)
  {
    assert ALPHABET[d] == "123456789"[d - 0];
  }

  lemma UpToH(d: nat)
    requires 9 <= d < 17
    ensures ALPHABET[d] == CharOf(d)
  {
    assert ALPHABET[d] == "ABCDEFGH"[d - 9];
  }

  lemma UpToN(d: nat)
    requires 17 <= d < 22
    ensures ALPHABET[d] == CharOf(d)
  {
    assert ALPHABET[d] == "JKLMN"[d - 17];
  }

  lemma UpToZ(d: nat)
    requires 22 <= d < 33
    ensures ALPHABET[d] == CharOf(d)
  {
    assert ALPHABET[d] == "PQRSTUVWXYZ"[d - 22];
  }

  lemma UpToK(d: nat)
    requires 33 <= d < 44
    ensures ALPHABET[d] == CharOf(d)
  {
    assert ALPHABET[d] == "abcdefghijk"[d - 33];
  }

  lemma UpToLast(d: nat)
    requires 44 <= d < 58
    ensures ALPHABET[d] == CharOf(d)
  {
    assert ALPHABET[d] == "mnopqrstuvwxyz"[d - 44];
  }

  lemma AlphabetRanges(d: nat)
    requires d < 58
    ensures ALPHABET[d] == CharOf(d)
  {
    if d < 9 { Numerals(d); }
    else if d < 17 { UpToH(d); }
    else if d < 22 { UpToN(d); }
    else if d < 33 { UpToZ(d); }
    else if d < 44 { UpToK(d); }
    else { UpToLast(d); }
  }

  /** Where the search for a character in a text, from position `i` on, ends; -1 if it is not there. */
  function Search(text: string, c: char, i: nat): int
    requires i <= |text|
    decreases |text| - i
  {
    if i == |text| then -1 else if text[i] == c then i else Search(text, c, i + 1)
  }

  lemma {:induction false} SearchFinds(text: string, c: char, i: nat)
    requires i <= |text|
    ensures -1 <= Search(text, c, i) < |text|
    ensures Search(text, c, i) >= 0 ==> i <= Search(text, c, i) && text[Search(text, c, i)] == c
    ensures Search(text, c, i) < 0 ==> forall d :: i <= d < |text| ==> text[d] != c
    decreases |text| - i
  {
    if i < |text| { SearchFinds(text, c, i + 1); }
  }

  /** The digit of a character, or -1. */
  function DigitOf(c: char): (d: int)
    ensures -1 <= d < 58
  {
    SearchFinds(ALPHABET, c, 0);
    Search(ALPHABET, c, 0)
  }

  lemma DigitOfChar(d: nat)
    requires d < 58
    ensures DigitOf(CharOf(d)) == d
  {
    var c := CharOf(d);
    SearchFinds(ALPHABET, c, 0);
    AlphabetRanges(d);
    var e := Search(ALPHABET, c, 0);
    AlphabetRanges(e);
  }

  lemma CharOfDigit(c: char)
    requires DigitOf(c) >= 0
    ensures CharOf(DigitOf(c)) == c
  {
    SearchFinds(ALPHABET, c, 0);
    AlphabetRanges(DigitOf(c));
  }

  // ---------------------------------------------------------------------
  // The encoding
  // ---------------------------------------------------------------------

  /** The number of leading zeros. */
  function Zeros(s: seq<int>): (z: nat)
    ensures z <= |s| && (forall i :: 0 <= i < z ==> s[i] == 0) && (z < |s| ==> s[z] != 0)
  {
    if s == [] || s[0] != 0 then 0 else 1 + Zeros(s[1..])
  }

  lemma {:induction false} ZerosUnique(s: seq<int>, z: nat)
    requires z <= |s| && (forall i :: 0 <= i < z ==> s[i] == 0) && (z < |s| ==> s[z] != 0)
    ensures Zeros(s) == z
  {
  }

  function Chars(s: seq<int>): string
    requires AreDigits(58, s)
  {
    seq(|s|, i requires 0 <= i < |s| => CharOf(s[i]))
  }

  function Repeat<T>(x: T, n: nat): seq<T> { seq(n, _ => x) }

  /** The text of a byte string: a one for each leading zero, then the rest as a number in base 58. */
  function Encode(v: seq<Byte>): string {
    var z := Zeros(v);
    NumberBounds(256, v[z..]);
    Repeat('1', z) + Chars(Digits(58, Number(256, v[z..])))
  }

  // ---------------------------------------------------------------------
  // The decoding
  // ---------------------------------------------------------------------

  predicate IsSpace(c: char) {
    c == ' ' || ('\t' <= c <= '\r')
  }

  /** The length of the longest prefix of spaces. */
  function Spaces(s: string): (n: nat)
    ensures n <= |s| && (forall i :: 0 <= i < n ==> IsSpace(s[i])) && (n < |s| ==> !IsSpace(s[n]))
  {
    if s == [] || !IsSpace(s[0]) then 0 else 1 + Spaces(s[1..])
  }

  /** The length of the longest prefix of ones. */
  function Ones(s: string): (n: nat)
    ensures n <= |s| && (forall i :: 0 <= i < n ==> s[i] == '1') && (n < |s| ==> s[n] != '1')
  {
    if s == [] || s[0] != '1' then 0 else 1 + Ones(s[1..])
  }

  /** The length of the longest prefix without spaces. */
  function Word(s: string): (n: nat)
    ensures n <= |s| && (forall i :: 0 <= i < n ==> !IsSpace(s[i])) && (n < |s| ==> IsSpace(s[n]))
  {
    if s == [] || IsSpace(s[0]) then 0 else 1 + Word(s[1..])
  }

  predicate AllDigits(s: string) {
    forall i :: 0 <= i < |s| ==> DigitOf(s[i]) >= 0
  }

  function DigitsOf(s: string): (d: seq<int>)
    requires AllDigits(s)
    ensures |d| == |s| && AreDigits(58, d)
  {
    seq(|s|, i requires 0 <= i < |s| => DigitOf(s[i]))
  }

  /** What the rest of a text stands for, after spaces and `z` ones. */
  function DecodeRest(z: nat, u: string): Option<seq<Byte>> {
    var w := u[..Word(u)];
    if !AllDigits(w) then None
    else if Spaces(u[|w|..]) < |u| - |w| then None
    else
      NumberBounds(58, DigitsOf(w));
      Some(Repeat(0, z) + Digits(256, Number(58, DigitsOf(w))))
  }

  /** The bytes that a text stands for: spaces around it are ignored; any other foreign character is an error.
      A text ends where it is terminated, and has no null character in it. */
  function Decode(s: string): Option<seq<Byte>> {
    var t := s[Spaces(s)..];
    DecodeRest(Ones(t), t[Ones(t)..])
  }

  // ---------------------------------------------------------------------
  // Round trips
  // ---------------------------------------------------------------------

  lemma {:induction false} OnesUnique(s: string, z: nat)
    requires z <= |s| && (forall i :: 0 <= i < z ==> s[i] == '1') && (z < |s| ==> s[z] != '1')
    ensures Ones(s) == z
  {
  }

  /** A text over the alphabet is one word without spaces. */
  lemma PlainText(s: string)
    requires AllDigits(s)
    ensures Spaces(s) == 0 && Word(s) == |s|
  {
    forall i | 0 <= i < |s| ensures !IsSpace(s[i]) {
      NotSpace(s[i]);
    }
  }

  lemma NotSpace(c: char)
    requires DigitOf(c) >= 0
    ensures !IsSpace(c)
  {
    CharOfDigit(c);
  }

  lemma FirstChar(c: char)
    requires DigitOf(c) >= 0
    ensures DigitOf(c) == 0 <==> c == '1'
  {
    CharOfDigit(c);
  }

  lemma CharsRoundTrip(d: seq<int>)
    requires AreDigits(58, d)
    ensures AllDigits(Chars(d)) && DigitsOf(Chars(d)) == d
  {
    forall i | 0 <= i < |d| ensures DigitOf(Chars(d)[i]) == d[i] {
      DigitOfChar(d[i]);
    }
  }

  lemma DigitsRoundTrip(s: string)
    requires AllDigits(s)
    ensures Chars(DigitsOf(s)) == s
  {
    forall i | 0 <= i < |s| ensures CharOf(DigitOf(s[i])) == s[i] {
      CharOfDigit(s[i]);
    }
  }

  /** What a plain text decodes to. */
  lemma DecodePlain(z: nat, u: string)
    requires AllDigits(u) && (u != [] ==> u[0] != '1')
    ensures 0 <= Number(58, DigitsOf(u))
    ensures Decode(Repeat('1', z) + u) == Some(Repeat(0, z) + Digits(256, Number(58, DigitsOf(u))))
  {
    var s := Repeat('1', z) + u;
    forall i | 0 <= i < |s| ensures DigitOf(s[i]) >= 0 {
      if i < z { DigitOfChar(0); }
    }
    PlainText(s);
    OnesUnique(s, z);
    assert s[0..] == s && s[z..] == u;
    PlainText(u);
    assert u[..Word(u)] == u && u[|u|..] == [];
    NumberBounds(58, DigitsOf(u));
  }

  /** The text of a number after `z` ones decodes to `z` zeros and the bytes of the number. */
  lemma NumberText(z: nat, n: nat)
    ensures Decode(Repeat('1', z) + Chars(Digits(58, n))) == Some(Repeat(0, z) + Digits(256, n))
  {
    var d := Digits(58, n);
    CharsRoundTrip(d);
    if d != [] { NotOne(d[0]); }
    DecodePlain(z, Chars(d));
    NumberOfDigits(58, n);
  }

  lemma NotOne(d: nat)
    requires 0 < d < 58
    ensures CharOf(d) != '1'
  {
  }

  lemma ZerosAndRest(v: seq<Byte>, z: nat)
    requires z == Zeros(v)
    ensures 0 <= Number(256, v[z..]) && Repeat(0, z) + Digits(256, Number(256, v[z..])) == v
  {
    DigitsOfNumber(256, v[z..]);
  }

  /** Every byte string is recovered from its text. */
  lemma BytesRoundTrip(v: seq<Byte>)
    ensures Decode(Encode(v)) == Some(v)
  {
    var z := Zeros(v);
    ZerosAndRest(v, z);
    var n := Number(256, v[z..]);
    NumberText(z, n);
    assert Encode(v) == Repeat('1', z) + Chars(Digits(58, n));
  }

  /** Every text over the alphabet is recovered from the bytes it stands for. */
  lemma TextRoundTrip(s: string)
    requires AllDigits(s)
    ensures Decode(s).Some? && Encode(Decode(s).value) == s
  {
    var z := Ones(s);
    var u := s[z..];
    assert s == Repeat('1', z) + u;
    DecodePlain(z, u);
    var d := DigitsOf(u);
    if u != [] { FirstChar(u[0]); }
    var n := Number(58, d);
    var v := Repeat(0, z) + Digits(256, n);
    ZerosUnique(v, z);
    assert v[z..] == Digits(256, n);
    NumberOfDigits(256, n);
    DigitsOfNumber(58, d);
    DigitsRoundTrip(u);
  }

  // ---------------------------------------------------------------------
  // The digit buffers
  // ---------------------------------------------------------------------

  lemma DigitStep(base: nat, factor: nat, p: int, carry: int, d: int, now: int, was: int, add: int)
    requires base > 0 && now + carry * p == factor * was + add
    ensures var total := carry + factor * d;
            total % base * p + now + total / base * (base * p) == factor * (d * p + was) + add
  {
    var total := carry + factor * d;
    var x, q := total % base, total / base;
    assert total == base * q + x;
    Associate(q, base, p);
    assert x * p + q * base * p == (x + q * base) * p;
    assert total * p == carry * p + factor * d * p;
    Associate(factor, d, p);
    assert factor * (d * p + was) == factor * (d * p) + factor * was;
  }

  lemma NumberPrepend(base: nat, d: int, s: seq<int>)
    ensures Number(base, [d] + s) == d * Power(base, |s|) + Number(base, s)
  {
    NumberConcat(base, [d], s);
    assert Number(base, [d]) == d by { assert [d][..0] == []; }
  }

  lemma CarryOut(carry: int, p: int, now: int)
    requires 0 <= carry && 0 <= now && 0 < p && now + carry * p < p
    ensures carry == 0
  {
    if carry >= 1 { MulMono(1, carry, p); }
  }

  /** The part of a buffer that has been multiplied, from position `k` on. */
  ghost predicate Multiplied(base: nat, factor: nat, was: seq<int>, now: seq<int>, k: nat, carry: int, add: int)
    requires k <= |was| == |now|
  {
    && AreDigits(base, now) && carry >= 0
    && now[..k] == was[..k]
    && Number(base, now[k..]) + carry * Power(base, |was| - k) == factor * Number(base, was[k..]) + add
  }

  lemma MultipliedNext(base: nat, factor: nat, was: seq<int>, now: seq<int>, k: nat, carry: int, add: int)
    requires base > 0 && 0 < k <= |was| == |now| && AreDigits(base, was)
    requires Multiplied(base, factor, was, now, k, carry, add)
    ensures var total := carry + factor * was[k - 1];
            Multiplied(base, factor, was, now[k - 1 := total % base], k - 1, total / base, add)
  {
    var d := was[k - 1];
    var total := carry + factor * d;
    var next := now[k - 1 := total % base];
    assert next[k - 1..] == [total % base] + now[k..];
    assert was[k - 1..] == [d] + was[k..];
    NumberPrepend(base, total % base, now[k..]);
    NumberPrepend(base, d, was[k..]);
    DigitStep(base, factor, Power(base, |was| - k), carry, d, Number(base, now[k..]), Number(base, was[k..]), add);
    MulMono(0, d, factor);
    TotalPositive(total, base);
    assert next[..k - 1] == was[..k - 1] by { assert now[..k][..k - 1] == was[..k][..k - 1]; }
  }

  lemma TotalPositive(total: int, base: nat)
    requires total >= 0 && base > 0
    ensures 0 <= total % base < base && total / base >= 0
  {
    var q := total / base;
    assert total == base * q + total % base;
    if q < 0 { MulMono(q, -1, base); }
  }

  /** At the end of the buffer there is no carry left. */
  lemma EndReached(base: nat, factor: nat, was: seq<int>, now: seq<int>, carry: int, add: int)
    requires base > 0 && |was| == |now| && Multiplied(base, factor, was, now, 0, carry, add)
    requires factor * Number(base, was) + add < Power(base, |was|)
    ensures carry == 0 && Number(base, now) == factor * Number(base, was) + add
  {
    assert now[0..] == now && was[0..] == was;
    NumberBounds(base, now);
    PowerPositive(base, |was|);
    CarryOut(carry, Power(base, |was|), Number(base, now));
  }

  /** When only zeros are left and the carry is gone, the whole buffer is multiplied. */
  lemma ZerosLeft(base: nat, factor: nat, was: seq<int>, now: seq<int>, k: nat, add: int)
    requires k <= |was| == |now| && Multiplied(base, factor, was, now, k, 0, add)
    requires forall i :: 0 <= i < k ==> was[i] == 0
    ensures Number(base, now) == factor * Number(base, was) + add && forall i :: 0 <= i < k ==> now[i] == 0
  {
    forall i | 0 <= i < k ensures now[i] == 0 {
      assert now[i] == now[..k][i] && was[i] == was[..k][i];
    }
    LeadingZeros(base, now, k);
    LeadingZeros(base, was, k);
  }

  /** One round of the loop below: `carry` and one digit are replaced. */
  method MultiplyDigit(buffer: array<int>, j: nat, base: nat, factor: nat, carry: int) returns (rest: int)
    requires base > 0 && j < buffer.Length
    modifies buffer
    ensures var total := carry + factor * old(buffer[j]);
            buffer[..] == old(buffer[..])[j := total % base] && rest == total / base
  {
    rest := carry + factor * buffer[j];
    buffer[j] := rest % base;
    rest := rest / base;
  }

  /** Multiplies the number in a buffer and adds a digit. Only the last `length` digits can be other
      than zero; returns how many digits that is afterwards. */
  method MultiplyAdd(buffer: array<int>, base: nat, factor: nat, add: nat, length: nat) returns (used: nat)
    requires base > 0 && AreDigits(base, buffer[..]) && length <= buffer.Length
    requires forall i :: 0 <= i < buffer.Length - length ==> buffer[i] == 0
    requires factor * Number(base, buffer[..]) + add < Power(base, buffer.Length)
    modifies buffer
    ensures AreDigits(base, buffer[..]) && used <= buffer.Length
    ensures forall i :: 0 <= i < buffer.Length - used ==> buffer[i] == 0
    ensures Number(base, buffer[..]) == factor * old(Number(base, buffer[..])) + add
  {
    ghost var was := buffer[..];
    var carry: int, i := add, 0;
    assert was[buffer.Length..] == [];
    while (carry != 0 || i < length) && i < buffer.Length
      invariant 0 <= i <= buffer.Length
      invariant Multiplied(base, factor, was, buffer[..], buffer.Length - i, carry, add)
    {
      ghost var now := buffer[..];
      var j := buffer.Length - 1 - i;
      assert now[j] == was[j] by { assert now[..j + 1][j] == was[..j + 1][j]; }
      MultipliedNext(base, factor, was, now, j + 1, carry, add);
      carry := MultiplyDigit(buffer, j, base, factor, carry);
      i := i + 1;
    }
    if i == buffer.Length {
      EndReached(base, factor, was, buffer[..], carry, add);
    } else {
      ZerosLeft(base, factor, was, buffer[..], buffer.Length - i, add);
    }
    assert carry == 0;
    used := i;
  }

  // ---------------------------------------------------------------------
  // Encoding and decoding with buffers
  // ---------------------------------------------------------------------

  method CountZeros(v: seq<int>, from: nat) returns (z: nat)
    requires from <= |v|
    ensures z == from + Zeros(v[from..])
  {
    z := from;
    while z < |v| && v[z] == 0
      invariant from <= z <= |v| && forall i :: from <= i < z ==> v[i] == 0
    {
      z := z + 1;
    }
    ZerosUnique(v[from..], z - from);
  }

  /** A prefix of bytes fits the buffer. */
  lemma EncodeRoom(bytes: seq<Byte>, k: nat)
    requires k < |bytes|
    ensures 256 * Number(256, bytes[..k]) + bytes[k] == Number(256, bytes[..k + 1]) < Power(58, EncodeSize(|bytes|))
  {
    assert bytes[..k + 1] == bytes[..k] + [bytes[k]];
    NumberAppend(256, bytes[..k], bytes[k]);
    NumberBounds(256, bytes[..k + 1]);
    PowerMono(256, k + 1, |bytes|);
    EncodeFits(|bytes|);
  }

  /** Turns bytes into digits. The buffer of the size that is reserved is never too short. */
  method ToBase58(bytes: seq<Byte>) returns (digits: seq<int>)
    ensures AreDigits(58, digits) && Number(58, digits) == Number(256, bytes)
  {
    var size := |bytes| * 138 / 100 + 1;
    var b58 := new int[size](_ => 0);
    ZeroNumber(58, b58[..]);
    var length: nat, k := 0, 0;
    assert bytes[..0] == [];
    while k < |bytes|
      invariant 0 <= k <= |bytes| && length <= size && AreDigits(58, b58[..])
      invariant forall i :: 0 <= i < size - length ==> b58[i] == 0
      invariant Number(58, b58[..]) == Number(256, bytes[..k])
    {
      EncodeRoom(bytes, k);
      length := MultiplyAdd(b58, 58, 256, bytes[k], length);
      k := k + 1;
    }
    assert bytes[..k] == bytes;
    LeadingZeros(58, b58[..], size - length);
    digits := b58[size - length..];
    assert b58[..][size - length..] == digits;
  }

  /** The digits after the leading zeros are those of the number. */
  lemma StrippedDigits(base: nat, s: seq<int>)
    requires base > 1 && AreDigits(base, s)
    ensures 0 <= Number(base, s) && s[Zeros(s)..] == Digits(base, Number(base, s))
  {
    LeadingZeros(base, s, Zeros(s));
    DigitsOfNumber(base, s[Zeros(s)..]);
  }

  method AppendChars(prefix: string, digits: seq<int>) returns (text: string)
    requires AreDigits(58, digits)
    ensures text == prefix + Chars(digits)
  {
    text := prefix;
    var it := 0;
    while it < |digits|
      invariant 0 <= it <= |digits| && text == prefix + Chars(digits[..it])
    {
      AlphabetRanges(digits[it]);
      assert Chars(digits[..it + 1]) == Chars(digits[..it]) + [CharOf(digits[it])];
      text := text + [ALPHABET[digits[it]]];
      it := it + 1;
    }
    assert digits[..it] == digits;
  }

  method EncodeBase58(v: seq<Byte>) returns (text: string)
    ensures text == Encode(v)
  {
    var zeroes := CountZeros(v, 0);
    assert v[0..] == v;
    var digits := ToBase58(v[zeroes..]);
    var it := CountZeros(digits, 0);
    assert digits[0..] == digits;
    StrippedDigits(58, digits);
    text := AppendChars(seq(zeroes, _ => '1'), digits[it..]);
  }

  // ---------------------------------------------------------------------

  /** A prefix of a word fits the buffer, whose size is that of the whole rest of the text. */
  lemma DecodeRoom(digits: seq<int>, k: nat, n: nat)
    requires k < |digits| <= n && AreDigits(58, digits)
    ensures 58 * Number(58, digits[..k]) + digits[k] == Number(58, digits[..k + 1]) < Power(256, DecodeSize(n))
  {
    assert digits[..k + 1] == digits[..k] + [digits[k]];
    NumberAppend(58, digits[..k], digits[k]);
    NumberBounds(58, digits[..k + 1]);
    PowerMono(58, k + 1, n);
    DecodeFits(n);
  }

  method SkipSpaces(s: string, from: nat) returns (i: nat)
    requires from <= |s|
    ensures i == from + Spaces(s[from..])
  {
    i := from;
    while i < |s| && IsSpace(s[i])
      invariant from <= i <= |s| && forall k :: from <= k < i ==> IsSpace(s[k])
    {
      i := i + 1;
    }
    SpacesUnique(s[from..], i - from);
  }

  lemma {:induction false} SpacesUnique(s: string, n: nat)
    requires n <= |s| && (forall i :: 0 <= i < n ==> IsSpace(s[i])) && (n < |s| ==> !IsSpace(s[n]))
    ensures Spaces(s) == n
  {
  }

  lemma {:induction false} WordUnique(s: string, n: nat)
    requires n <= |s| && (forall i :: 0 <= i < n ==> !IsSpace(s[i])) && (n < |s| ==> IsSpace(s[n]))
    ensures Word(s) == n
  {
  }

  /** The digits of a prefix of the word that has been read. */
  lemma DigitsOfPrefix(u: string, k: nat)
    requires k < |u| && AllDigits(u[..k]) && DigitOf(u[k]) >= 0
    ensures AllDigits(u[..k + 1]) && DigitsOf(u[..k + 1]) == DigitsOf(u[..k]) + [DigitOf(u[k])]
  {
    assert u[..k + 1] == u[..k] + [u[k]];
  }

  /** The first characters of a word have been read into a number. */
  ghost predicate ReadSoFar(u: string, read: nat, bytes: seq<int>) {
    && read <= |u| && (forall i :: 0 <= i < read ==> !IsSpace(u[i])) && AllDigits(u[..read])
    && AreDigits(256, bytes) && Number(256, bytes) == Number(58, DigitsOf(u[..read]))
  }

  /** Reads one more character. */
  method ReadChar(b256: array<int>, u: string, read: nat)
    requires read < |u| && ReadSoFar(u, read, b256[..]) && !IsSpace(u[read]) && DigitOf(u[read]) >= 0
    requires b256.Length == DecodeSize(|u|)
    modifies b256
    ensures ReadSoFar(u, read + 1, b256[..])
  {
    DigitsOfPrefix(u, read);
    DecodeRoom(DigitsOf(u[..read + 1]), read, |u|);
    var _ := MultiplyAdd(b256, 256, 58, DigitOf(u[read]), b256.Length);
  }

  /** Reads the word at the start of a text into a number; stops at a space or at the end. */
  method FromBase58(u: string) returns (ok: bool, read: nat, bytes: seq<int>)
    ensures ok <==> AllDigits(u[..Word(u)])
    ensures ok ==> read == Word(u) && AreDigits(256, bytes) && Number(256, bytes) == Number(58, DigitsOf(u[..read]))
  {
    var b256 := new int[|u| * 733 / 1000 + 1](_ => 0);
    ZeroNumber(256, b256[..]);
    ok, read, bytes := true, 0, [];
    while read < |u| && !IsSpace(u[read])
      invariant ReadSoFar(u, read, b256[..])
    {
      if DigitOf(u[read]) < 0 {
        NotAWord(u, read);
        ok := false;
        return;
      }
      ReadChar(b256, u, read);
      read := read + 1;
    }
    WordUnique(u, read);
    bytes := b256[..];
  }

  lemma NotAWord(u: string, k: nat)
    requires k < |u| && (forall i :: 0 <= i <= k ==> !IsSpace(u[i])) && DigitOf(u[k]) < 0
    ensures !AllDigits(u[..Word(u)])
  {
    assert k < Word(u);
    assert u[..Word(u)][k] == u[k];
  }

  method CountOnes(t: string) returns (ones: nat)
    ensures ones == Ones(t)
  {
    ones := 0;
    while ones < |t| && t[ones] == '1'
      invariant 0 <= ones <= |t| && forall i :: 0 <= i < ones ==> t[i] == '1'
    {
      ones := ones + 1;
    }
    OnesUnique(t, ones);
  }

  method DecodeWord(zeroes: nat, u: string) returns (result: Option<seq<Byte>>)
    ensures result == DecodeRest(zeroes, u)
  {
    var ok, read, b256 := FromBase58(u);
    if !ok { return None; }
    var end := SkipSpaces(u, read);
    if end != |u| { return None; }
    var it := CountZeros(b256, 0);
    assert b256[0..] == b256;
    StrippedDigits(256, b256);
    return Some(seq(zeroes, _ => 0) + b256[it..]);
  }

  method DecodeBase58(s: string) returns (result: Option<seq<Byte>>)
    ensures result == Decode(s)
  {
    var start := SkipSpaces(s, 0);
    assert s[0..] == s;
    var t := s[start..];
    var zeroes := CountOnes(t);
    result := DecodeWord(zeroes, t[zeroes..]);
  }

  /** A string object as a terminated text: it ends at the first null character. */
  function Terminated(s: string): (t: string)
    ensures t <= s && '\0' !in t && (|t| < |s| ==> s[|t|] == '\0')
  {
    if s == [] || s[0] == '\0' then [] else [s[0]] + Terminated(s[1..])
  }

  /** Decodes a string object. */
  method DecodeString(s: string) returns (result: Option<seq<Byte>>)
    ensures result == Decode(Terminated(s))
  {
    result := DecodeBase58(Terminated(s));
  }

  lemma {:induction false} PlainTerminated(s: string)
    requires AllDigits(s)
    ensures Terminated(s) == s
  {
    var t := Terminated(s);
    if |t| < |s| { CharOfDigit(s[|t|]); }
  }

  /** An encoded text is a string object without a null character, so decoding the object recovers the bytes. */
  lemma StringRoundTrip(v: seq<Byte>)
    ensures Terminated(Encode(v)) == Encode(v) && Decode(Terminated(Encode(v))) == Some(v)
  {
    EncodePlain(v);
    PlainTerminated(Encode(v));
    BytesRoundTrip(v);
  }

  lemma EncodePlain(v: seq<Byte>)
    ensures AllDigits(Encode(v))
  {
    var z := Zeros(v);
    NumberBounds(256, v[z..]);
    CharsRoundTrip(Digits(58, Number(256, v[z..])));
    DigitOfChar(0);
  }

  // ---------------------------------------------------------------------
  // Checksums
  // ---------------------------------------------------------------------

  /** The first four bytes of the hash of a byte string. */
  function Checksum(hash: seq<Byte> -> seq<Byte>, v: seq<Byte>): seq<Byte>
    requires |hash(v)| >= 4
  {
    hash(v)[..4]
  }

  ghost predicate IsHash(hash: seq<Byte> -> seq<Byte>) {
    forall v :: |hash(v)| >= 4
  }

  method EncodeBase58Check(v: seq<Byte>, hash: seq<Byte> -> seq<Byte>) returns (text: string)
    requires IsHash(hash)
    ensures text == Encode(v + Checksum(hash, v))
  {
    text := EncodeBase58(v + Checksum(hash, v));
  }

  /** The bytes of a text, if their last four are the checksum of the others; those others. */
  function DecodeCheck(s: string, hash: seq<Byte> -> seq<Byte>): Option<seq<Byte>>
    requires forall v :: |hash(v)| >= 4
  {
    match Decode(s)
    case None => None
    case Some(all) =>
      if |all| < 4 then None
      else if Checksum(hash, all[..|all| - 4]) != all[|all| - 4..] then None
      else Some(all[..|all| - 4])
  }

  method DecodeBase58Check(s: string, hash: seq<Byte> -> seq<Byte>) returns (result: Option<seq<Byte>>)
    requires IsHash(hash)
    ensures result == DecodeCheck(s, hash)
  {
    var all := DecodeBase58(s);
    if all.None? || |all.value| < 4 { return None; }
    var n := |all.value| - 4;
    if Checksum(hash, all.value[..n]) != all.value[n..] { return None; }
    return Some(all.value[..n]);
  }

  /** A text is accepted exactly when it decodes to a byte string followed by its checksum. */
  lemma CheckAccepts(s: string, hash: seq<Byte> -> seq<Byte>, v: seq<Byte>)
    requires IsHash(hash)
    ensures DecodeCheck(s, hash) == Some(v) <==> Decode(s) == Some(v + Checksum(hash, v))
  {
    if Decode(s) == Some(v + Checksum(hash, v)) {
      ChecksumEnds(v + Checksum(hash, v), v, Checksum(hash, v));
    }
    if DecodeCheck(s, hash) == Some(v) {
      var all := Decode(s).value;
      assert all == all[..|all| - 4] + all[|all| - 4..];
    }
  }

  lemma ChecksumEnds(all: seq<Byte>, v: seq<Byte>, sum: seq<Byte>)
    requires all == v + sum && |sum| == 4
    ensures all[..|all| - 4] == v && all[|all| - 4..] == sum
  {
  }

  /** Whatever was encoded with its checksum is accepted and recovered. */
  lemma CheckRoundTrip(v: seq<Byte>, hash: seq<Byte> -> seq<Byte>)
    requires IsHash(hash)
    ensures DecodeCheck(Encode(v + Checksum(hash, v)), hash) == Some(v)
  {
    BytesRoundTrip(v + Checksum(hash, v));
    CheckAccepts(Encode(v + Checksum(hash, v)), hash, v);
  }
}
