/** The compact serialization of unspent outputs: variable-length integers, amounts, scripts, coins. */
module CoinsCodec {
  import opened Common
  import opened ArithMath
  import opened CoinsState

  type Byte = x: nat | x < 256

  /** What a reader returns: the value and the bytes after it, or nothing at the end of the stream. */
  type Parsed<T> = Option<(T, seq<Byte>)>

  // ---------------------------------------------------------------------
  // Variable-length integers
  // ---------------------------------------------------------------------

  /** The bytes before the last, each with its high bit set. */
  function VarHigh(n: nat): seq<Byte> {
    if n < 128 then [128 + n] else VarHigh(n / 128 - 1) + [128 + n % 128]
  }

  function VarInt(n: nat): seq<Byte> {
    if n < 128 then [n] else VarHigh(n / 128 - 1) + [n % 128]
  }

  /** The number of values of the integer types. */
  const WORD: nat := 0x1_0000_0000
  const DOUBLE: nat := 0x1_0000_0000_0000_0000

  /** A number in a type of `top` values, by repeated subtraction. */
  function Wrap(x: nat, top: nat): (r: nat)
    requires top > 0
    ensures r < top && (x < top ==> r == x)
  {
    if x < top then x else Wrap(x - top, top)
  }

  lemma {:induction false} WrapMeans(x: nat, top: nat)
    requires top > 0
    ensures Wrap(x, top) == x % top
  {
    if x < top {
      Small(x, top);
    } else {
      WrapMeans(x - top, top);
      ModPlus(x - top, top);
    }
  }

  /** Reads an integer into a type of `top` values, in which the accumulator wraps. */
  function ReadVarInt(s: seq<Byte>, n: nat, top: nat): (r: Parsed<nat>)
    requires top > 0
    ensures r.Some? ==> |r.value.1| < |s| && r.value.0 < top
  {
    if s == [] then None
    else
      var m := Wrap(n * 128 + s[0] % 128, top);
      if s[0] >= 128 then ReadVarInt(s[1..], Wrap(m + 1, top), top) else Some((m, s[1..]))
  }

  /** The value of a signed type of `top` values. */
  function Signed(x: nat, top: nat): int {
    if 2 * x < top then x else x - top
  }

  lemma Small(x: nat, top: nat)
    requires x < top
    ensures x % top == x
  {
    DivModUnique(x, top, 0, x);
  }

  /** One digit is read: the last, or one with more to come. */
  lemma ReadLast(r: nat, t: seq<Byte>, n: nat, m: nat, top: nat)
    requires r < 128 && m == n * 128 + r < top
    ensures ReadVarInt([r] + t, n, top) == Some((m, t))
  {
    assert ([r] + t)[1..] == t;
  }

  lemma ReadMore(r: nat, t: seq<Byte>, n: nat, m: nat, top: nat)
    requires r < 128 && m == n * 128 + r && m + 1 < top
    ensures ReadVarInt([128 + r] + t, n, top) == ReadVarInt(t, m + 1, top)
  {
    assert ([128 + r] + t)[1..] == t;
  }

  lemma Digits(n: nat, q: nat, r: nat, t: seq<Byte>)
    requires n >= 128 && q == n / 128 && r == n % 128
    ensures q > 0 && n == q * 128 + r && VarHigh(n) + t == VarHigh(q - 1) + ([128 + r] + t)
    ensures VarInt(n) + t == VarHigh(q - 1) + ([r] + t)
  {
  }

  lemma {:induction false} ReadHigh(n: nat, t: seq<Byte>, top: nat)
    requires n + 1 < top
    ensures ReadVarInt(VarHigh(n) + t, 0, top) == ReadVarInt(t, n + 1, top)
  {
    if n < 128 {
      ReadMore(n, t, 0, n, top);
    } else {
      var q, r := n / 128, n % 128;
      Digits(n, q, r, t);
      ReadHigh(q - 1, [128 + r] + t, top);
      ReadMore(r, t, q, n, top);
    }
  }

  /** An integer of the type is read back, and exactly its own bytes are consumed. */
  lemma VarIntRoundTrip(n: nat, t: seq<Byte>, top: nat)
    requires n < top
    ensures ReadVarInt(VarInt(n) + t, 0, top) == Some((n, t))
  {
    if n < 128 {
      ReadLast(n, t, 0, n, top);
    } else {
      var q, r := n / 128, n % 128;
      Digits(n, q, r, t);
      ReadHigh(q - 1, [r] + t, top);
      ReadLast(r, t, q, n, top);
    }
  }

  /** Integers of `bits` bits fit the buffer of the writer. */
  lemma {:induction false} VarHighLength(n: nat, bits: nat)
    requires bits >= 1 && n < Pow2(bits)
    ensures 1 <= |VarHigh(n)| <= (bits + 6) / 7
  {
    if n >= 128 {
      NextLength(n, bits);
      VarHighLength(n / 128 - 1, bits - 7);
    }
  }

  lemma VarIntLength(n: nat, bits: nat)
    requires bits >= 1 && n < Pow2(bits)
    ensures 1 <= |VarInt(n)| <= (bits + 6) / 7
  {
    if n >= 128 {
      NextLength(n, bits);
      VarHighLength(n / 128 - 1, bits - 7);
    }
  }

  lemma NextLength(n: nat, bits: nat)
    requires 128 <= n < Pow2(bits)
    ensures bits >= 8 && n / 128 - 1 < Pow2(bits - 7)
  {
    if bits < 8 {
      Pow2Mono(bits, 7);
    } else {
      Pow2Split(bits - 7);
    }
  }

  lemma Pow2Split(k: nat)
    ensures Pow2(k + 7) == 128 * Pow2(k) && Pow2(7) == 128
  {
    ShlShl(1, k, 7);
    Shl7(Pow2(k));
    Shl7(1);
  }

  // ---------------------------------------------------------------------
  // Amounts
  // ---------------------------------------------------------------------

  /** Ten to the power `e` times `n`, by repeated multiplication. */
  function Times10(n: nat, e: nat): nat
    decreases e
  {
    if e == 0 then n else Times10(10 * n, e - 1)
  }

  /** Divides by ten as long as that is exact, up to exponent 9. */
  function Strip(n: nat, e: nat): (r: (nat, nat))
    requires n > 0 && e <= 9
    ensures r.0 > 0 && e <= r.1 <= 9 && (r.1 < 9 ==> r.0 % 10 != 0)
    ensures Times10(r.0, r.1 - e) == n
  {
    if n % 10 == 0 && e < 9 then Times10Last(Strip(n / 10, e + 1).0, Strip(n / 10, e + 1).1 - e - 1); Strip(n / 10, e + 1)
    else (n, e)
  }

  lemma {:induction false} Times10Last(n: nat, e: nat)
    ensures Times10(n, e + 1) == 10 * Times10(n, e)
    decreases e
  {
    if e > 0 { Times10Last(10 * n, e - 1); }
  }

  /** A number that does not end in zero, without the gap that this leaves. */
  function Pack(m: nat): nat
    requires m % 10 != 0
  {
    m / 10 * 9 + m % 10 - 1
  }

  function Unpack(z: nat): nat {
    z / 9 * 10 + z % 9 + 1
  }

  lemma PackUnpack(m: nat)
    requires m % 10 != 0
    ensures Unpack(Pack(m)) == m
  {
    var q, r := m / 10, m % 10 - 1;
    DivModUnique(Pack(m), 9, q, r);
  }

  lemma UnpackPack(z: nat)
    ensures Unpack(z) % 10 != 0 && Pack(Unpack(z)) == z
  {
    var q, r := z / 9, z % 9 + 1;
    DivModUnique(Unpack(z), 10, q, r);
  }

  function CompressAmount(n: nat): nat {
    if n == 0 then 0 else
    var (m, e) := Strip(n, 0);
    if e < 9 then 1 + Pack(m) * 10 + e
    else 1 + (m - 1) * 10 + 9
  }

  function DecompressAmount(x: nat): nat {
    if x == 0 then 0 else
    var e, z := (x - 1) % 10, (x - 1) / 10;
    Times10(if e < 9 then Unpack(z) else z + 1, e)
  }

  lemma AmountRoundTrip(n: nat)
    ensures DecompressAmount(CompressAmount(n)) == n
  {
    if n > 0 {
      var (m, e) := Strip(n, 0);
      var z := if e < 9 then Pack(m) else m - 1;
      if e < 9 { PackUnpack(m); }
      LastDigit(z, e);
      assert CompressAmount(n) == 1 + z * 10 + e;
    }
  }

  /** Multiplying in a type that wraps gives the product modulo the number of its values. */
  lemma {:induction false} TimesWrap(n: nat, e: nat, top: nat)
    requires top > 0
    ensures Times10(n % top, e) % top == Times10(n, e) % top
    decreases e
  {
    var q, r := n / top, n % top;
    assert n == top * q + r;
    if e == 0 {
      Small(r, top);
    } else {
      TimesWrap(10 * r, e - 1, top);
      TimesWrap(10 * n, e - 1, top);
      assert 10 * n == (10 * q) * top + 10 * r;
      ModSum(10 * q, 10 * r, top);
    }
  }

  lemma ModSum(q: nat, r: nat, top: nat)
    requires top > 0
    ensures (q * top + r) % top == r % top
  {
    var a, b := r / top, r % top;
    assert r == top * a + b;
    assert q * top + r == (q + a) * top + b;
    DivModUnique(q * top + r, top, q + a, b);
  }

  lemma LastDigit(z: nat, e: nat)
    requires e < 10
    ensures (z * 10 + e) % 10 == e && (z * 10 + e) / 10 == z
  {
  }

  /** Stripping a number that ends in `e` zeros and no more finds that number. */
  lemma {:induction false} StripTimes(n: nat, k: nat, e: nat)
    requires n > 0 && k + e <= 9 && (k + e < 9 ==> n % 10 != 0)
    ensures Times10(n, k) > 0 && Strip(Times10(n, k), e) == (n, k + e)
    decreases k
  {
    if k > 0 {
      var t := Times10(n, k - 1);
      Times10Last(n, k - 1);
      StripTimes(n, k - 1, e + 1);
      LastDigit(t, 0);
      assert Strip(10 * t, e) == Strip(t, e + 1);
    }
  }

  lemma CompressedRoundTrip(x: nat)
    ensures CompressAmount(DecompressAmount(x)) == x
  {
    if x > 0 {
      var e, z := (x - 1) % 10, (x - 1) / 10;
      var n := if e < 9 then Unpack(z) else z + 1;
      UnpackPack(z);
      StripTimes(n, e, 0);
      assert DecompressAmount(x) == Times10(n, e);
    }
  }

  lemma {:induction false} Times10AtLeast(n: nat, e: nat)
    ensures Times10(n, e) >= n + e * n
  {
    if e > 0 {
      Times10Last(n, e - 1);
      Times10AtLeast(n, e - 1);
      assert e * n == (e - 1) * n + n;
      assert (e - 1) * n >= 0;
    }
  }

  /** The compressed amount is at most nine times the amount, so it fits 64 bits for all sums of money. */
  lemma CompressedBound(n: nat)
    ensures CompressAmount(n) <= 9 * n
  {
    if n > 0 {
      var (m, e) := Strip(n, 0);
      Times10AtLeast(m, e);
      BoundStep(m, e, n);
    }
  }

  lemma BoundStep(m: nat, e: nat, n: nat)
    requires m > 0 && n >= m + e * m && e <= 9 && (e < 9 ==> m % 10 != 0)
    ensures if e < 9 then 1 + Pack(m) * 10 + e <= 9 * n else 1 + (m - 1) * 10 + 9 <= 9 * n
  {
    MulMono(1, m, e);
  }

  // ---------------------------------------------------------------------
  // Scripts
  // ---------------------------------------------------------------------

  const OP_RETURN: nat := 0x6a
  const OP_DUP: nat := 0x76
  const OP_EQUAL: nat := 0x87
  const OP_EQUALVERIFY: nat := 0x88
  const OP_HASH160: nat := 0xa9
  const OP_CHECKSIG: nat := 0xac
  const MAX_SCRIPT_SIZE: nat := 10000
  const SPECIAL_SCRIPTS: nat := 6

  /** The two calls into the elliptic curve code: whether an uncompressed key is valid, and the
      uncompressed form of a compressed key. */
  datatype Keys = Keys(valid: seq<nat> -> bool, expand: seq<nat> -> Option<seq<nat>>)

  /** Expanding gives 65 bytes, and inverts compression for valid keys. */
  ghost predicate KeysOk(k: Keys) {
    && (forall c :: k.expand(c).Some? ==> |k.expand(c).value| == 65 && IsBytes(k.expand(c).value))
    && (forall u: seq<nat> :: |u| == 65 && u[0] == 4 && k.valid(u) ==> k.expand([2 + u[64] % 2] + u[1..33]) == Some(u))
  }

  predicate IsBytes(s: seq<nat>) {
    forall i :: 0 <= i < |s| ==> s[i] < 256
  }

  predicate IsToKeyId(s: seq<nat>) {
    |s| == 25 && s[0] == OP_DUP && s[1] == OP_HASH160 && s[2] == 20 && s[23] == OP_EQUALVERIFY && s[24] == OP_CHECKSIG
  }

  predicate IsToScriptId(s: seq<nat>) {
    |s| == 23 && s[0] == OP_HASH160 && s[1] == 20 && s[22] == OP_EQUAL
  }

  predicate IsToShortKey(s: seq<nat>) {
    |s| == 35 && s[0] == 33 && s[34] == OP_CHECKSIG && (s[1] == 2 || s[1] == 3)
  }

  predicate IsToLongKey(k: Keys, s: seq<nat>) {
    |s| == 67 && s[0] == 65 && s[66] == OP_CHECKSIG && s[1] == 4 && k.valid(s[1..66])
  }

  /** The short form of a script of one of the special kinds. */
  function Compress(k: Keys, s: seq<nat>): Option<seq<nat>> {
    if IsToKeyId(s) then Some([0] + s[3..23])
    else if IsToScriptId(s) then Some([1] + s[2..22])
    else if IsToShortKey(s) then Some([s[1]] + s[2..34])
    else if IsToLongKey(k, s) then Some([4 + s[65] % 2] + s[2..34])
    else None
  }

  function SpecialSize(n: nat): nat {
    if n <= 1 then 20 else if n <= 5 then 32 else 0
  }

  /** The script that a short form stands for; nothing is left of a key that does not expand. */
  function Decompress(k: Keys, n: nat, data: seq<nat>): seq<nat> {
    if n == 0 then [OP_DUP, OP_HASH160, 20] + data + [OP_EQUALVERIFY, OP_CHECKSIG]
    else if n == 1 then [OP_HASH160, 20] + data + [OP_EQUAL]
    else if n <= 3 then [33, n] + data + [OP_CHECKSIG]
    else
      match k.expand([n - 2] + data)
      case None => []
      case Some(key) => [65] + key + [OP_CHECKSIG]
  }

  function ScriptBytes(k: Keys, s: seq<nat>): seq<Byte>
    requires IsBytes(s)
  {
    var c := Compress(k, s);
    if c.Some? then c.value else VarInt(|s| + SPECIAL_SCRIPTS) + s
  }

  function Take(s: seq<Byte>, n: nat): Parsed<seq<nat>> {
    if |s| < n then None else Some((s[..n], s[n..]))
  }

  function ReadScript(k: Keys, s: seq<Byte>): (r: Parsed<seq<nat>>)
    ensures r.Some? ==> |r.value.1| < |s|
  {
    match ReadVarInt(s, 0, WORD)
    case None => None
    case Some((n, t)) =>
      if n < SPECIAL_SCRIPTS then
        match Take(t, SpecialSize(n))
        case None => None
        case Some((data, rest)) => Some((Decompress(k, n, data), rest))
      else if n - SPECIAL_SCRIPTS > MAX_SCRIPT_SIZE then
        match Take(t, n - SPECIAL_SCRIPTS)
        case None => None
        case Some((_, rest)) => Some(([OP_RETURN], rest))
      else Take(t, n - SPECIAL_SCRIPTS)
  }

  lemma ReadSmall(n: nat, t: seq<Byte>)
    requires n < 128
    ensures ReadVarInt([n] + t, 0, WORD) == Some((n, t))
  {
    assert ([n] + t)[1..] == t;
  }

  /** A short form is read back as the script it stands for. */
  lemma ReadSpecial(k: Keys, n: nat, data: seq<nat>, t: seq<Byte>)
    requires n < SPECIAL_SCRIPTS && |data| == SpecialSize(n) && IsBytes(data)
    ensures ReadScript(k, [n] + data + t) == Some((Decompress(k, n, data), t))
  {
    assert [n] + data + t == [n] + (data + t);
    ReadSmall(n, data + t);
    assert (data + t)[..|data|] == data && (data + t)[|data|..] == t;
  }

  lemma KeyIdForm(s: seq<nat>, k: Keys)
    requires IsToKeyId(s)
    ensures Decompress(k, 0, s[3..23]) == s
  {
  }

  lemma ScriptIdForm(s: seq<nat>, k: Keys)
    requires IsToScriptId(s)
    ensures Decompress(k, 1, s[2..22]) == s
  {
  }

  lemma ShortKeyForm(s: seq<nat>, k: Keys)
    requires IsToShortKey(s)
    ensures Decompress(k, s[1], s[2..34]) == s
  {
  }

  lemma LongKeyForm(s: seq<nat>, k: Keys)
    requires KeysOk(k) && IsToLongKey(k, s)
    ensures Decompress(k, 4 + s[65] % 2, s[2..34]) == s
  {
    var u := s[1..66];
    assert u[1..33] == s[2..34] && u[64] == s[65];
    assert [65] + u + [OP_CHECKSIG] == s;
  }

  /** A script within the limit is read back, and exactly its own bytes are consumed. */
  lemma ScriptRoundTrip(k: Keys, s: seq<nat>, t: seq<Byte>)
    requires KeysOk(k) && IsBytes(s) && |s| <= MAX_SCRIPT_SIZE
    ensures ReadScript(k, ScriptBytes(k, s) + t) == Some((s, t))
  {
    if IsToKeyId(s) {
      KeyIdForm(s, k);
      ReadSpecial(k, 0, s[3..23], t);
    } else if IsToScriptId(s) {
      ScriptIdForm(s, k);
      ReadSpecial(k, 1, s[2..22], t);
    } else if IsToShortKey(s) {
      ShortKeyForm(s, k);
      ReadSpecial(k, s[1], s[2..34], t);
    } else if IsToLongKey(k, s) {
      LongKeyForm(s, k);
      ReadSpecial(k, 4 + s[65] % 2, s[2..34], t);
    } else {
      RawScript(k, s, t);
    }
  }

  lemma RawScript(k: Keys, s: seq<nat>, t: seq<Byte>)
    requires IsBytes(s) && |s| <= MAX_SCRIPT_SIZE
    ensures ReadScript(k, VarInt(|s| + SPECIAL_SCRIPTS) + s + t) == Some((s, t))
  {
    var v := VarInt(|s| + SPECIAL_SCRIPTS);
    assert v + s + t == v + (s + t);
    VarIntRoundTrip(|s| + SPECIAL_SCRIPTS, s + t, WORD);
    assert (s + t)[..|s|] == s && (s + t)[|s|..] == t;
  }

  // ---------------------------------------------------------------------
  // Outputs
  // ---------------------------------------------------------------------

  /** An output that coins can hold: a sum of money, and a script that is not so long that nobody can spend it. */
  predicate Writable(o: TxOut) {
    0 <= 9 * o.value < DOUBLE && IsBytes(o.script) && |o.script| <= MAX_SCRIPT_SIZE
  }

  function TxOutBytes(k: Keys, o: TxOut): seq<Byte>
    requires Writable(o)
  {
    VarInt(CompressAmount(o.value)) + ScriptBytes(k, o.script)
  }

  function ReadTxOut(k: Keys, s: seq<Byte>): (r: Parsed<TxOut>)
    ensures r.Some? ==> |r.value.1| < |s|
  {
    match ReadVarInt(s, 0, DOUBLE)
    case None => None
    case Some((x, t)) =>
      match ReadScript(k, t)
      case None => None
      case Some((script, rest)) => Some((TxOut(Signed(DecompressAmount(x) % DOUBLE, DOUBLE), script), rest))
  }

  lemma TxOutRoundTrip(k: Keys, o: TxOut, t: seq<Byte>)
    requires KeysOk(k) && Writable(o)
    ensures ReadTxOut(k, TxOutBytes(k, o) + t) == Some((o, t))
  {
    var v, w := VarInt(CompressAmount(o.value)), ScriptBytes(k, o.script);
    assert v + w + t == v + (w + t);
    CompressedBound(o.value);
    VarIntRoundTrip(CompressAmount(o.value), w + t, DOUBLE);
    ScriptRoundTrip(k, o.script, t);
    AmountRoundTrip(o.value);
    Small(o.value, DOUBLE);
  }
}
