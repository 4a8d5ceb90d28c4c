/** The loops that write and read unspent outputs, byte by byte. */
module CoinsStream {
  import opened Common
  import opened ArithMath
  import opened CoinsState
  import opened CoinsCodec
  import opened CoinsRecord

  /** A stream of bytes: written at the end, read from the front. */
  class Stream {
    var data: seq<Byte>

    constructor (data: seq<Byte>)
      ensures this.data == data
    {
      this.data := data;
    }

    method Put(b: Byte)
      modifies this
      ensures data == old(data) + [b]
    {
      data := data + [b];
    }

    method Write(s: seq<Byte>)
      modifies this
      ensures data == old(data) + s
    {
      data := data + s;
    }

    /** Fails at the end of the stream, where the program raises an exception. */
    method Get() returns (ok: bool, b: Byte)
      modifies this
      ensures ok <==> old(data) != []
      ensures ok ==> old(data) == [b] + data
      ensures !ok ==> data == old(data)
    {
      ok, b := data != [], 0;
      if ok {
        b := data[0];
        data := data[1..];
      }
    }

    method Read(n: nat) returns (ok: bool, s: seq<nat>)
      modifies this
      ensures ok <==> Take(old(data), n).Some?
      ensures ok ==> Take(old(data), n) == Some((s, data))
    {
      ok, s := |data| >= n, [];
      if ok {
        s := data[..n];
        data := data[n..];
      }
    }
  }

  // ---------------------------------------------------------------------
  // Variable-length integers
  // ---------------------------------------------------------------------

  function Reverse<T>(s: seq<T>): (r: seq<T>)
    ensures |r| == |s| && forall i :: 0 <= i < |s| ==> r[i] == s[|s| - 1 - i]
  {
    if s == [] then [] else [s[|s| - 1]] + Reverse(s[..|s| - 1])
  }

  /** What is left of a number when its lowest digit is taken. */
  function Higher(n: nat): (left: nat)
    requires n >= 128
    ensures left < n
  {
    n / 128 - 1
  }

  /** The digits collected so far, lowest first, and what is left of the number. */
  ghost predicate Collected(n: nat, digits: seq<Byte>, left: nat) {
    if digits == [] then left == n else VarInt(n) == VarHigh(left) + Reverse(digits)
  }

  lemma CollectedNext(n: nat, digits: seq<Byte>, left: nat, digit: Byte)
    requires Collected(n, digits, left) && left >= 128 && digit == left % 128 + if digits == [] then 0 else 128
    ensures Collected(n, digits + [digit], Higher(left))
  {
    assert (digits + [digit])[..|digits|] == digits;
    assert Reverse(digits + [digit]) == [digit] + Reverse(digits);
    if digits == [] {
      assert Reverse(digits) == [];
    } else {
      assert VarHigh(left) + Reverse(digits) == VarHigh(left / 128 - 1) + ([digit] + Reverse(digits));
    }
  }

  lemma CollectedLast(n: nat, digits: seq<Byte>, left: nat, digit: Byte)
    requires Collected(n, digits, left) && left < 128 && digit == left + if digits == [] then 0 else 128
    ensures VarInt(n) == Reverse(digits + [digit])
  {
    assert (digits + [digit])[..|digits|] == digits;
    if digits == [] { assert Reverse(digits) == []; }
  }

  /** There is room for one more digit. */
  lemma CollectedRoom(n: nat, digits: seq<Byte>, left: nat)
    requires Collected(n, digits, left)
    ensures |digits| < |VarInt(n)|
  {
    VarHighPositive(left);
  }

  /** Stores one digit, with its high bit set unless it is the lowest. */
  method StoreDigit(tmp: array<Byte>, len: nat, low: nat) returns (digit: Byte)
    requires len < tmp.Length && low < 128
    modifies tmp
    ensures digit == low + (if len > 0 then 128 else 0) && tmp[..len + 1] == old(tmp[..len]) + [digit]
  {
    digit := low + if len > 0 then 128 else 0;
    tmp[len] := digit;
  }

  /** Collects the digits of an integer, lowest first. */
  method CollectDigits(n: nat, tmp: array<Byte>) returns (len: nat)
    requires |VarInt(n)| <= tmp.Length
    modifies tmp
    ensures len <= tmp.Length && Reverse(tmp[..len]) == VarInt(n)
  {
    var left := n;
    len := 0;
    CollectedRoom(n, [], n);
    while left > 0x7F
      invariant len < tmp.Length && left >= 0 && Collected(n, tmp[..len], left)
      decreases left
    {
      ghost var digits := tmp[..len];
      var digit := StoreDigit(tmp, len, left % 128);
      CollectedNext(n, digits, left, digit);
      left := Higher(left);
      len := len + 1;
      CollectedRoom(n, digits + [digit], left);
    }
    ghost var digits := tmp[..len];
    var digit := StoreDigit(tmp, len, left);
    CollectedLast(n, digits, left, digit);
    len := len + 1;
  }

  /** Writes an integer of a type with `bits` bits; its digits fit the buffer. A negative one has one digit. */
  method WriteVarInt(out: Stream, n: int, bits: nat)
    requires bits >= 1 && n < Pow2(bits)
    modifies out
    ensures out.data == old(out.data) + VarInt(StoredInt(n))
  {
    var tmp := new Byte[(bits + 6) / 7](_ => 0);
    var len := 1;
    if n <= 0x7F {
      tmp[0] := n % 128;
      assert Reverse(tmp[..1]) == [n % 128];
    } else {
      VarIntLength(n, bits);
      len := CollectDigits(n, tmp);
    }
    WriteBackwards(out, tmp, len);
  }

  lemma {:induction false} VarHighPositive(n: nat)
    ensures |VarHigh(n)| >= 1
  {
  }

  method WriteBackwards(out: Stream, tmp: array<Byte>, n: nat)
    requires n <= tmp.Length
    modifies out
    ensures out.data == old(out.data) + Reverse(tmp[..n])
  {
    ghost var was, all := out.data, Reverse(tmp[..n]);
    var len := n;
    while len > 0
      invariant 0 <= len <= n && out.data == was + all[..n - len]
    {
      len := len - 1;
      out.Put(tmp[len]);
      assert all[..n - len] == all[..n - len - 1] + [tmp[len]];
    }
    assert all[..n] == all;
  }

  lemma ReadStep(s: seq<Byte>, b: Byte, rest: seq<Byte>, n: nat, m: nat, top: nat)
    requires top > 0 && s == [b] + rest && m == n * 128 + b % 128
    ensures ReadVarInt(s, n, top) == if b < 128 then Some((m % top, rest)) else ReadVarInt(rest, (m % top + 1) % top, top)
  {
    assert s[1..] == rest;
    WrapMeans(m, top);
    WrapMeans(m % top + 1, top);
  }

  /** Reads an integer into a type of `top` values. */
  method ReadVarInteger(input: Stream, top: nat) returns (ok: bool, n: nat)
    requires top > 0
    modifies input
    ensures ok <==> ReadVarInt(old(input.data), 0, top).Some?
    ensures ok ==> ReadVarInt(old(input.data), 0, top) == Some((n, input.data))
  {
    n := 0;
    while true
      invariant ReadVarInt(input.data, n, top) == ReadVarInt(old(input.data), 0, top)
      decreases |input.data|
    {
      ghost var before := input.data;
      var got, b := input.Get();
      if !got { return false, 0; }
      ReadStep(before, b, input.data, n, n * 128 + b % 128, top);
      n := (n * 128 + b % 128) % top;
      if b < 128 { return true, n; }
      n := (n + 1) % top;
    }
  }

  method SizeOfVarInt(n: int) returns (size: nat)
    ensures size == |VarInt(StoredInt(n))|
  {
    var left := n;
    size := 1;
    while left > 0x7F
      invariant size >= 1 && (size == 1 ==> left == n)
      invariant size > 1 ==> n >= 0 && left >= 0 && size - 1 + |VarHigh(left)| == |VarInt(n)|
      decreases left
    {
      left := Higher(left);
      size := size + 1;
    }
  }

  // ---------------------------------------------------------------------
  // Amounts
  // ---------------------------------------------------------------------

  method CompressedAmount(amount: nat) returns (x: nat)
    ensures x == CompressAmount(amount)
  {
    if amount == 0 { return 0; }
    var n, e := amount, 0;
    while n % 10 == 0 && e < 9
      invariant n > 0 && 0 <= e <= 9 && Strip(n, e) == Strip(amount, 0)
      decreases 9 - e
    {
      n := n / 10;
      e := e + 1;
    }
    if e < 9 {
      var d := n % 10;
      assert 1 <= d <= 9;
      n := n / 10;
      return 1 + (n * 9 + d - 1) * 10 + e;
    } else {
      return 1 + (n - 1) * 10 + 9;
    }
  }

  /** The amount of 64 bits, in which the multiplication wraps. */
  method DecompressedAmount(compressed: nat) returns (amount: nat)
    requires compressed < DOUBLE
    ensures amount == DecompressAmount(compressed) % DOUBLE
  {
    if compressed == 0 { return 0; }
    var x := compressed - 1;
    var e := x % 10;
    x := x / 10;
    var n := 0;
    if e < 9 {
      var d := x % 9 + 1;
      x := x / 9;
      n := x * 10 + d;
    } else {
      n := x + 1;
    }
    ghost var all := Times10(n, e) % DOUBLE;
    while e != 0
      invariant 0 <= n < DOUBLE && e >= 0 && Times10(n, e) % DOUBLE == all
    {
      TimesWrap(10 * n, e - 1, DOUBLE);
      n := n * 10 % DOUBLE;
      e := e - 1;
    }
    return n;
  }

  // ---------------------------------------------------------------------
  // Scripts and outputs
  // ---------------------------------------------------------------------

  lemma Widths()
    ensures Pow2(32) == WORD && Pow2(31) == 0x8000_0000 && Pow2(64) == DOUBLE
  {
    Shl32(1);
    assert Pow2(32) == 2 * Pow2(31);
    ShlShl(1, 32, 32);
    Shl32(Pow2(32));
  }

  method WriteScript(out: Stream, k: Keys, script: seq<nat>)
    requires IsBytes(script) && |script| <= MAX_SCRIPT_SIZE
    modifies out
    ensures out.data == old(out.data) + ScriptBytes(k, script)
  {
    var c := Compress(k, script);
    if c.Some? {
      out.Write(c.value);
    } else {
      Widths();
      WriteVarInt(out, |script| + SPECIAL_SCRIPTS, 32);
      out.Write(script);
    }
  }

  method ReadScriptFrom(input: Stream, k: Keys) returns (ok: bool, script: seq<nat>)
    modifies input
    ensures ok <==> ReadScript(k, old(input.data)).Some?
    ensures ok ==> ReadScript(k, old(input.data)) == Some((script, input.data))
  {
    script := [];
    var n: nat;
    ok, n := ReadVarInteger(input, WORD);
    if !ok { return; }
    var data: seq<nat>;
    if n < SPECIAL_SCRIPTS {
      ok, data := input.Read(SpecialSize(n));
      if ok { script := Decompress(k, n, data); }
    } else if n - SPECIAL_SCRIPTS > MAX_SCRIPT_SIZE {
      script := [OP_RETURN];
      ok, data := input.Read(n - SPECIAL_SCRIPTS);
    } else {
      ok, script := input.Read(n - SPECIAL_SCRIPTS);
    }
  }

  method ScriptSize(k: Keys, script: seq<nat>) returns (size: nat)
    requires IsBytes(script)
    ensures size == |ScriptBytes(k, script)|
  {
    var c := Compress(k, script);
    if c.Some? { return |c.value|; }
    var n := SizeOfVarInt(|script| + SPECIAL_SCRIPTS);
    return |script| + n;
  }

  /** Writes one output. The amount is a sum of money, so its compressed form fits 64 bits. */
  method WriteTxOut(out: Stream, k: Keys, o: TxOut)
    requires Writable(o)
    modifies out
    ensures out.data == old(out.data) + TxOutBytes(k, o)
  {
    var x := CompressedAmount(o.value);
    CompressedBound(o.value);
    Widths();
    WriteVarInt(out, x, 64);
    WriteScript(out, k, o.script);
  }

  method ReadTxOutFrom(input: Stream, k: Keys) returns (ok: bool, o: TxOut)
    modifies input
    ensures ok <==> ReadTxOut(k, old(input.data)).Some?
    ensures ok ==> ReadTxOut(k, old(input.data)) == Some((o, input.data))
  {
    o := Null;
    var x: nat;
    ok, x := ReadVarInteger(input, DOUBLE);
    if !ok { return; }
    var value := DecompressedAmount(x);
    var script: seq<nat>;
    ok, script := ReadScriptFrom(input, k);
    if ok { o := TxOut(Signed(value, DOUBLE), script); }
  }

  // ---------------------------------------------------------------------
  // The mask
  // ---------------------------------------------------------------------

  /** The byte whose bits are the availability of eight outputs. */
  method BuildByte(vout: seq<TxOut>, b: nat) returns (x: Byte)
    ensures x == MaskByte(vout, b)
  {
    var value, weight, i := 0, 1, 0;
    ghost var bits := MaskBits(vout, b);
    while i < 8 && 2 + b * 8 + i < |vout|
      invariant 0 <= i <= 8 && weight == Pow2(i) && value == ByteOf(bits[..i])
    {
      AvailAt(vout, 2 + 8 * b, 10 + 8 * b, 2 + 8 * b + i);
      ByteAppend(bits[..i], bits[i]);
      assert bits[..i + 1] == bits[..i] + [bits[i]];
      if !vout[2 + b * 8 + i].IsNull() {
        value := value + weight;
      }
      weight := 2 * weight;
      i := i + 1;
    }
    RestUnavailable(vout, b, i);
    ByteFits(bits);
    x := value;
  }

  lemma {:induction false} ByteAppend(bits: seq<bool>, last: bool)
    ensures ByteOf(bits + [last]) == ByteOf(bits) + if last then Pow2(|bits|) else 0
  {
    if bits != [] {
      ByteAppend(bits[1..], last);
      assert (bits + [last])[1..] == bits[1..] + [last];
    }
  }

  lemma {:induction false} ByteUnpadded(bits: seq<bool>, i: nat)
    requires i <= |bits| && forall j :: i <= j < |bits| ==> !bits[j]
    ensures ByteOf(bits) == ByteOf(bits[..i])
    decreases |bits|
  {
    if i < |bits| {
      var init := bits[..|bits| - 1];
      assert bits == init + [bits[|bits| - 1]] && init[..i] == bits[..i];
      ByteAppend(init, false);
      ByteUnpadded(init, i);
    } else {
      assert bits[..i] == bits;
    }
  }

  lemma RestUnavailable(vout: seq<TxOut>, b: nat, i: nat)
    requires i <= 8 && (i < 8 ==> 2 + b * 8 + i >= |vout|)
    ensures ByteOf(MaskBits(vout, b)) == ByteOf(MaskBits(vout, b)[..i])
  {
    var bits := MaskBits(vout, b);
    forall j | i <= j < 8 ensures !bits[j] {
      AvailAt(vout, 2 + 8 * b, 10 + 8 * b, 2 + 8 * b + j);
    }
    ByteUnpadded(bits, i);
  }

  /** Whether one of the outputs of a mask byte is available. */
  method ByteIsZero(vout: seq<TxOut>, b: nat) returns (zero: bool)
    ensures zero <==> MaskByte(vout, b) == 0
  {
    zero := true;
    var i := 0;
    ghost var bits := MaskBits(vout, b);
    while i < 8 && 2 + b * 8 + i < |vout|
      invariant 0 <= i <= 8 && (zero <==> forall j :: 0 <= j < i ==> !bits[j])
    {
      AvailAt(vout, 2 + 8 * b, 10 + 8 * b, 2 + 8 * b + i);
      if !vout[2 + b * 8 + i].IsNull() {
        zero := false;
      }
      i := i + 1;
    }
    forall j | i <= j < 8 ensures !bits[j] {
      AvailAt(vout, 2 + 8 * b, 10 + 8 * b, 2 + 8 * b + j);
    }
    ByteZero(bits);
  }

  /** The size of the mask and the number of its bytes that are not zero. */
  method CalcMaskSize(vout: seq<TxOut>) returns (bytes: nat, nonzero: nat)
    ensures bytes == MaskSize(vout) && nonzero == MaskCode(vout)
  {
    bytes, nonzero := 0, 0;
    var b := 0;
    while 2 + b * 8 < |vout|
      invariant 0 <= b <= Covering(vout) && bytes == LastUsed(vout, b) && nonzero == Nonzero(vout, b)
    {
      var zero := ByteIsZero(vout, b);
      if !zero {
        bytes := b + 1;
        nonzero := nonzero + 1;
      }
      b := b + 1;
    }
    assert b == Covering(vout);
  }

  // ---------------------------------------------------------------------
  // The record
  // ---------------------------------------------------------------------

  method WriteMask(out: Stream, vout: seq<TxOut>, n: nat)
    modifies out
    ensures out.data == old(out.data) + MaskBytes(vout, 0, n)
  {
    ghost var was := out.data;
    var b := 0;
    while b < n
      invariant 0 <= b <= n && out.data + MaskBytes(vout, b, n) == was + MaskBytes(vout, 0, n)
    {
      var x := BuildByte(vout, b);
      ghost var before := out.data;
      out.Put(x);
      assert before + ([x] + MaskBytes(vout, b + 1, n)) == before + [x] + MaskBytes(vout, b + 1, n);
      b := b + 1;
    }
    assert out.data + [] == out.data;
  }

  /** The bytes of one output; none for a spent one. */
  function OutBytes(k: Keys, o: TxOut): seq<Byte>
    requires OutOk(o)
  {
    if o.IsNull() then [] else TxOutBytes(k, o)
  }

  method WriteOut(out: Stream, k: Keys, o: TxOut)
    requires OutOk(o)
    modifies out
    ensures out.data == old(out.data) + OutBytes(k, o)
  {
    if !o.IsNull() {
      WriteTxOut(out, k, o);
    } else {
      assert out.data + [] == out.data;
    }
  }

  lemma OutsNext(k: Keys, vout: seq<TxOut>, i: nat, before: seq<Byte>)
    requires OutsOk(vout) && i < |vout|
    ensures before + OutsBytes(k, vout, i) == before + OutBytes(k, vout[i]) + OutsBytes(k, vout, i + 1)
    ensures |OutsBytes(k, vout, i)| == |OutBytes(k, vout[i])| + |OutsBytes(k, vout, i + 1)|
  {
    var head, rest := OutBytes(k, vout[i]), OutsBytes(k, vout, i + 1);
    assert OutsBytes(k, vout, i) == head + rest;
    Associate3(before, head, rest);
  }

  lemma Associate3(a: seq<Byte>, b: seq<Byte>, c: seq<Byte>)
    ensures a + (b + c) == a + b + c
  {
  }

  method WriteOuts(out: Stream, k: Keys, vout: seq<TxOut>)
    requires OutsOk(vout)
    modifies out
    ensures out.data == old(out.data) + OutsBytes(k, vout, 0)
  {
    ghost var all := out.data + OutsBytes(k, vout, 0);
    var i := 0;
    while i < |vout|
      invariant 0 <= i <= |vout| && out.data + OutsBytes(k, vout, i) == all
    {
      OutsNext(k, vout, i, out.data);
      WriteOut(out, k, vout[i]);
      i := i + 1;
    }
    assert out.data + [] == out.data;
  }

  method OutSize(k: Keys, o: TxOut) returns (size: nat)
    requires OutOk(o)
    ensures size == |OutBytes(k, o)|
  {
    if o.IsNull() { return 0; }
    var x := CompressedAmount(o.value);
    var n := SizeOfVarInt(x);
    var m := ScriptSize(k, o.script);
    return n + m;
  }

  method OutsSize(k: Keys, vout: seq<TxOut>) returns (size: nat)
    requires OutsOk(vout)
    ensures size == |OutsBytes(k, vout, 0)|
  {
    size := 0;
    var i := 0;
    while i < |vout|
      invariant 0 <= i <= |vout| && size + |OutsBytes(k, vout, i)| == |OutsBytes(k, vout, 0)|
    {
      OutsNext(k, vout, i, []);
      var n := OutSize(k, vout[i]);
      size := size + n;
      i := i + 1;
    }
  }

  /** The header code; its assertion holds for coins that are not all spent. */
  method CalcCode(c: Coins) returns (maskSize: nat, code: nat)
    requires !c.IsPruned()
    ensures maskSize == MaskSize(c.vout) && code == HeaderCode(c)
  {
    var maskCode: nat;
    maskSize, maskCode := CalcMaskSize(c.vout);
    var first := |c.vout| > 0 && !c.vout[0].IsNull();
    var second := |c.vout| > 1 && !c.vout[1].IsNull();
    SomethingAvailable(c);
    assert first || second || maskCode != 0;
    code := 8 * (maskCode - if first || second then 0 else 1)
      + (if c.coinBase then 1 else 0) + (if first then 2 else 0) + (if second then 4 else 0);
  }

  lemma Appended(was: seq<Byte>, v: seq<Byte>, h: seq<Byte>, m: seq<Byte>, o: seq<Byte>, e: seq<Byte>)
    ensures was + v + h + m + o + e == was + (v + h + m + o + e)
  {
  }

  method Serialize(out: Stream, k: Keys, c: Coins)
    requires Recordable(c)
    modifies out
    ensures HeaderCode(c) >= 0 && out.data == old(out.data) + CoinsBytes(k, c)
  {
    var maskSize, code := CalcCode(c);
    ghost var was, v, h, e := out.data, VarInt(StoredInt(c.version)), VarInt(code), VarInt(StoredInt(c.height));
    Widths();
    WriteVarInt(out, c.version, 31);
    WriteVarInt(out, code, 32);
    WriteMask(out, c.vout, maskSize);
    WriteOuts(out, k, c.vout);
    WriteVarInt(out, c.height, 31);
    Appended(was, v, h, MaskBytes(c.vout, 0, maskSize), OutsBytes(k, c.vout, 0), e);
  }

  /** The size computed without writing is the number of bytes written. */
  method GetSerializeSize(k: Keys, c: Coins) returns (size: nat)
    requires Recordable(c)
    ensures HeaderCode(c) >= 0 && size == |CoinsBytes(k, c)|
  {
    var maskSize, code := CalcCode(c);
    var v := SizeOfVarInt(c.version);
    var h := SizeOfVarInt(code);
    var o := OutsSize(k, c.vout);
    var e := SizeOfVarInt(c.height);
    size := v + h + maskSize + o + e;
  }

  method ReadMaskFrom(input: Stream, code: nat, first: bool, second: bool) returns (ok: bool, avail: seq<bool>)
    modifies input
    ensures ok <==> ReadMask(old(input.data), code, [first, second], 8).Some?
    ensures ok ==> ReadMask(old(input.data), code, [first, second], 8) == Some((avail, input.data))
  {
    avail := [first, second];
    var left := code;
    while left > 0
      invariant left >= 0 && ReadMask(input.data, left, avail, 8) == ReadMask(old(input.data), code, [first, second], 8)
      decreases |input.data|
    {
      ghost var before := input.data;
      var got, x := input.Get();
      if !got { return false, []; }
      assert before[1..] == input.data && before[0] == x;
      var bits := TakeBits(x);
      avail := avail + bits;
      if x != 0 { left := left - 1; }
    }
    ok := true;
  }

  method TakeBits(x: Byte) returns (bits: seq<bool>)
    ensures bits == BitsOf(x, 8)
  {
    bits := [];
    var p, left := 0, x;
    while p < 8
      invariant 0 <= p <= 8 && left >= 0 && bits + BitsOf(left, 8 - p) == BitsOf(x, 8)
    {
      ghost var rest := BitsOf(left / 2, 8 - (p + 1));
      assert bits + ([left % 2 == 1] + rest) == bits + [left % 2 == 1] + rest;
      bits := bits + [left % 2 == 1];
      left := left / 2;
      p := p + 1;
    }
    assert bits + [] == bits;
  }

  /** What is read in all is what has been read, followed by what is still to be read. */
  ghost predicate Continued(all: Parsed<seq<TxOut>>, outs: seq<TxOut>, more: Parsed<seq<TxOut>>) {
    && (all.Some? <==> more.Some?)
    && (all.Some? ==> all.value == (outs + more.value.0, more.value.1))
  }

  lemma ContinuedNext(all: Parsed<seq<TxOut>>, outs: seq<TxOut>, o: TxOut, rest: Parsed<seq<TxOut>>,
                      more: Parsed<seq<TxOut>>)
    requires Continued(all, outs, more) && (more.Some? <==> rest.Some?)
    requires rest.Some? ==> more.value == ([o] + rest.value.0, rest.value.1)
    ensures Continued(all, outs + [o], rest)
  {
    if rest.Some? { assert outs + ([o] + rest.value.0) == outs + [o] + rest.value.0; }
  }

  method ReadOutsFrom(input: Stream, k: Keys, avail: seq<bool>) returns (ok: bool, outs: seq<TxOut>)
    modifies input
    ensures ok <==> ReadOuts(k, old(input.data), avail).Some?
    ensures ok ==> ReadOuts(k, old(input.data), avail) == Some((outs, input.data))
  {
    ghost var all := ReadOuts(k, input.data, avail);
    outs := [];
    var i := 0;
    assert avail[0..] == avail;
    assert all.Some? ==> [] + all.value.0 == all.value.0;
    while i < |avail|
      invariant 0 <= i <= |avail| && Continued(all, outs, ReadOuts(k, input.data, avail[i..]))
    {
      ghost var more := ReadOuts(k, input.data, avail[i..]);
      assert avail[i..][1..] == avail[i + 1..];
      var o := Null;
      if avail[i] {
        var got: bool;
        got, o := ReadTxOutFrom(input, k);
        if !got { return false, []; }
      }
      ContinuedNext(all, outs, o, ReadOuts(k, input.data, avail[i + 1..]), more);
      outs := outs + [o];
      i := i + 1;
    }
    assert outs + [] == outs;
    ok := true;
  }

  method ReadTailFrom(input: Stream, k: Keys, version: int, coinBase: bool, avail: seq<bool>) returns (ok: bool, c: Coins)
    modifies input
    ensures ok <==> ReadTail(k, old(input.data), version, coinBase, avail).Some?
    ensures ok ==> ReadTail(k, old(input.data), version, coinBase, avail) == Some((c, input.data))
  {
    c := NoCoins;
    var outs: seq<TxOut>, height: nat;
    ok, outs := ReadOutsFrom(input, k, avail);
    if !ok { return; }
    ok, height := ReadVarInteger(input, WORD);
    if !ok { return; }
    var left := CleanUp(outs);
    c := Coins(coinBase, false, left, Signed(height, WORD), version);
  }

  method ReadBodyFrom(input: Stream, k: Keys, version: int, code: nat) returns (ok: bool, c: Coins)
    modifies input
    ensures ok <==> ReadBody(k, old(input.data), version, code).Some?
    ensures ok ==> ReadBody(k, old(input.data), version, code) == Some((c, input.data))
  {
    c := NoCoins;
    var first, second := code / 2 % 2 == 1, code / 4 % 2 == 1;
    var avail: seq<bool>;
    ok, avail := ReadMaskFrom(input, code / 8 + if first || second then 0 else 1, first, second);
    if !ok { return; }
    ok, c := ReadTailFrom(input, k, version, code % 2 == 1, avail);
  }

  method Unserialize(input: Stream, k: Keys) returns (ok: bool, c: Coins)
    modifies input
    ensures ok <==> ReadCoins(k, old(input.data)).Some?
    ensures ok ==> ReadCoins(k, old(input.data)) == Some((c, input.data))
  {
    c := NoCoins;
    var version: nat, code: nat;
    ok, version := ReadVarInteger(input, WORD);
    if !ok { return; }
    ok, code := ReadVarInteger(input, WORD);
    if !ok { return; }
    ok, c := ReadBodyFrom(input, k, Signed(version, WORD), code);
  }
}
