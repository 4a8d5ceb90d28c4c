/** The serialization of all unspent outputs of a transaction, with its mask of available outputs. */
module CoinsRecord {
  import opened Common
  import opened ArithMath
  import opened CoinsState
  import opened CoinsProofs
  import opened CoinsRuns
  import opened CoinsCodec

  // ---------------------------------------------------------------------
  // Bits of a byte
  // ---------------------------------------------------------------------

  /** The number with the given bits, least significant first. */
  function ByteOf(bits: seq<bool>): nat {
    if bits == [] then 0 else (if bits[0] then 1 else 0) + 2 * ByteOf(bits[1..])
  }

  function BitsOf(x: nat, n: nat): (bits: seq<bool>)
    ensures |bits| == n
    decreases n
  {
    if n == 0 then [] else [x % 2 == 1] + BitsOf(x / 2, n - 1)
  }

  lemma {:induction false} BitsRoundTrip(bits: seq<bool>)
    ensures BitsOf(ByteOf(bits), |bits|) == bits
  {
    if bits != [] {
      BitsRoundTrip(bits[1..]);
      var x, y := ByteOf(bits), ByteOf(bits[1..]);
      assert x / 2 == y && (x % 2 == 1 <==> bits[0]);
      assert bits == [bits[0]] + bits[1..];
    }
  }

  lemma {:induction false} ByteZero(bits: seq<bool>)
    ensures ByteOf(bits) == 0 <==> forall i :: 0 <= i < |bits| ==> !bits[i]
  {
    if bits != [] {
      ByteZero(bits[1..]);
      assert forall i :: 0 < i < |bits| ==> bits[i] == bits[1..][i - 1];
      if !bits[0] && (forall i :: 0 <= i < |bits[1..]| ==> !bits[1..][i]) {
        assert forall i :: 0 <= i < |bits| ==> !bits[i];
      }
    }
  }

  lemma ByteFits(bits: seq<bool>)
    requires |bits| == 8
    ensures ByteOf(bits) < 256
  {
    ByteBound(bits, 256);
  }

  lemma {:induction false} ByteBound(bits: seq<bool>, top: nat)
    requires top == Pow2(|bits|)
    ensures ByteOf(bits) < top
  {
    if bits != [] { ByteBound(bits[1..], top / 2); }
  }

  // ---------------------------------------------------------------------
  // The mask
  // ---------------------------------------------------------------------

  const Null := TxOut(-1, [])

  predicate Available(vout: seq<TxOut>, i: nat) {
    i < |vout| && !vout[i].IsNull()
  }

  /** The availability of the outputs from number `i` up to number `n`. */
  function AvailFrom(vout: seq<TxOut>, i: nat, n: nat): (bits: seq<bool>)
    requires i <= n
    ensures |bits| == n - i
    decreases n - i
  {
    if i == n then [] else [Available(vout, i)] + AvailFrom(vout, i + 1, n)
  }

  lemma {:induction false} AvailAt(vout: seq<TxOut>, i: nat, n: nat, j: nat)
    requires i <= j < n
    ensures AvailFrom(vout, i, n)[j - i] == Available(vout, j)
    decreases n - i
  {
    if i < j { AvailAt(vout, i + 1, n, j); }
  }

  lemma {:induction false} AvailSplit(vout: seq<TxOut>, i: nat, m: nat, n: nat)
    requires i <= m <= n
    ensures AvailFrom(vout, i, m) + AvailFrom(vout, m, n) == AvailFrom(vout, i, n)
    decreases n - i
  {
    if i < m {
      AvailSplit(vout, i + 1, m, n);
    } else {
      assert [] + AvailFrom(vout, m, n) == AvailFrom(vout, m, n);
    }
  }

  /** The availability of the eight outputs of mask byte `b`; the first two outputs are not in the mask. */
  function MaskBits(vout: seq<TxOut>, b: nat): seq<bool> {
    AvailFrom(vout, 2 + 8 * b, 10 + 8 * b)
  }

  function MaskByte(vout: seq<TxOut>, b: nat): Byte {
    ByteFits(MaskBits(vout, b));
    ByteOf(MaskBits(vout, b))
  }

  /** The number of mask bytes that cover all outputs. */
  function Covering(vout: seq<TxOut>): nat {
    if |vout| <= 2 then 0 else (|vout| - 3) / 8 + 1
  }

  /** The number of bytes up to the last one of the first `n` that is not zero. */
  function LastUsed(vout: seq<TxOut>, n: nat): (k: nat)
    ensures k <= n && (k > 0 ==> MaskByte(vout, k - 1) != 0)
    ensures forall b :: k <= b < n ==> MaskByte(vout, b) == 0
  {
    if n == 0 then 0 else if MaskByte(vout, n - 1) != 0 then n else LastUsed(vout, n - 1)
  }

  /** How many of the first `n` bytes are not zero. */
  function Nonzero(vout: seq<TxOut>, n: nat): nat {
    if n == 0 then 0 else Nonzero(vout, n - 1) + if MaskByte(vout, n - 1) != 0 then 1 else 0
  }

  function MaskSize(vout: seq<TxOut>): nat { LastUsed(vout, Covering(vout)) }

  function MaskCode(vout: seq<TxOut>): nat { Nonzero(vout, Covering(vout)) }

  lemma {:induction false} NonzeroTail(vout: seq<TxOut>, k: nat, n: nat)
    requires k <= n && forall b :: k <= b < n ==> MaskByte(vout, b) == 0
    ensures Nonzero(vout, n) == Nonzero(vout, k)
    decreases n
  {
    if k < n { NonzeroTail(vout, k, n - 1); }
  }

  lemma {:induction false} NonzeroMono(vout: seq<TxOut>, k: nat, n: nat)
    requires k <= n
    ensures Nonzero(vout, k) <= Nonzero(vout, n)
    decreases n
  {
    if k < n { NonzeroMono(vout, k, n - 1); }
  }

  /** The mask bytes from number `b` up to number `n`. */
  function MaskBytes(vout: seq<TxOut>, b: nat, n: nat): (s: seq<Byte>)
    requires b <= n
    ensures |s| == n - b
    decreases n - b
  {
    if b == n then [] else [MaskByte(vout, b)] + MaskBytes(vout, b + 1, n)
  }

  /** Reads mask bytes, of `width` bits, until `code` of them were not zero. */
  function ReadMask(s: seq<Byte>, code: nat, avail: seq<bool>, width: nat): Parsed<seq<bool>> {
    if code == 0 then Some((avail, s))
    else if s == [] then None
    else ReadMask(s[1..], if s[0] != 0 then code - 1 else code, avail + BitsOf(s[0], width), width)
  }

  /** The bits of a row of bytes. */
  function AllBits(xs: seq<Byte>, width: nat): seq<bool> {
    if xs == [] then [] else BitsOf(xs[0], width) + AllBits(xs[1..], width)
  }

  function CountUsed(xs: seq<Byte>): nat {
    if xs == [] then 0 else (if xs[0] != 0 then 1 else 0) + CountUsed(xs[1..])
  }

  lemma {:induction false} LastCounts(xs: seq<Byte>)
    requires xs != [] && xs[|xs| - 1] != 0
    ensures CountUsed(xs) > 0
  {
    if |xs| > 1 { LastCounts(xs[1..]); }
  }

  /** The reader stops exactly after the last byte, which is not zero. */
  lemma {:induction false} ReadsMask(xs: seq<Byte>, t: seq<Byte>, avail: seq<bool>, width: nat)
    requires xs != [] ==> xs[|xs| - 1] != 0
    ensures ReadMask(xs + t, CountUsed(xs), avail, width) == Some((avail + AllBits(xs, width), t))
  {
    if xs == [] {
      assert xs + t == t && avail + [] == avail;
    } else {
      LastCounts(xs);
      var bits := BitsOf(xs[0], width);
      ReadsMask(xs[1..], t, avail + bits, width);
      assert (xs + t)[1..] == xs[1..] + t;
      assert avail + bits + AllBits(xs[1..], width) == avail + (bits + AllBits(xs[1..], width));
    }
  }

  lemma {:induction false} MaskMeans(vout: seq<TxOut>, b: nat, n: nat, width: nat)
    requires b <= n && width == 8
    ensures AllBits(MaskBytes(vout, b, n), width) == AvailFrom(vout, 2 + 8 * b, 2 + 8 * n)
    ensures Nonzero(vout, b) + CountUsed(MaskBytes(vout, b, n)) == Nonzero(vout, n)
    decreases n - b
  {
    if b < n {
      var xs, c, i, j, e := MaskBytes(vout, b, n), b + 1, 2 + 8 * b, 10 + 8 * b, 2 + 8 * n;
      MaskMeans(vout, c, n, width);
      assert xs[1..] == MaskBytes(vout, c, n);
      BitsRoundTrip(MaskBits(vout, b));
      AvailSplit(vout, i, j, e);
      assert 2 + 8 * c == j;
    }
  }

  lemma LastOf(x: Byte, rest: seq<Byte>, all: seq<Byte>)
    requires all == [x] + rest
    ensures all[|all| - 1] == if rest == [] then x else rest[|rest| - 1]
  {
  }

  lemma {:induction false} LastMaskByte(vout: seq<TxOut>, b: nat, n: nat, last: Byte)
    requires b < n && last == MaskByte(vout, n - 1)
    ensures MaskBytes(vout, b, n)[n - b - 1] == last
    decreases n - b
  {
    LastOf(MaskByte(vout, b), MaskBytes(vout, b + 1, n), MaskBytes(vout, b, n));
    if b + 1 < n { LastMaskByte(vout, b + 1, n, last); }
  }

  lemma ReadsAll(xs: seq<Byte>, t: seq<Byte>, two: seq<bool>, width: nat, bits: seq<bool>, all: seq<bool>, code: nat)
    requires (xs != [] ==> xs[|xs| - 1] != 0) && AllBits(xs, width) == bits && two + bits == all && code == CountUsed(xs)
    ensures ReadMask(xs + t, code, two, width) == Some((all, t))
  {
    ReadsMask(xs, t, two, width);
  }

  /** The mask that was written is read back, and exactly its own bytes are consumed. */
  lemma MaskRoundTrip(vout: seq<TxOut>, n: nat, t: seq<Byte>, two: seq<bool>, width: nat, xs: seq<Byte>, all: seq<bool>)
    requires (n > 0 ==> MaskByte(vout, n - 1) != 0) && two == AvailFrom(vout, 0, 2) && width == 8
    requires xs == MaskBytes(vout, 0, n) && all == AvailFrom(vout, 0, 2 + 8 * n)
    ensures ReadMask(xs + t, Nonzero(vout, n), two, width) == Some((all, t))
  {
    var e := 2 + 8 * n;
    if n > 0 { LastMaskByte(vout, 0, n, MaskByte(vout, n - 1)); }
    MaskMeans(vout, 0, n, width);
    AvailSplit(vout, 0, 2, e);
    ReadsAll(xs, t, two, width, AvailFrom(vout, 2, e), all, Nonzero(vout, n));
  }

  lemma FirstTwo(vout: seq<TxOut>)
    ensures AvailFrom(vout, 0, 2) == [Available(vout, 0), Available(vout, 1)]
  {
    AvailAt(vout, 0, 2, 0);
    AvailAt(vout, 0, 2, 1);
  }

  // ---------------------------------------------------------------------
  // The outputs
  // ---------------------------------------------------------------------

  predicate OutOk(o: TxOut) {
    o == Null || Writable(o)
  }

  predicate OutsOk(vout: seq<TxOut>) {
    forall i :: 0 <= i < |vout| ==> OutOk(vout[i])
  }

  /** The outputs that are left, from number `i` on. */
  function OutsBytes(k: Keys, vout: seq<TxOut>, i: nat): seq<Byte>
    requires OutsOk(vout) && i <= |vout|
    decreases |vout| - i
  {
    if i == |vout| then [] else
    (if vout[i].IsNull() then [] else TxOutBytes(k, vout[i])) + OutsBytes(k, vout, i + 1)
  }

  function ReadOuts(k: Keys, s: seq<Byte>, avail: seq<bool>): Parsed<seq<TxOut>>
    decreases |avail|
  {
    if avail == [] then Some(([], s))
    else if !avail[0] then
      match ReadOuts(k, s, avail[1..])
      case None => None
      case Some((outs, rest)) => Some(([Null] + outs, rest))
    else
      match ReadTxOut(k, s)
      case None => None
      case Some((o, t)) =>
        match ReadOuts(k, t, avail[1..])
        case None => None
        case Some((outs, rest)) => Some(([o] + outs, rest))
  }

  /** The outputs from number `i` on, filled up to `n` with spent ones. */
  function Padded(vout: seq<TxOut>, i: nat, n: nat): seq<TxOut>
    requires i <= n
  {
    seq(n - i, j requires 0 <= j < n - i => if i + j < |vout| then vout[i + j] else Null)
  }

  lemma PaddedHead(vout: seq<TxOut>, i: nat, n: nat)
    requires i < |vout| <= n
    ensures Padded(vout, i, n) == [vout[i]] + Padded(vout, i + 1, n)
  {
    var whole, tail := Padded(vout, i, n), Padded(vout, i + 1, n);
    forall j | 0 <= j < |whole| ensures whole[j] == ([vout[i]] + tail)[j] {
      if j > 0 { assert i + j == i + 1 + (j - 1); }
    }
  }

  lemma OutsHead(k: Keys, vout: seq<TxOut>, i: nat, t: seq<Byte>)
    requires OutsOk(vout) && i < |vout|
    ensures OutsBytes(k, vout, i) + t ==
            (if vout[i].IsNull() then [] else TxOutBytes(k, vout[i])) + (OutsBytes(k, vout, i + 1) + t)
  {
  }

  /** The outputs from number `i` on are read back, up to `n` of them, and nothing after them is read. */
  ghost predicate OutsBack(k: Keys, vout: seq<TxOut>, i: nat, n: nat, t: seq<Byte>)
    requires OutsOk(vout) && i <= |vout| <= n
  {
    ReadOuts(k, OutsBytes(k, vout, i) + t, AvailFrom(vout, i, n)) == Some((Padded(vout, i, n), t))
  }

  lemma OutsStep(k: Keys, vout: seq<TxOut>, i: nat, n: nat, t: seq<Byte>)
    requires KeysOk(k) && OutsOk(vout) && i < |vout| <= n && OutsBack(k, vout, i + 1, n, t)
    ensures OutsBack(k, vout, i, n, t)
  {
    var rest, avail, outs := OutsBytes(k, vout, i + 1) + t, AvailFrom(vout, i + 1, n), Padded(vout, i + 1, n);
    OutsHead(k, vout, i, t);
    PaddedHead(vout, i, n);
    OneOut(k, vout[i], rest, avail, outs, t, OutsBytes(k, vout, i) + t, [!vout[i].IsNull()] + avail);
  }

  lemma {:induction false} OutsRoundTrip(k: Keys, vout: seq<TxOut>, i: nat, n: nat, t: seq<Byte>)
    requires KeysOk(k) && OutsOk(vout) && i <= |vout| <= n
    ensures OutsBack(k, vout, i, n, t)
    decreases |vout| - i
  {
    if i == |vout| {
      OutsEnd(k, vout, n, t);
    } else {
      OutsRoundTrip(k, vout, i + 1, n, t);
      OutsStep(k, vout, i, n, t);
    }
  }

  lemma OutsEnd(k: Keys, vout: seq<TxOut>, n: nat, t: seq<Byte>)
    requires OutsOk(vout) && |vout| <= n
    ensures OutsBack(k, vout, |vout|, n, t)
  {
    var avail := AvailFrom(vout, |vout|, n);
    forall j | 0 <= j < |avail| ensures !avail[j] { AvailAt(vout, |vout|, n, |vout| + j); }
    NoneLeft(k, t, avail);
    assert Padded(vout, |vout|, n) == seq(n - |vout|, _ => Null);
    assert OutsBytes(k, vout, |vout|) + t == t;
  }

  lemma OneOut(k: Keys, o: TxOut, rest: seq<Byte>, avail: seq<bool>, outs: seq<TxOut>, t: seq<Byte>, s: seq<Byte>,
               bits: seq<bool>)
    requires KeysOk(k) && OutOk(o) && ReadOuts(k, rest, avail) == Some((outs, t))
    requires s == (if o.IsNull() then [] else TxOutBytes(k, o)) + rest && bits == [!o.IsNull()] + avail
    ensures ReadOuts(k, s, bits) == Some(([o] + outs, t))
  {
    assert bits[1..] == avail;
    if o.IsNull() {
      assert [] + rest == rest;
    } else {
      TxOutRoundTrip(k, o, rest);
    }
  }

  lemma {:induction false} NoneLeft(k: Keys, s: seq<Byte>, avail: seq<bool>)
    requires forall i :: 0 <= i < |avail| ==> !avail[i]
    ensures ReadOuts(k, s, avail) == Some((seq(|avail|, _ => Null), s))
    decreases |avail|
  {
    if avail != [] {
      NoneLeft(k, s, avail[1..]);
      assert [Null] + seq(|avail| - 1, _ => Null) == seq(|avail|, _ => Null);
    } else {
      assert seq<TxOut>(|avail|, _ => Null) == [];
    }
  }

  // ---------------------------------------------------------------------
  // The record
  // ---------------------------------------------------------------------

  /** Coins that are written: not all spent, and of the types' widths. */
  ghost predicate Recordable(c: Coins) {
    && !c.IsPruned() && OutsOk(c.vout) && HeaderCode(c) < WORD
    && 2 * c.version < WORD && 2 * c.height < WORD
  }

  /** Of these, the coins that their record keeps whole. */
  ghost predicate Plain(c: Coins) {
    Recordable(c) && Survives(c)
  }

  /** The header: whether it is a coinbase, the first two outputs, and the number of mask bytes in use. */
  function HeaderCode(c: Coins): int {
    var first, second := Available(c.vout, 0), Available(c.vout, 1);
    8 * (MaskCode(c.vout) - if first || second then 0 else 1)
      + (if c.coinBase then 1 else 0) + (if first then 2 else 0) + (if second then 4 else 0)
  }

  /** The assertion of the writer: something is available. */
  lemma SomethingAvailable(c: Coins)
    requires !c.IsPruned()
    ensures Available(c.vout, 0) || Available(c.vout, 1) || MaskCode(c.vout) > 0
    ensures HeaderCode(c) >= 0
  {
    if !Available(c.vout, 0) && !Available(c.vout, 1) {
      var i :| 0 <= i < |c.vout| && !c.vout[i].IsNull();
      var b := (i - 2) / 8;
      UsedByte(c.vout, i, b);
      NonzeroMono(c.vout, b + 1, Covering(c.vout));
    }
  }

  lemma UsedByte(vout: seq<TxOut>, i: nat, b: nat)
    requires 2 <= i && Available(vout, i) && b == (i - 2) / 8
    ensures MaskByte(vout, b) != 0 && b < Covering(vout)
  {
    ByteZero(MaskBits(vout, b));
    AvailAt(vout, 2 + 8 * b, 10 + 8 * b, i);
  }

  function CoinsBytes(k: Keys, c: Coins): seq<Byte>
    requires OutsOk(c.vout) && HeaderCode(c) >= 0
  {
    VarInt(StoredInt(c.version)) + VarInt(HeaderCode(c)) + MaskBytes(c.vout, 0, MaskSize(c.vout)) + OutsBytes(k, c.vout, 0)
      + VarInt(StoredInt(c.height))
  }

  function ReadTail(k: Keys, s: seq<Byte>, version: int, coinBase: bool, avail: seq<bool>): Parsed<Coins> {
    match ReadOuts(k, s, avail)
    case None => None
    case Some((outs, t)) =>
      match ReadVarInt(t, 0, WORD)
      case None => None
      case Some((height, rest)) => Some((Coins(coinBase, false, outs, Signed(height, WORD), version).Cleanup(), rest))
  }

  function ReadBody(k: Keys, s: seq<Byte>, version: int, code: nat): Parsed<Coins> {
    var first, second := code / 2 % 2 == 1, code / 4 % 2 == 1;
    match ReadMask(s, code / 8 + if first || second then 0 else 1, [first, second], 8)
    case None => None
    case Some((avail, t)) => ReadTail(k, t, version, code % 2 == 1, avail)
  }

  /** Reads coins into an object as it is constructed, which is no coinstake. */
  function ReadCoins(k: Keys, s: seq<Byte>): Parsed<Coins> {
    match ReadVarInt(s, 0, WORD)
    case None => None
    case Some((version, t)) =>
      match ReadVarInt(t, 0, WORD)
      case None => None
      case Some((code, u)) => ReadBody(k, u, Signed(version, WORD), code)
  }

  lemma TailTrimmed(k: Keys, s: seq<Byte>, version: int, coinBase: bool, avail: seq<bool>)
    requires ReadTail(k, s, version, coinBase, avail).Some?
    ensures ReadTail(k, s, version, coinBase, avail).value.0.IsTrimmed()
  {
    TrimKeeps(ReadOuts(k, s, avail).value.0);
  }

  lemma BodyTrimmed(k: Keys, s: seq<Byte>, version: int, code: nat)
    requires ReadBody(k, s, version, code).Some?
    ensures ReadBody(k, s, version, code).value.0.IsTrimmed()
  {
    var first, second := code / 2 % 2 == 1, code / 4 % 2 == 1;
    var (avail, t) := ReadMask(s, code / 8 + if first || second then 0 else 1, [first, second], 8).value;
    TailTrimmed(k, t, version, code % 2 == 1, avail);
  }

  /** Whatever is read is trimmed: reading ends by dropping the spent outputs at the end. */
  lemma ReadTrimmed(k: Keys, s: seq<Byte>)
    requires ReadCoins(k, s).Some?
    ensures ReadCoins(k, s).value.0.IsTrimmed()
  {
    var (version, t) := ReadVarInt(s, 0, WORD).value;
    var (code, u) := ReadVarInt(t, 0, WORD).value;
    BodyTrimmed(k, u, Signed(version, WORD), code);
  }

  /** A database each of whose records was read back answers with trimmed coins only. */
  lemma StoredTrimmed(k: Keys, db: map<Txid, Coins>, record: Txid -> seq<Byte>)
    requires forall t :: t in db ==> ReadCoins(k, record(t)).Some? && ReadCoins(k, record(t)).value.0 == db[t]
    ensures TrimmedInv(Disk(db))
  {
    forall t | t in db ensures db[t].IsTrimmed() {
      ReadTrimmed(k, record(t));
    }
  }

  lemma ThreeBits(m: nat, a: bool, b: bool, c: bool, code: nat)
    requires code == 8 * m + (if a then 1 else 0) + (if b then 2 else 0) + (if c then 4 else 0)
    ensures (code % 2 == 1 <==> a) && (code / 2 % 2 == 1 <==> b) && (code / 4 % 2 == 1 <==> c) && code / 8 == m
  {
    var x, y, z := if a then 1 else 0, if b then 1 else 0, if c then 1 else 0;
    DivModUnique(code, 2, 4 * m + 2 * z + y, x);
    DivModUnique(4 * m + 2 * z + y, 2, 2 * m + z, y);
    DivModUnique(code, 4, 2 * m + z, 2 * y + x);
    DivModUnique(2 * m + z, 2, m, z);
    DivModUnique(code, 8, m, 4 * z + 2 * y + x);
  }

  lemma HeaderParts(c: Coins, code: nat)
    requires code == HeaderCode(c) && (Available(c.vout, 0) || Available(c.vout, 1) || MaskCode(c.vout) > 0)
    ensures (code % 2 == 1 <==> c.coinBase) && (code / 2 % 2 == 1 <==> Available(c.vout, 0))
    ensures code / 4 % 2 == 1 <==> Available(c.vout, 1)
    ensures code / 8 + (if Available(c.vout, 0) || Available(c.vout, 1) then 0 else 1) == MaskCode(c.vout)
  {
    var first, second := Available(c.vout, 0), Available(c.vout, 1);
    ThreeBits(MaskCode(c.vout) - if first || second then 0 else 1, c.coinBase, first, second, code);
  }

  /** The mask that was written covers all outputs. */
  lemma MaskCovers(c: Coins)
    requires c.IsTrimmed()
    ensures |c.vout| <= 2 + 8 * MaskSize(c.vout) && MaskCode(c.vout) == Nonzero(c.vout, MaskSize(c.vout))
  {
    var vout := c.vout;
    NonzeroTail(vout, MaskSize(vout), Covering(vout));
    if |vout| > 2 {
      var b := (|vout| - 3) / 8;
      UsedByte(vout, |vout| - 1, b);
      assert MaskSize(vout) == b + 1;
    }
  }

  lemma {:induction false} TrimPadded(vout: seq<TxOut>, n: nat)
    requires |vout| <= n && (|vout| > 0 ==> !vout[|vout| - 1].IsNull())
    ensures Trim(Padded(vout, 0, n)) == vout
  {
    if n == |vout| {
      assert Padded(vout, 0, n) == vout;
    } else {
      TrimPadded(vout, n - 1);
      assert Padded(vout, 0, n)[..n - 1] == Padded(vout, 0, n - 1);
    }
  }

  lemma TailRoundTrip(k: Keys, c: Coins, n: nat, t: seq<Byte>)
    requires KeysOk(k) && Plain(c) && |c.vout| <= n
    ensures ReadTail(k, OutsBytes(k, c.vout, 0) + (VarInt(c.height) + t), c.version, c.coinBase, AvailFrom(c.vout, 0, n)) ==
            Some((c.(coinStake := false), t))
  {
    var rest := VarInt(c.height) + t;
    OutsRoundTrip(k, c.vout, 0, n, rest);
    VarIntRoundTrip(c.height, t, WORD);
    TailFrom(k, OutsBytes(k, c.vout, 0) + rest, c.version, c.coinBase, AvailFrom(c.vout, 0, n), Padded(c.vout, 0, n), rest,
             c.height, t);
    PaddedCleanup(c, n, Padded(c.vout, 0, n), Signed(c.height, WORD));
  }

  lemma PaddedCleanup(c: Coins, n: nat, outs: seq<TxOut>, height: int)
    requires Plain(c) && |c.vout| <= n && outs == Padded(c.vout, 0, n) && height == Signed(c.height, WORD)
    ensures Coins(c.coinBase, false, outs, height, c.version).Cleanup() == c.(coinStake := false)
  {
    TrimPadded(c.vout, n);
  }

  lemma TailFrom(k: Keys, s: seq<Byte>, version: int, coinBase: bool, avail: seq<bool>, outs: seq<TxOut>, rest: seq<Byte>,
                 height: nat, t: seq<Byte>)
    requires ReadOuts(k, s, avail) == Some((outs, rest)) && ReadVarInt(rest, 0, WORD) == Some((height, t))
    ensures ReadTail(k, s, version, coinBase, avail) ==
            Some((Coins(coinBase, false, outs, Signed(height, WORD), version).Cleanup(), t))
  {
  }

  lemma BodyFrom(k: Keys, s: seq<Byte>, version: int, code: nat, two: seq<bool>, count: nat, width: nat,
                 avail: seq<bool>, t: seq<Byte>)
    requires two == [code / 2 % 2 == 1, code / 4 % 2 == 1] && count == code / 8 + (if two[0] || two[1] then 0 else 1) && width == 8
    requires ReadMask(s, count, two, width) == Some((avail, t))
    ensures ReadBody(k, s, version, code) == ReadTail(k, t, version, code % 2 == 1, avail)
  {
  }

  lemma HeaderReads(k: Keys, c: Coins, m: seq<Byte>, w: seq<Byte>, code: nat, avail: seq<bool>)
    requires Plain(c) && code == HeaderCode(c)
    requires m == MaskBytes(c.vout, 0, MaskSize(c.vout)) && avail == AvailFrom(c.vout, 0, 2 + 8 * MaskSize(c.vout))
    ensures ReadBody(k, m + w, c.version, code) == ReadTail(k, w, c.version, c.coinBase, avail)
  {
    var n, two := MaskSize(c.vout), AvailFrom(c.vout, 0, 2);
    FirstTwo(c.vout);
    SomethingAvailable(c);
    HeaderParts(c, code);
    MaskCovers(c);
    MaskRoundTrip(c.vout, n, w, two, 8, m, avail);
    BodyFrom(k, m + w, c.version, code, two, MaskCode(c.vout), 8, avail, w);
  }

  lemma BodyRoundTrip(k: Keys, c: Coins, t: seq<Byte>, m: seq<Byte>, w: seq<Byte>, code: nat)
    requires KeysOk(k) && Plain(c) && code == HeaderCode(c)
    requires m == MaskBytes(c.vout, 0, MaskSize(c.vout)) && w == OutsBytes(k, c.vout, 0) + (VarInt(c.height) + t)
    ensures ReadBody(k, m + w, c.version, code) == Some((c.(coinStake := false), t))
  {
    MaskCovers(c);
    var n := 2 + 8 * MaskSize(c.vout);
    var avail := AvailFrom(c.vout, 0, n);
    HeaderReads(k, c, m, w, code, avail);
    TailRoundTrip(k, c, n, t);
  }

  /** The version and the header code are read, and then the rest. */
  lemma ReadsBody(k: Keys, version: nat, code: nat, u: seq<Byte>, s: seq<Byte>)
    requires 2 * version < WORD && code < WORD && s == VarInt(version) + (VarInt(code) + u)
    ensures ReadCoins(k, s) == ReadBody(k, u, version, code)
  {
    VarIntRoundTrip(code, u, WORD);
    VarIntRoundTrip(version, VarInt(code) + u, WORD);
  }

  lemma PlainRoundTrip(k: Keys, c: Coins, t: seq<Byte>)
    requires KeysOk(k) && Plain(c)
    ensures HeaderCode(c) >= 0 && ReadCoins(k, CoinsBytes(k, c) + t) == Some((c.(coinStake := false), t))
  {
    SomethingAvailable(c);
    var m, o, e := MaskBytes(c.vout, 0, MaskSize(c.vout)), OutsBytes(k, c.vout, 0), VarInt(c.height);
    Reassociate(VarInt(c.version), VarInt(HeaderCode(c)), m, o, e, t);
    ReadsBody(k, c.version, HeaderCode(c), m + (o + (e + t)), CoinsBytes(k, c) + t);
    BodyRoundTrip(k, c, t, m, o + (e + t), HeaderCode(c));
  }

  // ---------------------------------------------------------------------
  // What the record leaves out
  // ---------------------------------------------------------------------

  /** Spent outputs at the end make no difference to the availability of outputs. */
  lemma {:induction false} SameAvail(vout: seq<TxOut>, less: seq<TxOut>, i: nat, n: nat)
    requires i <= n && forall j: nat :: Available(vout, j) == Available(less, j)
    ensures AvailFrom(vout, i, n) == AvailFrom(less, i, n)
    decreases n - i
  {
    if i < n { SameAvail(vout, less, i + 1, n); }
  }

  lemma SameByte(vout: seq<TxOut>, less: seq<TxOut>, b: nat)
    requires forall j: nat :: Available(vout, j) == Available(less, j)
    ensures MaskByte(vout, b) == MaskByte(less, b)
  {
    SameAvail(vout, less, 2 + 8 * b, 10 + 8 * b);
  }

  lemma {:induction false} SameCounts(vout: seq<TxOut>, less: seq<TxOut>, n: nat)
    requires forall j: nat :: Available(vout, j) == Available(less, j)
    ensures LastUsed(vout, n) == LastUsed(less, n) && Nonzero(vout, n) == Nonzero(less, n)
  {
    if n > 0 {
      SameByte(vout, less, n - 1);
      SameCounts(vout, less, n - 1);
    }
  }

  /** Mask bytes beyond the outputs are zero, and count for nothing. */
  lemma {:induction false} BeyondCounts(vout: seq<TxOut>, n: nat)
    requires Covering(vout) <= n
    ensures LastUsed(vout, n) == MaskSize(vout) && Nonzero(vout, n) == MaskCode(vout)
  {
    if Covering(vout) < n {
      ByteBeyond(vout, n - 1);
      BeyondCounts(vout, n - 1);
    }
  }

  lemma ByteBeyond(vout: seq<TxOut>, b: nat)
    requires Covering(vout) <= b
    ensures MaskByte(vout, b) == 0
  {
    var bits, from := MaskBits(vout, b), 2 + 8 * b;
    assert |vout| <= from;
    forall j | 0 <= j < |bits| ensures !bits[j] { AvailAt(vout, from, 10 + 8 * b, from + j); }
    ByteZero(bits);
  }

  lemma {:induction false} SameMask(vout: seq<TxOut>, less: seq<TxOut>, b: nat, n: nat)
    requires b <= n && forall j: nat :: Available(vout, j) == Available(less, j)
    ensures MaskBytes(vout, b, n) == MaskBytes(less, b, n)
    decreases n - b
  {
    if b < n {
      SameByte(vout, less, b);
      SameMask(vout, less, b + 1, n);
    }
  }

  /** Spent outputs at the end are not written. */
  lemma {:induction false} SpentTail(k: Keys, vout: seq<TxOut>, less: seq<TxOut>, i: nat)
    requires OutsOk(vout) && less <= vout && i <= |less| && forall j :: |less| <= j < |vout| ==> vout[j].IsNull()
    ensures OutsOk(less) && OutsBytes(k, vout, i) == OutsBytes(k, less, i)
    decreases |less| - i
  {
    if i < |less| {
      SpentTail(k, vout, less, i + 1);
    } else {
      AllSpent(k, vout, i);
    }
  }

  lemma {:induction false} AllSpent(k: Keys, vout: seq<TxOut>, i: nat)
    requires OutsOk(vout) && i <= |vout| && forall j :: i <= j < |vout| ==> vout[j].IsNull()
    ensures OutsBytes(k, vout, i) == []
    decreases |vout| - i
  {
    if i < |vout| { AllSpent(k, vout, i + 1); }
  }

  lemma TrimmedMask(vout: seq<TxOut>, less: seq<TxOut>)
    requires less <= vout && forall j :: |less| <= j < |vout| ==> vout[j].IsNull()
    ensures MaskSize(vout) == MaskSize(less) && MaskCode(vout) == MaskCode(less)
    ensures MaskBytes(vout, 0, MaskSize(vout)) == MaskBytes(less, 0, MaskSize(less))
    ensures Available(vout, 0) == Available(less, 0) && Available(vout, 1) == Available(less, 1)
  {
    forall j: nat ensures Available(vout, j) == Available(less, j) {}
    var n := Covering(vout);
    SameCounts(vout, less, n);
    BeyondCounts(less, n);
    SameMask(vout, less, 0, MaskSize(vout));
  }

  /** The record of coins is that of the coins read back from it. */
  lemma SameRecord(k: Keys, c: Coins)
    requires Recordable(c)
    ensures Plain(Stored(c)) && HeaderCode(c) == HeaderCode(Stored(c)) >= 0 && CoinsBytes(k, c) == CoinsBytes(k, Stored(c))
  {
    TrimKeeps(c.vout);
    StoredMeaning(c);
    TrimmedMask(c.vout, Trim(c.vout));
    SpentTail(k, c.vout, Trim(c.vout), 0);
    SomethingAvailable(c);
  }

  /** Coins that are written are read back as what the database stores of them, whatever their version, height and
      spent outputs; exactly the bytes written are consumed. */
  lemma CoinsRoundTrip(k: Keys, c: Coins, t: seq<Byte>)
    requires KeysOk(k) && Recordable(c)
    ensures HeaderCode(c) >= 0 && ReadCoins(k, CoinsBytes(k, c) + t) == Some((Stored(c), t))
    ensures Stored(c) == c <==> Survives(c) && !c.coinStake
  {
    SameRecord(k, c);
    PlainRoundTrip(k, Stored(c), t);
    StoredMeaning(c);
  }

  lemma Reassociate(v: seq<Byte>, h: seq<Byte>, m: seq<Byte>, o: seq<Byte>, e: seq<Byte>, t: seq<Byte>)
    ensures v + h + m + o + e + t == v + (h + (m + (o + (e + t))))
  {
  }
}
