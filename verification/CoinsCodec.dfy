/** The serialized form of `CCoins` (`src/coins.h`): a header code, a bitmask of unspent outputs,
    the unspent outputs, the height. */
module CoinsCodec {
  import opened Arithmetic
  import opened Options
  import opened Compressor
  import opened Coins

  // ---------------------------------------------------------------- bits and bytes

  function ByteOf(bits: seq<bool>): nat {
    if bits == [] then 0 else (if bits[0] then 1 else 0) + 2 * ByteOf(bits[1..])
  }

  function BitsOf(n: nat, k: nat): (bits: seq<bool>)
    ensures |bits| == k
  {
    if k == 0 then [] else [n % 2 == 1] + BitsOf(n / 2, k - 1)
  }

  /** The bits of a byte made from at most `k` bits are those bits, then zeros. */
  lemma {:induction false} BitsOfByte(bits: seq<bool>, k: nat)
    requires |bits| <= k
    ensures forall i :: 0 <= i < k ==> BitsOf(ByteOf(bits), k)[i] == (i < |bits| && bits[i])
  {
    if k > 0 {
      if bits == [] {
        BitsOfByte([], k - 1);
      } else {
        BitsOfByte(bits[1..], k - 1);
        var n := ByteOf(bits);
        assert n / 2 == ByteOf(bits[1..]) && (n % 2 == 1 <==> bits[0]);
      }
    }
  }

  lemma {:induction false} ByteIsZero(bits: seq<bool>)
    ensures ByteOf(bits) == 0 <==> forall i :: 0 <= i < |bits| ==> !bits[i]
  {
    if bits != [] {
      ByteIsZero(bits[1..]);
      if ByteOf(bits) == 0 {
        forall i | 0 <= i < |bits| ensures !bits[i] { if i > 0 { assert bits[i] == bits[1..][i - 1]; } }
      } else if !bits[0] {
        var j :| 0 <= j < |bits[1..]| && bits[1..][j];
        assert bits[j + 1];
      }
    }
  }

  // ---------------------------------------------------------------- the bitmask

  /** Which outputs from position `from` on are unspent. */
  function Available(vout: seq<TxOut>): (a: seq<bool>)
    ensures |a| == |vout| && forall i :: 0 <= i < |a| ==> a[i] == !vout[i].IsNull()
  {
    seq(|vout|, i requires 0 <= i < |vout| => !vout[i].IsNull())
  }

  /** The mask byte of eight outputs from position `2 + b * 8` on. */
  function MaskByte(vout: seq<TxOut>, b: nat): nat
    requires 2 + b * 8 <= |vout|
  {
    ByteOf(Available(vout[2 + b * 8..Min(2 + b * 8 + 8, |vout|)]))
  }

  lemma MaskByteIsZero(vout: seq<TxOut>, b: nat)
    requires 2 + b * 8 <= |vout|
    ensures MaskByte(vout, b) == 0 <==> forall i :: 2 + b * 8 <= i < 2 + b * 8 + 8 && i < |vout| ==> vout[i].IsNull()
  {
    var lo, hi := 2 + b * 8, Min(2 + b * 8 + 8, |vout|);
    ByteIsZero(Available(vout[lo..hi]));
    if MaskByte(vout, b) == 0 {
      forall i | lo <= i < lo + 8 && i < |vout| ensures vout[i].IsNull() {
        assert !Available(vout[lo..hi])[i - lo];
      }
    } else {
      var j :| 0 <= j < hi - lo && Available(vout[lo..hi])[j];
      assert !vout[lo + j].IsNull();
    }
  }

  /** The mask bytes before position `n`. */
  function MaskBytes(vout: seq<TxOut>, n: nat): (m: Bytes)
    requires n > 0 ==> 2 + (n - 1) * 8 < |vout|
    ensures |m| == n
  {
    if n == 0 then [] else MaskBytes(vout, n - 1) + [MaskByte(vout, n - 1)]
  }

  function NonZeros(m: Bytes): nat {
    if m == [] then 0 else NonZeros(m[..|m| - 1]) + if m[|m| - 1] != 0 then 1 else 0
  }

  /** No mask bytes are needed from `n` on. */
  ghost predicate NoneFrom(vout: seq<TxOut>, n: nat) {
    forall i :: 2 + n * 8 <= i < |vout| ==> vout[i].IsNull()
  }

  /** The length of the mask: up to its last non-zero byte. */
  ghost predicate IsMaskSize(vout: seq<TxOut>, n: nat) {
    && (n > 0 ==> 2 + (n - 1) * 8 < |vout| && MaskByte(vout, n - 1) != 0)
    && NoneFrom(vout, n)
  }

  /** The inner loop of `CalcMaskSize`. */
  method IsZeroByte(vout: seq<TxOut>, b: nat) returns (fZero: bool)
    requires 2 + b * 8 < |vout|
    ensures fZero <==> MaskByte(vout, b) == 0
  {
    fZero := true;
    var i := 0;
    while i < 8 && 2 + b * 8 + i < |vout|
      invariant 0 <= i <= 8 && 2 + b * 8 + i <= |vout|
      invariant fZero <==> forall j :: 2 + b * 8 <= j < 2 + b * 8 + i ==> vout[j].IsNull()
    {
      if !vout[2 + b * 8 + i].IsNull() {
        fZero := false;
      }
      i := i + 1;
    }
    MaskByteIsZero(vout, b);
  }

  /** How many of the first `b` mask bytes are not zero. */
  function UsedBytes(vout: seq<TxOut>, b: nat): nat
    requires b > 0 ==> 2 + (b - 1) * 8 < |vout|
  {
    if b == 0 then 0 else UsedBytes(vout, b - 1) + if MaskByte(vout, b - 1) != 0 then 1 else 0
  }

  lemma {:induction false} UsedAreNonZeros(vout: seq<TxOut>, b: nat)
    requires b > 0 ==> 2 + (b - 1) * 8 < |vout|
    ensures UsedBytes(vout, b) == NonZeros(MaskBytes(vout, b))
  {
    if b > 0 {
      UsedAreNonZeros(vout, b - 1);
      assert MaskBytes(vout, b)[..b - 1] == MaskBytes(vout, b - 1);
    }
  }

  /** The outputs of the mask bytes from `m` to `n` are all spent. */
  ghost predicate UnusedBetween(vout: seq<TxOut>, m: nat, n: nat) {
    forall i :: 2 + m * 8 <= i < 2 + n * 8 && i < |vout| ==> vout[i].IsNull()
  }

  lemma UnusedMore(vout: seq<TxOut>, m: nat, b: nat)
    requires 2 + b * 8 < |vout| && m <= b && UnusedBetween(vout, m, b) && MaskByte(vout, b) == 0
    ensures UnusedBetween(vout, m, b + 1)
  {
    MaskByteIsZero(vout, b);
  }

  /** The number of mask bytes, and how many of them are not zero. */
  method CalcMaskSize(vout: seq<TxOut>) returns (nBytes: nat, nNonzeroBytes: nat)
    ensures IsMaskSize(vout, nBytes) && nNonzeroBytes == NonZeros(MaskBytes(vout, nBytes))
  {
    nBytes, nNonzeroBytes := 0, 0;
    var b := 0;
    while 2 + b * 8 < |vout|
      invariant nBytes <= b && (b > 0 ==> 2 + (b - 1) * 8 < |vout|)
      invariant nBytes > 0 ==> MaskByte(vout, nBytes - 1) != 0
      invariant UnusedBetween(vout, nBytes, b)
      invariant nNonzeroBytes == UsedBytes(vout, nBytes) && nNonzeroBytes == UsedBytes(vout, b)
      decreases |vout| - b
    {
      var fZero := IsZeroByte(vout, b);
      if !fZero {
        nBytes := b + 1;
        nNonzeroBytes := nNonzeroBytes + 1;
      } else {
        UnusedMore(vout, nBytes, b);
      }
      b := b + 1;
    }
    UsedAreNonZeros(vout, nBytes);
  }

  /** The mask written: its bytes up to the last non-zero one. */
  function MaskSize(vout: seq<TxOut>, b: nat): (n: nat)
    requires b > 0 ==> 2 + (b - 1) * 8 < |vout|
    ensures n <= b && UnusedBetween(vout, n, b)
    ensures n > 0 ==> MaskByte(vout, n - 1) != 0
  {
    if b == 0 then 0
    else if MaskByte(vout, b - 1) != 0 then b
    else MaskByteIsZero(vout, b - 1); MaskSize(vout, b - 1)
  }

  /** The number of mask bytes of all outputs. */
  function FullSize(vout: seq<TxOut>): (b: nat)
    ensures b > 0 ==> 2 + (b - 1) * 8 < |vout|
    ensures |vout| <= 2 + b * 8
  {
    if |vout| <= 2 then 0 else (|vout| - 2 + 7) / 8
  }

  function Mask(vout: seq<TxOut>): Bytes {
    MaskBytes(vout, MaskSize(vout, FullSize(vout)))
  }

  lemma MaskSizeUnique(vout: seq<TxOut>, m: nat, n: nat)
    requires IsMaskSize(vout, m) && IsMaskSize(vout, n)
    ensures m == n
  {
    if m < n { MaskByteIsZero(vout, n - 1); }
    if n < m { MaskByteIsZero(vout, m - 1); }
  }

  lemma MaskHasMaskSize(vout: seq<TxOut>, n: nat)
    requires IsMaskSize(vout, n)
    ensures MaskBytes(vout, n) == Mask(vout)
  {
    MaskSizeUnique(vout, n, MaskSize(vout, FullSize(vout)));
  }

  // ---------------------------------------------------------------- reading the mask

  /** The loop that reads mask bytes until `k` of them were not zero. */
  function ReadMask(s: Bytes, k: nat): Option<(seq<bool>, Bytes)> {
    if k == 0 then Some(([], s))
    else if s == [] then None
    else
      match ReadMask(s[1..], if s[0] != 0 then k - 1 else k)
      case None => None
      case Some((bits, t)) => Some((BitsOf(s[0], 8) + bits, t))
  }

  function BitsOfAll(m: Bytes): seq<bool> {
    if m == [] then [] else BitsOf(m[0], 8) + BitsOfAll(m[1..])
  }

  lemma {:induction false} NonZerosFront(m: Bytes)
    requires m != []
    ensures NonZeros(m) == (if m[0] != 0 then 1 else 0) + NonZeros(m[1..])
  {
    if |m| > 1 {
      NonZerosFront(m[..|m| - 1]);
      assert m[..|m| - 1][1..] == m[1..][..|m| - 2];
    }
  }

  /** The reader takes exactly the mask, because the last byte of the mask is not zero. */
  lemma {:induction false} ReadWholeMask(m: Bytes, tail: Bytes)
    requires m != [] ==> m[|m| - 1] != 0
    ensures ReadMask(m + tail, NonZeros(m)) == Some((BitsOfAll(m), tail))
  {
    if m == [] {
      assert m + tail == tail;
    } else {
      NonZerosFront(m);
      assert (m + tail)[1..] == m[1..] + tail;
      ReadWholeMask(m[1..], tail);
    }
  }

  lemma {:induction false} BitOf(m: Bytes, b: nat, p: nat)
    requires b < |m| && p < 8
    ensures |BitsOfAll(m)| == 8 * |m| && BitsOfAll(m)[8 * b + p] == BitsOf(m[b], 8)[p]
  {
    BitsOfAllLength(m);
    if b > 0 { BitOf(m[1..], b - 1, p); }
  }

  lemma {:induction false} BitsOfAllLength(m: Bytes)
    ensures |BitsOfAll(m)| == 8 * |m|
  {
    if m != [] { BitsOfAllLength(m[1..]); }
  }

  lemma {:induction false} MaskByteAt(vout: seq<TxOut>, n: nat, b: nat)
    requires (n > 0 ==> 2 + (n - 1) * 8 < |vout|) && b < n
    ensures MaskBytes(vout, n)[b] == MaskByte(vout, b)
  {
    if b < n - 1 { MaskByteAt(vout, n - 1, b); }
  }

  /** `a` says of every position whether its output is unspent; beyond `a` none is. */
  ghost predicate Covers(a: seq<bool>, vout: seq<TxOut>) {
    forall i: nat :: (i < |a| && a[i]) <==> !OutAt(vout, i).IsNull()
  }

  function First(vout: seq<TxOut>): bool { |vout| > 0 && !vout[0].IsNull() }

  function Second(vout: seq<TxOut>): bool { |vout| > 1 && !vout[1].IsNull() }

  lemma {:induction false} MaskByteBits(vout: seq<TxOut>, b: nat, p: nat)
    requires 2 + b * 8 <= |vout| && p < 8
    ensures BitsOf(MaskByte(vout, b), 8)[p] <==> !OutAt(vout, 2 + 8 * b + p).IsNull()
  {
    var lo, hi := 2 + b * 8, Min(2 + b * 8 + 8, |vout|);
    ByteBits(Available(vout[lo..hi]), p);
    if lo + p < hi { assert vout[lo..hi][p] == vout[lo + p]; }
  }

  lemma ByteBits(bits: seq<bool>, p: nat)
    requires |bits| <= 8 && p < 8
    ensures BitsOf(ByteOf(bits), 8)[p] <==> p < |bits| && bits[p]
  {
    BitsOfByte(bits, 8);
  }

  lemma MaskBit(vout: seq<TxOut>, n: nat, b: nat, p: nat)
    requires (n > 0 ==> 2 + (n - 1) * 8 < |vout|) && b < n && p < 8
    ensures |BitsOfAll(MaskBytes(vout, n))| == 8 * n
    ensures BitsOfAll(MaskBytes(vout, n))[8 * b + p] <==> !OutAt(vout, 2 + 8 * b + p).IsNull()
  {
    BitOf(MaskBytes(vout, n), b, p);
    MaskByteAt(vout, n, b);
    MaskByteBits(vout, b, p);
  }

  /** The two header bits and the mask describe all outputs. */
  lemma MaskCovers(vout: seq<TxOut>, n: nat)
    requires IsMaskSize(vout, n)
    ensures Covers([First(vout), Second(vout)] + BitsOfAll(MaskBytes(vout, n)), vout)
  {
    var bits := BitsOfAll(MaskBytes(vout, n));
    var a := [First(vout), Second(vout)] + bits;
    BitsOfAllLength(MaskBytes(vout, n));
    forall i: nat ensures (i < |a| && a[i]) <==> !OutAt(vout, i).IsNull() {
      if 2 <= i < 2 + 8 * n {
        var b, p := (i - 2) / 8, (i - 2) % 8;
        MaskBit(vout, n, b, p);
        assert a[i] == bits[8 * b + p];
      }
    }
  }

  // ---------------------------------------------------------------- outputs

  /** Conversion to a 64-bit word. */
  function Word(x: int): nat { x % (MAX_UINT64 + 1) }

  /** Conversion of a 64-bit word to a signed number. */
  function Signed(x: nat): int { if x <= MAX_UINT64 / 2 then x else x - (MAX_UINT64 + 1) }

  /** `CTxOutCompressor`; the amount is compressed on 64-bit words. */
  function WriteOut(curve: Curve, o: TxOut): Bytes {
    VarInt(Word(Compressed(Word(o.nValue)))) + WriteScript(curve, o.scriptPubKey)
  }

  /** `CTxOutCompressor` reads into a fresh output. */
  function ReadOut(curve: Curve, s: Bytes): Option<(TxOut, Bytes)> {
    match ReadVarInt(s, 0)
    case None => None
    case Some((v, t)) =>
      match ReadScript(curve, t)
      case None => None
      case Some((script, u)) => Some((TxOut(Signed(Word(Decompressed(v))), script, -10), u))
  }

  /** Spent outputs are what `SetNull` makes; the others have an amount that is compressed without
      wrapping and the initial number of rounds. */
  ghost predicate Writable(o: TxOut) {
    if o.IsNull() then o == NULL_OUT
    else 0 <= o.nValue <= MAX_UINT64 / 2 && Compressed(o.nValue) <= MAX_UINT64 && o.nRounds == -10
  }

  ghost predicate AllWritable(vout: seq<TxOut>) {
    forall i :: 0 <= i < |vout| ==> Writable(vout[i])
  }

  /** Every amount up to a ninth of the largest word, which is more than all coins, is writable. */
  lemma MoneyIsWritable(o: TxOut)
    requires 0 <= o.nValue <= MAX_UINT64 / 9 && o.nRounds == -10
    ensures Writable(o)
  {
    if o.nValue > 0 { NoWrap(o.nValue); }
  }

  lemma SmallWord(n: nat)
    requires n <= MAX_UINT64
    ensures Word(n) == n && (n <= MAX_UINT64 / 2 ==> Signed(n) == n)
  {
  }

  /** A signed 64-bit number survives the conversion to a word and back. */
  lemma WordAndBack(x: int)
    requires -0x8000_0000_0000_0000 <= x < 0x8000_0000_0000_0000
    ensures 0 <= Word(x) < 0x1_0000_0000_0000_0000 && Signed(Word(x)) == x
    ensures Word(x) == if x >= 0 then x else x + 0x1_0000_0000_0000_0000
  {
  }

  lemma {:induction false} AmountRoundTrip(n: nat)
    requires n <= MAX_UINT64 / 2 && Compressed(n) <= MAX_UINT64
    ensures Word(Compressed(Word(n))) == Compressed(n) && Signed(Word(Decompressed(Compressed(n)))) == n
  {
    SmallWord(n);
    SmallWord(Compressed(n));
    DecompressCompress(n);
  }

  lemma {:induction false} OutRoundTrip(curve: Curve, o: TxOut, tail: Bytes)
    requires Sound(curve) && Writable(o) && !o.IsNull()
    ensures ReadOut(curve, WriteOut(curve, o) + tail) == Some((o, tail))
  {
    var v, w := Compressed(o.nValue), WriteScript(curve, o.scriptPubKey);
    AmountRoundTrip(o.nValue);
    assert VarInt(v) + w + tail == VarInt(v) + (w + tail);
    VarIntRoundTrip(v, w + tail);
    ScriptRoundTrip(curve, o.scriptPubKey, tail);
  }

  type Writer = TxOut -> Bytes
  type Reader = Bytes -> Option<(TxOut, Bytes)>

  function OutWriter(curve: Curve): Writer { o => WriteOut(curve, o) }

  function OutReader(curve: Curve): Reader { s => ReadOut(curve, s) }

  ghost predicate ReadsBack(w: Writer, r: Reader, o: TxOut) {
    forall tail: Bytes {:trigger w(o) + tail} :: r(w(o) + tail) == Some((o, tail))
  }

  lemma OutReadsBack(curve: Curve, o: TxOut)
    requires Sound(curve) && Writable(o) && !o.IsNull()
    ensures ReadsBack(OutWriter(curve), OutReader(curve), o)
  {
    forall tail: Bytes ensures ReadOut(curve, WriteOut(curve, o) + tail) == Some((o, tail)) {
      OutRoundTrip(curve, o, tail);
    }
  }

  /** The unspent outputs from position `i` on. */
  function WriteOuts(w: Writer, vout: seq<TxOut>, i: nat): Bytes
    decreases |vout| - i
  {
    if i >= |vout| then []
    else (if vout[i].IsNull() then [] else w(vout[i])) + WriteOuts(w, vout, i + 1)
  }

  function ReadOuts(r: Reader, a: seq<bool>, i: nat, s: Bytes): Option<(seq<TxOut>, Bytes)>
    decreases |a| - i
  {
    if i >= |a| then Some(([], s))
    else if !a[i] then
      match ReadOuts(r, a, i + 1, s)
      case None => None
      case Some((vout, u)) => Some(([NULL_OUT] + vout, u))
    else
      match r(s)
      case None => None
      case Some((o, t)) =>
        match ReadOuts(r, a, i + 1, t)
        case None => None
        case Some((vout, u)) => Some(([o] + vout, u))
  }

  /** The outputs from position `i` up to `n`. */
  function Slice(vout: seq<TxOut>, i: nat, n: nat): seq<TxOut>
    decreases n - i
  {
    if i >= n then [] else [OutAt(vout, i)] + Slice(vout, i + 1, n)
  }

  lemma {:induction false} NothingLeft(w: Writer, vout: seq<TxOut>, i: nat)
    requires forall j :: i <= j < |vout| ==> vout[j].IsNull()
    ensures WriteOuts(w, vout, i) == []
    decreases |vout| - i
  {
    if i < |vout| { NothingLeft(w, vout, i + 1); }
  }

  /** Spent outputs are all alike, and the others can be read back. */
  ghost predicate Readable(w: Writer, r: Reader, vout: seq<TxOut>) {
    forall i :: 0 <= i < |vout| ==> if vout[i].IsNull() then vout[i] == NULL_OUT else ReadsBack(w, r, vout[i])
  }

  lemma {:induction false} OutsRoundTrip(w: Writer, r: Reader, a: seq<bool>, vout: seq<TxOut>, i: nat, tail: Bytes)
    requires Readable(w, r, vout) && Covers(a, vout)
    ensures ReadOuts(r, a, i, WriteOuts(w, vout, i) + tail) == Some((Slice(vout, i, |a|), tail))
    decreases |a| - i
  {
    if i >= |a| {
      forall j | i <= j < |vout| ensures vout[j].IsNull() { assert OutAt(vout, j) == vout[j]; }
      NothingLeft(w, vout, i);
      assert [] + tail == tail;
    } else {
      OutsRoundTrip(w, r, a, vout, i + 1, tail);
      assert !OutAt(vout, i).IsNull() <==> a[i];
      if a[i] {
        ReadUnspent(w, r, a, vout, i, tail);
      } else {
        SkipSpent(w, vout, i);
        assert OutAt(vout, i) == NULL_OUT;
      }
    }
  }

  lemma {:induction false} ReadUnspent(w: Writer, r: Reader, a: seq<bool>, vout: seq<TxOut>, i: nat, tail: Bytes)
    requires i < |vout| && !vout[i].IsNull() && ReadsBack(w, r, vout[i]) && i < |a| && a[i]
    requires ReadOuts(r, a, i + 1, WriteOuts(w, vout, i + 1) + tail) == Some((Slice(vout, i + 1, |a|), tail))
    ensures ReadOuts(r, a, i, WriteOuts(w, vout, i) + tail) == Some((Slice(vout, i, |a|), tail))
  {
    var rest := WriteOuts(w, vout, i + 1);
    assert WriteOuts(w, vout, i) + tail == w(vout[i]) + (rest + tail);
  }

  lemma {:induction false} SkipSpent(w: Writer, vout: seq<TxOut>, i: nat)
    requires OutAt(vout, i).IsNull()
    ensures WriteOuts(w, vout, i) == WriteOuts(w, vout, i + 1)
  {
    if i < |vout| { assert [] + WriteOuts(w, vout, i + 1) == WriteOuts(w, vout, i + 1); }
  }

  lemma {:induction false} SliceAt(vout: seq<TxOut>, i: nat, n: nat)
    requires i <= n
    ensures |Slice(vout, i, n)| == n - i
    ensures forall j :: 0 <= j < n - i ==> Slice(vout, i, n)[j] == OutAt(vout, i + j)
    decreases n - i
  {
    if i < n { SliceAt(vout, i + 1, n); }
  }

  /** What is read is what was written up to spent outputs at the end. */
  lemma SliceIsSame(a: seq<bool>, vout: seq<TxOut>)
    requires Covers(a, vout) && AllWritable(vout)
    ensures SameOutputs(Slice(vout, 0, |a|), vout)
  {
    SliceAt(vout, 0, |a|);
    forall i: nat ensures OutAt(Slice(vout, 0, |a|), i) == OutAt(vout, i) {
      if i >= |a| { assert OutAt(vout, i).IsNull(); }
    }
  }

  // ---------------------------------------------------------------- the whole record

  function Bit(b: bool, weight: nat): nat { if b then weight else 0 }

  /** The header code, `unit` for each counted non-zero mask byte. */
  function HeaderCode(c: Coins, unit: nat): nat
    requires First(c.vout) || Second(c.vout) || NonZeros(Mask(c.vout)) > 0
  {
    var k := NonZeros(Mask(c.vout)) - if First(c.vout) || Second(c.vout) then 0 else 1;
    unit * k + Bit(c.fCoinBase, 1) + Bit(c.fCoinStake, 2) + Bit(First(c.vout), 4) + Bit(Second(c.vout), 8)
  }

  /** What the assertion in `Serialize` needs. */
  lemma NotPruned(c: Coins)
    ensures !c.IsPruned() <==> First(c.vout) || Second(c.vout) || NonZeros(Mask(c.vout)) > 0
  {
    var n := MaskSize(c.vout, FullSize(c.vout));
    if n > 0 {
      var m := Mask(c.vout);
      assert m[n - 1] == MaskByte(c.vout, n - 1) != 0;
      MaskByteIsZero(c.vout, n - 1);
    } else if !c.IsPruned() {
      var i :| 0 <= i < |c.vout| && !c.vout[i].IsNull();
      assert i < 2;
    }
  }

  function Serialized(curve: Curve, c: Coins): Bytes
    requires First(c.vout) || Second(c.vout) || NonZeros(Mask(c.vout)) > 0
  {
    SignedVarInt(c.nVersion) + (VarInt(HeaderCode(c,
      16)) + (Mask(c.vout) + (WriteOuts(OutWriter(curve), c.vout, 0) + SignedVarInt(c.nHeight))))
  }

  function MaskCount(code: nat): nat {
    code / 16 + if code / 4 % 4 != 0 then 0 else 1
  }

  /** The outputs and the height, after the header code. */
  function ReadBody(curve: Curve, code: nat, s: Bytes): Option<(seq<TxOut>, nat, Bytes)> {
    match ReadMask(s, MaskCount(code))
    case None => None
    case Some((bits, t)) =>
      match ReadOuts(OutReader(curve), [code / 4 % 2 == 1, code / 8 % 2 == 1] + bits, 0, t)
      case None => None
      case Some((vout, u)) =>
        match ReadVarInt(u, 0)
        case None => None
        case Some((nHeight, v)) => Some((vout, nHeight, v))
  }

  function Unserialized(curve: Curve, s: Bytes): Option<(Coins, Bytes)> {
    match ReadVarInt(s, 0)
    case None => None
    case Some((nVersion, t)) =>
      match ReadVarInt(t, 0)
      case None => None
      case Some((code, u)) =>
        match ReadBody(curve, code, u)
        case None => None
        case Some((vout, nHeight, v)) =>
          Some((Cleaned(Coins(code % 2 == 1, code / 2 % 2 == 1, vout, nHeight, nVersion)), v))
  }

  lemma Halves(h: nat, b: bool)
    ensures (2 * h + Bit(b, 1)) % 2 == 1 <==> b
    ensures (2 * h + Bit(b, 1)) / 2 == h
  {
  }

  lemma {:induction false} HeaderBits(k: nat, b0: bool, b1: bool, b2: bool, b3: bool)
    ensures var code := 16 * k + Bit(b0, 1) + Bit(b1, 2) + Bit(b2, 4) + Bit(b3, 8);
            && (code % 2 == 1 <==> b0) && (code / 2 % 2 == 1 <==> b1)
            && (code / 4 % 2 == 1 <==> b2) && (code / 8 % 2 == 1 <==> b3)
            && code / 16 == k && (code / 4 % 4 != 0 <==> b2 || b3)
  {
    var h3 := 2 * k + Bit(b3, 1);
    var h2 := 2 * h3 + Bit(b2, 1);
    var h1 := 2 * h2 + Bit(b1, 1);
    var code := 16 * k + Bit(b0, 1) + Bit(b1, 2) + Bit(b2, 4) + Bit(b3, 8);
    assert code == 2 * h1 + Bit(b0, 1);
    Halves(h1, b0);
    Halves(h2, b1);
    Halves(h3, b2);
    Halves(k, b3);
    assert code / 4 == h2 && code / 8 == h3 && code / 16 == k;
  }

  /** The header code determines the flags and the number of non-zero mask bytes. */
  lemma {:induction false} HeaderRoundTrip(c: Coins)
    requires First(c.vout) || Second(c.vout) || NonZeros(Mask(c.vout)) > 0
    ensures var code := HeaderCode(c, 16);
            && (code % 2 == 1 <==> c.fCoinBase) && (code / 2 % 2 == 1 <==> c.fCoinStake)
            && (code / 4 % 2 == 1 <==> First(c.vout)) && (code / 8 % 2 == 1 <==> Second(c.vout))
            && MaskCount(code) == NonZeros(Mask(c.vout))
  {
    var k := NonZeros(Mask(c.vout)) - if First(c.vout) || Second(c.vout) then 0 else 1;
    HeaderBits(k, c.fCoinBase, c.fCoinStake, First(c.vout), Second(c.vout));
  }

  lemma ReadBodyParts(curve: Curve, code: nat, f: bool, s: bool, bits: seq<bool>, vout: seq<TxOut>, h: nat,
                      b0: Bytes, b1: Bytes, b2: Bytes, b3: Bytes)
    requires (code / 4 % 2 == 1 <==> f) && (code / 8 % 2 == 1 <==> s)
    requires ReadMask(b0, MaskCount(code)) == Some((bits, b1))
    requires ReadOuts(OutReader(curve), [f, s] + bits, 0, b1) == Some((vout, b2))
    requires ReadVarInt(b2, 0) == Some((h, b3))
    ensures ReadBody(curve, code, b0) == Some((vout, h, b3))
  {
  }

  /** The bits that the reader will have for the outputs. */
  function AllBits(vout: seq<TxOut>): seq<bool> {
    [First(vout), Second(vout)] + BitsOfAll(Mask(vout))
  }

  lemma AllBitsCover(vout: seq<TxOut>, tail: Bytes)
    ensures Covers(AllBits(vout), vout)
    ensures ReadMask(Mask(vout) + tail, NonZeros(Mask(vout))) == Some((BitsOfAll(Mask(vout)), tail))
  {
    var n := MaskSize(vout, FullSize(vout));
    if n > 0 { assert Mask(vout)[n - 1] == MaskByte(vout, n - 1); }
    ReadWholeMask(Mask(vout), tail);
    MaskCovers(vout, n);
  }

  lemma {:induction false} BodyRoundTrip(curve: Curve, c: Coins, tail: Bytes) returns (vout: seq<TxOut>)
    requires Sound(curve) && AllWritable(c.vout)
    requires First(c.vout) || Second(c.vout) || NonZeros(Mask(c.vout)) > 0
    ensures Trimmed(vout) == Trimmed(c.vout)
    ensures ReadBody(curve, HeaderCode(c, 16),
            Mask(c.vout) + (WriteOuts(OutWriter(curve), c.vout, 0) + (SignedVarInt(c.nHeight) + tail)))
         == Some((vout, ReadBack(c.nHeight), tail))
  {
    var h := SignedVarInt(c.nHeight) + tail;
    var w := WriteOuts(OutWriter(curve), c.vout, 0) + h;
    var a := AllBits(c.vout);
    vout := Slice(c.vout, 0, |a|);
    AllBitsCover(c.vout, w);
    forall i | 0 <= i < |c.vout| && !c.vout[i].IsNull()
      ensures ReadsBack(OutWriter(curve), OutReader(curve), c.vout[i]) {
      OutReadsBack(curve, c.vout[i]);
    }
    OutsRoundTrip(OutWriter(curve), OutReader(curve), a, c.vout, 0, h);
    SignedVarIntRoundTrip(c.nHeight, tail);
    HeaderRoundTrip(c);
    ReadBodyParts(curve, HeaderCode(c, 16), First(c.vout), Second(c.vout), BitsOfAll(Mask(c.vout)), vout,
      ReadBack(c.nHeight),
                  Mask(c.vout) + w, w, h, tail);
    SliceIsSame(a, c.vout);
    SameOutputsTrimmed(vout, c.vout);
  }

  lemma ReadParts(curve: Curve, version: int, code: nat, vout: seq<TxOut>, h: nat, body: Bytes, tail: Bytes)
    requires ReadBody(curve, code, body) == Some((vout, h, tail))
    ensures Unserialized(curve, SignedVarInt(version) + (VarInt(code) + body))
         == Some((Cleaned(Coins(code % 2 == 1, code / 2 % 2 == 1, vout, h, ReadBack(version))), tail))
  {
    SignedVarIntRoundTrip(version, VarInt(code) + body);
    VarIntRoundTrip(code, body);
  }

  lemma FiveParts(a: Bytes, b: Bytes, c: Bytes, d: Bytes, e: Bytes, tail: Bytes)
    ensures (a + (b + (c + (d + e)))) + tail == a + (b + (c + (d + (e + tail))))
  {
  }

  /** The record that comes back: cleaned up, with the seven low bits of a negative version or height. */
  function Stored(c: Coins): Coins {
    Cleaned(c).(nVersion := ReadBack(c.nVersion), nHeight := ReadBack(c.nHeight))
  }

  /** What reading gives back for every record with an unspent output, cleaned up or not. */
  lemma {:induction false} CoinsRoundTrip(curve: Curve, c: Coins, tail: Bytes)
    requires Sound(curve) && AllWritable(c.vout) && !c.IsPruned()
    ensures First(c.vout) || Second(c.vout) || NonZeros(Mask(c.vout)) > 0
    ensures Unserialized(curve, Serialized(curve, c) + tail) == Some((Stored(c), tail))
  {
    NotPruned(c);
    var code, outs := HeaderCode(c, 16), WriteOuts(OutWriter(curve), c.vout, 0);
    FiveParts(SignedVarInt(c.nVersion), VarInt(code), Mask(c.vout), outs, SignedVarInt(c.nHeight), tail);
    HeaderRoundTrip(c);
    var vout := BodyRoundTrip(curve, c, tail);
    ReadParts(curve, c.nVersion, code, vout, ReadBack(c.nHeight),
      Mask(c.vout) + (outs + (SignedVarInt(c.nHeight) + tail)), tail);
  }

  /** The record survives, up to cleaning up, exactly if neither its version nor its height is negative. */
  lemma CoinsSurvive(curve: Curve, c: Coins, tail: Bytes)
    requires Sound(curve) && AllWritable(c.vout) && !c.IsPruned()
    ensures First(c.vout) || Second(c.vout) || NonZeros(Mask(c.vout)) > 0
    ensures Unserialized(curve, Serialized(curve, c) + tail) == Some((Cleaned(c), tail)) <==>
            c.nVersion >= 0 && c.nHeight >= 0
  {
    CoinsRoundTrip(curve, c, tail);
    SignedVarIntRoundTrip(c.nVersion, []);
    SignedVarIntRoundTrip(c.nHeight, []);
  }

  /** A record of a negative version comes back with another one: -1 becomes 127. */
  lemma NegativeVersion(c: Coins)
    requires c.nVersion < 0
    ensures Stored(c).nVersion != c.nVersion && (c.nVersion == -1 ==> Stored(c).nVersion == 127)
  {
  }

  // ---------------------------------------------------------------- the record, byte by byte

  /** Whether an output is there and unspent. */
  ghost predicate Unspent(vout: seq<TxOut>, i: nat) {
    i < |vout| && vout[i].nValue != -1
  }

  function If(b: bool, n: nat): nat { if b then n else 0 }

  lemma FourBits(a: seq<bool>)
    requires |a| >= 4
    ensures ByteOf(a) == If(a[0], 1) + If(a[1], 2) + If(a[2], 4) + If(a[3], 8) + 16 * ByteOf(a[4..])
  {
    assert ByteOf(a) == If(a[0], 1) + 2 * ByteOf(a[1..]);
    assert a[1..][1..] == a[2..] && a[2..][1..] == a[3..] && a[3..][1..] == a[4..];
    assert ByteOf(a[1..]) == If(a[1], 1) + 2 * ByteOf(a[2..]);
    assert ByteOf(a[2..]) == If(a[2], 1) + 2 * ByteOf(a[3..]);
    assert ByteOf(a[3..]) == If(a[3], 1) + 2 * ByteOf(a[4..]);
  }

  lemma ByteOfEight(a: seq<bool>)
    requires |a| == 8
    ensures ByteOf(a) == If(a[0], 1) + If(a[1], 2) + If(a[2], 4) + If(a[3], 8) + If(a[4], 16) + If(a[5], 32)
                         + If(a[6], 64) + If(a[7], 128)
  {
    FourBits(a);
    FourBits(a[4..]);
  }

  lemma {:induction false} ByteOfPadded(a: seq<bool>, n: nat)
    ensures ByteOf(a + seq(n, _ => false)) == ByteOf(a)
    decreases |a|
  {
    var z := seq(n, _ => false);
    if a == [] {
      ByteIsZero(z);
      assert a + z == z;
    } else {
      assert (a + z)[1..] == a[1..] + z;
      ByteOfPadded(a[1..], n);
    }
  }

  /** A mask byte stands for eight outputs, the first of them in its lowest bit. */
  lemma MaskByteValue(vout: seq<TxOut>, b: nat)
    requires 2 + b * 8 <= |vout|
    ensures var i := 2 + b * 8;
            MaskByte(vout, b) == If(Unspent(vout, i), 1) + If(Unspent(vout, i + 1), 2) + If(Unspent(vout, i + 2), 4)
                                 + If(Unspent(vout, i + 3), 8) + If(Unspent(vout, i + 4), 16)
                                 + If(Unspent(vout, i + 5), 32) + If(Unspent(vout, i + 6), 64)
                                 + If(Unspent(vout, i + 7), 128)
  {
    var lo, hi := 2 + b * 8, Min(2 + b * 8 + 8, |vout|);
    var a := Available(vout[lo..hi]);
    var all := a + seq(8 - |a|, _ => false);
    ByteOfPadded(a, 8 - |a|);
    ByteOfEight(all);
    forall j: nat | j < 8 ensures all[j] == Unspent(vout, lo + j) {
      if j < |a| { assert vout[lo..hi][j] == vout[lo + j]; }
    }
  }

  /** The mask goes up to its last non-zero byte, and all outputs beyond it are spent. */
  lemma MaskLayout(vout: seq<TxOut>)
    ensures var m := Mask(vout);
            && (m != [] ==> m[|m| - 1] != 0)
            && (forall b :: 0 <= b < |m| ==> 2 + 8 * b < |vout| && m[b] == MaskByte(vout, b))
            && (forall i: nat :: i >= 2 + 8 * |m| ==> !Unspent(vout, i))
  {
    var n := MaskSize(vout, FullSize(vout));
    forall b | 0 <= b < n ensures Mask(vout)[b] == MaskByte(vout, b) { MaskByteAt(vout, n, b); }
  }

  lemma SerializedParts(curve: Curve, c: Coins, code: nat)
    requires (First(c.vout) || Second(c.vout) || NonZeros(Mask(c.vout)) > 0) && code == HeaderCode(c, 16)
    ensures Serialized(curve, c) == SignedVarInt(c.nVersion) + VarInt(code) + Mask(c.vout)
                                    + WriteOuts(OutWriter(curve), c.vout, 0) + SignedVarInt(c.nHeight)
  {
    JoinedParts(SignedVarInt(c.nVersion), VarInt(code), Mask(c.vout), WriteOuts(OutWriter(curve), c.vout, 0),
      SignedVarInt(c.nHeight));
  }

  lemma HeaderCodeValue(c: Coins)
    requires First(c.vout) || Second(c.vout) || NonZeros(Mask(c.vout)) > 0
    ensures var first, second := Unspent(c.vout, 0), Unspent(c.vout, 1);
            var k := NonZeros(Mask(c.vout)) - if first || second then 0 else 1;
            HeaderCode(c, 16) == 16 * k + If(c.fCoinBase, 1) + If(c.fCoinStake, 2) + If(first, 4) + If(second, 8)
  {
  }

  /** A written record: the version; the header code, in which the flags and the first two outputs are the bits 1, 2,
      4 and 8 and the rest counts the non-zero mask bytes, less one if both outputs are spent; the mask; the unspent
      outputs; the height. */
  lemma RecordLayout(curve: Curve, c: Coins) returns (code: nat)
    requires !c.IsPruned()
    ensures First(c.vout) || Second(c.vout) || NonZeros(Mask(c.vout)) > 0
    ensures Serialized(curve, c) == SignedVarInt(c.nVersion) + VarInt(code) + Mask(c.vout)
                                    + WriteOuts(OutWriter(curve), c.vout, 0) + SignedVarInt(c.nHeight)
    ensures var first, second := Unspent(c.vout, 0), Unspent(c.vout, 1);
            var k := NonZeros(Mask(c.vout)) - if first || second then 0 else 1;
            code == 16 * k + If(c.fCoinBase, 1) + If(c.fCoinStake, 2) + If(first, 4) + If(second, 8)
  {
    NotPruned(c);
    HeaderCodeValue(c);
    code := HeaderCode(c, 16);
    SerializedParts(curve, c, code);
  }

  lemma JoinedParts(a: Bytes, b: Bytes, c: Bytes, d: Bytes, e: Bytes)
    ensures a + (b + (c + (d + e))) == a + b + c + d + e
  {
  }

  /** Spent outputs leave no trace. */
  lemma {:induction false} SkipUntil(w: Writer, vout: seq<TxOut>, i: nat, n: nat)
    requires i <= n && forall j :: i <= j < n ==> OutAt(vout, j).IsNull()
    ensures WriteOuts(w, vout, i) == WriteOuts(w, vout, n)
    decreases n - i
  {
    if i < n {
      SkipSpent(w, vout, i);
      SkipUntil(w, vout, i + 1, n);
    }
  }

  lemma KeyHashOut(curve: Curve, value: nat, h: Bytes)
    requires |h| == 20 && value <= MAX_UINT64 / 9
    ensures var o := TxOut(value, [0x76, 0xa9, 20] + h + [0x88, 0xac], -10);
            WriteOut(curve, o) == VarInt(Compressed(value)) + ([0] + h)
  {
    TagIsWritten(curve, h, []);
    SmallWord(value);
    if value > 0 { NoWrap(value); }
    SmallWord(Compressed(value));
  }

  lemma FirstOuts(w: Writer, vout: seq<TxOut>)
    requires |vout| == 2 && vout[0].nValue == -1 && vout[1].nValue != -1
    ensures WriteOuts(w, vout, 0) == w(vout[1]) && Mask(vout) == []
  {
    SkipUntil(w, vout, 0, 1);
    assert WriteOuts(w, vout, 2) == [] && WriteOuts(w, vout, 1) == w(vout[1]) + [];
  }

  /** The first documented record, with the second output in bit 8 where the comment has bit 4: 600 coins paid to a key
      hash by the second output, at height 203998. */
  lemma FirstExample(curve: Curve, h: Bytes, vout: seq<TxOut>)
    requires |h| == 20 && |vout| == 2 && vout[0] == NULL_OUT
    requires vout[1] == TxOut(60_000_000_000, [0x76, 0xa9, 20] + h + [0x88, 0xac], -10)
    ensures Second(vout)
    ensures Serialized(curve, Coins(false, false, vout, 203998, 1)) ==
              [0x01] + [0x08] + [] + ([0x83, 0x58] + ([0x00] + h)) + [0x8b, 0xb8, 0x5e]
  {
    FirstOuts(OutWriter(curve), vout);
    KeyHashOut(curve, 60_000_000_000, h);
    ExampleAmounts();
    ExampleNumbers();
    SerializedParts(curve, Coins(false, false, vout, 203998, 1), 8);
  }

  lemma ExampleAmounts()
    ensures Compressed(60_000_000_000) == 600
    ensures Compressed(234_925_952) == 2114333561 && Compressed(110_397) == 993571
  {
    assert Decompressed(600) == 60_000_000_000;
    assert Decompressed(2114333561) == 234_925_952;
    assert Decompressed(993571) == 110_397;
    CompressDecompress(600);
    CompressDecompress(2114333561);
    CompressDecompress(993571);
  }

  lemma ExampleNumbers()
    ensures VarInt(1) == [0x01] && VarInt(8) == [0x08] && VarInt(17) == [0x11] && VarInt(600) == [0x83, 0x58]
    ensures VarInt(203998) == [0x8b, 0xb8, 0x5e] && VarInt(120891) == [0x86, 0xaf, 0x3b]
  {
    assert VarIntHead(3) == [0x83];
    assert VarIntHead(11) == [0x8b] && VarIntHead(1592) == [0x8b, 0xb8];
    assert VarIntHead(6) == [0x86] && VarIntHead(943) == [0x86, 0xaf];
  }

  lemma ExampleWords()
    ensures VarInt(2114333561) == [0x86, 0xef, 0x97, 0xd5, 0x79] && VarInt(993571) == [0xbb, 0xd1, 0x23]
  {
    assert VarIntHead(6) == [0x86] && VarIntHead(1007) == [0x86, 0xef];
    assert VarIntHead(129047) == [0x86, 0xef, 0x97] && VarIntHead(16518229) == [0x86, 0xef, 0x97, 0xd5];
    assert VarIntHead(59) == [0xbb] && VarIntHead(7761) == [0xbb, 0xd1];
  }

  /** Outputs 4 and 16 are bit 2 of the first mask byte and bit 6 of the second. */
  lemma SecondMask(vout: seq<TxOut>)
    requires |vout| == 17 && forall i :: 0 <= i < 17 ==> (vout[i].nValue == -1 <==> i != 4 && i != 16)
    ensures Mask(vout) == [0x04, 0x40] && NonZeros(Mask(vout)) == 2 && !First(vout) && !Second(vout)
  {
    MaskByteValue(vout, 0);
    MaskByteValue(vout, 1);
    assert FullSize(vout) == 2 && MaskSize(vout, 2) == 2;
    assert MaskBytes(vout, 0) == [] && MaskBytes(vout, 1) == [0x04] && MaskBytes(vout, 2) == [0x04, 0x40];
    assert [0x04, 0x40][..1] == [0x04] && NonZeros([0x04]) == 1;
  }

  lemma SecondOuts(w: Writer, vout: seq<TxOut>)
    requires |vout| == 17 && forall i :: 0 <= i < 17 ==> (vout[i].nValue == -1 <==> i != 4 && i != 16)
    ensures WriteOuts(w, vout, 0) == w(vout[4]) + w(vout[16])
  {
    SkipUntil(w, vout, 0, 4);
    SkipUntil(w, vout, 5, 16);
    assert WriteOuts(w, vout, 4) == w(vout[4]) + WriteOuts(w, vout, 5);
    assert WriteOuts(w, vout, 17) == [] && WriteOuts(w, vout, 16) == w(vout[16]) + [];
  }

  /** The second documented record, with 17 for the code where the comment has 9: a coinbase whose outputs 4 and 16
      are unspent, at height 120891. */
  lemma SecondExample(curve: Curve, h4: Bytes, h16: Bytes, vout: seq<TxOut>)
    requires |h4| == |h16| == 20 && |vout| == 17
    requires forall i :: 0 <= i < 17 && i != 4 && i != 16 ==> vout[i] == NULL_OUT
    requires vout[4] == TxOut(234_925_952, [0x76, 0xa9, 20] + h4 + [0x88, 0xac], -10)
    requires vout[16] == TxOut(110_397, [0x76, 0xa9, 20] + h16 + [0x88, 0xac], -10)
    ensures NonZeros(Mask(vout)) > 0
    ensures Serialized(curve, Coins(true, false, vout, 120891, 1)) ==
              [0x01] + [0x11] + [0x04, 0x40]
              + (([0x86, 0xef, 0x97, 0xd5, 0x79] + ([0x00] + h4)) + ([0xbb, 0xd1, 0x23] + ([0x00] + h16)))
              + [0x86, 0xaf, 0x3b]
  {
    SecondMask(vout);
    SecondOuts(OutWriter(curve), vout);
    KeyHashOut(curve, 234_925_952, h4);
    KeyHashOut(curve, 110_397, h16);
    ExampleAmounts();
    ExampleNumbers();
    ExampleWords();
    SerializedParts(curve, Coins(true, false, vout, 120891, 1), 17);
  }

  // ---------------------------------------------------------------- the loops

  /** The inner loop of `Serialize` over the bits of one mask byte. */
  method WriteMaskByte(vout: seq<TxOut>, b: nat) returns (chAvail: nat)
    requires 2 + b * 8 <= |vout|
    ensures chAvail == MaskByte(vout, b)
  {
    var lo, i, bits := 2 + b * 8, 0, [];
    while i < 8 && lo + i < |vout|
      invariant 0 <= i <= 8 && lo + i <= |vout|
      invariant |bits| == i && forall j :: 0 <= j < i ==> bits[j] == !vout[lo + j].IsNull()
    {
      bits := bits + [!vout[lo + i].IsNull()];
      i := i + 1;
    }
    assert bits == Available(vout[lo..lo + i]);
    chAvail := ByteOf(bits);
  }

  method WriteMask(vout: seq<TxOut>, nMaskSize: nat) returns (s: Bytes)
    requires nMaskSize > 0 ==> 2 + (nMaskSize - 1) * 8 < |vout|
    ensures s == MaskBytes(vout, nMaskSize)
  {
    s := [];
    var b := 0;
    while b < nMaskSize
      invariant 0 <= b <= nMaskSize && s == MaskBytes(vout, b)
    {
      var chAvail := WriteMaskByte(vout, b);
      s := s + [chAvail];
      b := b + 1;
    }
  }

  method WriteUnspent(w: Writer, vout: seq<TxOut>) returns (s: Bytes)
    ensures s == WriteOuts(w, vout, 0)
  {
    s := [];
    var i := 0;
    while i < |vout|
      invariant 0 <= i <= |vout| && WriteOuts(w, vout, 0) == s + WriteOuts(w, vout, i)
    {
      if !vout[i].IsNull() {
        s := s + w(vout[i]);
      }
      i := i + 1;
    }
  }

  method SerializeCoins(curve: Curve, c: Coins) returns (s: Bytes)
    requires !c.IsPruned()
    ensures First(c.vout) || Second(c.vout) || NonZeros(Mask(c.vout)) > 0
    ensures s == Serialized(curve, c)
  {
    NotPruned(c);
    var nMaskSize, nMaskCode := CalcMaskSize(c.vout);
    MaskHasMaskSize(c.vout, nMaskSize);
    var fFirst, fSecond := First(c.vout), Second(c.vout);
    assert fFirst || fSecond || nMaskCode > 0;
    var k := nMaskCode - if fFirst || fSecond then 0 else 1;
    var nCode := 16 * k + Bit(c.fCoinBase, 1) + Bit(c.fCoinStake, 2) + Bit(fFirst, 4) + Bit(fSecond, 8);
    assert nCode == HeaderCode(c, 16);
    var mask := WriteMask(c.vout, nMaskSize);
    var outs := WriteUnspent(OutWriter(curve), c.vout);
    s := SignedVarInt(c.nVersion) + (VarInt(nCode) + (mask + (outs + SignedVarInt(c.nHeight))));
  }

  /** What the rest of a reading loop adds to what it has read. */
  function After<T>(read: seq<T>, rest: Option<(seq<T>, Bytes)>): Option<(seq<T>, Bytes)> {
    match rest
    case None => None
    case Some((more, t)) => Some((read + more, t))
  }

  lemma AfterNothing<T>(r: Option<(seq<T>, Bytes)>)
    ensures After([], r) == r
  {
    if r.Some? { assert [] + r.value.0 == r.value.0; }
  }

  lemma ReadMaskStep(read: seq<bool>, t: Bytes, k: nat)
    requires k > 0 && t != []
    ensures After(read, ReadMask(t, k))
         == After(read + BitsOf(t[0], 8), ReadMask(t[1..], if t[0] != 0 then k - 1 else k))
  {
    var r := ReadMask(t[1..], if t[0] != 0 then k - 1 else k);
    if r.Some? { assert read + (BitsOf(t[0], 8) + r.value.0) == read + BitsOf(t[0], 8) + r.value.0; }
  }

  /** The loop of `Unserialize` over the mask bytes. */
  method ReadMaskLoop(s: Bytes, nMaskCode: nat, vAvailIn: seq<bool>) returns (r: Option<(seq<bool>, Bytes)>)
    ensures r == After(vAvailIn, ReadMask(s, nMaskCode))
  {
    var vAvail, t, k := vAvailIn, s, nMaskCode;
    while k > 0
      invariant After(vAvailIn, ReadMask(s, nMaskCode)) == After(vAvail, ReadMask(t, k))
      decreases |t|
    {
      if t == [] {
        return None;
      }
      ReadMaskStep(vAvail, t, k);
      var chAvail := t[0];
      vAvail := vAvail + BitsOf(chAvail, 8);
      if chAvail != 0 {
        k := k - 1;
      }
      t := t[1..];
    }
    assert vAvail + [] == vAvail;
    r := Some((vAvail, t));
  }

  lemma ReadOutsLoopStep(r: Reader, a: seq<bool>, i: nat, read: seq<TxOut>, t: Bytes)
    requires i < |a|
    ensures !a[i] ==> After(read, ReadOuts(r, a, i, t)) == After(read + [NULL_OUT], ReadOuts(r, a, i + 1, t))
    ensures a[i] ==> match r(t)
              case None => ReadOuts(r, a, i, t) == None
              case Some((o, u)) => After(read, ReadOuts(r, a, i, t)) == After(read + [o], ReadOuts(r, a, i + 1, u))
  {
    if !a[i] {
      var m := ReadOuts(r, a, i + 1, t);
      if m.Some? { assert read + ([NULL_OUT] + m.value.0) == read + [NULL_OUT] + m.value.0; }
    } else if r(t).Some? {
      var (o, u) := r(t).value;
      var m := ReadOuts(r, a, i + 1, u);
      if m.Some? { assert read + ([o] + m.value.0) == read + [o] + m.value.0; }
    }
  }

  /** The loop of `Unserialize` over the outputs. */
  method ReadOutsLoop(reader: Reader, vAvail: seq<bool>, s: Bytes) returns (r: Option<(seq<TxOut>, Bytes)>)
    ensures r == ReadOuts(reader, vAvail, 0, s)
  {
    var vout: seq<TxOut>, t, i := [], s, 0;
    AfterNothing(ReadOuts(reader, vAvail, 0, s));
    while i < |vAvail|
      invariant 0 <= i <= |vAvail|
      invariant ReadOuts(reader, vAvail, 0, s) == After(vout, ReadOuts(reader, vAvail, i, t))
    {
      ReadOutsLoopStep(reader, vAvail, i, vout, t);
      if vAvail[i] {
        var o := reader(t);
        if o == None {
          return None;
        }
        vout, t := vout + [o.value.0], o.value.1;
      } else {
        vout := vout + [NULL_OUT];
      }
      i := i + 1;
    }
    assert vout + [] == vout;
    r := Some((vout, t));
  }

  method UnserializeCoins(curve: Curve, s: Bytes) returns (r: Option<(Coins, Bytes)>)
    ensures r == Unserialized(curve, s)
  {
    var v := ReadVarInt(s, 0);
    if v == None { return None; }
    var h := ReadVarInt(v.value.1, 0);
    if h == None { return None; }
    var nCode := h.value.0;
    var mask := ReadMaskLoop(h.value.1, MaskCount(nCode), [nCode / 4 % 2 == 1, nCode / 8 % 2 == 1]);
    if mask == None { return None; }
    var outs := ReadOutsLoop(OutReader(curve), mask.value.0, mask.value.1);
    if outs == None { return None; }
    var height := ReadVarInt(outs.value.1, 0);
    if height == None { return None; }
    var c := Cleanup(Coins(nCode % 2 == 1, nCode / 2 % 2 == 1, outs.value.0, height.value.0, v.value.0));
    r := Some((c, height.value.1));
  }

  // ---------------------------------------------------------------- predicted size

  /** `GetSerializeSize`, which computes the header code with 8 where `Serialize` uses 16. */
  function SerializeSize(curve: Curve, c: Coins): nat
    requires First(c.vout) || Second(c.vout) || NonZeros(Mask(c.vout)) > 0
  {
    |SignedVarInt(c.nVersion)| + |VarInt(HeaderCode(c, 8))| + |Mask(c.vout)| + |WriteOuts(OutWriter(curve), c.vout, 0)|
    + |SignedVarInt(c.nHeight)|
  }

  /** A length class of variable-length integers ends between the two header codes. */
  predicate Between(c: Coins, len: nat)
    requires First(c.vout) || Second(c.vout) || NonZeros(Mask(c.vout)) > 0
  {
    HeaderCode(c, 8) < Threshold(len) <= HeaderCode(c, 16)
  }

  /** The predicted size is never more than the number of bytes written, and it is exact if and only if no
      length class ends between 8 and 16 times the counted mask bytes, each with the flag bits. */
  lemma PredictedSize(curve: Curve, c: Coins)
    requires !c.IsPruned()
    ensures First(c.vout) || Second(c.vout) || NonZeros(Mask(c.vout)) > 0
    ensures SerializeSize(curve, c) <= |Serialized(curve, c)|
    ensures SerializeSize(curve, c) == |Serialized(curve, c)| <==> forall len :: !Between(c, len)
  {
    NotPruned(c);
    VarIntLengthMonotone(HeaderCode(c, 8), HeaderCode(c, 16));
    var short := |VarInt(HeaderCode(c, 8))|;
    VarIntLength(HeaderCode(c, 16), short);
    VarIntLength(HeaderCode(c, 8), short);
    if |VarInt(HeaderCode(c, 16))| > short {
      assert Between(c, short);
    }
    forall len | Between(c, len) ensures |VarInt(HeaderCode(c, 8))| < |VarInt(HeaderCode(c, 16))| {
      VarIntLength(HeaderCode(c, 8), len);
      VarIntLength(HeaderCode(c, 16), len);
    }
  }

  /** The condition on the record: for less than 131072 counted mask bytes, the size is under-counted
      exactly if 128 or 16512 lies between the codes. */
  lemma PredictedSizeByCount(curve: Curve, c: Coins, k: nat, flags: nat)
    requires !c.IsPruned()
    requires k == NonZeros(Mask(c.vout)) - if First(c.vout) || Second(c.vout) then 0 else 1
    requires flags == Bit(c.fCoinBase, 1) + Bit(c.fCoinStake, 2) + Bit(First(c.vout), 4) + Bit(Second(c.vout), 8)
    requires k < 131072
    ensures First(c.vout) || Second(c.vout) || NonZeros(Mask(c.vout)) > 0
    ensures SerializeSize(curve, c) < |Serialized(curve, c)| <==>
              8 * k + flags < 128 <= 16 * k + flags || 8 * k + flags < 16512 <= 16 * k + flags
  {
    NotPruned(c);
    PredictedSize(curve, c);
    BetweenClasses(c);
    HeaderCodeIs(c, k, flags);
  }

  lemma HeaderCodeIs(c: Coins, k: nat, flags: nat)
    requires First(c.vout) || Second(c.vout) || NonZeros(Mask(c.vout)) > 0
    requires k == NonZeros(Mask(c.vout)) - if First(c.vout) || Second(c.vout) then 0 else 1
    requires flags == Bit(c.fCoinBase, 1) + Bit(c.fCoinStake, 2) + Bit(First(c.vout), 4) + Bit(Second(c.vout), 8)
    ensures HeaderCode(c, 8) == 8 * k + flags && HeaderCode(c, 16) == 16 * k + flags
    ensures k < 131072 ==> HeaderCode(c, 16) < 2113664
  {
  }

  lemma BetweenClasses(c: Coins)
    requires First(c.vout) || Second(c.vout) || NonZeros(Mask(c.vout)) > 0
    ensures HeaderCode(c, 16) < 2113664 ==>
              ((exists len :: Between(c, len)) <==>
                HeaderCode(c, 8) < 128 <= HeaderCode(c, 16) || HeaderCode(c, 8) < 16512 <= HeaderCode(c, 16))
  {
    var a, b := HeaderCode(c, 8), HeaderCode(c, 16);
    if b < 2113664 {
      Classes(a, b);
      if len: nat :| a < Threshold(len) <= b {
        assert Between(c, len);
      }
      forall len | Between(c, len) ensures a < Threshold(len) <= b { }
    }
  }

  /** The first length classes. */
  lemma FirstThresholds()
    ensures Threshold(0) == 0 && Threshold(1) == 128 && Threshold(2) == 16512 && Threshold(3) == 2113664
  {
  }

  lemma Classes(a: nat, b: nat)
    requires b < 2113664
    ensures (exists len :: a < Threshold(len) <= b) <==> a < 128 <= b || a < 16512 <= b
  {
    FirstThresholds();
    forall len: nat | a < Threshold(len) <= b ensures len == 1 || len == 2 {
      if len > 3 { ThresholdsGrow(3, len); }
    }
  }

  lemma {:induction false} ThresholdsGrow(m: nat, n: nat)
    requires m <= n
    ensures Threshold(m) <= Threshold(n)
  {
    if m < n { ThresholdsGrow(m, n - 1); }
  }

  /** A transaction with 66 unspent outputs and no flag has eight counted mask bytes; its header codes take
      one and two bytes, so its size is under-counted. */
  lemma SizeUnderCounted(curve: Curve, c: Coins, o: TxOut)
    requires !o.IsNull() && c.vout == seq(66, i => o) && !c.fCoinBase && !c.fCoinStake
    ensures !c.IsPruned() && First(c.vout)
    ensures HeaderCode(c, 8) == 76 && HeaderCode(c, 16) == 140
    ensures SerializeSize(curve, c) == |Serialized(curve, c)| - 1
  {
    assert !c.vout[0].IsNull() && !c.vout[1].IsNull();
    forall b | 0 <= b < 8 ensures MaskByte(c.vout, b) != 0 {
      MaskByteIsZero(c.vout, b); assert !c.vout[2 + b * 8].IsNull();
    }
    AllNonZero(c.vout, 8);
    assert UnusedBetween(c.vout, 8, 8);
    assert IsMaskSize(c.vout, 8);
    MaskHasMaskSize(c.vout, 8);
  }

  lemma {:induction false} AllNonZero(vout: seq<TxOut>, n: nat)
    requires n > 0 ==> 2 + (n - 1) * 8 < |vout|
    requires forall b :: 0 <= b < n ==> MaskByte(vout, b) != 0
    ensures NonZeros(MaskBytes(vout, n)) == n
  {
    if n > 0 { AllNonZero(vout, n - 1); }
  }
}
