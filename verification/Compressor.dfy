/** Compact encodings: variable-length integers (`src/serialize.h`), amounts and scripts
    (`src/compressor.h`, `src/compressor.cpp`). */
module Compressor {
  import opened Arithmetic
  import opened Options

  /** A stream of bytes; reading past its end throws, which is `None`. */
  type Bytes = seq<nat>

  ghost predicate IsBytes(s: Bytes) {
    forall i :: 0 <= i < |s| ==> s[i] < 256
  }

  // ---------------------------------------------------------------- variable-length integers

  /** The bytes before the last one; each continues. */
  function VarIntHead(n: nat): (s: Bytes)
    ensures IsBytes(s) && |s| > 0
  {
    if n <= 0x7F then [n + 0x80] else VarIntHead(n / 0x80 - 1) + [n % 0x80 + 0x80]
  }

  /** `WriteVarInt`. */
  function VarInt(n: nat): (s: Bytes)
    ensures IsBytes(s) && |s| > 0
  {
    if n <= 0x7F then [n] else VarIntHead(n / 0x80 - 1) + [n % 0x80]
  }

  /** `ReadVarInt`, with `n` read so far. */
  function ReadVarInt(s: Bytes, n: nat): (r: Option<(nat, Bytes)>)
    ensures r.Some? ==> |r.value.1| < |s|
  {
    if s == [] then None
    else
      var m := n * 0x80 + s[0] % 0x80;
      if s[0] % 0x100 >= 0x80 then ReadVarInt(s[1..], m + 1) else Some((m, s[1..]))
  }

  lemma ReadByte(c: nat, tail: Bytes, n: nat)
    requires c < 0x100
    ensures var m := n * 0x80 + c % 0x80;
            ReadVarInt([c] + tail, n) == if c >= 0x80 then ReadVarInt(tail, m + 1) else Some((m, tail))
  {
    assert ([c] + tail)[1..] == tail;
  }

  lemma {:induction false} ReadHead(n: nat, tail: Bytes)
    ensures ReadVarInt(VarIntHead(n) + tail, 0) == ReadVarInt(tail, n + 1)
  {
    if n <= 0x7F {
      ReadByte(n + 0x80, tail, 0);
    } else {
      var q, c := n / 0x80 - 1, n % 0x80 + 0x80;
      assert VarIntHead(n) + tail == VarIntHead(q) + ([c] + tail);
      ReadHead(q, [c] + tail);
      ReadByte(c, tail, q + 1);
    }
  }

  /** Reading what was written gives the number back and leaves the rest of the stream. */
  lemma {:induction false} VarIntRoundTrip(n: nat, tail: Bytes)
    ensures ReadVarInt(VarInt(n) + tail, 0) == Some((n, tail))
  {
    if n <= 0x7F {
      ReadByte(n, tail, 0);
    } else {
      var q, c := n / 0x80 - 1, n % 0x80;
      assert VarInt(n) + tail == VarIntHead(q) + ([c] + tail);
      ReadHead(q, [c] + tail);
      ReadByte(c, tail, q + 1);
    }
  }

  /** The digits that are followed by others, most significant first: one is subtracted from each of them. */
  function Continued(s: Bytes): nat {
    if s == [] then 0 else (s[0] % 0x80 + 1) * Pow(0x80, |s|) + Continued(s[1..])
  }

  lemma ShiftDigit(d: nat, p: nat)
    ensures d * (0x80 * p) == 0x80 * (d * p)
  {
  }

  lemma {:induction false} ContinuedAppend(s: Bytes, c: nat)
    ensures Continued(s + [c]) == 0x80 * Continued(s) + 0x80 * (c % 0x80 + 1)
  {
    if s == [] {
      assert Pow(0x80, 1) == 0x80 * Pow(0x80, 0);
      assert Continued([c]) == (c % 0x80 + 1) * Pow(0x80, 1) + Continued([]);
    } else {
      assert (s + [c])[1..] == s[1..] + [c];
      ContinuedAppend(s[1..], c);
      ShiftDigit(s[0] % 0x80 + 1, Pow(0x80, |s|));
    }
  }

  /** A byte that continues and the digits before it. */
  lemma OneMoreDigit(n: nat)
    requires n > 0x7F
    ensures 0x80 * (0x80 * (n / 0x80 - 1 + 1)) + 0x80 * ((n % 0x80 + 0x80) % 0x80 + 1) == 0x80 * (n + 1)
  {
    DivModEquation(n, 0x80);
    DivModUnique(n % 0x80 + 0x80, 0x80, 1, n % 0x80);
  }

  lemma {:induction false} HeadBytes(n: nat)
    ensures forall i :: 0 <= i < |VarIntHead(n)| ==> 0x80 <= VarIntHead(n)[i] < 0x100
    ensures Continued(VarIntHead(n)) == 0x80 * (n + 1)
  {
    if n <= 0x7F {
      ContinuedAppend([], n + 0x80);
      assert [] + [n + 0x80] == VarIntHead(n);
    } else {
      var h, c := VarIntHead(n / 0x80 - 1), n % 0x80 + 0x80;
      HeadBytes(n / 0x80 - 1);
      ContinuedAppend(h, c);
      OneMoreDigit(n);
      assert VarIntHead(n) == h + [c];
    }
  }

  /** The bytes as documented: bit 128 is set on all but the last, and they are the digits of the number. */
  lemma VarIntBytes(n: nat)
    ensures var s := VarInt(n); var h := s[..|s| - 1];
            && (forall i :: 0 <= i < |h| ==> 0x80 <= h[i] < 0x100)
            && s[|s| - 1] < 0x80 && n == s[|s| - 1] + Continued(h)
  {
    if n <= 0x7F {
      assert VarInt(n)[..0] == [];
    } else {
      var h := VarIntHead(n / 0x80 - 1);
      HeadBytes(n / 0x80 - 1);
      assert (h + [n % 0x80])[..|h|] == h;
    }
  }

  /** Two of the documented encodings, those given for 16511 and 65535, belong to other numbers. */
  lemma VarIntExamples()
    ensures VarInt(16511) == [0xFF, 0x7F] && VarInt(65535) == [0x82, 0xFE, 0x7F]
    ensures VarInt(32895) == [0x80, 0xFF, 0x7F] && VarInt(65407) == [0x82, 0xFD, 0x7F]
  {
    assert VarIntHead(510) == [0x82, 0xFE] && VarIntHead(509) == [0x82, 0xFD] && VarIntHead(255) == [0x80, 0xFF];
  }

  /** `WriteVarInt` of a signed number: the loop stops at once at a negative one and writes its seven low
      bits. */
  function SignedVarInt(n: int): (s: Bytes)
    ensures IsBytes(s) && |s| > 0
  {
    if n < 0 then [n % 0x80] else VarInt(n)
  }

  /** What is read back for a signed number. */
  function ReadBack(n: int): nat {
    if n < 0 then n % 0x80 else n
  }

  /** A signed number survives exactly if it is not negative. */
  lemma SignedVarIntRoundTrip(n: int, tail: Bytes)
    ensures ReadVarInt(SignedVarInt(n) + tail, 0) == Some((ReadBack(n), tail))
    ensures ReadBack(n) == n <==> n >= 0
  {
    if n < 0 { ReadByte(n % 0x80, tail, 0); } else { VarIntRoundTrip(n, tail); }
  }

  lemma QuotientMonotone(m: nat, n: nat)
    requires m <= n
    ensures m / 0x80 <= n / 0x80
  {
  }

  lemma {:induction false} HeadLengthMonotone(m: nat, n: nat)
    requires m <= n
    ensures |VarIntHead(m)| <= |VarIntHead(n)|
  {
    QuotientMonotone(m, n);
    if m > 0x7F { HeadLengthMonotone(m / 0x80 - 1, n / 0x80 - 1); }
  }

  lemma {:induction false} VarIntLengthMonotone(m: nat, n: nat)
    requires m <= n
    ensures |VarInt(m)| <= |VarInt(n)|
  {
    if m > 0x7F {
      QuotientMonotone(m, n);
      var a, b := m / 0x80 - 1, n / 0x80 - 1;
      assert |VarInt(m)| == |VarIntHead(a)| + 1 && |VarInt(n)| == |VarIntHead(b)| + 1;
      HeadLengthMonotone(a, b);
    }
  }

  /** The least number that takes more than `len` bytes: 128, 16512, 2113664 and so on. */
  function Threshold(len: nat): nat {
    if len == 0 then 0 else 0x80 * (Threshold(len - 1) + 1)
  }

  lemma {:induction false} HeadLength(n: nat, len: nat)
    ensures |VarIntHead(n)| <= len <==> n < Threshold(len)
    decreases len
  {
    if len > 0 && n > 0x7F { HeadLength(n / 0x80 - 1, len - 1); }
  }

  /** The number of bytes is the length class of the number. */
  lemma {:induction false} VarIntLength(n: nat, len: nat)
    ensures |VarInt(n)| <= len <==> n < Threshold(len)
  {
    if len > 0 && n > 0x7F { HeadLength(n / 0x80 - 1, len - 1); }
  }

  // ---------------------------------------------------------------- amounts

  const MAX_UINT64: nat := 0xFFFF_FFFF_FFFF_FFFF

  /** The compressed amount, once `e` factors of ten have been divided out. */
  function CompressFrom(n: nat, e: nat): nat
    requires n > 0 && e <= 9
    decreases 9 - e
  {
    if n % 10 == 0 && e < 9 then CompressFrom(n / 10, e + 1)
    else if e < 9 then 1 + (n / 10 * 9 + n % 10 - 1) * 10 + e
    else 1 + (n - 1) * 10 + 9
  }

  function Compressed(n: nat): nat {
    if n == 0 then 0 else CompressFrom(n, 0)
  }

  function Scaled(n: nat, e: nat): nat
    decreases e
  {
    if e == 0 then n else Scaled(n * 10, e - 1)
  }

  /** The amount without its factors of ten, for a compressed amount minus one. */
  function Mantissa(x: nat): nat {
    if x % 10 < 9 then x / 10 / 9 * 10 + x / 10 % 9 + 1 else x / 10 + 1
  }

  function Decompressed(x: nat): nat {
    if x == 0 then 0 else Scaled(Mantissa(x - 1), (x - 1) % 10)
  }

  method CompressAmount(amount: nat) returns (x: nat)
    ensures x == Compressed(amount)
  {
    if amount == 0 {
      return 0;
    }
    var n, e := amount, 0;
    while n % 10 == 0 && e < 9
      invariant n > 0 && e <= 9 && CompressFrom(amount, 0) == CompressFrom(n, e)
      decreases 9 - e
    {
      n, e := n / 10, e + 1;
    }
    if e < 9 {
      var d := n % 10;
      assert 1 <= d <= 9;
      n := n / 10;
      x := 1 + (n * 9 + d - 1) * 10 + e;
    } else {
      x := 1 + (n - 1) * 10 + 9;
    }
  }

  method DecompressAmount(compressed: nat) returns (n: nat)
    ensures n == Decompressed(compressed)
  {
    if compressed == 0 {
      return 0;
    }
    var x := compressed - 1;
    var e := x % 10;
    x := x / 10;
    if e < 9 {
      var d := x % 9 + 1;
      x := x / 9;
      n := x * 10 + d;
    } else {
      n := x + 1;
    }
    assert n == Mantissa(compressed - 1);
    while e > 0
      invariant e >= 0 && Scaled(n, e) == Decompressed(compressed)
    {
      n, e := n * 10, e - 1;
    }
  }

  lemma MantissaOf(n: nat, e: nat)
    requires n > 0 && e <= 9 && (n % 10 != 0 || e == 9)
    ensures CompressFrom(n, e) > 0
    ensures (CompressFrom(n, e) - 1) % 10 == e && Mantissa(CompressFrom(n, e) - 1) == n
  {
    if e < 9 {
      var y := n / 10 * 9 + n % 10 - 1;
      assert CompressFrom(n, e) - 1 == y * 10 + e;
      assert y / 9 == n / 10 && y % 9 == n % 10 - 1;
    }
  }

  lemma {:induction false} DecompressFrom(n: nat, e: nat)
    requires n > 0 && e <= 9
    ensures CompressFrom(n, e) > 0 && Decompressed(CompressFrom(n, e)) == Scaled(n, e)
    decreases 9 - e
  {
    if n % 10 == 0 && e < 9 {
      DecompressFrom(n / 10, e + 1);
      assert n / 10 * 10 == n;
    } else {
      MantissaOf(n, e);
    }
  }

  /** Decompression undoes compression, for every amount. */
  lemma DecompressCompress(n: nat)
    ensures Decompressed(Compressed(n)) == n
  {
    if n > 0 { DecompressFrom(n, 0); }
  }

  lemma {:induction false} CompressScaled(n: nat, k: nat, e: nat)
    requires n > 0 && k + e <= 9
    ensures Scaled(n, k) > 0 && CompressFrom(Scaled(n, k), e) == CompressFrom(n, k + e)
    decreases k
  {
    if k > 0 {
      CompressScaled(n * 10, k - 1, e);
      assert (n * 10) % 10 == 0 && n * 10 / 10 == n;
    }
  }

  /** Compression undoes decompression, for every number: the two are bijections on the naturals. */
  lemma CompressDecompress(x: nat)
    ensures Compressed(Decompressed(x)) == x
  {
    if x > 0 {
      var e, n := (x - 1) % 10, Mantissa(x - 1);
      CompressScaled(n, e, 0);
      var y := (x - 1) / 10;
      if e < 9 {
        assert n / 10 == y / 9 && n % 10 == y % 9 + 1;
      }
    }
  }

  lemma {:induction false} ScaledIsMultiple(n: nat, e: nat)
    ensures Scaled(n, e) == n * Pow(10, e)
    decreases e
  {
    if e > 0 {
      ScaledIsMultiple(n * 10, e - 1);
      MulAssociative(n, 10, Pow(10, e - 1));
    }
  }

  lemma CompressLast(n: nat, d: nat, e: nat)
    requires 1 <= d <= 9 && e < 9
    ensures CompressFrom(10 * n + d, e) == 1 + 10 * (9 * n + d - 1) + e
  {
    var m := 10 * n + d;
    assert m / 10 == n && m % 10 == d;
  }

  /** The compressed amount as documented: the last digit that is not zero, the digits before it and the
      number of zeroes behind it, of which at most nine count. */
  lemma CompressedDigits(n: nat, d: nat, e: nat)
    requires 1 <= d <= 9 && e < 9
    ensures Compressed((10 * n + d) * Pow(10, e)) == 1 + 10 * (9 * n + d - 1) + e
  {
    var m := 10 * n + d;
    ScaledIsMultiple(m, e);
    CompressScaled(m, e, 0);
    CompressLast(n, d, e);
  }

  /** With nine zeroes or more the last digit does not count. */
  lemma CompressedNineZeroes(n: nat)
    requires n > 0
    ensures Compressed(n * Pow(10, 9)) == 1 + 10 * (n - 1) + 9
  {
    ScaledIsMultiple(n, 9);
    CompressScaled(n, 9, 0);
  }

  /** The pairs of the original's own test: nothing, one, a hundredth of a coin, one, 50 and 21 million
      coins. */
  lemma CompressedExamples()
    ensures Compressed(0) == 0 && Compressed(1) == 1
    ensures Compressed(1_000_000) == 0x7 && Compressed(100_000_000) == 0x9
    ensures Compressed(50 * 100_000_000) == 0x32 && Compressed(21_000_000 * 100_000_000) == 0x1406f40
  {
    assert Scaled(1, 6) == 1_000_000 && Scaled(1, 8) == 100_000_000;
    assert Scaled(5, 9) == 5_000_000_000 && Scaled(2_100_000, 9) == 21_000_000 * 100_000_000;
    CompressDecompress(1);
    CompressDecompress(0x7);
    CompressDecompress(0x9);
    CompressDecompress(0x32);
    CompressDecompress(0x1406f40);
  }

  /** All numbers that the computation forms, in turn. */
  function Intermediates(n: nat, e: nat): seq<nat>
    requires n > 0 && e <= 9
    decreases 9 - e
  {
    if n % 10 == 0 && e < 9 then [n / 10, e + 1] + Intermediates(n / 10, e + 1)
    else if e < 9 then
      var q, d := n / 10, n % 10;
      [d, q, q * 9, q * 9 + d, q * 9 + d - 1, (q * 9 + d - 1) * 10, 1 + (q * 9 + d - 1) * 10,
        1 + (q * 9 + d - 1) * 10 + e]
    else [n - 1, (n - 1) * 10, 1 + (n - 1) * 10, 1 + (n - 1) * 10 + 9]
  }

  /** The last of them is the result. */
  lemma {:induction false} LastIntermediate(n: nat, e: nat)
    requires n > 0 && e <= 9
    ensures |Intermediates(n, e)| > 0 && Intermediates(n, e)[|Intermediates(n, e)| - 1] == CompressFrom(n, e)
    decreases 9 - e
  {
    if n % 10 == 0 && e < 9 { LastIntermediate(n / 10, e + 1); }
  }

  /** On 64-bit words no step wraps for amounts up to a ninth of the largest word. */
  lemma NoWrap(n: nat)
    requires 0 < n <= MAX_UINT64 / 9
    ensures forall x :: x in Intermediates(n, 0) ==> x <= MAX_UINT64
    ensures Compressed(n) in Intermediates(n, 0)
  {
    StepsBounded(n, 0);
    LastIntermediate(n, 0);
  }

  lemma {:induction false} StepsBounded(n: nat, e: nat)
    requires n > 0 && e <= 9
    ensures forall x :: x in Intermediates(n, e) ==> x <= 9 * n + if e == 0 then 0 else if e < 9 then 9 else n
    decreases 9 - e
  {
    if n % 10 == 0 && e < 9 { StepsBounded(n / 10, e + 1); }
  }

  // ---------------------------------------------------------------- scripts

  /** Full validation and decompression of public keys, which are not modelled. */
  datatype Curve = Curve(valid: Bytes -> bool, decompress: Bytes -> Option<Bytes>)

  /** Decompression recovers a fully valid uncompressed key from its x-coordinate and the parity of
      its last byte. */
  ghost predicate Sound(curve: Curve) {
    forall key: Bytes {:trigger curve.valid(key)} ::
      |key| == 65 && key[0] == 4 && curve.valid(key) ==>
        curve.decompress([2 + key[64] % 2] + key[1..33]) == Some(key)
  }

  const OP_DUP: nat := 0x76
  const OP_EQUAL: nat := 0x87
  const OP_EQUALVERIFY: nat := 0x88
  const OP_HASH160: nat := 0xa9
  const OP_CHECKSIG: nat := 0xac

  predicate IsToKeyID(s: Bytes) {
    |s| == 25 && s[0] == OP_DUP && s[1] == OP_HASH160 && s[2] == 20 && s[23] == OP_EQUALVERIFY && s[24] == OP_CHECKSIG
  }

  predicate IsToScriptID(s: Bytes) {
    |s| == 23 && s[0] == OP_HASH160 && s[1] == 20 && s[22] == OP_EQUAL
  }

  predicate IsToCompressedKey(s: Bytes) {
    |s| == 35 && s[0] == 33 && s[34] == OP_CHECKSIG && (s[1] == 2 || s[1] == 3)
  }

  predicate IsToFullKey(curve: Curve, s: Bytes) {
    |s| == 67 && s[0] == 65 && s[66] == OP_CHECKSIG && s[1] == 4 && curve.valid(s[1..66])
  }

  function Compress(curve: Curve, s: Bytes): Option<Bytes> {
    if IsToKeyID(s) then Some([0] + s[3..23])
    else if IsToScriptID(s) then Some([1] + s[2..22])
    else if IsToCompressedKey(s) then Some([s[1]] + s[2..34])
    else if IsToFullKey(curve, s) then Some([4 + s[65] % 2] + s[2..34])
    else None
  }

  function SpecialSize(n: nat): nat {
    if n <= 1 then 20 else if n <= 5 then 32 else 0
  }

  function Decompress(curve: Curve, n: nat, s: Bytes): Option<Bytes>
    requires |s| == SpecialSize(n)
  {
    if n == 0 then Some([OP_DUP, OP_HASH160, 20] + s + [OP_EQUALVERIFY, OP_CHECKSIG])
    else if n == 1 then Some([OP_HASH160, 20] + s + [OP_EQUAL])
    else if n == 2 || n == 3 then Some([33, n] + s + [OP_CHECKSIG])
    else if n == 4 || n == 5 then
      match curve.decompress([n - 2] + s)
      case None => None
      case Some(key) => Some([65] + key + [OP_CHECKSIG])
    else None
  }

  const SPECIAL_SCRIPTS: nat := 6

  function WriteScript(curve: Curve, s: Bytes): Bytes {
    match Compress(curve, s)
    case Some(c) => c
    case None => VarInt(|s| + SPECIAL_SCRIPTS) + s
  }

  /** Reading into an empty script, which stays empty if its key cannot be decompressed. */
  function ReadScript(curve: Curve, s: Bytes): Option<(Bytes, Bytes)> {
    match ReadVarInt(s, 0)
    case None => None
    case Some((n, t)) =>
      if n < SPECIAL_SCRIPTS then
        var k := SpecialSize(n);
        if |t| < k then None
        else
          match Decompress(curve, n, t[..k])
          case None => Some(([], t[k..]))
          case Some(script) => Some((script, t[k..]))
      else
        var k := n - SPECIAL_SCRIPTS;
        if |t| < k then None else Some((t[..k], t[k..]))
  }

  /** Decompression undoes compression. */
  lemma DecompressScript(curve: Curve, s: Bytes)
    requires Sound(curve) && Compress(curve, s).Some?
    ensures var c := Compress(curve, s).value;
            && |c| > 0 && c[0] < SPECIAL_SCRIPTS && |c| == 1 + SpecialSize(c[0])
            && Decompress(curve, c[0], c[1..]) == Some(s)
  {
    var c := Compress(curve, s).value;
    if IsToKeyID(s) {
      assert s == [OP_DUP, OP_HASH160, 20] + s[3..23] + [OP_EQUALVERIFY, OP_CHECKSIG];
    } else if IsToScriptID(s) {
      assert s == [OP_HASH160, 20] + s[2..22] + [OP_EQUAL];
    } else if IsToCompressedKey(s) {
      assert s == [33, s[1]] + s[2..34] + [OP_CHECKSIG];
    } else {
      var key := s[1..66];
      assert key[1..33] == s[2..34] == c[1..] && key[64] == s[65];
      assert s == [65] + key + [OP_CHECKSIG];
    }
  }

  lemma SpecialRoundTrip(curve: Curve, s: Bytes, c: Bytes, tail: Bytes)
    requires |c| > 0 && c[0] < SPECIAL_SCRIPTS && |c| == 1 + SpecialSize(c[0])
    requires Decompress(curve, c[0], c[1..]) == Some(s)
    ensures ReadScript(curve, c + tail) == Some((s, tail))
  {
    var t := c[1..] + tail;
    assert c + tail == [c[0]] + t;
    ReadByte(c[0], t, 0);
    assert t[..|c| - 1] == c[1..] && t[|c| - 1..] == tail;
  }

  lemma PlainRoundTrip(curve: Curve, s: Bytes, tail: Bytes)
    ensures ReadScript(curve, VarInt(|s| + SPECIAL_SCRIPTS) + s + tail) == Some((s, tail))
  {
    var t, n := s + tail, |s| + SPECIAL_SCRIPTS;
    assert VarInt(n) + s + tail == VarInt(n) + t;
    VarIntRoundTrip(n, t);
    assert t[..|s|] == s && t[|s|..] == tail;
  }

  /** Every script survives writing and reading. */
  lemma ScriptRoundTrip(curve: Curve, s: Bytes, tail: Bytes)
    requires Sound(curve)
    ensures ReadScript(curve, WriteScript(curve, s) + tail) == Some((s, tail))
  {
    match Compress(curve, s)
    case Some(c) =>
      DecompressScript(curve, s);
      SpecialRoundTrip(curve, s, c, tail);
    case None =>
      PlainRoundTrip(curve, s, tail);
  }

  /** What a stream with one of the six tags is read as, byte by byte; a script whose key cannot be decompressed
      stays empty, and a stream that ends too early is refused. */
  lemma TagIsRead(curve: Curve, tag: nat, h: Bytes, tail: Bytes)
    requires tag < 6 && |h| == (if tag < 2 then 20 else 32)
    ensures tag == 0 ==> ReadScript(curve, [0] + h + tail) == Some(([0x76, 0xa9, 20] + h + [0x88, 0xac], tail))
    ensures tag == 1 ==> ReadScript(curve, [1] + h + tail) == Some(([0xa9, 20] + h + [0x87], tail))
    ensures tag in [2, 3] ==> ReadScript(curve, [tag] + h + tail) == Some(([33, tag] + h + [0xac], tail))
    ensures tag in [4, 5] ==>
              ReadScript(curve, [tag] + h + tail) == match curve.decompress([tag - 2] + h)
                                                     case None => Some(([], tail))
                                                     case Some(key) => Some(([65] + key + [0xac], tail))
    ensures forall k :: 0 <= k < |h| ==> ReadScript(curve, [tag] + h[..k]) == None
  {
    ReadByte(tag, h + tail, 0);
    assert [tag] + h + tail == [tag] + (h + tail);
    assert (h + tail)[..|h|] == h && (h + tail)[|h|..] == tail;
    forall k | 0 <= k < |h| ensures ReadScript(curve, [tag] + h[..k]) == None {
      ReadByte(tag, h[..k], 0);
    }
  }

  /** The first byte written is the tag of the template, and the hash or the x-coordinate follows. */
  lemma TagIsWritten(curve: Curve, h: Bytes, y: Bytes)
    ensures |h| == 20 ==> WriteScript(curve, [0x76, 0xa9, 20] + h + [0x88, 0xac]) == [0] + h
    ensures |h| == 20 ==> WriteScript(curve, [0xa9, 20] + h + [0x87]) == [1] + h
    ensures |h| == 32 ==> WriteScript(curve, [33, 2] + h + [0xac]) == [2] + h
    ensures |h| == 32 ==> WriteScript(curve, [33, 3] + h + [0xac]) == [3] + h
    ensures |h| == |y| == 32 && curve.valid([4] + h + y) ==>
              WriteScript(curve, [65, 4] + h + y + [0xac]) == [if y[31] % 2 == 0 then 4 else 5] + h
  {
    if |h| == 20 {
      var s := [0x76, 0xa9, 20] + h + [0x88, 0xac];
      assert s[3..23] == h;
      var s' := [0xa9, 20] + h + [0x87];
      assert s'[2..22] == h;
    } else if |h| == 32 {
      assert ([33, 2] + h + [0xac])[2..34] == h && ([33, 3] + h + [0xac])[2..34] == h;
      if |y| == 32 {
        var s := [65, 4] + h + y + [0xac];
        assert s[1..66] == [4] + h + y && s[2..34] == h && s[65] == y[31];
      }
    }
  }

  lemma TemplateParts(curve: Curve, s: Bytes)
    ensures IsToKeyID(s) <==> |s| == 25 && s[..3] == [0x76, 0xa9, 20] && s[23..] == [0x88, 0xac]
    ensures IsToScriptID(s) <==> |s| == 23 && s[..2] == [0xa9, 20] && s[22..] == [0x87]
    ensures IsToCompressedKey(s) <==> |s| == 35 && s[..2] in [[33, 2], [33, 3]] && s[34..] == [0xac]
    ensures IsToFullKey(curve, s) <==>
            |s| == 67 && s[..2] == [65, 4] && s[66..] == [0xac] && curve.valid(s[1..66])
  {
    assert IsToKeyID(s) ==> s[..3] == [0x76, 0xa9, 20] && s[23..] == [0x88, 0xac];
    assert IsToScriptID(s) ==> s[..2] == [0xa9, 20] && s[22..] == [0x87];
    assert IsToCompressedKey(s) ==> s[..2] == [33, s[1]] && s[34..] == [0xac];
    assert IsToFullKey(curve, s) ==> s[..2] == [65, 4] && s[66..] == [0xac];
  }

  /** Every other script is written whole, behind its length and six. */
  lemma PlainIsWritten(curve: Curve, s: Bytes)
    requires !(|s| == 25 && s[..3] == [0x76, 0xa9, 20] && s[23..] == [0x88, 0xac])
    requires !(|s| == 23 && s[..2] == [0xa9, 20] && s[22..] == [0x87])
    requires !(|s| == 35 && s[..2] in [[33, 2], [33, 3]] && s[34..] == [0xac])
    requires !(|s| == 67 && s[..2] == [65, 4] && s[66..] == [0xac] && curve.valid(s[1..66]))
    ensures WriteScript(curve, s) == VarInt(|s| + 6) + s
    ensures ReadVarInt(WriteScript(curve, s), 0) == Some((|s| + 6, s))
  {
    TemplateParts(curve, s);
    VarIntRoundTrip(|s| + 6, s);
  }
}
