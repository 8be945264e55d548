/** Base58 strings (`src/base58.cpp`).

    A C string is the sequence of its characters before the terminating NUL. */
module Base58 {
  import opened Options
  import opened Arithmetic

  // ---------------------------------------------------------------- the alphabet

  function Characters(first: char, n: nat): (s: string)
    requires first as int + n < 0xD800
    ensures |s| == n && forall i :: 0 <= i < n ==> s[i] as int == first as int + i
  {
    seq(n, i requires 0 <= i < n => (first as int + i) as char)
  }

  /** All alphanumeric characters except for "0", "I", "O", and "l". */
  const ALPHABET: string :=
    Characters('1', 9) + Characters('A', 8) + Characters('J', 5) + Characters('P', 11) + Characters('a',
      11) + Characters('m', 14)

  function Code(i: int): int {
    if i < 9 then 49 + i else if i < 17 then 56 + i else if i < 22 then 57 + i
    else if i < 33 then 58 + i else if i < 44 then 64 + i else 65 + i
  }

  lemma AlphabetCodes(i: nat)
    requires i < 58
    ensures |ALPHABET| == 58 && ALPHABET[i] as int == Code(i)
  {
  }

  /** The letters ascend, and they are the digits and letters other than those that look alike. */
  lemma AlphabetIsAlphanumeric(i: nat, c: char)
    requires i < 58
    ensures |ALPHABET| == 58 && forall j :: 0 <= j < i ==> ALPHABET[j] < ALPHABET[i]
    ensures c in ALPHABET <==>
            ('0' <= c <= '9' || 'A' <= c <= 'Z' || 'a' <= c <= 'z') && c != '0' && c != 'O' && c != 'I' && c != 'l'
  {
    forall j: nat | j < 58 ensures ALPHABET[j] as int == Code(j) {
      AlphabetCodes(j);
    }
    if ('0' <= c <= '9' || 'A' <= c <= 'Z' || 'a' <= c <= 'z') && c != '0' && c != 'O' && c != 'I' && c != 'l' {
      var k := c as int;
      var j := if k < 65 then k - 49 else if k < 73 then k - 56 else if k < 79 then k - 57
               else if k < 97 then k - 58 else if k < 108 then k - 64 else k - 65;
      assert ALPHABET[j] == c;
    }
  }

  /** `strchr`: the first position of a character, or -1. */
  function Find(s: string, c: char): (r: int)
    ensures -1 <= r < |s| && (r < 0 <==> c !in s) && (r >= 0 ==> s[r] == c)
  {
    if s == [] then -1
    else if s[0] == c then 0
    else var r := Find(s[1..], c); if r < 0 then -1 else r + 1
  }

  lemma FindInAlphabet(i: nat)
    requires i < 58
    ensures |ALPHABET| == 58 && Find(ALPHABET, ALPHABET[i]) == i
  {
    AlphabetCodes(i);
    var j := Find(ALPHABET, ALPHABET[i]);
    AlphabetCodes(j);
  }

  /** C's `isspace` in the default locale. */
  predicate IsSpace(c: char) {
    c == ' ' || 9 <= c as int <= 13
  }

  lemma AlphabetHasNoSpace(i: nat)
    requires i < 58
    ensures |ALPHABET| == 58 && !IsSpace(ALPHABET[i]) && (ALPHABET[i] == '1' <==> i == 0)
  {
    AlphabetCodes(i);
  }

  // ---------------------------------------------------------------- numbers and digits

  ghost predicate IsDigits(d: seq<nat>, base: nat) {
    forall i :: 0 <= i < |d| ==> d[i] < base
  }

  /** The number that digits represent, most significant first. */
  ghost function Val(d: seq<nat>, base: nat): nat {
    if d == [] then 0 else d[0] * Pow(base, |d| - 1) + Val(d[1..], base)
  }

  /** The digits of a number without leading zeros. */
  ghost function Digits(n: nat, base: nat): (d: seq<nat>)
    requires base >= 2
    decreases n
  {
    if n == 0 then [] else SmallerQuotient(n, base); Digits(n / base, base) + [n % base]
  }

  lemma SmallerQuotient(n: nat, base: nat)
    requires n > 0 && base >= 2
    ensures n / base < n
  {
    var q := n / base;
    assert n == q * base + n % base;
    MulMonotone(2, base, q);
    MulCommutes(base, q);
  }

  lemma {:induction false} ValAppend(d: seq<nat>, x: nat, base: nat)
    ensures Val(d + [x], base) == Val(d, base) * base + x
  {
    if d == [] {
      assert d + [x] == [x];
      assert Pow(base, 0) == 1;
    } else {
      var p := Pow(base, |d| - 1);
      ValAppend(d[1..], x, base);
      assert (d + [x])[1..] == d[1..] + [x];
      assert Pow(base, |d|) == base * p;
      ShiftLeading(d[0], p, base, Val(d[1..], base), x);
    }
  }

  lemma ShiftLeading(a: nat, p: nat, base: nat, v: nat, x: nat)
    ensures a * (base * p) + (v * base + x) == (a * p + v) * base + x
  {
    MulCommutes(base, p);
    MulAssociative(a, p, base);
  }

  lemma {:induction false} ValBound(d: seq<nat>, base: nat)
    requires IsDigits(d, base) && base > 0
    ensures Val(d, base) < Pow(base, |d|)
  {
    if d != [] {
      var p := Pow(base, |d| - 1);
      ValBound(d[1..], base);
      MulMonotone(d[0] + 1, base, p);
      assert (d[0] + 1) * p == d[0] * p + p;
    }
  }

  lemma {:induction false} DigitsOf(n: nat, base: nat)
    requires base >= 2
    ensures var d := Digits(n, base);
            IsDigits(d, base) && Val(d, base) == n && (d != [] ==> d[0] > 0)
    decreases n
  {
    if n > 0 {
      SmallerQuotient(n, base);
      var q, r := n / base, n % base;
      DivModEquation(n, base);
      DigitsOf(q, base);
      ValAppend(Digits(q, base), r, base);
    }
  }

  lemma LeadingDigit(d: seq<nat>, base: nat)
    requires base > 0 && d != [] && d[0] > 0
    ensures Val(d, base) > 0
  {
    PowPositive(base, |d| - 1);
    MulMonotone(1, d[0], Pow(base, |d| - 1));
  }

  /** Digits without leading zeros are the digits of their value. */
  lemma {:induction false} DigitsUnique(d: seq<nat>, base: nat)
    requires base >= 2 && IsDigits(d, base) && (d != [] ==> d[0] > 0)
    ensures Digits(Val(d, base), base) == d
  {
    if d != [] {
      var p, x := d[..|d| - 1], d[|d| - 1];
      assert d == p + [x];
      DigitsUnique(p, base);
      ValAppend(p, x, base);
      LeadingDigit(d, base);
      DivModUnique(Val(d, base), base, Val(p, base), x);
    }
  }

  function Strip(d: seq<nat>): (r: seq<nat>)
    ensures r != [] ==> r[0] > 0
  {
    if d != [] && d[0] == 0 then Strip(d[1..]) else d
  }

  function Zeros(d: seq<nat>): nat {
    if d != [] && d[0] == 0 then 1 + Zeros(d[1..]) else 0
  }

  function Repeat<T>(x: T, n: nat): (s: seq<T>)
    ensures |s| == n && forall i :: 0 <= i < n ==> s[i] == x
  {
    seq(n, _ => x)
  }

  lemma {:induction false} StripParts(d: seq<nat>, base: nat)
    ensures Zeros(d) <= |d| && Strip(d) == d[Zeros(d)..] && d == Repeat(0, Zeros(d)) + Strip(d)
    ensures IsDigits(d, base) ==> IsDigits(Strip(d), base)
  {
    if d != [] && d[0] == 0 {
      StripParts(d[1..], base);
      assert d == [0] + d[1..];
      assert Repeat<nat>(0, Zeros(d)) == [0] + Repeat<nat>(0, Zeros(d) - 1);
    }
  }

  lemma {:induction false} StripValue(d: seq<nat>, base: nat)
    ensures Val(Strip(d), base) == Val(d, base)
  {
    if d != [] && d[0] == 0 { StripValue(d[1..], base); }
  }

  lemma {:induction false} ZerosThen(z: nat, d: seq<nat>)
    requires d == [] || d[0] > 0
    ensures Zeros(Repeat(0, z) + d) == z && Strip(Repeat(0, z) + d) == d
  {
    var s := Repeat<nat>(0, z) + d;
    if z == 0 {
      assert s == d;
    } else {
      ZerosThen(z - 1, d);
      assert s[1..] == Repeat<nat>(0, z - 1) + d;
    }
  }

  /** What is left of a buffer after its leading zeros are the digits of its value. */
  lemma StripIsDigits(d: seq<nat>, base: nat)
    requires base >= 2 && IsDigits(d, base)
    ensures Strip(d) == Digits(Val(d, base), base)
  {
    StripParts(d, base);
    StripValue(d, base);
    DigitsUnique(Strip(d), base);
  }

  // ---------------------------------------------------------------- the codec as functions

  function Letters(d: seq<nat>): (s: string)
    requires forall i :: 0 <= i < |d| ==> d[i] < |ALPHABET|
    ensures |s| == |d| && forall i :: 0 <= i < |d| ==> s[i] == ALPHABET[d[i]]
  {
    seq(|d|, i requires 0 <= i < |d| => ALPHABET[d[i]])
  }

  /** One `1` per leading zero byte, then the rest as a number in base 58. */
  ghost function Encode(bytes: seq<nat>): string {
    var d := Digits(Val(bytes, 256), 58);
    DigitsOf(Val(bytes, 256), 58);
    AlphabetCodes(0);
    Repeat('1', Zeros(bytes)) + Letters(d)
  }

  function SkipSpaces(s: string): string {
    if s != [] && IsSpace(s[0]) then SkipSpaces(s[1..]) else s
  }

  /** The characters before the first space. */
  function Word(s: string): (w: string)
    ensures |w| <= |s| && w == s[..|w|]
  {
    if s == [] || IsSpace(s[0]) then [] else [s[0]] + Word(s[1..])
  }

  function Ones(s: string): (n: nat)
    ensures n <= |s|
  {
    if s != [] && s[0] == '1' then 1 + Ones(s[1..]) else 0
  }

  predicate InAlphabet(s: string) {
    forall i :: 0 <= i < |s| ==> s[i] in ALPHABET
  }

  function Numbers(s: string): (d: seq<nat>)
    requires InAlphabet(s)
    ensures |d| == |s| && forall i :: 0 <= i < |d| ==> d[i] == Find(ALPHABET, s[i])
  {
    seq(|s|, i requires 0 <= i < |s| => Find(ALPHABET, s[i]))
  }

  /** A word of the alphabet between spaces: one zero byte per leading `1`, then the rest as a
      number in base 256. */
  ghost function Decode(s: string): Option<seq<nat>> {
    var t := SkipSpaces(s);
    var w := Word(t);
    if InAlphabet(w) && SkipSpaces(t[|w|..]) == [] then
      Some(Repeat(0, Ones(w)) + Digits(Val(Numbers(w), 58), 256))
    else None
  }

  // ---------------------------------------------------------------- round trips

  lemma {:induction false} NoSpaces(s: string)
    requires forall i :: 0 <= i < |s| ==> !IsSpace(s[i])
    ensures SkipSpaces(s) == s && Word(s) == s
  {
    if s != [] { NoSpaces(s[1..]); }
  }

  lemma LettersAreLetters(d: seq<nat>)
    requires IsDigits(d, 58)
    ensures |ALPHABET| == 58 && InAlphabet(Letters(d)) && Numbers(Letters(d)) == d
    ensures forall i :: 0 <= i < |d| ==> !IsSpace(Letters(d)[i]) && (Letters(d)[i] == '1' <==> d[i] == 0)
  {
    AlphabetCodes(0);
    forall i | 0 <= i < |d|
      ensures Letters(d)[i] in ALPHABET && Find(ALPHABET, Letters(d)[i]) == d[i] && !IsSpace(Letters(d)[i])
      ensures Letters(d)[i] == '1' <==> d[i] == 0
    {
      FindInAlphabet(d[i]);
      AlphabetHasNoSpace(d[i]);
    }
    assert Numbers(Letters(d)) == d;
  }

  lemma {:induction false} OnesAreZeros(s: string)
    requires InAlphabet(s)
    ensures Ones(s) == Zeros(Numbers(s))
  {
    if s != [] {
      AlphabetCodes(0);
      FindInAlphabet(0);
      assert Numbers(s[1..]) == Numbers(s)[1..];
      OnesAreZeros(s[1..]);
    }
  }

  /** Both conversions keep the leading zeros and the value. */
  lemma EncodeIsLetters(bytes: seq<nat>)
    ensures |ALPHABET| == 58
    ensures var d := Repeat(0, Zeros(bytes)) + Digits(Val(bytes, 256), 58);
            IsDigits(d, 58) && Encode(bytes) == Letters(d)
  {
    AlphabetCodes(0);
    DigitsOf(Val(bytes, 256), 58);
    var d := Repeat(0, Zeros(bytes)) + Digits(Val(bytes, 256), 58);
    assert ALPHABET[0] == '1';
    assert Encode(bytes) == Letters(d);
  }

  /** Decoding an encoded byte string gives it back, leading zeros included. */
  lemma DecodeEncode(bytes: seq<nat>)
    requires IsDigits(bytes, 256)
    ensures Decode(Encode(bytes)) == Some(bytes)
  {
    var s, v := Encode(bytes), Val(bytes, 256);
    var low := Digits(v, 58);
    var d := Repeat(0, Zeros(bytes)) + low;
    EncodeIsLetters(bytes);
    LettersAreLetters(d);
    NoSpaces(s);
    assert s[|s|..] == [];
    OnesAreZeros(s);
    DigitsOf(v, 58);
    ZerosThen(Zeros(bytes), low);
    StripValue(d, 58);
    StripParts(bytes, 256);
    StripIsDigits(bytes, 256);
  }

  /** Encoding what a string decodes to gives the string without the surrounding spaces. */
  lemma EncodeDecode(s: string)
    requires Decode(s).Some?
    ensures IsDigits(Decode(s).value, 256)
    ensures Encode(Decode(s).value) == Word(SkipSpaces(s))
  {
    var w := Word(SkipSpaces(s));
    var n := Numbers(w);
    var v := Val(n, 58);
    var low := Digits(v, 256);
    var bytes := Repeat(0, Ones(w)) + low;
    AlphabetCodes(0);
    DigitsOf(v, 256);
    ZerosThen(Ones(w), low);
    StripValue(bytes, 256);
    StripParts(bytes, 256);
    OnesAreZeros(w);
    StripParts(n, 58);
    StripIsDigits(n, 58);
    EncodeIsLetters(bytes);
    assert Letters(n) == w;
  }

  /** A space-free string over the alphabet is decodable, and re-encoding gives it back. */
  lemma ValidStringsRoundTrip(s: string)
    requires InAlphabet(s)
    ensures Decode(s).Some? && Encode(Decode(s).value) == s
  {
    AlphabetCodes(0);
    forall i | 0 <= i < |s| ensures !IsSpace(s[i]) { AlphabetHasNoSpace(Find(ALPHABET, s[i])); }
    NoSpaces(s);
    assert s[|s|..] == [];
    EncodeDecode(s);
  }

  // ---------------------------------------------------------------- the buffers are large enough

  lemma PowChain(b: nat, p: nat, n: nat, m: nat, q: nat)
    requires b > 0 && p * n <= m * q
    ensures Pow(Pow(b, p), n) <= Pow(Pow(b, m), q)
  {
    PowOfPow(b, p, n);
    PowMonotone(b, p * n, m * q);
    PowOfPow(b, m, q);
  }

  /** The estimates are compared through a power of both sides. */
  lemma PowersCompare(a: nat, b: nat, p: nat, q: nat, n: nat, m: nat)
    requires b > 0 && q > 0 && Pow(a, q) <= Pow(b, p) && p * n <= m * q
    ensures Pow(a, n) <= Pow(b, m)
  {
    var x, y := Pow(a, n), Pow(b, m);
    assert Pow(x, q) <= Pow(y, q) by {
      PowSwap(a, n, q);
      PowBaseMonotone(Pow(a, q), Pow(b, p), n);
      PowChain(b, p, n, m, q);
    }
    PowReflect(x, y, q);
  }

  /** `(pend - pbegin) * 138 / 100 + 1` base-58 digits hold every number of that many bytes. */
  lemma EncodeBufferSuffices(n: nat)
    ensures Pow(256, n) <= Pow(58, n * 138 / 100 + 1)
  {
    PowersOfEleven();
    PowersCompare(256, 58, 11, 8, n, n * 138 / 100 + 1);
  }

  lemma PowersOfEleven()
    ensures Pow(256, 8) <= Pow(58, 11)
  {
  }

  /** `strlen(psz) * 733 / 1000 + 1` bytes hold every number of that many base-58 digits. */
  lemma DecodeBufferSuffices(n: nat)
    ensures Pow(58, n) <= Pow(256, n * 733 / 1000 + 1)
  {
    PowersOfSeventyOne();
    PowersCompare(58, 256, 52, 71, n, n * 733 / 1000 + 1);
  }

  const P9: nat := 7427658739644928
  const Q8: nat := 18446744073709551616

  lemma NinthPower()
    ensures Pow(58, 9) == P9 && Pow(58, 8) == 128063081718016
  {
  }

  lemma EighthPower()
    ensures Pow(256, 8) == Q8 && Pow(256, 4) == 4294967296
  {
  }

  lemma PowFourfold(b: nat, e: nat)
    ensures Pow(b, 4 * e) == (Pow(b, e) * Pow(b, e)) * (Pow(b, e) * Pow(b, e))
  {
    PowAdd(b, e, e);
    PowAdd(b, 2 * e, 2 * e);
  }

  lemma PowThreefold(b: nat, e: nat, f: nat)
    ensures Pow(b, 3 * e + f) == (Pow(b, e) * Pow(b, e)) * (Pow(b, e) * Pow(b, f))
  {
    PowAdd(b, e, e);
    PowAdd(b, e, f);
    PowAdd(b, 2 * e, e + f);
  }

  lemma PowersOfSeventyOne()
    ensures Pow(58, 71) <= Pow(256, 52)
  {
    NinthPower();
    EighthPower();
    PowFourfold(58, 9);
    PowThreefold(58, 9, 8);
    PowAdd(58, 4 * 9, 3 * 9 + 8);
    PowFourfold(256, 8);
    PowThreefold(256, 4, 8);
    PowAdd(256, 4 * 8, 3 * 4 + 8);
  }

  // ---------------------------------------------------------------- in-place conversion

  lemma ValPrepend(x: nat, tail: seq<nat>, base: nat)
    ensures Val([x] + tail, base) == x * Pow(base, |tail|) + Val(tail, base)
  {
    assert ([x] + tail)[1..] == tail;
  }

  /** `c` is the carry plus the digit times `m`; `q` and `r` are its quotient and remainder. */
  lemma CarryStep(m: nat, x: nat, p: nat, carry: nat, base: nat, q: nat, r: nat, v: nat, w: nat, add: nat)
    requires v + carry * p == w * m + add && carry + m * x == q * base + r
    ensures (r * p + v) + q * (base * p) == (x * p + w) * m + add
  {
    var c := carry + m * x;
    MulAssociative(q, base, p);
    Distribute(q * base, r, p);
    Distribute(carry, m * x, p);
    Distribute(x * p, w, m);
    MulAssociative(m, x, p);
    MulCommutes(m, x * p);
  }

  lemma Distribute(a: int, b: int, c: int)
    ensures (a + b) * c == a * c + b * c
  {
  }

  lemma CarryBound(m: nat, x: nat, carry: nat, base: nat, q: nat, r: nat)
    requires x < base && carry < m && carry + m * x == q * base + r
    ensures q < m
  {
    MulMonotone(x + 1, base, m);
    Distribute(x, 1, m);
    MulCommutes(m, x);
    MulCommutes(m, base);
    if q >= m { MulMonotone(m, q, base); }
  }

  /** One round of the inner loop, on the parts of the buffers that are done: the carry plus `m`
      times the digit `x` leaves the digit `r` and the carry `q`. */
  lemma DigitStep(m: nat, x: nat, tail: seq<nat>, old_tail: seq<nat>, carry: nat, base: nat, q: nat, r: nat, add: nat)
    requires |tail| == |old_tail| && carry + m * x == q * base + r
    requires Val(tail, base) + carry * Pow(base, |tail|) == Val(old_tail, base) * m + add
    ensures Val([r] + tail, base) + q * Pow(base, |tail| + 1) == Val([x] + old_tail, base) * m + add
  {
    CarryStep(m, x, Pow(base, |tail|), carry, base, q, r, Val(tail, base), Val(old_tail, base), add);
    ValPrepend(r, tail, base);
    ValPrepend(x, old_tail, base);
  }

  /** The inner loop of both directions: the digits in the buffer become those of
      `value * m + add`, and what does not fit is the carry. */
  method MultiplyAdd(a: array<nat>, m: nat, base: nat, add: nat) returns (carry: nat)
    requires base > 0 && add < m && IsDigits(a[..], base)
    modifies a
    ensures IsDigits(a[..], base)
    ensures Val(a[..], base) + carry * Pow(base, a.Length) == Val(old(a[..]), base) * m + add
  {
    ghost var before := a[..];
    carry := add;
    var j := a.Length;
    while j > 0
      invariant 0 <= j <= a.Length && carry < m
      invariant a[..j] == before[..j] && IsDigits(a[j..], base)
      invariant Val(a[j..], base) + carry * Pow(base, a.Length - j) == Val(before[j..], base) * m + add
    {
      ghost var tail := a[j..];
      j := j - 1;
      var x := a[j];
      assert x == before[j] && before[j..] == [x] + before[j + 1..];
      ghost var c0 := carry;
      carry := carry + m * x;
      DivModEquation(carry, base);
      CarryBound(m, x, c0, base, carry / base, carry % base);
      ghost var q, r := carry / base, carry % base;
      DigitStep(m, x, tail, before[j + 1..], c0, base, q, r, add);
      a[j] := carry % base;
      carry := carry / base;
      assert a[j..] == [r] + tail && carry == q && a.Length - j == |tail| + 1;
    }
    assert a[0..] == a[..] && before[0..] == before;
  }

  /** One round of the outer loop of both directions: the buffer holds the number whose digits in
      base `m` are `d`, and one more digit is appended.  The assertion on the carry holds. */
  method AppendDigit(a: array<nat>, m: nat, base: nat, x: nat, ghost d: seq<nat>, ghost n: nat)
    requires base > 0 && IsDigits(a[..], base) && IsDigits(d, m) && x < m && |d| < n
    requires Val(a[..], base) == Val(d, m) && Pow(m, n) <= Pow(base, a.Length)
    modifies a
    ensures IsDigits(a[..], base) && Val(a[..], base) == Val(d + [x], m)
  {
    var carry := MultiplyAdd(a, m, base, x);
    ValAppend(d, x, m);
    NoCarry(d + [x], n, m, base, a.Length, Val(a[..], base), carry);
    assert carry == 0;
  }

  lemma {:induction false} ZeroBuffer(a: seq<nat>, base: nat)
    requires forall i :: 0 <= i < |a| ==> a[i] == 0
    ensures Val(a, base) == 0
  {
    if a != [] { ZeroBuffer(a[1..], base); }
  }

  lemma NoCarry(d: seq<nat>, n: nat, m: nat, base: nat, size: nat, v: nat, carry: nat)
    requires |d| <= n && IsDigits(d, m) && m > 0 && base > 0 && Pow(m, n) <= Pow(base, size)
    requires v + carry * Pow(base, size) == Val(d, m)
    ensures carry == 0
  {
    ValBound(d, m);
    PowMonotone(m, |d|, n);
    if carry > 0 { MulMonotone(1, carry, Pow(base, size)); }
  }

  // ---------------------------------------------------------------- the methods

  method NewBuffer(size: nat, base: nat) returns (a: array<nat>)
    requires base > 0
    ensures fresh(a) && a.Length == size && IsDigits(a[..], base) && Val(a[..], base) == 0
  {
    a := new nat[size](_ => 0);
    ZeroBuffer(a[..], base);
  }

  /** The leading zeros of a buffer are skipped. */
  method SkipZeroes(a: array<nat>) returns (it: nat)
    ensures it <= a.Length && a[it..] == Strip(a[..])
  {
    it := 0;
    while it < a.Length && a[it] == 0
      invariant 0 <= it <= a.Length && Strip(a[..]) == Strip(a[it..])
    {
      assert a[it..][1..] == a[it + 1..];
      it := it + 1;
    }
  }

  method EncodeBase58(bytes: seq<nat>) returns (str: string)
    requires IsDigits(bytes, 256)
    ensures str == Encode(bytes)
  {
    var zeroes, rest := 0, bytes;
    while rest != [] && rest[0] == 0
      invariant Zeros(bytes) == zeroes + Zeros(rest) && Strip(bytes) == Strip(rest) && IsDigits(rest, 256)
    {
      rest, zeroes := rest[1..], zeroes + 1;
    }
    StripValue(bytes, 256);
    var n := |rest|;
    EncodeBufferSuffices(n);
    var b58 := NewBuffer(n * 138 / 100 + 1, 58);
    var k := 0;
    while k < n
      invariant 0 <= k <= n && IsDigits(b58[..], 58) && Val(b58[..], 58) == Val(rest[..k], 256)
    {
      AppendDigit(b58, 256, 58, rest[k], rest[..k], n);
      assert rest[..k + 1] == rest[..k] + [rest[k]];
      k := k + 1;
    }
    assert rest[..n] == rest;
    StripIsDigits(b58[..], 58);
    str := Translate(b58, Repeat('1', zeroes));
  }

  /** The digits of a buffer after its leading zeros are translated and appended. */
  method Translate(b58: array<nat>, start: string) returns (str: string)
    requires IsDigits(b58[..], 58)
    ensures IsDigits(Strip(b58[..]), 58) && |ALPHABET| == 58
    ensures str == start + Letters(Strip(b58[..]))
  {
    AlphabetCodes(0);
    StripParts(b58[..], 58);
    var it := SkipZeroes(b58);
    ghost var first := it;
    str := start;
    while it < b58.Length
      invariant first <= it <= b58.Length
      invariant str == start + Letters(b58[first..it])
    {
      str := str + [ALPHABET[b58[it]]];
      it := it + 1;
    }
    assert b58[first..it] == b58[first..];
  }

  /** What has been read once the decoder is past `z` ones and the digits `d`. */
  ghost function Done(z: nat, d: seq<nat>): string
    requires IsDigits(d, 58) && |ALPHABET| == 58
  {
    Repeat('1', z) + Letters(d)
  }

  ghost predicate Read(t: string, z: nat, d: seq<nat>, s: string) {
    && IsDigits(d, 58) && |ALPHABET| == 58
    && t == Done(z, d) + s && Word(t) == Done(z, d) + Word(s)
    && (d != [] ==> d[0] > 0)
    && (d == [] ==> s == [] || s[0] != '1')
  }

  lemma DoneMore(z: nat, d: seq<nat>, x: nat, rest: string)
    requires IsDigits(d, 58) && x < 58 && |ALPHABET| == 58
    ensures Done(z, d + [x]) + rest == Done(z, d) + ([ALPHABET[x]] + rest)
  {
    assert Letters(d + [x]) == Letters(d) + [ALPHABET[x]];
  }

  lemma ReadDigit(t: string, z: nat, d: seq<nat>, s: string, x: nat)
    requires Read(t, z, d, s) && s != [] && !IsSpace(s[0]) && x < 58 && s[0] == ALPHABET[x]
    ensures Read(t, z, d + [x], s[1..])
  {
    AlphabetHasNoSpace(x);
    assert s == [s[0]] + s[1..];
    DoneMore(z, d, x, s[1..]);
    DoneMore(z, d, x, Word(s[1..]));
  }

  lemma ReadBadCharacter(psz: string, z: nat, d: seq<nat>, s: string)
    requires Read(SkipSpaces(psz), z, d, s) && s != [] && !IsSpace(s[0]) && s[0] !in ALPHABET
    ensures Decode(psz) == None
  {
    var w := Word(SkipSpaces(psz));
    assert w[z + |d|] == s[0];
  }

  lemma DoneNumbers(z: nat, d: seq<nat>)
    requires IsDigits(d, 58) && |ALPHABET| == 58 && (d == [] || d[0] > 0)
    ensures InAlphabet(Done(z, d)) && Numbers(Done(z, d)) == Repeat(0, z) + d && Ones(Done(z, d)) == z
  {
    var n := Repeat(0, z) + d;
    AlphabetHasNoSpace(0);
    assert Done(z, d) == Letters(n);
    LettersAreLetters(n);
    ZerosThen(z, d);
    OnesAreZeros(Done(z, d));
  }

  lemma ReadAll(psz: string, z: nat, d: seq<nat>, s: string)
    requires Read(SkipSpaces(psz), z, d, s) && (s == [] || IsSpace(s[0]))
    ensures Decode(psz) == if SkipSpaces(s) == [] then Some(Repeat(0, z) + Digits(Val(d, 58), 256)) else None
  {
    var t := SkipSpaces(psz);
    var w := Word(t);
    assert w == Done(z, d) && t[|w|..] == s;
    DoneNumbers(z, d);
    ZerosThen(z, d);
    StripValue(Repeat(0, z) + d, 58);
  }

  /** The digit loop of `DecodeBase58`: it ends at a space or the end of the string, or fails at a
      character outside the alphabet. */
  method DigitLoop(ghost psz: string, start: string, ghost zeroes: nat, b256: array<nat>)
    returns (ok: bool, s: string, ghost d: seq<nat>)
    requires Read(SkipSpaces(psz), zeroes, [], start)
    requires Pow(58, |start|) <= Pow(256, b256.Length) && IsDigits(b256[..], 256) && Val(b256[..], 256) == 0
    modifies b256
    ensures !ok ==> Decode(psz) == None
    ensures ok ==> Read(SkipSpaces(psz), zeroes, d, s) && (s == [] || IsSpace(s[0]))
    ensures ok ==> IsDigits(b256[..], 256) && Val(b256[..], 256) == Val(d, 58)
  {
    s, d := start, [];
    ghost var t := SkipSpaces(psz);
    while s != [] && !IsSpace(s[0])
      invariant Read(t, zeroes, d, s) && |d| + |s| == |start|
      invariant IsDigits(b256[..], 256) && Val(b256[..], 256) == Val(d, 58)
    {
      var ch := Find(ALPHABET, s[0]);
      if ch < 0 {
        ReadBadCharacter(psz, zeroes, d, s);
        return false, s, d;
      }
      AppendDigit(b256, 58, 256, ch, d, |start|);
      ReadDigit(t, zeroes, d, s, ch);
      d := d + [ch];
      s := s[1..];
    }
    ok := true;
  }

  method PastSpaces(start: string) returns (s: string)
    ensures s == SkipSpaces(start)
  {
    s := start;
    while s != [] && IsSpace(s[0])
      invariant SkipSpaces(start) == SkipSpaces(s)
    {
      s := s[1..];
    }
  }

  lemma RepeatMore<T>(x: T, n: nat, rest: seq<T>)
    ensures Repeat(x, n + 1) + rest == Repeat(x, n) + ([x] + rest)
  {
  }

  method PastOnes(t: string) returns (zeroes: nat, s: string)
    ensures Read(t, zeroes, [], s)
  {
    AlphabetHasNoSpace(0);
    zeroes, s := 0, t;
    while s != [] && s[0] == '1'
      invariant t == Repeat('1', zeroes) + s && Word(t) == Repeat('1', zeroes) + Word(s)
    {
      RepeatMore('1', zeroes, s[1..]);
      RepeatMore('1', zeroes, Word(s[1..]));
      assert s == ['1'] + s[1..];
      s, zeroes := s[1..], zeroes + 1;
    }
    assert Done(zeroes, []) == Repeat('1', zeroes);
  }

  method DecodeBase58(psz: string) returns (r: Option<seq<nat>>)
    ensures r == Decode(psz)
  {
    var s := PastSpaces(psz);
    var zeroes;
    zeroes, s := PastOnes(s);
    var b256 := NewBuffer(|s| * 733 / 1000 + 1, 256);
    DecodeBufferSuffices(|s|);
    var ok;
    ghost var d;
    ok, s, d := DigitLoop(psz, s, zeroes, b256);
    if !ok {
      return None;
    }
    ReadAll(psz, zeroes, d, s);
    s := PastSpaces(s);
    if s != [] {
      return None;
    }
    StripIsDigits(b256[..], 256);
    var it := SkipZeroes(b256);
    r := Some(Repeat(0, zeroes) + b256[it..]);
  }

  // ---------------------------------------------------------------- which strings decode

  /** Only the six white-space characters: space, tab, line feed, vertical tab, form feed and carriage return. */
  ghost predicate Blank(s: string) {
    forall i :: 0 <= i < |s| ==> s[i] as int in [32, 9, 10, 11, 12, 13]
  }

  /** The characters from `i` to `j` are a word of the alphabet, and all others are blank. */
  ghost predicate WordBetween(s: string, i: int, j: int) {
    0 <= i <= j <= |s| && Blank(s[..i]) && InAlphabet(s[i..j]) && Blank(s[j..])
  }

  lemma {:induction false} SkipBlanks(a: string, s: string)
    requires Blank(a) && (s == [] || !IsSpace(s[0]))
    ensures SkipSpaces(a + s) == s
  {
    if a == [] {
      assert a + s == s;
    } else {
      assert (a + s)[1..] == a[1..] + s;
      SkipBlanks(a[1..], s);
    }
  }

  lemma {:induction false} WordEnds(w: string, b: string)
    requires InAlphabet(w) && Blank(b)
    ensures Word(w + b) == w
  {
    if w == [] {
      assert w + b == b;
    } else {
      assert (w + b)[1..] == w[1..] + b && (w + b)[0] == w[0];
      AlphabetHasNoSpace(Find(ALPHABET, w[0]));
      WordEnds(w[1..], b);
    }
  }

  lemma {:induction false} Skipped(s: string) returns (n: nat)
    ensures n <= |s| && SkipSpaces(s) == s[n..] && Blank(s[..n])
  {
    n := 0;
    if s != [] && IsSpace(s[0]) {
      var k := Skipped(s[1..]);
      n := k + 1;
      assert s[..n] == [s[0]] + s[1..][..k];
    }
  }

  /** Blanks around a word of the alphabet change nothing. */
  lemma BlanksAround(s: string, i: int, j: int)
    requires WordBetween(s, i, j)
    ensures Decode(s) == Decode(s[i..j]) && Decode(s).Some?
  {
    var w := s[i..j];
    ValidStringsRoundTrip(w);
    assert s == s[..i] + (w + s[j..]);
    SkipBlanks(s[j..], []);
    assert s[j..] + [] == s[j..];
    if w == [] {
      assert s == s[..i] + s[j..];
      SkipBlanks(s, []);
      assert s + [] == s;
    } else {
      AlphabetHasNoSpace(Find(ALPHABET, w[0]));
      SkipBlanks(s[..i], w + s[j..]);
      WordEnds(w, s[j..]);
      assert (w + s[j..])[|w|..] == s[j..];
      AlphabetWord(w);
    }
  }

  lemma AlphabetWord(w: string)
    requires InAlphabet(w)
    ensures SkipSpaces(w) == w && Word(w) == w
  {
    forall i | 0 <= i < |w| ensures !IsSpace(w[i]) { AlphabetHasNoSpace(Find(ALPHABET, w[i])); }
    NoSpaces(w);
  }

  /** Exactly the words of the alphabet between blanks decode. */
  lemma DecodableStrings(s: string)
    ensures Decode(s).Some? <==> exists i, j :: WordBetween(s, i, j)
  {
    if i, j :| WordBetween(s, i, j) {
      BlanksAround(s, i, j);
    } else if Decode(s).Some? {
      var i := Skipped(s);
      var t := s[i..];
      var w := Word(t);
      var k := Skipped(t[|w|..]);
      assert t[|w|..][..k] == t[|w|..];
      assert t[|w|..] == s[i + |w|..] && s[i..i + |w|] == w;
      assert WordBetween(s, i, i + |w|);
    }
  }

  lemma ExampleValue()
    ensures Val([0x57, 0x2e, 0x47, 0x94], 256) == 1462650772
  {
    ValAppend([0x57, 0x2e, 0x47], 0x94, 256);
    ValAppend([0x57, 0x2e], 0x47, 256);
    ValAppend([0x57], 0x2e, 256);
    ValAppend([], 0x57, 256);
    assert [0x57, 0x2e, 0x47] + [0x94] == [0x57, 0x2e, 0x47, 0x94];
    assert [0x57, 0x2e] + [0x47] == [0x57, 0x2e, 0x47] && [0x57] + [0x2e] == [0x57, 0x2e] && [] + [0x57] == [0x57];
  }

  lemma ExampleDigits()
    ensures Digits(1462650772, 58) == [2, 13, 14, 27, 6, 44]
  {
    assert Digits(2, 58) == [2];
    assert Digits(129, 58) == [2, 13];
    assert Digits(7496, 58) == [2, 13, 14];
    assert Digits(434795, 58) == [2, 13, 14, 27];
    assert Digits(25218116, 58) == [2, 13, 14, 27, 6];
  }

  /** Pairs of the original's own test: nothing, a zero byte, and four bytes. */
  lemma Examples()
    ensures Encode([]) == "" && Encode([0]) == "1" && Encode([0x57, 0x2e, 0x47, 0x94]) == "3EFU7m"
  {
    ExampleValue();
    ExampleDigits();
    var d := [2, 13, 14, 27, 6, 44];
    EncodeIsLetters([0x57, 0x2e, 0x47, 0x94]);
    forall i | 0 <= i < 6 ensures Letters(d)[i] == "3EFU7m"[i] { AlphabetCodes(d[i]); }
    assert Letters(d) == "3EFU7m";
    assert Val([0], 256) == 0 * Pow(256, 0) + Val([], 256);
  }

  // ---------------------------------------------------------------- with a checksum

  /** The first four bytes of the hash of a byte string; the hash itself is not modelled. */
  type Checksum = seq<nat> -> (nat, nat, nat, nat)

  function Four(c: (nat, nat, nat, nat)): (s: seq<nat>)
    ensures |s| == 4
  {
    [c.0, c.1, c.2, c.3]
  }

  ghost predicate IsChecksum(h: Checksum) {
    forall v: seq<nat> {:trigger h(v)} :: IsDigits(Four(h(v)), 256)
  }

  method EncodeBase58Check(h: Checksum, bytes: seq<nat>) returns (str: string)
    requires IsChecksum(h) && IsDigits(bytes, 256)
    ensures var c := h(bytes); str == Encode(bytes + [c.0, c.1, c.2, c.3])
  {
    str := EncodeBase58(bytes + Four(h(bytes)));
  }

  /** The part before the checksum, if the string decodes and the checksum matches. */
  ghost function DecodeCheck(h: Checksum, psz: string): Option<seq<nat>> {
    match Decode(psz)
    case None => None
    case Some(v) =>
      if |v| >= 4 && Four(h(v[..|v| - 4])) == v[|v| - 4..] then Some(v[..|v| - 4]) else None
  }

  method DecodeBase58Check(h: Checksum, psz: string) returns (r: Option<seq<nat>>)
    ensures r == DecodeCheck(h, psz)
  {
    var d := DecodeBase58(psz);
    if d.None? || |d.value| < 4 {
      return None;
    }
    var v := d.value;
    var hash := Four(h(v[..|v| - 4]));
    if hash != v[|v| - 4..] {
      return None;
    }
    r := Some(v[..|v| - 4]);
  }

  /** Decoding with checksum undoes encoding with checksum. */
  lemma DecodeEncodeCheck(h: Checksum, bytes: seq<nat>)
    requires IsChecksum(h) && IsDigits(bytes, 256)
    ensures DecodeCheck(h, Encode(bytes + Four(h(bytes)))) == Some(bytes)
  {
    var v := bytes + Four(h(bytes));
    assert IsDigits(Four(h(bytes)), 256);
    DecodeEncode(v);
    assert v[..|v| - 4] == bytes && v[|v| - 4..] == Four(h(bytes));
  }

  /** A string is accepted as some bytes exactly if it decodes to them and their checksum. */
  lemma CheckIsExact(h: Checksum, psz: string, v: seq<nat>)
    ensures var c := h(v); DecodeCheck(h, psz) == Some(v) <==> Decode(psz) == Some(v + [c.0, c.1, c.2, c.3])
  {
    var w := v + Four(h(v));
    assert w[..|w| - 4] == v && w[|w| - 4..] == Four(h(v));
    if DecodeCheck(h, psz) == Some(v) {
      var u := Decode(psz).value;
      assert u == u[..|u| - 4] + u[|u| - 4..];
    }
  }

  /** Only strings that encode some bytes and their checksum are accepted. */
  lemma AcceptedStrings(h: Checksum, psz: string)
    requires DecodeCheck(h, psz).Some?
    ensures var v := DecodeCheck(h, psz).value;
            Encode(v + Four(h(v))) == Word(SkipSpaces(psz))
  {
    var v := Decode(psz).value;
    EncodeDecode(psz);
    assert v == v[..|v| - 4] + v[|v| - 4..];
  }
}
