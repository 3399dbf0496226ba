/** `BaseConverter` and the fixed-length ids of `IDGenerator`. */
module Base62 {
  import opened Options
  import opened Positional

  type Bytes = s: seq<int> | Digits(s, 256) witness []

  // -------------------------------------------------------------- character sets

  /** `String.indexOf` */
  function IndexIn(charSet: string, c: char): (i: int)
    ensures -1 <= i < |charSet|
    ensures i >= 0 ==> charSet[i] == c
    ensures i < 0 <==> c !in charSet
  {
    if charSet == "" then -1
    else if charSet[0] == c then 0
    else if IndexIn(charSet[1..], c) < 0 then -1 else 1 + IndexIn(charSet[1..], c)
  }

  /** More than one character, all different, and '0', which pads, is the first. */
  predicate Charset(charSet: string) {
    |charSet| > 1 && charSet[0] == '0' && forall i, j :: 0 <= i < j < |charSet| ==> charSet[i] != charSet[j]
  }

  function Indices(charSet: string, s: string): (r: seq<int>)
    ensures |r| == |s| && forall i :: 0 <= i < |s| ==> r[i] == IndexIn(charSet, s[i])
  {
    seq(|s|, i requires 0 <= i < |s| => IndexIn(charSet, s[i]))
  }

  function Render(charSet: string, digits: seq<int>): (s: string)
    requires Digits(digits, |charSet|)
    ensures |s| == |digits| && forall i :: 0 <= i < |s| ==> s[i] == charSet[digits[i]]
  {
    seq(|digits|, i requires 0 <= i < |digits| => charSet[digits[i]])
  }

  lemma IndicesOfRender(charSet: string, digits: seq<int>)
    requires Charset(charSet) && Digits(digits, |charSet|)
    ensures Indices(charSet, Render(charSet, digits)) == digits
  {
  }

  // ---------------------------------------------------------------------- encode

  /** The digits of `n` without leading zeros; zero has one digit. */
  function Minimal(n: nat, base: nat): (s: seq<int>)
    requires base > 1
    ensures |s| >= 1
  {
    if n < base then [n]
    else
      DivMod(n, base);
      QuotientSmaller(n, base);
      Minimal(n / base, base) + [n % base]
  }

  lemma Twice(q: nat, base: nat)
    requires base > 1
    ensures q * base >= q + q
  {
    assert q * (base - 2) >= 0;
  }

  lemma QuotientSmaller(n: nat, base: nat)
    requires base > 1 && n >= base
    ensures 0 < n / base < n
  {
    DivMod(n, base);
    var q := n / base;
    Scale(0, q, base);
    Twice(q, base);
  }

  lemma {:induction false} MinimalIsFixed(n: nat, base: nat)
    requires base > 1
    ensures n < Pow(base, |Minimal(n, base)|)
    ensures Minimal(n, base) == Fixed(n, base, |Minimal(n, base)|)
    ensures Digits(Minimal(n, base), base)
  {
    DivMod(n, base);
    FixedDigits(n, base, |Minimal(n, base)|);
    if n < base {
      assert Pow(base, 1) == base * Pow(base, 0);
      QuotientAndRemainder(0, base, n);
      assert Fixed(n, base, 1) == Fixed(n / base, base, 0) + [n % base];
    } else {
      QuotientSmaller(n, base);
      MinimalIsFixed(n / base, base);
      BoundStep(n / base, Pow(base, |Minimal(n / base, base)|), base);
    }
  }

  /** No digit more than needed. */
  lemma {:induction false} MinimalLength(n: nat, base: nat, k: nat)
    requires base > 1 && k > 0
    ensures |Minimal(n, base)| <= k <==> n < Pow(base, k)
    decreases k
  {
    DivMod(n, base);
    if n < base {
      PowMonotone(base, 1, k);
      assert Pow(base, 1) == base * Pow(base, 0);
    } else if k == 1 {
      assert Pow(base, 1) == base * Pow(base, 0);
      QuotientSmaller(n, base);
    } else {
      QuotientSmaller(n, base);
      MinimalLength(n / base, base, k - 1);
      if n < Pow(base, k) {
        QuotientBelow(n, base, Pow(base, k - 1));
      }
      if n / base < Pow(base, k - 1) {
        BoundStep(n / base, Pow(base, k - 1), base);
      }
    }
  }

  function PadLeft(s: string, desiredLength: nat): (t: string)
    ensures |t| == if |s| < desiredLength then desiredLength else |s|
    decreases desiredLength - |s|
  {
    if |s| < desiredLength then PadLeft("0" + s, desiredLength) else s
  }

  lemma {:induction false} PaddedIsFixed(charSet: string, n: nat, k: nat, desiredLength: nat)
    requires Charset(charSet) && n < Pow(|charSet|, k) && k <= desiredLength
    requires Digits(Fixed(n, |charSet|, k), |charSet|) && Digits(Fixed(n, |charSet|, desiredLength), |charSet|)
    ensures PadLeft(Render(charSet, Fixed(n, |charSet|, k)), desiredLength)
         == Render(charSet, Fixed(n, |charSet|, desiredLength))
    decreases desiredLength - k
  {
    if k < desiredLength {
      FixedLeadingZero(n, |charSet|, k);
      FixedDigits(n, |charSet|, k + 1);
      PowMonotone(|charSet|, k, k + 1);
      var s, t := Render(charSet, Fixed(n, |charSet|, k)), Render(charSet, Fixed(n, |charSet|, k + 1));
      assert "0" + s == t;
      PaddedIsFixed(charSet, n, k + 1, desiredLength);
    }
  }

  // ---------------------------------------------------------------------- decode

  /** `BigInteger.bitLength` */
  function BitLength(v: int): nat
    decreases v < 0, if v < 0 then -v else v
  {
    if v < 0 then BitLength(-v - 1) else if v == 0 then 0 else 1 + BitLength(v / 2)
  }

  lemma PowPositive(e: nat)
    ensures Pow(256, e) > 0
  {
  }

  /** `BigInteger.toByteArray`: two's complement with room for the sign bit. */
  function ToByteArray(v: int): (bytes: seq<int>)
    ensures |bytes| == BitLength(v) / 8 + 1
  {
    var length := BitLength(v) / 8 + 1;
    PowPositive(length);
    Fixed(v % Pow(256, length), 256, length)
  }

  /** The bytes of a decoded value; a leading byte that only holds the sign is trimmed. */
  function DecodedBytes(v: int): seq<int> {
    var bytes := ToByteArray(v);
    if (BitLength(v) + 7) / 8 < |bytes| then bytes[1..] else bytes
  }

  function Zeros(n: nat): (s: seq<int>)
    ensures |s| == n && forall i :: 0 <= i < n ==> s[i] == 0
  {
    seq(n, i => 0)
  }

  /** `decode` to a desired length; `None` is the exception for a value that does not fit. */
  function DecodedTo(v: int, desiredLength: nat): Option<seq<int>> {
    if |DecodedBytes(v)| > desiredLength then None
    else Some(Zeros(desiredLength - |DecodedBytes(v)|) + DecodedBytes(v))
  }

  lemma {:induction false} BitLengthBounds(v: nat)
    ensures v < Pow(2, BitLength(v))
    ensures v > 0 ==> BitLength(v) > 0 && Pow(2, BitLength(v) - 1) <= v
  {
    if v > 0 {
      BitLengthBounds(v / 2);
      if v / 2 == 0 {
        assert Pow(2, 0) == 1;
      }
    }
  }

  lemma {:induction false} PowOfBytes(k: nat)
    ensures Pow(256, k) == Pow(2, 8 * k)
  {
    if k > 0 {
      PowOfBytes(k - 1);
      PowAdd(2, 8, 8 * (k - 1));
      assert Pow(2, 8) == 256 by {
        PowAdd(2, 4, 4);
        assert Pow(2, 4) == 2 * Pow(2, 3) && Pow(2, 3) == 2 * Pow(2, 2) && Pow(2, 2) == 2 * Pow(2, 1)
            && Pow(2, 1) == 2 * Pow(2, 0);
      }
    }
  }

  predicate Between(v: int, bound: int) { -bound <= v < bound }

  /** `k` bytes hold `v`, counting from -256^k, and fewer do not. */
  predicate Needs(v: int, k: nat) {
    Between(v, Pow(256, k)) && (k > 0 ==> !Between(v, Pow(256, k - 1)))
  }

  /** The unsigned value of `k` bytes in two's complement. */
  function Unsigned(v: int, k: nat): int { if v < 0 then v + Pow(256, k) else v }

  /** The bytes of a decoded value: as few as can hold it, none for zero and for minus one. */
  lemma DecodedBytesAreMinimal(v: int) returns (k: nat)
    ensures Needs(v, k) && Unsigned(v, k) >= 0 && DecodedBytes(v) == Fixed(Unsigned(v, k), 256, k)
  {
    var bits := BitLength(v);
    k := (bits + 7) / 8;
    BitsNeeded(v, k);
    var length := bits / 8 + 1;
    if v >= 0 {
      NaturalBytes(v, k, length);
    } else {
      NegativeBytes(v, k, length);
    }
  }

  lemma BitsNeeded(v: int, k: nat)
    requires k == (BitLength(v) + 7) / 8
    ensures Needs(v, k)
    ensures v < 0 ==> -v - 1 < Pow(2, BitLength(v))
  {
    var n: nat := if v < 0 then -v - 1 else v;
    var bits := BitLength(v);
    assert bits == BitLength(n);
    BitLengthBounds(n);
    PowOfBytes(k);
    PowMonotone(2, bits, 8 * k);
    if k > 0 {
      PowOfBytes(k - 1);
      PowMonotone(2, 8 * (k - 1), bits - 1);
    }
  }

  lemma BytesOfRemainder(v: int, m: nat, k: nat, length: nat)
    requires k == (BitLength(v) + 7) / 8 && length == BitLength(v) / 8 + 1
    requires Pow(256, length) > 0 && v % Pow(256, length) == m
    ensures DecodedBytes(v) == Fixed(m, 256, k)
  {
    hide Pow, Fixed, BitLength;
    if k < length {
      FixedTail(m, 256, k);
    }
  }

  lemma NaturalBytes(v: nat, k: nat, length: nat)
    requires v < Pow(256, k) && k == (BitLength(v) + 7) / 8 && length == BitLength(v) / 8 + 1
    ensures DecodedBytes(v) == Fixed(v, 256, k)
  {
    hide Pow, Fixed, BitLength, DecodedBytes;
    PowMonotone(256, k, length);
    SmallRemainder(v, Pow(256, length));
    BytesOfRemainder(v, v, k, length);
  }

  lemma SmallRemainder(v: nat, p: nat)
    requires v < p
    ensures v % p == v
  {
    QuotientAndRemainder(0, p, v);
  }

  /** The whole bytes and one more leave room for the sign. */
  lemma RoomForSign(v: int, bits: nat, length: nat)
    requires v < 0 && -v - 1 < Pow(2, bits) && length == bits / 8 + 1
    ensures Pow(256, length) > -v
  {
    PowOfBytes(length);
    PowMonotone(2, bits, 8 * length - 1);
    assert Pow(2, 8 * length) == 2 * Pow(2, 8 * length - 1);
  }

  lemma NegativeBytes(v: int, k: nat, length: nat)
    requires v < 0 && -v - 1 < Pow(2, BitLength(v)) && Between(v, Pow(256, k))
    requires k == (BitLength(v) + 7) / 8 && length == BitLength(v) / 8 + 1
    ensures v + Pow(256, k) >= 0 && DecodedBytes(v) == Fixed(v + Pow(256, k), 256, k)
  {
    hide Pow, Fixed, BitLength, DecodedBytes;
    RoomForSign(v, BitLength(v), length);
    NegativeRemainder(v, Pow(256, length));
    BytesOfRemainder(v, v + Pow(256, length), k, length);
    SameLastDigits(v, k, length);
  }

  lemma SameLastDigits(v: int, k: nat, length: nat)
    requires v + Pow(256, k) >= 0 && k <= length <= k + 1
    ensures v + Pow(256, length) >= 0 && Fixed(v + Pow(256, length), 256, k) == Fixed(v + Pow(256, k), 256, k)
  {
    if k < length {
      assert Pow(256, length) == 256 * Pow(256, k);
      FixedModulo(v + Pow(256, k), 255, 256, k);
    }
  }

  lemma NegativeRemainder(v: int, p: int)
    requires -p < v < 0
    ensures v % p == v + p
  {
    Scale(-1, v / p, p);
    Scale(v / p, -1, p);
    assert v == v / p * p + v % p;
  }

  lemma {:induction false} ZerosBeforeFixed(v: nat, k: nat, n: nat)
    requires v < Pow(256, k) && k <= n
    ensures Zeros(n - k) + Fixed(v, 256, k) == Fixed(v, 256, n)
    decreases n - k
  {
    if k < n {
      PowMonotone(256, k, k + 1);
      FixedLeadingZero(v, 256, k);
      ZerosBeforeFixed(v, k + 1, n);
      assert Zeros(n - k) == Zeros(n - k - 1) + [0];
    } else {
      assert Zeros(0) + Fixed(v, 256, k) == Fixed(v, 256, k);
    }
  }

  /**
   * Decoding to `n` bytes succeeds exactly for values from -256^n up to 256^n; a natural is its digits,
   * a negative value the two's complement in as few bytes as hold it, behind zeros.
   */
  lemma DecodedToIsFixed(v: int, n: nat) returns (k: nat)
    ensures DecodedTo(v, n).Some? <==> Between(v, Pow(256, n))
    ensures DecodedTo(v, n).Some? ==> k <= n && Needs(v, k) && Unsigned(v, k) >= 0
    ensures DecodedTo(v, n).Some? ==> DecodedTo(v, n).value == Fixed(Unsigned(v, k), 256, n)
    ensures v >= 0 ==> Unsigned(v, k) == v
  {
    hide Pow, DecodedBytes, Fixed;
    k := DecodedBytesAreMinimal(v);
    if k <= n {
      PowMonotone(256, k, n);
      ZerosBeforeFixed(Unsigned(v, k), k, n);
    } else {
      PowMonotone(256, n, k - 1);
    }
  }

  // ------------------------------------------------------------------- converter

  lemma DecodeStart(s: seq<int>, base: nat)
    ensures Value(s[|s|..], base) == 0 && Pow(base, 0) == 1
  {
  }

  /** Reading digits from the right with growing powers gives Horner's value. */
  lemma DecodeStep(s: seq<int>, base: nat, i: nat)
    requires i < |s|
    ensures Value(s[|s| - i - 1..], base) == Value(s[|s| - i..], base) + Pow(base, i) * s[|s| - 1 - i]
    ensures Pow(base, i + 1) == Pow(base, i) * base
  {
    var k := |s| - i - 1;
    ValueSplit(s[k], s[k + 1..], base);
    assert s[k..] == [s[k]] + s[k + 1..];
  }

  class BaseConverter {
    const charSet: string

    constructor (charSetAsString: string)
      requires |charSetAsString| > 1
      ensures charSet == charSetAsString
    {
      charSet := charSetAsString;
    }

    method Encode(b: Bytes) returns (sb: string)
      requires |charSet| > 1 && |b| > 0
      ensures Value(b, 256) >= 0 && Digits(Minimal(Value(b, 256), |charSet|), |charSet|)
      ensures sb == Render(charSet, Minimal(Value(b, 256), |charSet|))
    {
      ValueBound(b, 256);
      MinimalIsFixed(Value(b, 256), |charSet|);
      ghost var digits := Minimal(Value(b, 256), |charSet|);
      var currentDividend: nat := Value(b, 256);
      sb := "";
      var again := true;
      while again
        invariant |sb| <= |digits| && (again <==> |sb| < |digits|) && (!again ==> currentDividend == 0)
        invariant again ==> digits[..|digits| - |sb|] == Minimal(currentDividend, |charSet|)
        invariant sb == Render(charSet, digits)[|digits| - |sb|..]
        decreases again, currentDividend
      {
        DigitStep(charSet, digits, sb, currentDividend);
        hide Minimal, Render;
        sb := [charSet[currentDividend % |charSet|]] + sb;
        currentDividend := currentDividend / |charSet|;
        again := currentDividend > 0;
      }
    }

    /** One round of `encode`: the last digit of what is left joins the text. */
    lemma DigitStep(charSet: string, digits: seq<int>, sb: string, n: nat)
      requires |charSet| > 1 && |sb| < |digits| && Digits(digits, |charSet|)
      requires digits[..|digits| - |sb|] == Minimal(n, |charSet|) && sb == Render(charSet, digits)[|digits| - |sb|..]
      ensures 0 <= n % |charSet| < |charSet| && 0 <= n / |charSet|
      ensures n / |charSet| > 0 <==> |sb| + 1 < |digits|
      ensures n / |charSet| > 0 ==>
        n / |charSet| < n && digits[..|digits| - |sb| - 1] == Minimal(n / |charSet|, |charSet|)
      ensures [charSet[n % |charSet|]] + sb == Render(charSet, digits)[|digits| - |sb| - 1..]
    {
      DivMod(n, |charSet|);
      var rest := digits[..|digits| - |sb|];
      if n >= |charSet| {
        QuotientSmaller(n, |charSet|);
        assert rest[..|rest| - 1] == digits[..|digits| - |sb| - 1];
      } else {
        QuotientAndRemainder(0, |charSet|, n);
      }
      assert rest[|rest| - 1] == n % |charSet|;
    }

    /** `encode` with a desired length. */
    method EncodeTo(b: Bytes, desiredLength: nat) returns (converted: string)
      requires |charSet| > 1 && |b| > 0
      ensures Value(b, 256) >= 0 && Digits(Minimal(Value(b, 256), |charSet|), |charSet|)
      ensures converted == PadLeft(Render(charSet, Minimal(Value(b, 256), |charSet|)), desiredLength)
    {
      converted := Encode(b);
      ghost var encoded := converted;
      while |converted| < desiredLength
        invariant PadLeft(converted, desiredLength) == PadLeft(encoded, desiredLength)
      {
        converted := "0" + converted;
      }
    }

    method Decode(baseAsStr: string) returns (bytes: seq<int>)
      ensures bytes == DecodedBytes(Value(Indices(charSet, baseAsStr), |charSet|))
    {
      hide DecodedBytes, Value, Pow;
      ghost var indices := Indices(charSet, baseAsStr);
      var runningValue, multiplier := 0, 1;
      DecodeStart(indices, |charSet|);
      for i := 0 to |baseAsStr|
        invariant multiplier == Pow(|charSet|, i)
        invariant runningValue == Value(indices[|baseAsStr| - i..], |charSet|)
      {
        var value := IndexIn(charSet, baseAsStr[|baseAsStr| - 1 - i]);
        DecodeStep(indices, |charSet|, i);
        runningValue := runningValue + multiplier * value;
        multiplier := multiplier * |charSet|;
      }
      assert indices[0..] == indices;
      bytes := DecodedBytes(runningValue);
    }

    /** `decode` to a desired length, through a zeroed buffer written from a position on. */
    method DecodeTo(baseAsStr: string, desiredLength: nat) returns (r: Option<seq<int>>)
      ensures r == DecodedTo(Value(Indices(charSet, baseAsStr), |charSet|), desiredLength)
    {
      var paddedResult := new int[desiredLength](i => 0);
      var result := Decode(baseAsStr);
      if |result| > desiredLength {
        return None;
      }
      var position := desiredLength - |result|;
      result := Decode(baseAsStr);
      for i := 0 to |result|
        invariant forall j :: 0 <= j < position ==> paddedResult[j] == 0
        invariant forall j :: 0 <= j < i ==> paddedResult[position + j] == result[j]
      {
        paddedResult[position + i] := result[i];
      }
      r := Some(paddedResult[..]);
      assert paddedResult[..] == Zeros(position) + result;
    }
  }

  // ------------------------------------------------------------------------- ids

  const DEFAULT_BASE62_ID_LENGTH := 22
  const BYTES_IN_ID := 16
  const BASE62: string :=
    "0123456789" + "ABCDEFGHIJ" + "KLMNOPQRST" + "UVWXYZ" + "abcdefghij" + "klmnopqrst" + "uvwxyz"

  lemma Base62Size()
    ensures |BASE62| == SIZE
  {
  }

  /** The number of base-62 characters. */
  const SIZE: nat := 62

  function EncodedId(b: Bytes): string
    requires |b| == BYTES_IN_ID
  {
    ValueBound(b, 256);
    MinimalIsFixed(Value(b, 256), SIZE);
    Base62Size();
    PadLeft(Render(BASE62, Minimal(Value(b, 256), SIZE)), DEFAULT_BASE62_ID_LENGTH)
  }

  function DecodedId(id: string): Option<seq<int>> {
    DecodedTo(Value(Indices(BASE62, id), SIZE), BYTES_IN_ID)
  }

  method EncodeId(idBytes: Bytes) returns (id: string)
    requires |idBytes| == BYTES_IN_ID
    ensures id == EncodedId(idBytes)
  {
    Base62Size();
    var base62Converter := new BaseConverter(BASE62);
    assert |base62Converter.charSet| == SIZE;
    id := base62Converter.EncodeTo(idBytes, DEFAULT_BASE62_ID_LENGTH);
  }

  method DecodeId(id: string) returns (r: Option<seq<int>>)
    ensures r == DecodedId(id)
  {
    Base62Size();
    var base62Converter := new BaseConverter(BASE62);
    assert |base62Converter.charSet| == SIZE;
    r := base62Converter.DecodeTo(id, BYTES_IN_ID);
  }

  lemma Ranges(i: nat)
    ensures i < 10 ==> "0123456789"[i] as int == 48 + i && "ABCDEFGHIJ"[i] as int == 65 + i
    ensures i < 10 ==> "KLMNOPQRST"[i] as int == 75 + i && "abcdefghij"[i] as int == 97 + i
    ensures i < 10 ==> "klmnopqrst"[i] as int == 107 + i
    ensures i < 6 ==> "UVWXYZ"[i] as int == 85 + i && "uvwxyz"[i] as int == 117 + i
  {
  }

  /** The digits, then the capitals, then the small letters: each in order, so the set ascends. */
  lemma Base62Char(i: nat)
    requires i < 62
    ensures |BASE62| == 62
    ensures BASE62[i] as int == if i < 10 then 48 + i else if i < 36 then 55 + i else 61 + i
  {
    Ranges(if i < 10 then i else if i < 20 then i - 10 else if i < 30 then i - 20 else if i < 36 then i - 30
           else if i < 46 then i - 36 else if i < 56 then i - 46 else i - 56);
  }

  lemma Base62IsCharset()
    ensures |BASE62| == 62 && Charset(BASE62)
    ensures forall i, j :: 0 <= i < j < 62 ==> BASE62[i] < BASE62[j]
  {
    forall i, j | 0 <= i < j < 62 ensures BASE62[i] < BASE62[j] {
      Base62Char(i);
      Base62Char(j);
    }
  }

  /** 62^21 < 2^128 < 62^22. */
  lemma Capacity()
    ensures Pow(62, 21) < Pow(256, 16) - 1 && Pow(256, 16) < Pow(62, 22)
  {
    PowAdd(256, 1, 1);
    PowAdd(256, 2, 2);
    PowAdd(256, 4, 4);
    PowAdd(256, 8, 8);
    PowAdd(62, 1, 1);
    PowAdd(62, 2, 2);
    PowAdd(62, 4, 1);
    PowAdd(62, 5, 5);
    PowAdd(62, 10, 10);
    PowAdd(62, 20, 1);
    PowAdd(62, 21, 1);
    assert Pow(256, 1) == 256 * Pow(256, 0) && Pow(62, 1) == 62 * Pow(62, 0);
    assert Pow(256, 2) == 65536 && Pow(256, 4) == 0x1_0000_0000 && Pow(256, 8) == 0x1_0000_0000_0000_0000;
    assert Pow(62, 2) == 3844 && Pow(62, 4) == 14776336 && Pow(62, 5) == 916132832;
  }

  /** An encoded id is the value of its bytes in exactly 22 base-62 digits. */
  lemma EncodedIdIsFixed(b: Bytes)
    requires |b| == BYTES_IN_ID
    ensures 0 <= Value(b, 256) < Pow(256, 16) && Digits(Fixed(Value(b, 256), 62, 22), 62)
    ensures |BASE62| == 62 && EncodedId(b) == Render(BASE62, Fixed(Value(b, 256), 62, 22))
    ensures Value(Fixed(Value(b, 256), 62, 22), 62) == Value(b, 256)
  {
    hide Pow;
    Base62IsCharset();
    Capacity();
    ValueBound(b, 256);
    var n := Value(b, 256);
    MinimalIsFixed(n, 62);
    MinimalLength(n, 62, 22);
    FixedDigits(n, 62, 22);
    PaddedIsFixed(BASE62, n, |Minimal(n, 62)|, 22);
    ValueOfFixed(n, 62, 22);
  }

  /** Every id has 22 characters, and decoding it never fails and gives its bytes back. */
  lemma IdRoundTrip(b: Bytes)
    requires |b| == BYTES_IN_ID
    ensures |EncodedId(b)| == DEFAULT_BASE62_ID_LENGTH && DecodedId(EncodedId(b)) == Some(b)
  {
    hide Pow, DecodedTo;
    EncodedIdIsFixed(b);
    Base62IsCharset();
    IndicesOfRender(BASE62, Fixed(Value(b, 256), 62, 22));
    var k := DecodedToIsFixed(Value(b, 256), 16);
    FixedOfValue(b, 256);
  }

  /** 22 is the least length that serves all ids. */
  lemma SomeIdNeedsAllCharacters() returns (b: Bytes)
    ensures |b| == BYTES_IN_ID && Value(b, 256) >= 0
    ensures |Minimal(Value(b, 256), 62)| == DEFAULT_BASE62_ID_LENGTH
  {
    hide Pow, Minimal;
    Capacity();
    var n := Pow(256, 16) - 1;
    FixedDigits(n, 256, 16);
    ValueOfFixed(n, 256, 16);
    b := Fixed(n, 256, 16);
    MinimalLength(n, 62, 21);
    MinimalLength(n, 62, 22);
  }

  /** `String.compareTo` on strings of one length. */
  predicate StringBefore(s: string, t: string)
    requires |s| == |t|
  {
    s != "" && (s[0] < t[0] || (s[0] == t[0] && StringBefore(s[1..], t[1..])))
  }

  lemma {:induction false} StringOrder(a: seq<int>, b: seq<int>)
    requires |BASE62| == 62 && |a| == |b| && Digits(a, 62) && Digits(b, 62)
    ensures StringBefore(Render(BASE62, a), Render(BASE62, b)) <==> Before(a, b)
  {
    Base62IsCharset();
    if a != [] {
      StringOrder(a[1..], b[1..]);
      assert Render(BASE62, a)[1..] == Render(BASE62, a[1..]) && Render(BASE62, b)[1..] == Render(BASE62, b[1..]);
    }
  }

  /** Ids sort as strings the way their bytes sort as unsigned numbers, and byte by byte. */
  lemma IdOrder(a: Bytes, b: Bytes)
    requires |a| == |b| == BYTES_IN_ID
    ensures |EncodedId(a)| == |EncodedId(b)|
    ensures StringBefore(EncodedId(a), EncodedId(b)) <==> Value(a, 256) < Value(b, 256)
    ensures StringBefore(EncodedId(a), EncodedId(b)) <==> Before(a, b)
  {
    hide Pow, EncodedId;
    EncodedIdIsFixed(a);
    EncodedIdIsFixed(b);
    StringOrder(Fixed(Value(a, 256), 62, 22), Fixed(Value(b, 256), 62, 22));
    OrderIsNumeric(Fixed(Value(a, 256), 62, 22), Fixed(Value(b, 256), 62, 22), 62);
    OrderIsNumeric(a, b, 256);
  }

  /** Any text decodes if and only if its value lies between -2^128 and 2^128, and then to 16 bytes. */
  lemma WhichTextsDecode(id: string)
    ensures DecodedId(id).Some? <==> Between(Value(Indices(BASE62, id), 62), Pow(256, 16))
    ensures DecodedId(id).Some? ==> Digits(DecodedId(id).value, 256) && |DecodedId(id).value| == BYTES_IN_ID
  {
    hide Pow, DecodedTo, Needs, Unsigned;
    var v := Value(Indices(BASE62, id), 62);
    var k := DecodedToIsFixed(v, 16);
    if DecodedId(id).Some? {
      FixedDigits(Unsigned(v, k), 256, 16);
    }
  }

  predicate InAlphabet(id: string) { forall i :: 0 <= i < |id| ==> id[i] in BASE62 }

  lemma AlphabetDigits(id: string)
    requires InAlphabet(id)
    ensures |BASE62| == 62 && Digits(Indices(BASE62, id), 62) && Value(Indices(BASE62, id), 62) >= 0
    ensures Render(BASE62, Indices(BASE62, id)) == id
  {
    Base62IsCharset();
    ValueBound(Indices(BASE62, id), 62);
  }

  /**
   * A text is the id of the bytes it decodes to if and only if it has 22 characters, all of the alphabet, and
   * a value below 2^128. So foreign characters are accepted, but what they decode to has another text.
   */
  lemma WhichTextsAreIds(id: string)
    ensures (DecodedId(id).Some? && Digits(DecodedId(id).value, 256) && |DecodedId(id).value| == BYTES_IN_ID
             && EncodedId(DecodedId(id).value) == id)
       <==> |id| == DEFAULT_BASE62_ID_LENGTH && InAlphabet(id) && Value(Indices(BASE62, id), 62) < Pow(256, 16)
  {
    hide Pow, DecodedId, EncodedId, InAlphabet;
    WhichTextsDecode(id);
    if DecodedId(id).Some? && EncodedId(DecodedId(id).value) == id {
      TextOfBytes(DecodedId(id).value, id);
    }
    if |id| == DEFAULT_BASE62_ID_LENGTH && InAlphabet(id) && Value(Indices(BASE62, id), 62) < Pow(256, 16) {
      BytesOfText(id);
    }
  }

  lemma TextOfBytes(b: Bytes, id: string)
    requires |b| == BYTES_IN_ID && EncodedId(b) == id
    ensures |id| == DEFAULT_BASE62_ID_LENGTH && InAlphabet(id) && Value(Indices(BASE62, id), 62) < Pow(256, 16)
  {
    hide Pow, EncodedId;
    EncodedIdIsFixed(b);
    Base62IsCharset();
    IndicesOfRender(BASE62, Fixed(Value(b, 256), 62, 22));
  }

  lemma BytesOfText(id: string)
    requires |id| == DEFAULT_BASE62_ID_LENGTH && InAlphabet(id) && Value(Indices(BASE62, id), 62) < Pow(256, 16)
    ensures DecodedId(id).Some? && Digits(DecodedId(id).value, 256) && |DecodedId(id).value| == BYTES_IN_ID
    ensures EncodedId(DecodedId(id).value) == id
  {
    hide Pow, DecodedTo, EncodedId, InAlphabet;
    AlphabetDigits(id);
    var digits := Indices(BASE62, id);
    var n := Value(digits, 62);
    var k := DecodedToIsFixed(n, 16);
    FixedDigits(n, 256, 16);
    ValueOfFixed(n, 256, 16);
    var b: Bytes := Fixed(n, 256, 16);
    EncodedIdIsFixed(b);
    FixedOfValue(digits, 62);
  }

  lemma ForeignIsMinusOne(c: char)
    requires c !in BASE62
    ensures Value(Indices(BASE62, [c]), SIZE) == -1
  {
    hide IndexIn;
    var indices := Indices(BASE62, [c]);
    assert indices[0] == -1 && indices[..0] == [];
  }

  lemma MinusOneNeedsNothing(k: nat)
    requires Needs(-1, k)
    ensures k == 0
  {
    PowPositive(if k > 0 then k - 1 else 0);
  }

  /** A character outside the alphabet counts as minus one, and decodes to zeros. */
  lemma ForeignCharactersAreAccepted(c: char)
    requires c !in BASE62
    ensures DecodedId([c]) == Some(Zeros(16))
  {
    hide DecodedTo, EncodedId, IndexIn;
    ForeignIsMinusOne(c);
    assert Pow(256, 0) == 1;
    hide Pow;
    var k := DecodedToIsFixed(-1, 16);
    PowPositive(16);
    MinusOneNeedsNothing(k);
    assert Unsigned(-1, k) == 0;
    ZerosBeforeFixed(0, 0, 16);
    assert Zeros(16) + [] == Zeros(16);
  }
}
