/** Java strings as sequences of UTF-16 code units, their UTF-8 bytes, and percent triples. */
module Text {
  type CodeUnit = x: int | 0 <= x < 0x1_0000
  type Byte = x: int | 0 <= x < 0x100
  type Text = seq<CodeUnit>

  const PERCENT: Byte := '%' as int
  const PLUS: Byte := '+' as int
  const SPACE: Byte := ' ' as int
  const SLASH: Byte := '/' as int

  predicate Ascii(c: CodeUnit) { c < 0x80 }

  predicate HighSurrogate(c: CodeUnit) { 0xD800 <= c < 0xDC00 }

  predicate LowSurrogate(c: CodeUnit) { 0xDC00 <= c < 0xE000 }

  predicate Digit(c: CodeUnit) { '0' as int <= c <= '9' as int }

  predicate Letter(c: CodeUnit) { 'a' as int <= c <= 'z' as int || 'A' as int <= c <= 'Z' as int }

  predicate HexDigit(c: CodeUnit) { Digit(c) || 'a' as int <= c <= 'f' as int || 'A' as int <= c <= 'F' as int }

  /** `s` opens with a percent sign and two hexadecimal digits. */
  predicate Triple(s: Text) {
    |s| >= 3 && s[0] == PERCENT && HexDigit(s[1]) && HexDigit(s[2])
  }

  function HexValue(c: CodeUnit): (v: nat)
    requires HexDigit(c)
    ensures v < 16
  {
    if Digit(c) then c - '0' as int
    else if c <= 'F' as int then c - 'A' as int + 10
    else c - 'a' as int + 10
  }

  function UpperHex(v: nat): (c: Byte)
    requires v < 16
    ensures HexDigit(c) && HexValue(c) == v && (Digit(c) || Letter(c))
  {
    if v < 10 then '0' as int + v else 'A' as int + v - 10
  }

  /** `%XX` with upper-case digits. */
  function Pct(b: Byte): (t: seq<Byte>)
    ensures |t| == 3 && Triple(t) && 16 * HexValue(t[1]) + HexValue(t[2]) == b
  {
    [PERCENT, UpperHex(b / 16), UpperHex(b % 16)]
  }

  /** How many code units the first code point of `s` takes. */
  function CpLen(s: Text): (n: nat)
    requires s != []
    ensures 1 <= n <= |s|
  {
    if |s| >= 2 && HighSurrogate(s[0]) && LowSurrogate(s[1]) then 2 else 1
  }

  /** The UTF-8 form of a code point that needs `n` continuation bytes. */
  function MultiByte(p: nat, n: nat): (bytes: seq<Byte>)
    requires 1 <= n <= 3 && p < [0, 0x800, 0x1_0000, 0x11_0000][n]
    ensures |bytes| == n + 1 && forall b :: b in bytes ==> b >= 0x80
  {
    Leading(p, n) + Continuation(p, n)
  }

  function Leading(p: nat, n: nat): (bytes: seq<Byte>)
    requires 1 <= n <= 3 && p < [0, 0x800, 0x1_0000, 0x11_0000][n]
    ensures |bytes| == 1 && bytes[0] >= 0x80
  {
    [[0, 0xC0, 0xE0, 0xF0][n] + p / [1, 0x40, 0x1000, 0x4_0000][n]]
  }

  function Continuation(p: nat, n: nat): (bytes: seq<Byte>)
    ensures |bytes| == n && forall b :: b in bytes ==> b >= 0x80
  {
    if n == 0 then [] else Continuation(p / 0x40, n - 1) + [0x80 + p % 0x40]
  }

  /** The UTF-8 bytes of the first code point; an unpaired surrogate is encoded as '?'. */
  function CpBytes(s: Text): (bytes: seq<Byte>)
    requires s != []
    ensures |bytes| >= CpLen(s)
    ensures Ascii(s[0]) ==> CpLen(s) == 1 && bytes == [s[0]]
    ensures !Ascii(s[0]) ==> bytes == ['?' as int] || forall b :: b in bytes ==> b >= 0x80
  {
    var c := s[0];
    if CpLen(s) == 2 then MultiByte(0x1_0000 + (c - 0xD800) * 0x400 + (s[1] - 0xDC00), 3)
    else if c < 0x80 then [c]
    else if c < 0x800 then MultiByte(c, 1)
    else if HighSurrogate(c) || LowSurrogate(c) then ['?' as int]
    else MultiByte(c, 2)
  }

  function Utf8(s: Text): (bytes: seq<Byte>)
    ensures |bytes| >= |s|
  {
    if s == [] then [] else CpBytes(s) + Utf8(s[CpLen(s)..])
  }

  /** Cutting between `a` and `b` does not split a surrogate pair. */
  predicate CleanCut(a: Text, b: Text) {
    a == [] || b == [] || !HighSurrogate(a[|a| - 1]) || !LowSurrogate(b[0])
  }

  lemma CleanCutStep(a: Text, b: Text)
    requires a != [] && CleanCut(a, b)
    ensures CpLen(a + b) == CpLen(a) && CpBytes(a + b) == CpBytes(a)
    ensures (a + b)[CpLen(a)..] == a[CpLen(a)..] + b
    ensures CleanCut(a[CpLen(a)..], b)
  {
  }

  lemma {:induction false} Utf8Append(a: Text, b: Text)
    requires CleanCut(a, b)
    ensures Utf8(a + b) == Utf8(a) + Utf8(b)
  {
    if a == [] {
      assert a + b == b;
    } else {
      CleanCutStep(a, b);
      Utf8Append(a[CpLen(a)..], b);
    }
  }

  lemma {:induction false} Utf8OfAscii(s: Text)
    requires forall c :: c in s ==> Ascii(c)
    ensures Utf8(s) == s
  {
    if s != [] {
      Utf8OfAscii(s[1..]);
    }
  }
}
