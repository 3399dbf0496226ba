/** Which texts percent decoding accepts, and that the letter case of hexadecimal digits never matters. */
module UrlSpelling {
  import opened Text
  import opened UrlDecoding
  import UrlCodec
  import Seqs

  const LOWER_DIGITS := "0123456789abcdef"
  const UPPER_DIGITS := "0123456789ABCDEF"

  /** `c` is the hexadecimal digit of value `v`, in either case. */
  predicate Spells(c: CodeUnit, v: int) {
    0 <= v < 16 && (c == LOWER_DIGITS[v] as int || c == UPPER_DIGITS[v] as int)
  }

  lemma DigitsInOrder(v: int)
    requires 0 <= v < 16
    ensures LOWER_DIGITS[v] as int == if v < 10 then '0' as int + v else 'a' as int + v - 10
    ensures UPPER_DIGITS[v] as int == if v < 10 then '0' as int + v else 'A' as int + v - 10
  {
    assert LOWER_DIGITS == ['0', '1', '2', '3', '4', '5', '6', '7', '8', '9', 'a', 'b', 'c', 'd', 'e', 'f'];
    assert UPPER_DIGITS == ['0', '1', '2', '3', '4', '5', '6', '7', '8', '9', 'A', 'B', 'C', 'D', 'E', 'F'];
  }

  /** The hexadecimal digits are exactly the characters of the two strings, worth their position there. */
  lemma DigitsByPosition(c: CodeUnit, v: int)
    ensures Spells(c, v) <==> HexDigit(c) && HexValue(c) == v
  {
    if 0 <= v < 16 {
      DigitsInOrder(v);
    }
  }

  /** `t` is a percent triple for every byte, its digits in any letter case. */
  predicate SpellsAll(t: Text, bytes: seq<Byte>) {
    |t| == 3 * |bytes| && forall k :: 0 <= k < |bytes| ==> SpellsByte(t, k, bytes[k])
  }

  predicate SpellsByte(t: Text, k: nat, b: Byte) {
    3 * k + 3 <= |t| && t[3 * k] == PERCENT && Spells(t[3 * k + 1], b / 16) && Spells(t[3 * k + 2], b % 16)
  }

  /** Any bytes, written as triples with digits in either case, decode to themselves. */
  lemma {:induction false} EverySpellingDecodes(isPath: bool, t: Text, bytes: seq<Byte>)
    requires SpellsAll(t, bytes)
    ensures Decode(isPath, Utf8(t)) == Bytes(bytes)
  {
    hide Spells, HexDigit, HexValue;
    SpellingIsAscii(t, bytes);
    Utf8OfAscii(t);
    SpellingDecodes(isPath, Utf8(t), bytes);
  }

  lemma SpellingIsAscii(t: Text, bytes: seq<Byte>)
    requires SpellsAll(t, bytes)
    ensures forall c :: c in t ==> Ascii(c)
  {
    forall i | 0 <= i < |t| ensures Ascii(t[i]) {
      var k := i / 3;
      assert SpellsByte(t, k, bytes[k]);
      DigitsByPosition(t[3 * k + 1], bytes[k] / 16);
      DigitsByPosition(t[3 * k + 2], bytes[k] % 16);
    }
  }

  lemma {:induction false} SpellingDecodes(isPath: bool, t: seq<Byte>, bytes: seq<Byte>)
    requires SpellsAll(t, bytes)
    ensures Decode(isPath, t) == Bytes(bytes)
    decreases |bytes|
  {
    hide Spells, HexDigit, HexValue;
    if bytes != [] {
      assert SpellsByte(t, 0, bytes[0]);
      DigitsByPosition(t[1], bytes[0] / 16);
      DigitsByPosition(t[2], bytes[0] % 16);
      forall k | 0 <= k < |bytes| - 1 ensures SpellsByte(t[3..], k, bytes[1..][k]) {
        assert SpellsByte(t, k + 1, bytes[k + 1]);
      }
      SpellingDecodes(isPath, t[3..], bytes[1..]);
    }
  }

  // ------------------------------------------------------------------- letter case

  /** The same digit, if `a` and `b` are digits in whatever case. */
  ghost predicate SameDigit(a: CodeUnit, b: CodeUnit) { exists v :: Spells(a, v) && Spells(b, v) }

  /** Equal, except for the letter case of the digits of triples. */
  ghost predicate SameButForCase(s: Text, t: Text)
    decreases |s|
  {
    |s| == |t|
    && (s == [] ||
        if Triple(s) then
          Triple(t) && SameDigit(s[1], t[1]) && SameDigit(s[2], t[2]) && SameButForCase(s[3..], t[3..])
        else s[0] == t[0] && SameButForCase(s[1..], t[1..]))
  }

  lemma SameDigitSameValue(a: CodeUnit, b: CodeUnit)
    requires SameDigit(a, b)
    ensures HexDigit(a) && HexDigit(b) && HexValue(a) == HexValue(b)
  {
    var v :| Spells(a, v) && Spells(b, v);
    DigitsByPosition(a, v);
    DigitsByPosition(b, v);
  }

  lemma SameHead(s: Text, t: Text)
    requires SameButForCase(s, t) && s != []
    ensures s[0] == t[0]
  {
  }

  /** Outside triples nothing differs, so triples stand where they did. */
  lemma SamePrefix(s: Text, t: Text)
    requires SameButForCase(s, t)
    ensures s != [] ==> s[0] == t[0]
    ensures Triple(s) <==> Triple(t)
  {
    if |s| >= 3 && !Triple(s) {
      SameHead(s[1..], t[1..]);
      if s[1] != PERCENT {
        SameHead(s[1..][1..], t[1..][1..]);
        assert s[2] == t[2];
      }
      assert !HexDigit(PERCENT);
    }
  }

  lemma {:induction false} DecodeIgnoresCase(isPath: bool, a: seq<Byte>, b: seq<Byte>)
    requires SameButForCase(a, b)
    ensures Decode(isPath, a) == Decode(isPath, b)
  {
    hide SameDigit, HexDigit, HexValue;
    if a != [] {
      SamePrefix(a, b);
      if Triple(a) {
        SameDigitSameValue(a[1], b[1]);
        SameDigitSameValue(a[2], b[2]);
        DecodeIgnoresCase(isPath, a[3..], b[3..]);
      } else if a[0] != PERCENT {
        DecodeIgnoresCase(isPath, a[1..], b[1..]);
      }
    }
  }

  lemma {:induction false} PlainSame(plain: seq<Byte>, a: seq<Byte>, b: seq<Byte>)
    requires PERCENT !in plain && SameButForCase(a, b)
    ensures SameButForCase(plain + a, plain + b)
  {
    if plain == [] {
      assert plain + a == a && plain + b == b;
    } else {
      assert plain[0] in plain;
      PlainSame(plain[1..], a, b);
      Seqs.AppendDrop(plain, a, 1);
      Seqs.AppendDrop(plain, b, 1);
    }
  }

  /** A code point of `s` that opens no triple is one of `t`, and what follows them is the same up to case. */
  lemma SameCodePoint(s: Text, t: Text)
    requires s != [] && !Triple(s) && SameButForCase(s, t)
    ensures t != [] && CpLen(t) == CpLen(s) && CpBytes(t) == CpBytes(s)
    ensures SameButForCase(s[CpLen(s)..], t[CpLen(s)..])
  {
    SamePrefix(s, t);
    SamePrefix(s[1..], t[1..]);
    if CpLen(s) == 2 {
      assert s[1..][1..] == s[2..] && t[1..][1..] == t[2..];
    }
  }

  lemma {:induction false} SameUtf8(s: Text, t: Text)
    requires SameButForCase(s, t)
    ensures SameButForCase(Utf8(s), Utf8(t))
  {
    hide SameDigit, HexDigit;
    if s == [] {
    } else if Triple(s) {
      UrlCodec.Utf8OfTriple(s);
      UrlCodec.Utf8OfTriple(t);
      SameUtf8(s[3..], t[3..]);
      assert Utf8(s)[..3] == s[..3] && Utf8(t)[..3] == t[..3];
      assert Utf8(s)[1] == s[1] && Utf8(s)[2] == s[2] && Utf8(t)[1] == t[1] && Utf8(t)[2] == t[2];
    } else {
      SameCodePoint(s, t);
      SameUtf8(s[CpLen(s)..], t[CpLen(s)..]);
      if s[0] == PERCENT {
        assert !Triple(Utf8(s)) by { if Triple(Utf8(s)) { TripleOfUtf8(s); } }
        assert Utf8(s)[1..] == Utf8(s[1..]) && Utf8(t)[1..] == Utf8(t[1..]);
      } else {
        NoPercent(s);
        PlainSame(CpBytes(s), Utf8(s[CpLen(s)..]), Utf8(t[CpLen(s)..]));
      }
    }
  }

  lemma NoPercent(s: Text)
    requires s != [] && s[0] != PERCENT
    ensures PERCENT !in CpBytes(s)
  {
  }

  /** Texts that differ only in the letter case of their triples decode alike, in paths and queries. */
  lemma DecodingIgnoresCase(isPath: bool, s: Text, t: Text)
    requires SameButForCase(s, t)
    ensures Decode(isPath, Utf8(s)) == Decode(isPath, Utf8(t))
  {
    SameUtf8(s, t);
    DecodeIgnoresCase(isPath, Utf8(s), Utf8(t));
  }

  // ------------------------------------------------------------------------ failure

  /** `s` can be read up to `n`, and there a percent sign opens no triple. */
  predicate StrayAt(isPath: bool, bytes: seq<Byte>, n: int) {
    0 <= n < |bytes| && Decode(isPath, bytes[..n]).Bytes? && bytes[n] == PERCENT && !Triple(bytes[n..])
  }

  /** Decoding fails exactly on a percent sign that opens no triple, looked for behind what can be read. */
  lemma {:induction false} FailsOnStrayPercent(isPath: bool, bytes: seq<Byte>)
    ensures Decode(isPath, bytes).IllegalArgument? <==> exists n :: StrayAt(isPath, bytes, n)
    decreases |bytes|
  {
    hide HexValue;
    if bytes == [] {
    } else if bytes[0] == PERCENT && !Triple(bytes) {
      assert bytes[..0] == [] && bytes[0..] == bytes;
      assert StrayAt(isPath, bytes, 0);
    } else {
      var k := if bytes[0] == PERCENT then 3 else 1;
      FailsOnStrayPercent(isPath, bytes[k..]);
      if n :| StrayAt(isPath, bytes[k..], n) {
        DecodeBehind(isPath, bytes, k, n + k);
        assert StrayAt(isPath, bytes, n + k);
      }
      if n :| StrayAt(isPath, bytes, n) {
        ReadableStart(isPath, bytes, k, n);
        DecodeBehind(isPath, bytes, k, n);
        assert StrayAt(isPath, bytes[k..], n - k);
      }
    }
  }

  /** A stray percent sign is not inside what is read first. */
  lemma ReadableStart(isPath: bool, bytes: seq<Byte>, k: nat, n: nat)
    requires bytes != [] && StrayAt(isPath, bytes, n) && (bytes[0] == PERCENT ==> Triple(bytes))
    requires k == if bytes[0] == PERCENT then 3 else 1
    ensures n >= k
  {
    assert bytes[0..] == bytes;
    forall m | 0 < m < k ensures Decode(isPath, bytes[..m]).IllegalArgument? {
      assert bytes[..m][0] == PERCENT && !Triple(bytes[..m]);
    }
  }

  /** Reading past the first unit does not depend on it. */
  lemma DecodeBehind(isPath: bool, bytes: seq<Byte>, k: nat, n: nat)
    requires bytes != [] && k == (if bytes[0] == PERCENT then 3 else 1) && k <= n <= |bytes|
    requires bytes[0] == PERCENT ==> Triple(bytes)
    ensures bytes[k..][n - k..] == bytes[n..]
    ensures Decode(isPath, bytes[..n]).Bytes? <==> Decode(isPath, bytes[k..][..n - k]).Bytes?
  {
    var start := bytes[..n];
    assert start[k..] == bytes[k..][..n - k];
    assert start[0] == bytes[0] && (k == 3 ==> start[1] == bytes[1] && start[2] == bytes[2]);
  }
}
