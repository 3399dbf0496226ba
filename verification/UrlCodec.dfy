/** The path encoders and `pathDecode` against each other. */
module UrlCodec {
  import opened Text
  import opened UrlEncoding
  import opened UrlDecoding
  import opened Options
  import Seqs
  import Utf8Text

  /** Percent decoding that takes a '%' which opens no triple as itself. */
  function Lenient(bytes: seq<Byte>): seq<Byte> {
    if bytes == [] then []
    else if Triple(bytes) then [16 * HexValue(bytes[1]) + HexValue(bytes[2])] + Lenient(bytes[3..])
    else [bytes[0]] + Lenient(bytes[1..])
  }

  /** Wherever strict decoding is defined, lenient decoding agrees with it. */
  lemma {:induction false} LenientExtendsDecode(bytes: seq<Byte>)
    ensures Decode(true, bytes).Bytes? ==> Decode(true, bytes) == Bytes(Lenient(bytes))
  {
    if bytes == [] {
    } else if Triple(bytes) {
      LenientExtendsDecode(bytes[3..]);
    } else {
      LenientExtendsDecode(bytes[1..]);
    }
  }

  lemma DecodePathByte(b: Byte, rest: seq<Byte>)
    ensures Decode(true, PathByte(b) + rest) == Prepend(b, Decode(true, rest))
  {
    var token := PathByte(b);
    if PathChar(b) {
      assert !PathChar(PERCENT);
      Seqs.AppendDrop(token, rest, 1);
    } else {
      assert Triple(token + rest);
      Seqs.AppendDrop(token, rest, 3);
    }
  }

  lemma {:induction false} DecodePathBytes(bytes: seq<Byte>, rest: seq<Byte>)
    ensures Decode(true, PathBytes(bytes) + rest) == After(bytes, Decode(true, rest))
  {
    if bytes == [] {
      assert PathBytes(bytes) + rest == rest;
      assert After([], Decode(true, rest)) == Decode(true, rest);
    } else {
      var head, tail := bytes[0], bytes[1..];
      DecodePathBytes(tail, rest);
      DecodePathByte(head, PathBytes(tail) + rest);
      Seqs.Assoc(PathByte(head), PathBytes(tail), rest);
      assert [head] + tail == bytes;
      if Decode(true, rest).Bytes? {
        Seqs.Assoc([head], tail, Decode(true, rest).bytes);
      }
    }
  }

  lemma {:induction false} Rfc3986IsAscii(s: Text)
    requires Rfc3986Path(s)
    ensures forall c :: c in s ==> Ascii(c)
  {
    if s == [] {
    } else if Triple(s) {
      Rfc3986IsAscii(s[3..]);
      assert s == [s[0], s[1], s[2]] + s[3..];
    } else {
      Rfc3986IsAscii(s[1..]);
      assert s == [s[0]] + s[1..];
    }
  }

  /** `pathDecode(pathEncode(s))` is `s`, for every string. */
  lemma PathRoundTrip(s: Text)
    ensures Decode(true, Utf8(PathBytes(Utf8(s)))) == Bytes(Utf8(s))
  {
    PathBytesAreRfc3986(Utf8(s));
    Rfc3986IsAscii(PathBytes(Utf8(s)));
    Utf8OfAscii(PathBytes(Utf8(s)));
    DecodePathBytes(Utf8(s), []);
    assert PathBytes(Utf8(s)) + [] == PathBytes(Utf8(s)) && Utf8(s) + [] == Utf8(s);
  }

  lemma DecodeFormByte(b: Byte, rest: seq<Byte>)
    ensures Decode(false, FormByte(b) + rest) == Prepend(b, Decode(false, rest))
  {
    var token := FormByte(b);
    if FormSafe(b) || b == SPACE {
      assert !FormSafe(PERCENT) && !FormSafe(PLUS);
      Seqs.AppendDrop(token, rest, 1);
    } else {
      assert Triple(token + rest);
      Seqs.AppendDrop(token, rest, 3);
    }
  }

  lemma {:induction false} DecodeFormBytes(bytes: seq<Byte>, form: seq<Byte>, rest: seq<Byte>)
    requires form == FormBytes(bytes)
    ensures Decode(false, form + rest) == After(bytes, Decode(false, rest))
    decreases |bytes|
  {
    if bytes == [] {
      assert form + rest == rest;
      assert After([], Decode(false, rest)) == Decode(false, rest);
    } else {
      var head, tail, token := bytes[0], bytes[1..], FormByte(bytes[0]);
      var more := form[|token|..];
      assert form == token + more && more == FormBytes(tail);
      DecodeFormBytes(tail, more, rest);
      DecodeFormByte(head, more + rest);
      Seqs.Assoc(token, more, rest);
      assert [head] + tail == bytes;
      if Decode(false, rest).Bytes? {
        Seqs.Assoc([head], tail, Decode(false, rest).bytes);
      }
    }
  }

  lemma {:induction false} QueryFormIsAscii(s: Text)
    ensures forall c :: c in ComponentSpec(true, s) ==> Ascii(c)
  {
    if s != [] {
      QueryFormIsAscii(s[CpLen(s)..]);
      FormBytesAreAscii(CpBytes(s));
    }
  }

  lemma {:induction false} FormBytesAreAscii(bytes: seq<Byte>)
    ensures forall c :: c in FormBytes(bytes) ==> Ascii(c)
  {
    if bytes != [] {
      FormBytesAreAscii(bytes[1..]);
    }
  }

  /** A text in query form decodes to the UTF-8 form of the original. */
  lemma {:induction false} DecodeQueryForm(s: Text, form: seq<Byte>)
    requires form == ComponentSpec(true, s)
    ensures Decode(false, form) == Bytes(Utf8(s))
    decreases |s|
  {
    hide FormBytes, CpLen, CpBytes;
    if s != [] {
      var token := ComponentCp(true, s);
      var first, rest := form[..|token|], form[|token|..];
      assert form == first + rest && first == token && rest == ComponentSpec(true, s[CpLen(s)..]);
      hide Decode;
      DecodeQueryForm(s[CpLen(s)..], rest);
      if QueryReserved(s[0]) {
        DecodeReserved(s, rest);
      } else {
        DecodeFormBytes(CpBytes(s), first, rest);
      }
    }
  }

  lemma DecodeReserved(s: Text, rest: seq<Byte>)
    requires s != [] && QueryReserved(s[0])
    ensures CpBytes(s) == [s[0]] && Decode(false, [s[0]] + rest) == After(CpBytes(s), Decode(false, rest))
  {
    Seqs.AppendDrop([s[0]], rest, 1);
  }

  /** The characters a query keeps as they are. */
  lemma QueryKeeps(c: CodeUnit)
    ensures ComponentSpec(true, [c]) == [c]
       <==> || Letter(c) || Digit(c)
            || c in ['.' as int, '-' as int, '*' as int, '_' as int, '?' as int, '/' as int, ',' as int]
  {
    assert ComponentSpec(true, [c]) == ComponentCp(true, [c]) + ComponentSpec(true, []);
    if !QueryReserved(c) {
      FormBytesAre(CpBytes([c]));
    }
  }

  lemma FormBytesAre(bytes: seq<Byte>)
    requires bytes != []
    ensures FormBytes(bytes) == FormByte(bytes[0]) + FormBytes(bytes[1..])
    ensures FormBytes(bytes) != [] && (FormBytes(bytes)[0] == bytes[0] <==> FormSafe(bytes[0]) || bytes[0] == PERCENT)
  {
  }

  /** Decoding a query undoes encoding it, spaces and plus signs included, for every string. */
  lemma QueryRoundTrip(s: Text)
    ensures Decode(false, Utf8(ComponentSpec(true, s))) == Bytes(Utf8(s))
  {
    QueryFormIsAscii(s);
    Utf8OfAscii(ComponentSpec(true, s));
    DecodeQueryForm(s, Utf8(ComponentSpec(true, s)));
  }

  /** What `pathDecode` returns, its bytes read as UTF-8. */
  function PathDecoded(s: Text): Option<Text> {
    match Decode(true, Utf8(s))
    case Bytes(bytes) => Utf8Text.FromUtf8(bytes)
    case IllegalArgument => None
  }

  /** The string itself comes back exactly when it holds no unpaired surrogate, which Java encodes as '?'. */
  lemma PathTextRoundTrip(s: Text)
    ensures PathDecoded(PathBytes(Utf8(s))) == Some(Utf8Text.Questioned(s))
    ensures PathDecoded(PathBytes(Utf8(s))) == Some(s) <==> Utf8Text.Paired(s)
  {
    PathRoundTrip(s);
    Utf8Text.FromUtf8OfUtf8(s);
    Utf8Text.Utf8RoundTrip(s);
  }

  lemma Utf8OfTriple(s: Text)
    requires Triple(s)
    ensures Triple(Utf8(s)) && Utf8(s)[..3] == s[..3] && Utf8(s)[3..] == Utf8(s[3..])
  {
    Utf8OfAscii(s[..3]);
    Utf8Append(s[..3], s[3..]);
    assert s == s[..3] + s[3..];
  }

  lemma {:induction false} LenientPlain(plain: seq<Byte>, rest: seq<Byte>)
    requires PERCENT !in plain
    ensures Lenient(plain + rest) == plain + Lenient(rest)
  {
    if plain == [] {
      assert plain + rest == rest;
    } else {
      assert plain[0] in plain;
      Seqs.AppendDrop(plain, rest, 1);
      LenientPlain(plain[1..], rest);
      Seqs.Assoc([plain[0]], plain[1..], Lenient(rest));
      assert [plain[0]] + plain[1..] == plain;
    }
  }

  lemma LenientCp(s: Text)
    requires s != [] && !Triple(s)
    ensures Lenient(Utf8(s)) == CpBytes(s) + Lenient(Utf8(s[CpLen(s)..]))
  {
    var rest := Utf8(s[CpLen(s)..]);
    if s[0] == PERCENT {
      assert !Triple(Utf8(s)) by {
        if Triple(Utf8(s)) {
          TripleOfUtf8(s);
        }
      }
      assert Utf8(s)[1..] == rest;
    } else {
      LenientPlain(CpBytes(s), rest);
    }
  }

  lemma {:induction false} DecodeOfPartially(s: Text, encoded: seq<Byte>)
    requires encoded == Partially(false, s)
    ensures Decode(true, encoded) == Bytes(Lenient(Utf8(s)))
  {
    hide HexDigit, HexValue, CpBytes, CpLen;
    if s == [] {
    } else if Triple(s) {
      Utf8OfTriple(s);
      assert encoded[..3] == s[..3] && encoded[3..] == Partially(false, s[3..]);
      DecodeOfPartially(s[3..], encoded[3..]);
    } else {
      var n := |PathBytes(CpBytes(s))|;
      assert encoded[..n] == PathBytes(CpBytes(s)) && encoded[n..] == Partially(false, s[CpLen(s)..]);
      assert encoded == encoded[..n] + encoded[n..];
      DecodeOfPartially(s[CpLen(s)..], encoded[n..]);
      DecodePathBytes(CpBytes(s), encoded[n..]);
      LenientCp(s);
    }
  }

  /**
   * The partially encoded form always decodes, a stray '%' standing for itself; so it decodes to what
   * the text itself decodes to wherever that is defined.
   */
  lemma PartialEncodingKeepsMeaning(s: Text)
    ensures Decode(true, Utf8(Partially(false, s))) == Bytes(Lenient(Utf8(s)))
    ensures Decode(true, Utf8(s)).Bytes? ==> Decode(true, Utf8(Partially(false, s))) == Decode(true, Utf8(s))
  {
    EncodedIsRfc3986Path(s);
    Rfc3986IsAscii(Partially(false, s));
    Utf8OfAscii(Partially(false, s));
    DecodeOfPartially(s, Utf8(Partially(false, s)));
    LenientExtendsDecode(Utf8(s));
  }
}
