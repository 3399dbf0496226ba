/** `UrlUtils.urlDecode` and `pathDecode`: a counting pass sizes the buffer the decoding pass fills. */
module UrlDecoding {
  import opened Text
  import opened UrlEncoding
  import Seqs

  datatype Decoded = Bytes(bytes: seq<Byte>) | IllegalArgument

  /** Percent decoding of UTF-8 bytes: every '%' must open a triple; '+' is a space unless in a path. */
  function Decode(isPath: bool, bytes: seq<Byte>): Decoded {
    if bytes == [] then Bytes([])
    else if bytes[0] == PERCENT then
      if !Triple(bytes) then IllegalArgument
      else Prepend(16 * HexValue(bytes[1]) + HexValue(bytes[2]), Decode(isPath, bytes[3..]))
    else Prepend(if bytes[0] == PLUS && !isPath then SPACE else bytes[0], Decode(isPath, bytes[1..]))
  }

  function Prepend(b: Byte, rest: Decoded): Decoded {
    match rest
    case Bytes(bytes) => Bytes([b] + bytes)
    case IllegalArgument => IllegalArgument
  }

  // --------------------------------------------------------------- counting pass

  /** What the counting pass adds up over code units: it skips two units after every '%'. */
  function Escapes(s: Text): nat
    decreases |s|
  {
    if s == [] then 0
    else if s[0] == PERCENT then 1 + Escapes(Skip(s, 3))
    else Escapes(s[1..])
  }

  function Skip(s: Text, n: nat): (t: Text)
    ensures |t| == if n <= |s| then |s| - n else 0
  {
    if n <= |s| then s[n..] else []
  }

  lemma {:induction false} EscapesBound(s: Text)
    ensures 3 * Escapes(s) <= |s| + 2
    ensures Escapes(s) > 0 ==> PERCENT in s
    ensures Escapes(s) == 1 && |s| == 1 ==> s == [PERCENT]
    decreases |s|
  {
    if s == [] {
    } else if s[0] == PERCENT {
      EscapesBound(Skip(s, 3));
    } else {
      EscapesBound(s[1..]);
    }
  }

  /** The buffer never has a negative size, and without the added one it would, on a lone '%' only. */
  lemma BufferSize(s: Text)
    ensures |Utf8(s)| - 2 * Escapes(s) + 1 >= 0
    ensures |Utf8(s)| - 2 * Escapes(s) < 0 <==> s == [PERCENT]
  {
    EscapesBound(s);
    if s == [PERCENT] {
      assert Escapes(s) == 1 + Escapes([]);
      Utf8OfAscii(s);
    } else if |s| == 1 {
    }
  }

  /** A '%' cut off at the end takes the byte pass past the size computed without the added one. */
  lemma {:induction false} TruncatedEscapeNeedsTheExtraByte(w: Text)
    requires PERCENT !in w
    ensures Escapes(w + [PERCENT]) == 1
    ensures |Utf8(w + [PERCENT])| - 2 * Escapes(w + [PERCENT]) < |Utf8(w)|
  {
    Utf8Append(w, [PERCENT]);
    Utf8OfAscii([PERCENT]);
    if w == [] {
      assert w + [PERCENT] == [PERCENT];
      assert Escapes([PERCENT]) == 1 + Escapes([]);
    } else {
      assert w[0] in w;
      Seqs.AppendDrop(w, [PERCENT], 1);
      TruncatedEscapeNeedsTheExtraByte(w[1..]);
    }
  }

  // --------------------------------------------------------------- decoding pass

  /** Without '%', and without '+' in a query, decoding is the identity. */
  lemma {:induction false} NothingToDecode(isPath: bool, s: Text)
    requires PERCENT !in s && (isPath || PLUS !in s)
    ensures Decode(isPath, Utf8(s)) == Bytes(Utf8(s))
  {
    if s != [] {
      assert s[0] in s;
      NothingToDecode(isPath, s[CpLen(s)..]);
      PlainBytes(isPath, CpBytes(s), Utf8(s[CpLen(s)..]));
    }
  }

  lemma {:induction false} PlainBytes(isPath: bool, plain: seq<Byte>, rest: seq<Byte>)
    requires PERCENT !in plain && (isPath || PLUS !in plain)
    requires Decode(isPath, rest) == Bytes(rest)
    ensures Decode(isPath, plain + rest) == Bytes(plain + rest)
  {
    if plain == [] {
      assert plain + rest == rest;
    } else {
      assert plain[0] in plain;
      Seqs.AppendDrop(plain, rest, 1);
      PlainBytes(isPath, plain[1..], rest);
      assert plain + rest == [plain[0]] + (plain[1..] + rest);
    }
  }

  /** A triple in the bytes of `s` is a triple of `s` itself. */
  lemma TripleOfUtf8(s: Text)
    requires Triple(Utf8(s))
    ensures Triple(s) && Utf8(s) == s[..3] + Utf8(s[3..])
  {
    FirstByte(s);
    FirstByte(s[1..]);
    FirstByte(s[1..][1..]);
    Seqs.DropDrop(s, 1, 1);
    Seqs.DropDrop(s, 2, 1);
    assert s[..3] == [s[0]] + [s[1]] + [s[2]];
    Seqs.Assoc4([s[0]], [s[1]], [s[2]], Utf8(s[3..]));
  }

  /** An ASCII byte other than '?' at the front is the first code unit. */
  lemma FirstByte(s: Text)
    requires Utf8(s) != []
    ensures s != []
    ensures Utf8(s)[0] < 0x80 && Utf8(s)[0] != '?' as int ==> Utf8(s) == [s[0]] + Utf8(s[1..])
  {
    assert CpBytes(s)[0] in CpBytes(s);
  }

  /** The unread bytes: `high` of them finish a code point, the rest encode `value[u..]`. */
  ghost predicate InSync(value: Text, u: nat, high: nat, unread: seq<Byte>) {
    && u <= |value| && high <= |unread|
    && unread[high..] == Utf8(value[u..])
    && forall k :: 0 <= k < high ==> unread[k] >= 0x80
  }

  /** The counted escapes that lie ahead fit the unread bytes. */
  lemma RoomForOne(value: Text, u: nat, high: nat, unread: seq<Byte>)
    requires InSync(value, u, high, unread) && unread != []
    requires unread[0] == PERCENT ==> |unread| >= 3
    ensures 2 * Escapes(value[u..]) <= |unread|
  {
    var ahead := value[u..];
    EscapesBound(ahead);
    if high == 0 && |unread| == 1 {
      FirstByte(ahead);
    }
  }

  /** Where a plain byte leaves the code unit, and the bytes still to come of its code point. */
  ghost function UnitAfter(value: Text, u: nat, high: nat): nat {
    if high > 0 || u >= |value| then u else u + CpLen(value[u..])
  }

  ghost function HighAfter(value: Text, u: nat, high: nat): nat {
    if high > 0 then high - 1 else if u >= |value| then 0 else |CpBytes(value[u..])| - 1
  }

  lemma SyncPlain(value: Text, u: nat, high: nat, unread: seq<Byte>)
    requires InSync(value, u, high, unread) && unread != [] && unread[0] != PERCENT
    ensures UnitAfter(value, u, high) <= |value|
    ensures InSync(value, UnitAfter(value, u, high), HighAfter(value, u, high), unread[1..])
    ensures Escapes(value[UnitAfter(value, u, high)..]) == Escapes(value[u..])
  {
    if high > 0 {
      assert unread[1..][high - 1..] == unread[high..];
    } else {
      var ahead := value[u..];
      assert unread[0..] == unread;
      FirstByte(ahead);
      var first, rest := CpBytes(ahead), Utf8(ahead[CpLen(ahead)..]);
      assert value[u + CpLen(ahead)..] == ahead[CpLen(ahead)..];
      assert unread == first + rest && unread[1..][|first| - 1..] == rest;
      assert forall k :: 0 <= k < |first| ==> first[k] in first;
      PlainCodePoint(ahead);
    }
  }

  /** A code point that does not open an escape counts for none. */
  lemma PlainCodePoint(s: Text)
    requires s != [] && s[0] != PERCENT
    ensures Escapes(s[CpLen(s)..]) == Escapes(s)
  {
    if CpLen(s) == 2 {
      assert Escapes(s) == Escapes(s[1..]) && Escapes(s[1..]) == Escapes(s[1..][1..]);
      assert s[1..][1..] == s[2..];
    }
  }

  lemma SyncTriple(value: Text, u: nat, high: nat, unread: seq<Byte>)
    requires InSync(value, u, high, unread) && Triple(unread)
    ensures InSync(value, u + 3, 0, unread[3..])
    ensures Escapes(value[u..]) == 1 + Escapes(value[u + 3..])
  {
    assert high == 0;
    TripleOfUtf8(value[u..]);
    Seqs.DropDrop(value, u, 3);
  }

  function After(prefix: seq<Byte>, rest: Decoded): Decoded {
    match rest
    case Bytes(bytes) => Bytes(prefix + bytes)
    case IllegalArgument => IllegalArgument
  }

  lemma AfterPrepend(prefix: seq<Byte>, b: Byte, rest: Decoded)
    ensures After(prefix, Prepend(b, rest)) == After(prefix + [b], rest)
  {
    if rest.Bytes? {
      Seqs.Assoc(prefix, [b], rest.bytes);
    }
  }

  /** The state of the byte pass: `out` decodes everything before `pos`, `e` escapes were used up. */
  ghost predicate Progress(isPath: bool, value: Text, bytes: seq<Byte>, pos: nat, out: seq<Byte>, u: nat, high: nat,
                           e: nat)
  {
    && pos <= |bytes| && |out| == pos - 2 * e
    && InSync(value, u, high, bytes[pos..])
    && Escapes(value) == e + Escapes(value[u..])
    && Decode(isPath, bytes) == After(out, Decode(isPath, bytes[pos..]))
  }

  lemma ProgressStart(isPath: bool, value: Text)
    ensures Progress(isPath, value, Utf8(value), 0, [], 0, 0, 0)
  {
    assert value[0..] == value && Utf8(value)[0..] == Utf8(value);
    assert Utf8(value)[0..][0..] == Utf8(value);
    assert After([], Decode(isPath, Utf8(value))) == Decode(isPath, Utf8(value));
  }

  /** The next byte out has room in the buffer. */
  lemma ProgressRoom(isPath: bool, value: Text, bytes: seq<Byte>, pos: nat, out: seq<Byte>, u: nat, high: nat, e: nat)
    requires Progress(isPath, value, bytes, pos, out, u, high, e) && pos < |bytes|
    requires bytes[pos] == PERCENT ==> TripleAt(bytes, pos)
    ensures |out| < |bytes| - 2 * Escapes(value) + 1
  {
    hide Utf8, HexDigit, Decode;
    RoomForOne(value, u, high, bytes[pos..]);
  }

  lemma ProgressPlain(isPath: bool, value: Text, bytes: seq<Byte>, pos: nat, out: seq<Byte>, u: nat, high: nat, e: nat)
    requires Progress(isPath, value, bytes, pos, out, u, high, e) && pos < |bytes| && bytes[pos] != PERCENT
    ensures Progress(isPath, value, bytes, pos + 1,
                     out + [if bytes[pos] == PLUS && !isPath then SPACE else bytes[pos]],
                     UnitAfter(value, u, high), HighAfter(value, u, high), e)
  {
    hide UnitAfter, HighAfter;
    var unread := bytes[pos..];
    SyncPlain(value, u, high, unread);
    Seqs.DropDrop(bytes, pos, 1);
    AfterPrepend(out, if bytes[pos] == PLUS && !isPath then SPACE else bytes[pos], Decode(isPath, unread[1..]));
  }

  lemma ProgressTriple(isPath: bool, value: Text, bytes: seq<Byte>, pos: nat, out: seq<Byte>, u: nat, high: nat, e: nat)
    requires Progress(isPath, value, bytes, pos, out, u, high, e) && TripleAt(bytes, pos)
    ensures Progress(isPath, value, bytes, pos + 3,
                     out + [16 * HexValue(bytes[pos + 1]) + HexValue(bytes[pos + 2])], u + 3, 0, e + 1)
  {
    hide Utf8, HexDigit, HexValue;
    var unread := bytes[pos..];
    SyncTriple(value, u, high, unread);
    Seqs.DropDrop(bytes, pos, 3);
    AfterPrepend(out, 16 * HexValue(unread[1]) + HexValue(unread[2]), Decode(isPath, unread[3..]));
  }

  lemma ProgressMalformed(isPath: bool, value: Text, bytes: seq<Byte>, pos: nat, out: seq<Byte>, u: nat, high: nat,
                          e: nat)
    requires Progress(isPath, value, bytes, pos, out, u, high, e)
    requires pos < |bytes| && bytes[pos] == PERCENT && !TripleAt(bytes, pos)
    ensures Decode(isPath, bytes) == IllegalArgument
  {
  }

  method CountEscapes(value: Text, isPath: bool) returns (needDecode: bool, escapesCount: nat)
    ensures escapesCount == Escapes(value)
    ensures needDecode <==> PERCENT in value || (!isPath && PLUS in value)
  {
    needDecode, escapesCount := false, 0;
    var i := 0;
    while i < |value|
      invariant Escapes(value) == escapesCount + Escapes(Skip(value, i))
      invariant needDecode ==> PERCENT in value || (!isPath && PLUS in value)
      invariant !needDecode ==> i <= |value| && PERCENT !in value[..i] && (isPath || PLUS !in value[..i])
    {
      var ch := value[i];
      Seqs.TakeNext(value, i);
      assert Skip(value, i)[1..] == Skip(value, i + 1) && Skip(Skip(value, i), 3) == Skip(value, i + 3);
      i := i + 1;
      if ch == PERCENT {
        escapesCount := escapesCount + 1;
        i := i + 2;
        needDecode := true;
      } else if !isPath && ch == PLUS {
        needDecode := true;
      }
    }
    if !needDecode {
      assert value[..i] == value;
    }
  }

  method Put(out: array<Byte>, written: nat, b: Byte, ghost done: seq<Byte>)
    requires written < out.Length && done == out[..written]
    modifies out
    ensures out[..written + 1] == done + [b]
  {
    out[written] := b;
  }

  /** The byte pass over a buffer of the counted size: every `Put` is inside it. */
  method DecodeBytes(value: Text, isPath: bool, escapesCount: nat) returns (r: Decoded)
    requires escapesCount == Escapes(value)
    ensures r == Decode(isPath, Utf8(value))
  {
    hide Progress, Decode, Escapes, Utf8, UnitAfter, HighAfter;
    var valueBytes := Utf8(value);
    BufferSize(value);
    var out := new Byte[|valueBytes| - 2 * escapesCount + 1];
    var pos, written := 0, 0;
    ghost var done: seq<Byte> := [];
    ghost var u, high, e := 0, 0, 0;
    ProgressStart(isPath, value);
    while pos < |valueBytes|
      invariant pos <= |valueBytes| && written <= out.Length
      invariant done == out[..written]
      invariant Progress(isPath, value, valueBytes, pos, done, u, high, e)
    {
      var b := valueBytes[pos];
      if b == PERCENT {
        if !TripleAt(valueBytes, pos) {
          ProgressMalformed(isPath, value, valueBytes, pos, done, u, high, e);
          return IllegalArgument;
        }
        ProgressRoom(isPath, value, valueBytes, pos, done, u, high, e);
        ProgressTriple(isPath, value, valueBytes, pos, done, u, high, e);
        u, high, e := u + 3, 0, e + 1;
        b := 16 * HexValue(valueBytes[pos + 1]) + HexValue(valueBytes[pos + 2]);
        pos := pos + 3;
      } else {
        ProgressRoom(isPath, value, valueBytes, pos, done, u, high, e);
        ProgressPlain(isPath, value, valueBytes, pos, done, u, high, e);
        u, high := UnitAfter(value, u, high), HighAfter(value, u, high);
        b := if b == PLUS && !isPath then SPACE else b;
        pos := pos + 1;
      }
      Put(out, written, b, done);
      written := written + 1;
      done := done + [b];
    }
    ProgressEnd(isPath, value, valueBytes, done, u, high, e);
    r := Bytes(out[..written]);
  }

  lemma ProgressEnd(isPath: bool, value: Text, bytes: seq<Byte>, out: seq<Byte>, u: nat, high: nat, e: nat)
    requires Progress(isPath, value, bytes, |bytes|, out, u, high, e)
    ensures Decode(isPath, bytes) == Bytes(out)
  {
    assert bytes[|bytes|..] == [];
  }

  method UrlDecode(value: Text, isPath: bool) returns (r: Decoded)
    ensures r == Decode(isPath, Utf8(value))
  {
    var needDecode, escapesCount := CountEscapes(value, isPath);
    if needDecode {
      r := DecodeBytes(value, isPath, escapesCount);
    } else {
      NothingToDecode(isPath, value);
      r := Bytes(Utf8(value));
    }
  }

  method PathDecode(value: Text) returns (r: Decoded)
    ensures r == Decode(true, Utf8(value))
  {
    r := UrlDecode(value, true);
  }
}
