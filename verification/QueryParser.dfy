/** `URISupport.parseQuery` and `URLEncodedUtils.decodeBody`, on the UTF-8 bytes of the text. */
module QueryParser {
  import opened Options
  import opened Text
  import opened UrlDecoding
  import Seqs

  type Bytes = seq<Byte>

  const AMP: Byte := '&' as int
  const EQ: Byte := '=' as int
  const CLOSING: Byte := ')' as int

  /** `RAW_TOKEN_START` */
  const RAW_START: Bytes := ['R' as int, 'A' as int, 'W' as int, '(' as int]

  predicate StartsRaw(value: Bytes) { |value| >= 4 && value[..4] == RAW_START }

  /** A parameter as it stands in the text. */
  datatype Piece = Piece(key: Bytes, value: Bytes)

  // ------------------------------------------------------------------- the scan

  /** What the loop does with the rest of the text, one character at a time. */
  function Scan(isKey: bool, key: Bytes, value: Bytes, s: Bytes): seq<Piece>
    decreases |s|
  {
    if s == [] then if key != [] then [Piece(key, value)] else []
    else if StartsRaw(value) then
      if EndsRaw(s) then [Piece(key, value + [s[0]])] + Scan(true, [], [], s[if |s| >= 2 then 2 else 1..])
      else Scan(isKey, key, value + [s[0]], s[1..])
    else if isKey && s[0] == EQ then Scan(false, key, value, s[1..])
    else if s[0] == AMP then [Piece(key, value)] + Scan(true, [], [], s[1..])
    else if isKey then Scan(isKey, key + [s[0]], value, s[1..])
    else Scan(isKey, key, value + [s[0]], s[1..])
  }

  /** A raw value ends with a parenthesis before '&', before the NUL character or at the very end. */
  predicate EndsRaw(s: Bytes)
    requires s != []
  {
    s[0] == CLOSING && (|s| == 1 || s[1] == AMP || s[1] == 0)
  }

  // -------------------------------------------------------------- addParameter

  /** `value.replaceAll("%", "%25")` */
  function EscapePercent(value: Bytes): Bytes {
    if value == [] then []
    else (if value[0] == PERCENT then [PERCENT, '2' as int, '5' as int] else [value[0]]) + EscapePercent(value[1..])
  }

  function PlusToSpace(value: Bytes): (r: Bytes)
    ensures |r| == |value|
  {
    if value == [] then [] else [if value[0] == PLUS then SPACE else value[0]] + PlusToSpace(value[1..])
  }

  /** The first decoding leaves every escape standing. */
  lemma {:induction false} EscapedDecoding(value: Bytes)
    ensures Decode(false, EscapePercent(value)) == Decoded.Bytes(PlusToSpace(value))
  {
    if value != [] {
      var rest := EscapePercent(value[1..]);
      EscapedDecoding(value[1..]);
      if value[0] == PERCENT {
        var token: Bytes := [PERCENT, '2' as int, '5' as int];
        Seqs.AppendDrop(token, rest, 3);
        assert Triple(token + rest);
      } else {
        assert ([value[0]] + rest)[1..] == rest;
      }
    }
  }

  /** The second decoding, of what the first one left, is a form decoding of the text itself. */
  lemma {:induction false} SecondDecoding(value: Bytes)
    ensures Decode(false, PlusToSpace(value)) == Decode(false, value)
  {
    if value != [] {
      var spaced := PlusToSpace(value);
      assert spaced[1..] == PlusToSpace(value[1..]);
      if value[0] == PERCENT {
        if |value| >= 3 {
          assert spaced[1] == PlusToSpace(value[1..])[0] && spaced[2] == PlusToSpace(value[1..][1..])[0];
          assert spaced[3..] == PlusToSpace(value[1..][1..][1..]) && value[1..][1..][1..] == value[3..];
          SecondDecoding(value[3..]);
        }
      } else {
        SecondDecoding(value[1..]);
      }
    }
  }

  /** A linked map from keys to the values they were given, in order. */
  datatype Params = Params(keys: seq<Bytes>, values: map<Bytes, seq<Bytes>>)

  function Put(params: Params, name: Bytes, value: Bytes): Params {
    if name in params.values then params.(values := params.values[name := params.values[name] + [value]])
    else Params(params.keys + [name], params.values[name := [value]])
  }

  datatype Parsed = Parsed(params: Params) | SyntaxError | BadEncoding

  /** `addParameter`: the name is decoded; the value is, with its escapes protected, unless it is raw. */
  function Add(r: Parsed, piece: Piece, useRaw: bool): Parsed {
    if !r.Parsed? then r
    else
      match Decode(false, piece.key)
      case IllegalArgument => BadEncoding
      case Bytes(name) =>
        Parsed(Put(r.params, name, if useRaw || StartsRaw(piece.value) then piece.value else PlusToSpace(piece.value)))
  }

  function AddAll(r: Parsed, pieces: seq<Piece>, useRaw: bool): Parsed
    decreases |pieces|
  {
    if pieces == [] then r else AddAll(Add(r, pieces[0], useRaw), pieces[1..], useRaw)
  }

  const EMPTY: Params := Params([], map[])

  function ParseSpec(uri: Bytes, useRaw: bool): Parsed {
    if uri != [] && uri[|uri| - 1] == AMP then SyntaxError
    else AddAll(Parsed(EMPTY), Scan(true, [], [], uri), useRaw)
  }

  method AddParameter(name: Bytes, value: Bytes, map_: Params, isRaw: bool) returns (r: Parsed)
    ensures r == match Decode(false, name)
                 case IllegalArgument => BadEncoding
                 case Bytes(decoded) => Parsed(Put(map_, decoded, if isRaw then value else PlusToSpace(value)))
  {
    var decoded := Decode(false, name);
    if decoded.IllegalArgument? {
      return BadEncoding;
    }
    var stored := value;
    if !isRaw {
      EscapedDecoding(value);
      stored := Decode(false, EscapePercent(value)).bytes;
    }
    r := Parsed(Put(map_, decoded.bytes, stored));
  }

  lemma {:induction false} AddAllKeepsError(r: Parsed, pieces: seq<Piece>, useRaw: bool)
    requires !r.Parsed?
    ensures AddAll(r, pieces, useRaw) == r
    decreases |pieces|
  {
    if pieces != [] {
      AddAllKeepsError(r, pieces[1..], useRaw);
    }
  }

  /** In the scan a value starts raw only once "RAW(" has been read in value mode. */
  lemma AddFirst(r: Parsed, piece: Piece, rest: seq<Piece>, useRaw: bool)
    ensures AddAll(r, [piece] + rest, useRaw) == AddAll(Add(r, piece, useRaw), rest, useRaw)
  {
    assert ([piece] + rest)[1..] == rest;
  }

  function From(s: Bytes, i: nat): Bytes { if i <= |s| then s[i..] else [] }

  method ParseQuery(uri: Bytes, useRaw: bool) returns (r: Parsed)
    ensures r == ParseSpec(uri, useRaw)
  {
    hide Put, Decode, AddAll, Scan, StartsRaw, PlusToSpace;
    if uri != [] && uri[|uri| - 1] == AMP {
      return SyntaxError;
    }
    var rc := EMPTY;
    if uri == [] {
      ScanEmpty(useRaw);
      return Parsed(rc);
    }
    var isKey, isRaw, key: Bytes, value: Bytes := true, false, [], [];
    var i := 0;
    assert uri[0..] == uri;
    RawTooShort(value);
    while i < |uri|
      invariant isKey ==> value == []
      invariant isRaw ==> StartsRaw(value)
      invariant StartsRaw(value) && !isRaw ==> value == RAW_START
      invariant ParseSpec(uri, useRaw) == AddAll(Parsed(rc), Scan(isKey, key, value, From(uri, i)), useRaw)
    {
      var ch := uri[i];
      ghost var rest := uri[i..];
      ScanStep(isKey, key, value, rest);
      assert rest[0] == ch && rest[1..] == uri[i + 1..];
      isRaw := StartsRaw(value);
      RawJustStarted(value, ch);
      RawTooShort([]);
      if isRaw {
        value := value + [ch];
        if ch == CLOSING && (i + 1 >= |uri| || uri[i + 1] == AMP || uri[i + 1] == 0) {
          ghost var next := From(uri, i + 2);
          assert rest[if |rest| >= 2 then 2 else 1..] == next;
          AddFirst(Parsed(rc), Piece(key, value), Scan(true, [], [], next), useRaw);
          r := AddParameter(key, value, rc, useRaw || isRaw);
          if !r.Parsed? {
            AddAllKeepsError(r, Scan(true, [], [], next), useRaw);
            return;
          }
          rc := r.params;
          key, value, isKey, isRaw := [], [], true, false;
          i := i + 1;
        }
      } else if isKey && ch == EQ {
        isKey := false;
      } else if ch == AMP {
        AddFirst(Parsed(rc), Piece(key, value), Scan(true, [], [], uri[i + 1..]), useRaw);
        r := AddParameter(key, value, rc, useRaw || isRaw);
        if !r.Parsed? {
          AddAllKeepsError(r, Scan(true, [], [], uri[i + 1..]), useRaw);
          return;
        }
        rc := r.params;
        key, value, isKey := [], [], true;
      } else if isKey {
        key := key + [ch];
      } else {
        value := value + [ch];
      }
      i := i + 1;
    }
    assert From(uri, i) == [];
    ScanEnd(isKey, key, value, rc, useRaw);
    if |key| > 0 {
      RawStartIsPlain(value);
      r := AddParameter(key, value, rc, useRaw || isRaw);
    } else {
      r := Parsed(rc);
    }
  }

  lemma RawTooShort(value: Bytes)
    ensures value == [] ==> !StartsRaw(value)
  {
  }

  lemma RawJustStarted(value: Bytes, ch: Byte)
    ensures StartsRaw(value) ==> StartsRaw(value + [ch])
    ensures !StartsRaw(value) && StartsRaw(value + [ch]) ==> value + [ch] == RAW_START
  {
    if |value| >= 4 {
      assert (value + [ch])[..4] == value[..4];
    } else if |value| == 3 {
      assert (value + [ch])[..4] == value + [ch];
    }
  }

  lemma ScanEmpty(useRaw: bool)
    ensures AddAll(Parsed(EMPTY), Scan(true, [], [], []), useRaw) == Parsed(EMPTY)
  {
  }

  lemma ScanEnd(isKey: bool, key: Bytes, value: Bytes, rc: Params, useRaw: bool)
    ensures AddAll(Parsed(rc), Scan(isKey, key, value, []), useRaw)
         == if key == [] then Parsed(rc) else Add(Parsed(rc), Piece(key, value), useRaw)
  {
    if key != [] {
      assert [Piece(key, value)] + [] == [Piece(key, value)];
      AddFirst(Parsed(rc), Piece(key, value), [], useRaw);
    }
  }

  lemma ScanStep(isKey: bool, key: Bytes, value: Bytes, s: Bytes)
    requires s != []
    ensures Scan(isKey, key, value, s)
         == if StartsRaw(value) then
              if EndsRaw(s) then [Piece(key, value + [s[0]])] + Scan(true, [], [], s[if |s| >= 2 then 2 else 1..])
              else Scan(isKey, key, value + [s[0]], s[1..])
            else if isKey && s[0] == EQ then Scan(false, key, value, s[1..])
            else if s[0] == AMP then [Piece(key, value)] + Scan(true, [], [], s[1..])
            else if isKey then Scan(isKey, key + [s[0]], value, s[1..])
            else Scan(isKey, key, value + [s[0]], s[1..])
  {
  }

  lemma {:induction false} NoPlus(value: Bytes)
    requires PLUS !in value
    ensures PlusToSpace(value) == value
  {
    if value != [] {
      assert value[0] in value;
      NoPlus(value[1..]);
    }
  }

  lemma RawStartIsPlain(value: Bytes)
    ensures value == RAW_START ==> PlusToSpace(value) == value
  {
    if value == RAW_START {
      NoPlus(value);
    }
  }

  // ----------------------------------------------------------- the text as a list

  /** `split` on a separator: one part more than there are separators. */
  function Split(s: Bytes, c: Byte): (parts: seq<Bytes>)
    ensures |parts| >= 1
    decreases |s|
  {
    var k := Seqs.IndexOf(s, c);
    if k == |s| then [s] else [s[..k]] + Split(s[k + 1..], c)
  }

  /** A part is cut at its first '='; without one it is all key. */
  function CutPiece(part: Bytes): Piece {
    var k := Seqs.IndexOf(part, EQ);
    if k == |part| then Piece(part, []) else Piece(part[..k], part[k + 1..])
  }

  /** Every part is a piece, but a last one without a key is dropped. */
  function Pieces(parts: seq<Bytes>): seq<Piece> {
    if parts == [] then []
    else if |parts| == 1 && CutPiece(parts[0]).key == [] then []
    else [CutPiece(parts[0])] + Pieces(parts[1..])
  }

  predicate NoRaw(parts: seq<Bytes>) {
    forall i :: 0 <= i < |parts| ==> !StartsRaw(CutPiece(parts[i]).value)
  }

  /** What was read of the current part. */
  function SoFar(isKey: bool, key: Bytes, value: Bytes): Bytes { if isKey then key else key + [EQ] + value }

  lemma SplitFirst(current: Bytes, rest: Bytes)
    requires AMP !in current
    ensures Split(current + [AMP] + rest, AMP) == [current] + Split(rest, AMP)
    ensures Split(current, AMP) == [current]
  {
    var s := current + [AMP] + rest;
    assert s[..|current|] == current && s[|current| + 1..] == rest;
    Seqs.IndexOfIs(s, AMP, |current|);
    assert current[..|current|] == current;
    Seqs.IndexOfIs(current, AMP, |current|);
  }

  lemma CutSoFar(isKey: bool, key: Bytes, value: Bytes)
    requires EQ !in key && (isKey ==> value == [])
    ensures CutPiece(SoFar(isKey, key, value)) == Piece(key, value)
  {
    var part := SoFar(isKey, key, value);
    assert part[..|key|] == key;
    Seqs.IndexOfIs(part, EQ, |key|);
    if !isKey {
      assert part[|key| + 1..] == value;
    }
  }

  /** The scan, from the middle of a part on, against the list of parts. */
  lemma {:induction false} ScanIsSplit(isKey: bool, key: Bytes, value: Bytes, s: Bytes)
    requires EQ !in key && AMP !in key && AMP !in value && (isKey ==> value == [])
    requires NoRaw(Split(SoFar(isKey, key, value) + s, AMP))
    ensures Scan(isKey, key, value, s) == Pieces(Split(SoFar(isKey, key, value) + s, AMP))
    decreases |s|
  {
    hide StartsRaw, NoRaw, Split, CutPiece;
    var current := SoFar(isKey, key, value);
    CutSoFar(isKey, key, value);
    if s == [] {
      assert current + s == current;
      SplitFirst(current, []);
      assert Pieces([current][1..]) == [];
    } else {
      NotRawYet(isKey, key, value, s);
      if s[0] == AMP && !(isKey && s[0] == EQ) {
        assert current + s == current + [AMP] + s[1..];
        SplitFirst(current, s[1..]);
        NoRawTail([current], Split(s[1..], AMP));
        assert [] + s[1..] == s[1..];
        ScanIsSplit(true, [], [], s[1..]);
        assert ([current] + Split(s[1..], AMP))[1..] == Split(s[1..], AMP);
      } else if isKey && s[0] == EQ {
        assert current + s == SoFar(false, key, []) + s[1..];
        ScanIsSplit(false, key, [], s[1..]);
      } else if isKey {
        assert current + s == SoFar(true, key + [s[0]], []) + s[1..];
        ScanIsSplit(true, key + [s[0]], [], s[1..]);
      } else {
        assert current + s == SoFar(false, key, value + [s[0]]) + s[1..];
        ScanIsSplit(false, key, value + [s[0]], s[1..]);
      }
    }
  }

  lemma NoRawTail(a: seq<Bytes>, b: seq<Bytes>)
    requires NoRaw(a + b)
    ensures NoRaw(b)
  {
    forall i | 0 <= i < |b| ensures !StartsRaw(CutPiece(b[i]).value) {
      assert (a + b)[|a| + i] == b[i];
    }
  }

  /** The part being read is the first of what is left, and has what was read of its value. */
  lemma FirstPart(isKey: bool, key: Bytes, value: Bytes, s: Bytes)
    requires EQ !in key && AMP !in key && AMP !in value && (isKey ==> value == [])
    ensures var parts := Split(SoFar(isKey, key, value) + s, AMP);
      |parts| > 0 && parts[0] == SoFar(isKey, key, value) + s[..Seqs.IndexOf(s, AMP)]
  {
    hide Split;
    var k := Seqs.IndexOf(s, AMP);
    var part := SoFar(isKey, key, value) + s[..k];
    if k < |s| {
      assert SoFar(isKey, key, value) + s == part + [AMP] + s[k + 1..];
      SplitFirst(part, s[k + 1..]);
    } else {
      assert SoFar(isKey, key, value) + s == part;
      SplitFirst(part, []);
    }
  }

  /** A value that reads "RAW(" so far belongs to a part whose value starts raw. */
  lemma NotRawYet(isKey: bool, key: Bytes, value: Bytes, s: Bytes)
    requires EQ !in key && AMP !in key && AMP !in value && (isKey ==> value == [])
    requires NoRaw(Split(SoFar(isKey, key, value) + s, AMP))
    ensures !StartsRaw(value)
  {
    hide Split, CutPiece;
    FirstPart(isKey, key, value, s);
    if !isKey {
      var read := value + s[..Seqs.IndexOf(s, AMP)];
      assert SoFar(isKey, key, value) + s[..Seqs.IndexOf(s, AMP)] == SoFar(isKey, key, read);
      CutSoFar(isKey, key, read);
      assert |value| >= 4 ==> read[..4] == value[..4];
    }
  }

  /** Without raw values the loop is "split on '&', then at the first '='". */
  lemma ParseIsSplit(uri: Bytes, useRaw: bool)
    requires uri == [] || uri[|uri| - 1] != AMP
    requires NoRaw(Split(uri, AMP))
    ensures ParseSpec(uri, useRaw) == AddAll(Parsed(EMPTY), Pieces(Split(uri, AMP)), useRaw)
  {
    assert [] + uri == uri;
    ScanIsSplit(true, [], [], uri);
  }

  // ------------------------------------------------------------------ raw values

  /** No closing parenthesis in `t` could end a raw value when `t` is followed by one. */
  predicate NoEarlyEnd(t: Bytes) {
    forall i :: 0 <= i < |t| - 1 && t[i] == CLOSING ==> t[i + 1] != AMP && t[i + 1] != 0
  }

  lemma {:induction false} RawBody(key: Bytes, value: Bytes, t: Bytes, rest: Bytes)
    requires StartsRaw(value) && NoEarlyEnd(t)
    requires rest == [] || rest[0] == AMP
    ensures Scan(false, key, value, t + [CLOSING] + rest)
         == [Piece(key, value + t + [CLOSING])] + Scan(true, [], [], if rest == [] then [] else rest[1..])
    decreases |t|
  {
    hide StartsRaw;
    var s := t + [CLOSING] + rest;
    if t == [] {
      assert s == [CLOSING] + rest && value + t + [CLOSING] == value + [CLOSING];
      if rest == [] {
        assert s[1..] == [];
      } else {
        assert s[2..] == rest[1..];
      }
    } else {
      assert s[0] == t[0] && s[1..] == t[1..] + [CLOSING] + rest;
      assert s[1] == if |t| > 1 then t[1] else CLOSING;
      StartsRawLonger(value, t[0]);
      forall i | 0 <= i < |t[1..]| - 1 && t[1..][i] == CLOSING ensures t[1..][i + 1] != AMP && t[1..][i + 1] != 0 {
        assert t[i + 1] == CLOSING;
      }
      RawBody(key, value + [t[0]], t[1..], rest);
      assert value + t + [CLOSING] == value + [t[0]] + t[1..] + [CLOSING];
    }
  }

  lemma StartsRawLonger(value: Bytes, b: Byte)
    requires StartsRaw(value)
    ensures StartsRaw(value + [b])
  {
    assert (value + [b])[..4] == value[..4];
  }

  lemma {:induction false} KeyBody(key: Bytes, more: Bytes, rest: Bytes)
    requires EQ !in more && AMP !in more
    ensures Scan(true, key, [], more + [EQ] + rest) == Scan(false, key + more, [], rest)
    decreases |more|
  {
    var s := more + [EQ] + rest;
    if more == [] {
      assert s == [EQ] + rest && key + more == key;
      assert s[1..] == rest;
    } else {
      assert more[0] in more && s[0] == more[0] && s[1..] == more[1..] + [EQ] + rest;
      KeyBody(key + [more[0]], more[1..], rest);
      assert key + more == key + [more[0]] + more[1..];
    }
  }

  /** `key=RAW(text)` is one parameter whatever '&', '=' or '%' the text holds. */
  lemma RawIsVerbatim(key: Bytes, text: Bytes, rest: Bytes)
    requires EQ !in key && AMP !in key && NoEarlyEnd(text)
    requires rest == [] || rest[0] == AMP
    ensures Scan(true, [], [], key + [EQ] + (RAW_START + text + [CLOSING] + rest))
         == [Piece(key, RAW_START + text + [CLOSING])] + Scan(true, [], [], if rest == [] then [] else rest[1..])
  {
    hide Scan, NoEarlyEnd;
    var tail := text + [CLOSING] + rest;
    var r: Bytes, ra: Bytes, raw: Bytes := ['R' as int], ['R' as int, 'A' as int], ['R' as int, 'A' as int, 'W' as int];
    var w: Bytes, aw: Bytes := ['(' as int], ['W' as int, '(' as int];
    var raw4: Bytes := ['A' as int, 'W' as int, '(' as int];
    KeyBody([], key, RAW_START + tail);
    assert RAW_START + text + [CLOSING] + rest == RAW_START + tail && [] + key == key;
    assert RAW_START + tail == r + (raw4 + tail) && [] + r == r;
    ValueByte(key, [], r[0], raw4 + tail);
    assert raw4 + tail == [ra[1]] + (aw + tail) && r + [ra[1]] == ra;
    ValueByte(key, r, ra[1], aw + tail);
    assert aw + tail == [raw[2]] + (w + tail) && ra + [raw[2]] == raw;
    ValueByte(key, ra, raw[2], w + tail);
    assert raw + w == RAW_START;
    ValueByte(key, raw, w[0], tail);
    RawBody(key, RAW_START, text, rest);
  }

  lemma ValueByte(key: Bytes, value: Bytes, b: Byte, rest: Bytes)
    requires !StartsRaw(value) && b != AMP
    ensures Scan(false, key, value, [b] + rest) == Scan(false, key, value + [b], rest)
  {
    assert ([b] + rest)[1..] == rest;
  }

  // ------------------------------------------------------------------ decodeBody

  datatype Form = Form(fields: map<Bytes, Bytes>) | Failed

  /** Form decoding, once, of keys and values; a later value for a key replaces an earlier one. */
  function FormDecode(pieces: seq<Piece>): Form {
    if pieces == [] then Form(map[])
    else
      var before, last := FormDecode(pieces[..|pieces| - 1]), pieces[|pieces| - 1];
      match (before, Decode(false, last.key), Decode(false, last.value))
      case (Form(fields), Bytes(key), Bytes(value)) => Form(fields[key := value])
      case _ => Failed
  }

  /** What `decodeBody` does to the parsed parameters. */
  predicate AllDecode(values: seq<Bytes>) {
    forall i :: 0 <= i < |values| ==> Decode(false, values[i]).Bytes?
  }

  ghost predicate WellFormed(params: Params) {
    && (forall k :: k in params.keys <==> k in params.values)
    && forall k :: k in params.values ==> params.values[k] != []
  }

  function LastDecoded(values: seq<Bytes>): Bytes
    requires values != [] && AllDecode(values)
  {
    Decode(false, values[|values| - 1]).bytes
  }

  function DecodeParams(params: map<Bytes, seq<Bytes>>): Form
    requires forall k :: k in params ==> params[k] != []
  {
    if forall k :: k in params ==> AllDecode(params[k]) then Form(map k | k in params :: LastDecoded(params[k]))
    else Failed
  }

  /** The parsed parameters of some pieces decode to the form decoding of the pieces. */
  ghost predicate Stage(r: Parsed, pieces: seq<Piece>) {
    match r
    case Parsed(params) => WellFormed(params) && DecodeParams(params.values) == FormDecode(pieces)
    case BadEncoding => FormDecode(pieces) == Failed
    case SyntaxError => false
  }

  lemma StageAdd(r: Parsed, pieces: seq<Piece>, piece: Piece)
    requires Stage(r, pieces)
    ensures Stage(Add(r, piece, false), pieces + [piece])
  {
    hide Decode, StartsRaw, PlusToSpace, FormDecode;
    var stored := if StartsRaw(piece.value) then piece.value else PlusToSpace(piece.value);
    SecondDecoding(piece.value);
    FormDecodeAppend(pieces, piece);
    if r.Parsed? && Decode(false, piece.key).Bytes? {
      StagePut(r.params, Decode(false, piece.key).bytes, stored);
    }
  }

  lemma FormDecodeAppend(pieces: seq<Piece>, piece: Piece)
    ensures FormDecode(pieces + [piece])
         == match (FormDecode(pieces), Decode(false, piece.key), Decode(false, piece.value))
            case (Form(fields), Bytes(key), Bytes(value)) => Form(fields[key := value])
            case _ => Failed
  {
    assert (pieces + [piece])[..|pieces|] == pieces;
  }

  lemma AllDecodeMore(values: seq<Bytes>, value: Bytes)
    ensures AllDecode(values + [value]) <==> AllDecode(values) && Decode(false, value).Bytes?
  {
    hide Decode;
    var more := values + [value];
    assert more[|values|] == value;
    assert forall i :: 0 <= i < |values| ==> more[i] == values[i];
  }

  /** One more value under a name: the others decode as before, and the name as its last value. */
  lemma DecodeParamsPut(before: map<Bytes, seq<Bytes>>, name: Bytes, values: seq<Bytes>)
    requires values != [] && forall k :: k in before ==> before[k] != []
    requires AllDecode(values) ==> (name in before ==> AllDecode(before[name]))
    ensures DecodeParams(before[name := values])
         == match DecodeParams(before)
            case Form(fields) => if AllDecode(values) then Form(fields[name := LastDecoded(values)]) else Failed
            case Failed => Failed
  {
    hide Decode, AllDecode, LastDecoded;
    var after := before[name := values];
    assert name in after && forall k :: k in before && k != name ==> after[k] == before[k];
  }

  lemma StagePut(params: Params, name: Bytes, value: Bytes)
    requires WellFormed(params)
    ensures WellFormed(Put(params, name, value))
    ensures DecodeParams(Put(params, name, value).values)
         == match (DecodeParams(params.values), Decode(false, value))
            case (Form(fields), Bytes(decoded)) => Form(fields[name := decoded])
            case _ => Failed
  {
    hide Decode, AllDecode, DecodeParams;
    var before := params.values;
    var earlier := if name in before then before[name] else [];
    var values := earlier + [value];
    assert [] + [value] == [value];
    assert Put(params, name, value).values == before[name := values];
    AllDecodeMore(earlier, value);
    DecodedBefore(before, name);
    DecodeParamsPut(before, name, values);
  }

  lemma DecodedBefore(before: map<Bytes, seq<Bytes>>, name: Bytes)
    requires forall k :: k in before ==> before[k] != []
    ensures AllDecode([])
    ensures DecodeParams(before).Form? && name in before ==> AllDecode(before[name])
  {
    hide Decode;
  }

  lemma {:induction false} StageAll(r: Parsed, done: seq<Piece>, rest: seq<Piece>)
    requires Stage(r, done)
    ensures Stage(AddAll(r, rest, false), done + rest)
    decreases |rest|
  {
    hide Stage, Add;
    if rest == [] {
      assert done + rest == done;
    } else {
      StageAdd(r, done, rest[0]);
      StageAll(Add(r, rest[0], false), done + [rest[0]], rest[1..]);
      assert done + [rest[0]] + rest[1..] == done + rest;
    }
  }

  method DecodeBody(body: Bytes) returns (r: Form)
    ensures r == if body != [] && body[|body| - 1] == AMP then Failed else FormDecode(Scan(true, [], [], body))
  {
    hide Decode, Scan, FormDecode, AddAll;
    var parsed := ParseQuery(body, false);
    if parsed.SyntaxError? {
      SyntaxErrorIsTrailing(body);
      return Failed;
    }
    StageBody(body);
    if !parsed.Parsed? {
      return Failed;
    }
    var params := parsed.params;
    var queryMap: map<Bytes, Bytes> := map[];
    for i := 0 to |params.keys|
      invariant forall k :: k in queryMap <==> k in params.keys[..i]
      invariant forall k :: k in params.keys[..i] ==>
                  AllDecode(params.values[k]) && queryMap[k] == LastDecoded(params.values[k])
    {
      var key := params.keys[i];
      Seqs.TakeNext(params.keys, i);
      assert key in params.keys;
      var values := params.values[key];
      for j := 0 to |values|
        invariant AllDecode(values[..j])
        invariant j > 0 ==> key in queryMap && queryMap[key] == LastDecoded(values[..j])
        invariant forall k :: k in queryMap <==> k in params.keys[..i] || (j > 0 && k == key)
        invariant forall k :: k in params.keys[..i] && k != key ==> queryMap[k] == LastDecoded(params.values[k])
      {
        var decoded := Decode(false, values[j]);
        if !decoded.Bytes? {
          return Failed;
        }
        Seqs.TakeNext(values, j);
        queryMap := queryMap[key := decoded.bytes];
      }
      assert values[..|values|] == values;
    }
    assert params.keys[..|params.keys|] == params.keys;
    r := Form(queryMap);
    assert queryMap == DecodeParams(params.values).fields;
  }

  lemma SyntaxErrorIsTrailing(body: Bytes)
    requires ParseSpec(body, false) == SyntaxError
    ensures body != [] && body[|body| - 1] == AMP
  {
    if !(body != [] && body[|body| - 1] == AMP) {
      StageBody(body);
    }
  }

  lemma StageBody(body: Bytes)
    requires body == [] || body[|body| - 1] != AMP
    ensures Stage(ParseSpec(body, false), Scan(true, [], [], body))
  {
    hide Scan;
    var pieces := Scan(true, [], [], body);
    assert FormDecode([]) == Form(map[]);
    StageAll(Parsed(EMPTY), [], pieces);
    assert [] + pieces == pieces;
  }
}
