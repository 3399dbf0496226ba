/** `HttpUtils.componentEncode`, `pathEncode`, `queryEncode` and `encodePartiallyEncoded`. */
module UrlEncoding {
  import opened Text
  import Seqs

  /** The characters `URLEncoder` leaves alone. */
  predicate FormSafe(c: CodeUnit) {
    Letter(c) || Digit(c) || c == '.' as int || c == '-' as int || c == '*' as int || c == '_' as int
  }

  /** `PATH_RESERVED_CHARACTERS`. */
  predicate PathReserved(c: CodeUnit) {
    || c == '=' as int || c == '@' as int || c == '/' as int || c == ':' as int || c == '!' as int
    || c == '$' as int || c == '&' as int || c == '\'' as int || c == '(' as int || c == ')' as int
    || c == ',' as int || c == ';' as int || c == '~' as int
  }

  /** `QUERY_RESERVED_CHARACTERS`. */
  predicate QueryReserved(c: CodeUnit) { c == '?' as int || c == '/' as int || c == ',' as int }

  predicate Reserved(query: bool, c: CodeUnit)
    ensures Reserved(query, c) ==> Ascii(c) && c != PERCENT && c != PLUS && c != SPACE
  {
    if query then QueryReserved(c) else PathReserved(c)
  }

  // ---------------------------------------------------------------- URLEncoder

  function FormByte(b: Byte): Text {
    if FormSafe(b) then [b] else if b == SPACE then [PLUS] else Pct(b)
  }

  function FormBytes(bytes: seq<Byte>): Text {
    if bytes == [] then [] else FormByte(bytes[0]) + FormBytes(bytes[1..])
  }

  /** `URLEncoder.encode(s, "UTF-8")` as documented. */
  function UrlEncode(s: Text): Text { FormBytes(Utf8(s)) }

  lemma {:induction false} FormBytesAppend(a: seq<Byte>, b: seq<Byte>)
    ensures FormBytes(a + b) == FormBytes(a) + FormBytes(b)
  {
    if a == [] {
      assert a + b == b;
    } else {
      assert (a + b)[1..] == a[1..] + b;
      FormBytesAppend(a[1..], b);
    }
  }

  // ------------------------------------------------------------ componentEncode

  function ComponentCp(query: bool, s: Text): Text
    requires s != []
  {
    if Reserved(query, s[0]) then [s[0]] else FormBytes(CpBytes(s))
  }

  /** Code point by code point: a reserved character is kept, anything else is form encoded. */
  function ComponentSpec(query: bool, s: Text): Text {
    if s == [] then [] else ComponentCp(query, s) + ComponentSpec(query, s[CpLen(s)..])
  }

  lemma {:induction false} ComponentAppend(query: bool, a: Text, b: Text)
    requires CleanCut(a, b)
    ensures ComponentSpec(query, a + b) == ComponentSpec(query, a) + ComponentSpec(query, b)
  {
    if a == [] {
      assert a + b == b;
    } else {
      var tail := a[CpLen(a)..];
      CleanCutStep(a, b);
      ComponentAppend(query, tail, b);
      Seqs.Assoc(ComponentCp(query, a), ComponentSpec(query, tail), ComponentSpec(query, b));
    }
  }

  lemma {:induction false} ComponentOfUnreserved(query: bool, s: Text)
    requires forall c :: c in s ==> !Reserved(query, c)
    ensures ComponentSpec(query, s) == UrlEncode(s)
  {
    if s != [] {
      ComponentOfUnreserved(query, s[CpLen(s)..]);
      FormBytesAppend(CpBytes(s), Utf8(s[CpLen(s)..]));
    }
  }

  /** The buffer once the pending characters are form encoded into it. */
  function Flushed(buffer: Text, pending: Text): Text {
    if |pending| > 0 then buffer + UrlEncode(pending) else buffer
  }

  /** `buffer` is the encoding of `done`, the prefix of `value` that ends before the `pending` characters. */
  ghost predicate Buffered(query: bool, value: Text, i: nat, buffer: Text, done: Text, pending: Text) {
    && i <= |value| && done + pending == value[..i]
    && buffer == ComponentSpec(query, done)
    && (done != [] ==> Ascii(done[|done| - 1]))
    && forall c :: c in pending ==> !Reserved(query, c)
  }

  lemma BufferedFlush(query: bool, value: Text, i: nat, buffer: Text, done: Text, pending: Text)
    requires Buffered(query, value, i, buffer, done, pending)
    ensures Flushed(buffer, pending) == ComponentSpec(query, value[..i])
  {
    ComponentOfUnreserved(query, pending);
    ComponentAppend(query, done, pending);
  }

  lemma BufferedReserved(query: bool, value: Text, i: nat, buffer: Text, done: Text, pending: Text)
    requires Buffered(query, value, i, buffer, done, pending) && i < |value| && Reserved(query, value[i])
    ensures Buffered(query, value, i + 1, Flushed(buffer, pending) + [value[i]], value[..i + 1], [])
  {
    BufferedFlush(query, value, i, buffer, done, pending);
    ComponentAppend(query, value[..i], [value[i]]);
    assert ComponentSpec(query, [value[i]]) == [value[i]] + ComponentSpec(query, []);
    Seqs.TakeNext(value, i);
  }

  lemma BufferedOther(query: bool, value: Text, i: nat, buffer: Text, done: Text, pending: Text)
    requires Buffered(query, value, i, buffer, done, pending) && i < |value| && !Reserved(query, value[i])
    ensures Buffered(query, value, i + 1, buffer, done, pending + [value[i]])
  {
    Seqs.TakeNext(value, i);
    Seqs.Assoc(done, pending, [value[i]]);
  }

  method ComponentEncode(query: bool, value: Text) returns (buffer: Text)
    ensures buffer == ComponentSpec(query, value)
  {
    buffer := [];
    var bufferToEncode: Text := [];
    ghost var done: Text := [];
    for i := 0 to |value|
      invariant Buffered(query, value, i, buffer, done, bufferToEncode)
    {
      var currentChar := value[i];
      if Reserved(query, currentChar) {
        BufferedReserved(query, value, i, buffer, done, bufferToEncode);
        if |bufferToEncode| > 0 {
          buffer := buffer + UrlEncode(bufferToEncode);
          bufferToEncode := [];
        }
        buffer := buffer + [currentChar];
        done := value[..i + 1];
      } else {
        BufferedOther(query, value, i, buffer, done, bufferToEncode);
        bufferToEncode := bufferToEncode + [currentChar];
      }
    }
    BufferedFlush(query, value, |value|, buffer, done, bufferToEncode);
    assert value[..|value|] == value;
    if |bufferToEncode| > 0 {
      buffer := buffer + UrlEncode(bufferToEncode);
    }
  }

  // ----------------------------------------------------------------- pathEncode

  /** `String.replace`: leftmost, non-overlapping. */
  function Replace(s: Text, target: Text, with: Text): Text
    requires target != []
  {
    if |s| < |target| then s
    else if s[..|target|] == target then with + Replace(s[|target|..], target, with)
    else [s[0]] + Replace(s[1..], target, with)
  }

  /** What a path keeps: RFC 3986 unreserved, sub-delims, ':' and '@' (section 3.3), and '/'. */
  predicate PathChar(c: CodeUnit) {
    || Letter(c) || Digit(c) || c == '-' as int || c == '.' as int || c == '_' as int || c == '~' as int
    || c == '!' as int || c == '$' as int || c == '&' as int || c == '\'' as int || c == '(' as int
    || c == ')' as int || c == '*' as int || c == PLUS || c == ',' as int || c == ';' as int || c == '=' as int
    || c == ':' as int || c == '@' as int || c == SLASH
  }

  function PathByte(b: Byte): seq<Byte> { if PathChar(b) then [b] else Pct(b) }

  function PathBytes(bytes: seq<Byte>): seq<Byte> {
    if bytes == [] then [] else PathByte(bytes[0]) + PathBytes(bytes[1..])
  }

  lemma {:induction false} PathBytesAppend(a: seq<Byte>, b: seq<Byte>)
    ensures PathBytes(a + b) == PathBytes(a) + PathBytes(b)
  {
    if a == [] {
      assert a + b == b;
    } else {
      assert (a + b)[1..] == a[1..] + b;
      PathBytesAppend(a[1..], b);
    }
  }

  function ComponentByte(b: Byte): Text { if PathReserved(b) then [b] else FormByte(b) }

  function ComponentBytes(bytes: seq<Byte>): Text {
    if bytes == [] then [] else ComponentByte(bytes[0]) + ComponentBytes(bytes[1..])
  }

  lemma {:induction false} ComponentBytesOfCp(bytes: seq<Byte>, rest: seq<Byte>)
    requires forall b :: b in bytes ==> !PathReserved(b)
    ensures ComponentBytes(bytes + rest) == FormBytes(bytes) + ComponentBytes(rest)
  {
    if bytes == [] {
      assert bytes + rest == rest;
    } else {
      assert (bytes + rest)[1..] == bytes[1..] + rest;
      ComponentBytesOfCp(bytes[1..], rest);
    }
  }

  /** In a path, `componentEncode` works byte by byte on the UTF-8 form. */
  lemma {:induction false} ComponentIsByteMap(s: Text)
    ensures ComponentSpec(false, s) == ComponentBytes(Utf8(s))
  {
    if s != [] {
      ComponentIsByteMap(s[CpLen(s)..]);
      if !PathReserved(s[0]) {
        ComponentBytesOfCp(CpBytes(s), Utf8(s[CpLen(s)..]));
      }
    }
  }

  const PLUS_TEXT: Text := [PLUS]
  const PERCENT_20: Text := [PERCENT, '2' as int, '0' as int]
  const PERCENT_2B: Text := [PERCENT, '2' as int, 'B' as int]

  lemma ReplaceKeepsOne(c: CodeUnit, rest: Text, target: Text, with: Text)
    requires target != [] && c != target[0]
    ensures Replace([c] + rest, target, with) == [c] + Replace(rest, target, with)
  {
    var s := [c] + rest;
    assert s[1..] == rest;
    if |s| >= |target| {
      assert s[..|target|][0] == c;
    }
  }

  lemma {:induction false} ReplaceKeeps(token: Text, rest: Text, target: Text, with: Text)
    requires target != []
    requires target[0] !in token
    ensures Replace(token + rest, target, with) == token + Replace(rest, target, with)
  {
    if token == [] {
      assert token + rest == rest;
    } else {
      var c, tail := token[0], token[1..];
      var done := Replace(rest, target, with);
      assert c in token && token + rest == [c] + (tail + rest) && token + done == [c] + (tail + done);
      assert Replace(tail + rest, target, with) == tail + done by {
        ReplaceKeeps(tail, rest, target, with);
      }
      ReplaceKeepsOne(c, tail + rest, target, with);
    }
  }

  /** The form encoding of `b` after both replacements, and the intermediate text. */
  function Spaced(b: Byte): Text { if b == SPACE then PERCENT_20 else ComponentByte(b) }

  function SpacedBytes(bytes: seq<Byte>): Text {
    if bytes == [] then [] else Spaced(bytes[0]) + SpacedBytes(bytes[1..])
  }

  lemma {:induction false} ReplacePlus(bytes: seq<Byte>)
    ensures Replace(ComponentBytes(bytes), PLUS_TEXT, PERCENT_20) == SpacedBytes(bytes)
  {
    if bytes != [] {
      var token, rest := ComponentByte(bytes[0]), ComponentBytes(bytes[1..]);
      ReplacePlus(bytes[1..]);
      if bytes[0] == SPACE {
        assert (token + rest)[..1] == PLUS_TEXT && (token + rest)[1..] == rest;
      } else {
        ReplaceKeeps(token, rest, PLUS_TEXT, PERCENT_20);
      }
    }
  }

  lemma PctTriple(b: Byte)
    ensures Pct(b) == PERCENT_2B <==> b == PLUS
    ensures PERCENT !in Pct(b)[1..]
  {
  }

  lemma ReplaceTriple(b: Byte, rest: Text)
    ensures Replace(Pct(b) + rest, PERCENT_2B, PLUS_TEXT)
         == (if b == PLUS then PLUS_TEXT else Pct(b)) + Replace(rest, PERCENT_2B, PLUS_TEXT)
  {
    var token := Pct(b);
    PctTriple(b);
    assert (token + rest)[..3] == token && (token + rest)[3..] == rest;
    if b != PLUS {
      Seqs.AppendDrop(token, rest, 1);
      ReplaceKeeps(token[1..], rest, PERCENT_2B, PLUS_TEXT);
      Seqs.Assoc([PERCENT], token[1..], Replace(rest, PERCENT_2B, PLUS_TEXT));
      assert [PERCENT] + token[1..] == token;
    }
  }

  lemma SpacedToken(b: Byte)
    ensures Spaced(b) == if PathChar(b) && b != PLUS then [b] else Pct(b)
    ensures PathChar(b) ==> b != PERCENT
  {
  }

  lemma {:induction false} ReplacePercent2B(bytes: seq<Byte>)
    ensures Replace(SpacedBytes(bytes), PERCENT_2B, PLUS_TEXT) == PathBytes(bytes)
  {
    if bytes != [] {
      var b, rest := bytes[0], SpacedBytes(bytes[1..]);
      ReplacePercent2B(bytes[1..]);
      SpacedToken(b);
      if PathChar(b) && b != PLUS {
        ReplaceKeepsOne(b, rest, PERCENT_2B, PLUS_TEXT);
      } else {
        ReplaceTriple(b, rest);
      }
    }
  }

  /** The two global replacements amount to one map per byte. */
  lemma ReplacementsActPerByte(s: Text)
    ensures Replace(Replace(ComponentSpec(false, s), PLUS_TEXT, PERCENT_20), PERCENT_2B, PLUS_TEXT)
         == PathBytes(Utf8(s))
  {
    ComponentIsByteMap(s);
    ReplacePlus(Utf8(s));
    ReplacePercent2B(Utf8(s));
  }

  predicate OccursAt(s: Text, target: Text, i: nat) {
    i + |target| <= |s| && s[i..i + |target|] == target
  }

  lemma {:induction false} ReplaceWithoutOccurrence(s: Text, target: Text, with: Text)
    requires target != []
    requires forall i: nat :: !OccursAt(s, target, i)
    ensures Replace(s, target, with) == s
  {
    if |s| >= |target| {
      assert !OccursAt(s, target, 0);
      forall i: nat ensures !OccursAt(s[1..], target, i) {
        assert !OccursAt(s, target, i + 1);
        if i + 1 + |target| <= |s| {
          assert s[1..][i..i + |target|] == s[i + 1..i + 1 + |target|];
        }
      }
      ReplaceWithoutOccurrence(s[1..], target, with);
    }
  }

  /** `replace` behind an `indexOf` guard. */
  method ReplaceIfPresent(s: Text, target: Text, with: Text) returns (result: Text)
    requires target != []
    ensures result == Replace(s, target, with)
  {
    var i := 0;
    while i + |target| <= |s| && !OccursAt(s, target, i)
      invariant i <= |s|
      invariant forall j: nat :: j < i ==> !OccursAt(s, target, j)
    {
      i := i + 1;
    }
    if i + |target| <= |s| {
      result := Replace(s, target, with);
    } else {
      ReplaceWithoutOccurrence(s, target, with);
      result := s;
    }
  }

  method PathEncode(value: Text) returns (result: Text)
    ensures result == PathBytes(Utf8(value))
  {
    result := ComponentEncode(false, value);
    result := ReplaceIfPresent(result, PLUS_TEXT, PERCENT_20);
    result := ReplaceIfPresent(result, PERCENT_2B, PLUS_TEXT);
    ReplacementsActPerByte(value);
  }

  method QueryEncode(value: Text) returns (result: Text)
    ensures result == ComponentSpec(true, value)
  {
    result := ComponentEncode(true, value);
  }

  // ------------------------------------------------------ encodePartiallyEncoded

  function EncodeCp(query: bool, s: Text): Text
    requires s != []
  {
    if !query then PathBytes(CpBytes(s))
    else if QueryReserved(s[0]) then [s[0]]
    else FormBytes(CpBytes(s))
  }

  function EncodeAll(query: bool, s: Text): Text {
    if s == [] then [] else EncodeCp(query, s) + EncodeAll(query, s[CpLen(s)..])
  }

  lemma {:induction false} EncodeAllIsQueryEncode(s: Text)
    ensures EncodeAll(true, s) == ComponentSpec(true, s)
  {
    if s != [] {
      EncodeAllIsQueryEncode(s[CpLen(s)..]);
    }
  }

  lemma {:induction false} EncodeAllIsPathEncode(s: Text)
    ensures EncodeAll(false, s) == PathBytes(Utf8(s))
  {
    if s != [] {
      EncodeAllIsPathEncode(s[CpLen(s)..]);
      PathBytesAppend(CpBytes(s), Utf8(s[CpLen(s)..]));
    }
  }

  /** Triples are kept; every other code point is encoded. */
  function Partially(query: bool, s: Text): Text {
    if s == [] then []
    else if Triple(s) then s[..3] + Partially(query, s[3..])
    else EncodeCp(query, s) + Partially(query, s[CpLen(s)..])
  }

  predicate TripleAt(s: Text, i: nat) {
    i + 3 <= |s| && s[i] == PERCENT && HexDigit(s[i + 1]) && HexDigit(s[i + 2])
  }

  lemma {:induction false} PartiallyBefore(query: bool, before: Text, rest: Text)
    requires rest == [] || Triple(rest)
    requires forall j: nat :: j < |before| ==> !TripleAt(before + rest, j)
    ensures Partially(query, before + rest) == EncodeAll(query, before) + Partially(query, rest)
  {
    if before == [] {
      assert before + rest == rest;
    } else {
      var s, n := before + rest, CpLen(before);
      var tail := before[n..];
      CleanCutStep(before, rest);
      assert !TripleAt(s, 0);
      forall j: nat | j < |tail| ensures !TripleAt(tail + rest, j) {
        assert !TripleAt(s, j + n);
      }
      PartiallyBefore(query, tail, rest);
      Seqs.Assoc(EncodeCp(query, before), EncodeAll(query, tail), Partially(query, rest));
    }
  }

  /** The next match at or after `from` starts at `start`; there is none when `start` is the end. */
  ghost predicate NextMatch(s: Text, from: nat, start: nat) {
    && from <= start <= |s|
    && (start < |s| ==> TripleAt(s, start))
    && forall j: nat :: from <= j < start ==> !TripleAt(s, j)
  }

  /** `Matcher.find` for the percent-triple pattern. */
  method FindTriple(s: Text, from: nat) returns (start: nat)
    requires from <= |s|
    ensures NextMatch(s, from, start)
  {
    start := from;
    while start < |s| && !TripleAt(s, start)
      invariant from <= start <= |s|
      invariant forall j: nat :: from <= j < start ==> !TripleAt(s, j)
    {
      start := start + 1;
    }
  }

  method EncodeChunk(query: bool, s: Text) returns (t: Text)
    ensures t == EncodeAll(query, s)
  {
    if query {
      t := QueryEncode(s);
      EncodeAllIsQueryEncode(s);
    } else {
      t := PathEncode(s);
      EncodeAllIsPathEncode(s);
    }
  }

  /** One round of the `find` loop: the text before the next match. */
  lemma PartiallyRound(query: bool, s: Text, i: nat, start: nat)
    requires NextMatch(s, i, start)
    ensures Partially(query, s[i..]) == EncodeAll(query, s[i..start]) + Partially(query, s[start..])
  {
    var before, rest := s[i..start], s[start..];
    assert s[i..] == before + rest;
    forall j: nat | j < |before| ensures !TripleAt(before + rest, j) {
      assert !TripleAt(s, i + j);
    }
    PartiallyBefore(query, before, rest);
  }

  lemma PartiallyTriple(query: bool, s: Text, start: nat)
    requires TripleAt(s, start)
    ensures Partially(query, s[start..]) == s[start..start + 3] + Partially(query, s[start + 3..])
  {
    Seqs.DropTake(s, start, 3);
    Seqs.DropDrop(s, start, 3);
  }

  /** `result` is the encoding of everything before `i`. */
  ghost predicate EncodedUpTo(query: bool, s: Text, i: nat, result: Text) {
    i <= |s| && Partially(query, s) == result + Partially(query, s[i..])
  }

  lemma PartiallyStart(query: bool, s: Text)
    ensures EncodedUpTo(query, s, 0, [])
  {
    assert s[0..] == s;
  }

  lemma PartiallyAdvance(query: bool, s: Text, result: Text, i: nat, start: nat)
    requires NextMatch(s, i, start) && start < |s|
    requires EncodedUpTo(query, s, i, result)
    ensures EncodedUpTo(query, s, start + 3, result + EncodeAll(query, s[i..start]) + s[start..start + 3])
  {
    PartiallyRound(query, s, i, start);
    PartiallyTriple(query, s, start);
    Seqs.Assoc4(result, EncodeAll(query, s[i..start]), s[start..start + 3], Partially(query, s[start + 3..]));
  }

  lemma PartiallyTail(query: bool, s: Text, result: Text, i: nat)
    requires NextMatch(s, i, |s|)
    requires EncodedUpTo(query, s, i, result)
    ensures Partially(query, s) == result + EncodeAll(query, s[i..])
  {
    PartiallyRound(query, s, i, |s|);
    assert s[i..|s|] == s[i..];
  }

  method EncodePartiallyEncoded(encoded: Text, query: bool) returns (result: Text)
    ensures result == Partially(query, encoded)
  {
    if |encoded| == 0 {
      return encoded;
    }
    result := [];
    var i := 0;
    var start := FindTriple(encoded, 0);
    PartiallyStart(query, encoded);
    while start < |encoded|
      invariant NextMatch(encoded, i, start)
      invariant EncodedUpTo(query, encoded, i, result)
      decreases |encoded| - i
    {
      PartiallyAdvance(query, encoded, result, i, start);
      var before := EncodeChunk(query, encoded[i..start]);
      result := result + before + encoded[start..start + 3];
      i := start + 3;
      start := FindTriple(encoded, i);
    }
    PartiallyTail(query, encoded, result, i);
    var tail := EncodeChunk(query, encoded[i..]);
    result := result + tail;
  }

  // ------------------------------------------------------------------ properties

  /** RFC 3986 section 3.3: a sequence of `pchar` and '/'. */
  predicate Rfc3986Path(s: Text) {
    s == [] || (Triple(s) && Rfc3986Path(s[3..])) || (PathChar(s[0]) && Rfc3986Path(s[1..]))
  }

  lemma {:induction false} Rfc3986Append(a: Text, b: Text)
    requires Rfc3986Path(a) && Rfc3986Path(b)
    ensures Rfc3986Path(a + b)
  {
    if a == [] {
      assert a + b == b;
    } else if Triple(a) {
      assert (a + b)[3..] == a[3..] + b;
      Rfc3986Append(a[3..], b);
    } else {
      assert (a + b)[1..] == a[1..] + b;
      Rfc3986Append(a[1..], b);
    }
  }

  lemma {:induction false} PathBytesAreRfc3986(bytes: seq<Byte>)
    ensures Rfc3986Path(PathBytes(bytes))
  {
    if bytes != [] {
      PathBytesAreRfc3986(bytes[1..]);
      assert Rfc3986Path(PathByte(bytes[0])) by {
        if PathChar(bytes[0]) {
          assert PathByte(bytes[0])[1..] == [];
        } else {
          assert PathByte(bytes[0])[3..] == [];
        }
      }
      Rfc3986Append(PathByte(bytes[0]), PathBytes(bytes[1..]));
    }
  }

  /** Whatever goes in, a legal RFC 3986 path comes out. */
  lemma {:induction false} EncodedIsRfc3986Path(s: Text)
    ensures Rfc3986Path(Partially(false, s))
  {
    if s == [] {
    } else if Triple(s) {
      EncodedIsRfc3986Path(s[3..]);
      assert s[..3][3..] == [];
      Rfc3986Append(s[..3], Partially(false, s[3..]));
    } else {
      EncodedIsRfc3986Path(s[CpLen(s)..]);
      PathBytesAreRfc3986(CpBytes(s));
      Rfc3986Append(EncodeCp(false, s), Partially(false, s[CpLen(s)..]));
    }
  }

  lemma PathBytesLength(bytes: seq<Byte>)
    ensures |PathBytes(bytes)| >= |bytes|
    ensures |PathBytes(bytes)| == |bytes| <==> forall b :: b in bytes ==> PathChar(b)
  {
    if bytes != [] {
      PathBytesLength(bytes[1..]);
      assert bytes == [bytes[0]] + bytes[1..];
    }
  }

  lemma EncodedCpLength(s: Text)
    requires s != []
    ensures PathChar(s[0]) ==> CpLen(s) == 1 && EncodeCp(false, s) == [s[0]]
    ensures !PathChar(s[0]) ==> |EncodeCp(false, s)| > CpLen(s)
  {
    PathBytesLength(CpBytes(s));
    if PathChar(s[0]) {
      assert PathBytes([s[0]]) == [s[0]] + PathBytes([]);
    } else {
      assert CpBytes(s)[0] in CpBytes(s);
      assert !PathChar(CpBytes(s)[0]);
    }
  }

  /** The encoder never shortens; it leaves the length, hence the text, alone exactly on legal paths. */
  lemma {:induction false} EncoderFixpoints(s: Text)
    ensures |Partially(false, s)| >= |s|
    ensures |Partially(false, s)| == |s| <==> Partially(false, s) == s
    ensures Partially(false, s) == s <==> Rfc3986Path(s)
  {
    if s == [] {
    } else if Triple(s) {
      EncoderFixpoints(s[3..]);
      assert s == s[..3] + s[3..];
    } else {
      EncoderFixpoints(s[CpLen(s)..]);
      EncodedCpLength(s);
      if PathChar(s[0]) {
        assert s == [s[0]] + s[1..];
      }
    }
  }

  /** Encoding an encoded path changes nothing. */
  lemma EncodingTwice(s: Text)
    ensures Partially(false, Partially(false, s)) == Partially(false, s)
  {
    EncodedIsRfc3986Path(s);
    EncoderFixpoints(Partially(false, s));
  }

  // ---------------------------------------------------------------- query flavour

  /** The characters the query flavour keeps. */
  predicate QueryChar(c: CodeUnit) { QueryReserved(c) || FormSafe(c) }

  predicate QueryText(s: Text) {
    s == [] || (Triple(s) && QueryText(s[3..])) || (QueryChar(s[0]) && QueryText(s[1..]))
  }

  lemma FormBytesLength(bytes: seq<Byte>)
    ensures |FormBytes(bytes)| >= |bytes|
    ensures (exists b :: b in bytes && !FormSafe(b) && b != SPACE) ==> |FormBytes(bytes)| > |bytes|
  {
    if bytes != [] {
      FormBytesLength(bytes[1..]);
      assert bytes == [bytes[0]] + bytes[1..];
    }
  }

  lemma QueryCp(s: Text)
    requires s != []
    ensures QueryChar(s[0]) ==> CpLen(s) == 1 && EncodeCp(true, s) == [s[0]]
    ensures s[0] == SPACE ==> CpLen(s) == 1 && EncodeCp(true, s) == [PLUS]
    ensures !QueryChar(s[0]) && s[0] != SPACE ==> |EncodeCp(true, s)| > CpLen(s)
  {
    FormBytesLength(CpBytes(s));
    assert CpBytes(s)[0] in CpBytes(s);
    if Ascii(s[0]) {
      assert FormBytes([s[0]]) == FormByte(s[0]) + FormBytes([]);
    }
  }

  lemma {:induction false} QueryFixpoints(s: Text)
    ensures |Partially(true, s)| >= |s|
    ensures Partially(true, s) == s <==> QueryText(s)
  {
    if s == [] {
    } else if Triple(s) {
      QueryFixpoints(s[3..]);
      assert s == s[..3] + s[3..];
    } else {
      QueryFixpoints(s[CpLen(s)..]);
      QueryCp(s);
      if QueryChar(s[0]) {
        assert s == [s[0]] + s[1..];
      }
    }
  }

  lemma {:induction false} QueryTextAppend(token: Text, rest: Text)
    requires QueryText(token)
    ensures QueryText(token + rest) <==> QueryText(rest)
  {
    if token == [] {
      assert token + rest == rest;
    } else {
      assert !QueryChar(PERCENT);
      var n := if Triple(token) then 3 else 1;
      Seqs.AppendDrop(token, rest, n);
      QueryTextAppend(token[n..], rest);
    }
  }

  lemma {:induction false} FormBytesAreQueryText(bytes: seq<Byte>)
    requires SPACE !in bytes
    ensures QueryText(FormBytes(bytes))
  {
    if bytes != [] {
      assert bytes[0] in bytes;
      var token := FormByte(bytes[0]);
      assert QueryText(token) by {
        assert token[|token|..] == [];
      }
      FormBytesAreQueryText(bytes[1..]);
      QueryTextAppend(token, FormBytes(bytes[1..]));
    }
  }

  lemma EncodeCpIsQueryText(s: Text)
    requires s != [] && s[0] != SPACE
    ensures QueryText(EncodeCp(true, s))
  {
    if QueryReserved(s[0]) {
      assert EncodeCp(true, s)[1..] == [];
    } else {
      FormBytesAreQueryText(CpBytes(s));
    }
  }

  lemma {:induction false} QueryEncodedForm(s: Text)
    ensures QueryText(Partially(true, s)) <==> SPACE !in s
  {
    hide FormBytes, CpBytes;
    if s == [] {
    } else if Triple(s) {
      QueryEncodedForm(s[3..]);
      assert s == s[..3] + s[3..];
      assert s[..3][3..] == [];
      QueryTextAppend(s[..3], Partially(true, s[3..]));
    } else {
      var n := CpLen(s);
      QueryEncodedForm(s[n..]);
      assert s == s[..n] + s[n..];
      if s[0] == SPACE {
        QueryCp(s);
        assert !QueryChar(PLUS) && s[0] in s;
      } else {
        assert SPACE !in s[..n];
        EncodeCpIsQueryText(s);
        QueryTextAppend(EncodeCp(true, s), Partially(true, s[n..]));
      }
    }
  }

  /** The query flavour is stable under a second encoding exactly when the text held no space. */
  lemma QueryEncodingTwice(s: Text)
    ensures Partially(true, Partially(true, s)) == Partially(true, s) <==> SPACE !in s
  {
    QueryEncodedForm(s);
    QueryFixpoints(Partially(true, s));
  }
}
