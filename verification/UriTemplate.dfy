/** `ExactMatchURITemplate`: the compiled expression, `match` and `substitute`. */
module UriTemplate {
  import opened Options
  import opened Text
  import opened UrlEncoding
  import opened UriTokens
  import opened UriChunks
  import Seqs

  // ------------------------------------------------------------ regular expressions

  /** The expressions of templates without custom patterns: characters and `([^/]+?)` groups. */
  datatype Item = Char(c: CodeUnit) | Segment

  const BACKSLASH: CodeUnit := '\\' as int

  /** `DEFAULT_PATH_VARIABLE_REGEX` */
  const DEFAULT_REGEX: Text :=
    ['(' as int, '[' as int, '^' as int, '/' as int, ']' as int, '+' as int, '?' as int, ')' as int]

  /** The characters with a meaning of their own outside a character class of `java.util.regex`. */
  predicate Meta(c: CodeUnit) {
    || c == BACKSLASH || c == '^' as int || c == '$' as int || c == '.' as int || c == '|' as int
    || c == '?' as int || c == '*' as int || c == '+' as int || c == '(' as int || c == ')' as int
    || c == '[' as int || c == ']' as int || c == OPEN || c == CLOSE
  }

  function Push(item: Item, rest: Option<seq<Item>>): Option<seq<Item>> {
    if rest.Some? then Some([item] + rest.value) else None
  }

  /** `Pattern.compile` on this sub-language; a backslash quotes any character but a letter or digit. */
  function ParseRegex(p: Text): Option<seq<Item>> {
    if p == [] then Some([])
    else if |p| >= 8 && p[..8] == DEFAULT_REGEX then Push(Segment, ParseRegex(p[8..]))
    else if p[0] == BACKSLASH then
      if |p| >= 2 && !Letter(p[1]) && !Digit(p[1]) then Push(Char(p[1]), ParseRegex(p[2..])) else None
    else if Meta(p[0]) then None
    else Push(Char(p[0]), ParseRegex(p[1..]))
  }

  /** `CHARACTERS_TO_ESCAPE` */
  predicate ReservedCharacter(c: CodeUnit) {
    || c == '.' as int || c == '*' as int || c == '+' as int || c == '$' as int || c == '(' as int || c == ')' as int
  }

  function Escape(s: Text): Text {
    if s == [] then [] else (if ReservedCharacter(s[0]) then [BACKSLASH, s[0]] else [s[0]]) + Escape(s[1..])
  }

  lemma {:induction false} EscapeAppend(s: Text, c: CodeUnit)
    ensures Escape(s + [c]) == Escape(s) + if ReservedCharacter(c) then [BACKSLASH, c] else [c]
  {
    if s == [] {
      assert Escape([c]) == (if ReservedCharacter(c) then [BACKSLASH, c] else [c]) + Escape([]);
    } else {
      Seqs.AppendDrop(s, [c], 1);
      EscapeAppend(s[1..], c);
    }
  }

  method EscapeCharacters(expression: Text) returns (sb: Text)
    ensures sb == Escape(expression)
  {
    sb := [];
    for i := 0 to |expression|
      invariant sb == Escape(expression[..i])
    {
      Seqs.TakeNext(expression, i);
      EscapeAppend(expression[..i], expression[i]);
      sb := sb + if ReservedCharacter(expression[i]) then [BACKSLASH, expression[i]] else [expression[i]];
    }
    assert expression[..|expression|] == expression;
  }

  function Chars(s: Text): seq<Item> {
    if s == [] then [] else [Char(s[0])] + Chars(s[1..])
  }

  /** What the encoder can leave in a literal. */
  predicate EncodedChar(c: CodeUnit) { PathChar(c) || c == PERCENT }

  /** Every such character is ordinary in an expression or is escaped. */
  lemma EscapeListIsEnough(c: CodeUnit)
    requires EncodedChar(c)
    ensures ReservedCharacter(c) <==> Meta(c)
    ensures c != BACKSLASH && (ReservedCharacter(c) ==> !Letter(c) && !Digit(c))
  {
  }

  function Cat(items: seq<Item>, rest: Option<seq<Item>>): Option<seq<Item>> {
    if rest.Some? then Some(items + rest.value) else None
  }

  lemma {:induction false} EscapedParses(s: Text, rest: Text)
    requires forall i :: 0 <= i < |s| ==> EncodedChar(s[i])
    ensures ParseRegex(Escape(s) + rest) == Cat(Chars(s), ParseRegex(rest))
  {
    hide EncodedChar, Meta, ReservedCharacter, Letter, Digit;
    if s == [] {
      assert Escape(s) + rest == rest;
      if ParseRegex(rest).Some? {
        assert Chars(s) + ParseRegex(rest).value == ParseRegex(rest).value;
      }
    } else {
      var c := s[0];
      EscapeListIsEnough(c);
      EscapedParses(s[1..], rest);
      EscapedHead(c, Escape(s[1..]) + rest);
      Seqs.Assoc(if ReservedCharacter(c) then [BACKSLASH, c] else [c], Escape(s[1..]), rest);
      if ParseRegex(rest).Some? {
        Seqs.Assoc([Char(c)], Chars(s[1..]), ParseRegex(rest).value);
      }
    }
  }

  lemma EscapedHead(c: CodeUnit, rest: Text)
    requires EncodedChar(c)
    ensures ParseRegex((if ReservedCharacter(c) then [BACKSLASH, c] else [c]) + rest) == Push(Char(c), ParseRegex(rest))
  {
    EscapeListIsEnough(c);
    var token := if ReservedCharacter(c) then [BACKSLASH, c] else [c];
    var p := token + rest;
    Seqs.AppendDrop(token, rest, |token|);
    if |p| >= 8 {
      assert p[..8][0] == token[0] && token[0] != DEFAULT_REGEX[0];
    }
  }

  lemma {:induction false} Rfc3986Chars(s: Text)
    requires Rfc3986Path(s)
    ensures forall i :: 0 <= i < |s| ==> EncodedChar(s[i])
  {
    if s == [] {
    } else if Triple(s) {
      Rfc3986Chars(s[3..]);
      assert forall i :: 3 <= i < |s| ==> s[i] == s[3..][i - 3];
    } else {
      Rfc3986Chars(s[1..]);
      assert forall i :: 1 <= i < |s| ==> s[i] == s[1..][i - 1];
    }
  }

  // -------------------------------------------------------------------- construction

  function Encoded(literal: Text): Text { Partially(false, literal) }

  function PatternPart(chunk: Chunk): Text {
    match chunk
    case Literal(value) => Escape(Encoded(value))
    case Variable(_, None) => DEFAULT_REGEX
    case Variable(_, Some(pattern)) => ['(' as int] + pattern + [')' as int]
  }

  function FlatMap<T>(f: Chunk -> seq<T>, chunks: seq<Chunk>): seq<T> {
    if chunks == [] then [] else f(chunks[0]) + FlatMap(f, chunks[1..])
  }

  lemma {:induction false} FlatMapAppend<T>(f: Chunk -> seq<T>, chunks: seq<Chunk>, chunk: Chunk)
    ensures FlatMap(f, chunks + [chunk]) == FlatMap(f, chunks) + f(chunk)
  {
    if chunks == [] {
      assert FlatMap(f, [chunk]) == f(chunk) + FlatMap(f, []);
    } else {
      Seqs.AppendDrop(chunks, [chunk], 1);
      FlatMapAppend(f, chunks[1..], chunk);
      Seqs.Assoc(f(chunks[0]), FlatMap(f, chunks[1..]), f(chunk));
    }
  }

  function LiteralPart(chunk: Chunk): Text { if chunk.Literal? then PatternPart(chunk) else [] }

  function NamePart(chunk: Chunk): seq<Text> { if chunk.Variable? then [chunk.name] else [] }

  function CustomPart(chunk: Chunk): seq<Text> {
    if chunk.Variable? && chunk.pattern.Some? then [chunk.name] else []
  }

  function PatternText(chunks: seq<Chunk>): Text { FlatMap(PatternPart, chunks) }

  function LiteralChars(chunks: seq<Chunk>): Text { FlatMap(LiteralPart, chunks) }

  function Names(chunks: seq<Chunk>): seq<Text> { FlatMap(NamePart, chunks) }

  function CustomNames(chunks: seq<Chunk>): seq<Text> { FlatMap(CustomPart, chunks) }

  datatype Template = Template(
    template: Text, chunks: seq<Chunk>, variables: seq<Text>, customVariables: seq<Text>,
    literals: Text, patternText: Text)

  ghost predicate Built(t: Template) {
    && t.patternText == PatternText(t.chunks) && t.literals == LiteralChars(t.chunks)
    && t.variables == Names(t.chunks) && t.customVariables == CustomNames(t.chunks)
  }

  /** One round of the constructor's loop. */
  method AddChunk(t: Template, chunk: Chunk) returns (t': Template)
    requires Built(t)
    ensures Built(t') && t'.chunks == t.chunks + [chunk] && t'.template == t.template
  {
    hide FlatMap, Escape, Partially;
    FlatMapAppend(PatternPart, t.chunks, chunk);
    FlatMapAppend(LiteralPart, t.chunks, chunk);
    FlatMapAppend(NamePart, t.chunks, chunk);
    FlatMapAppend(CustomPart, t.chunks, chunk);
    t' := t.(chunks := t.chunks + [chunk]);
    match chunk {
      case Literal(value) =>
        var encodedValue := EncodePartiallyEncoded(value, false);
        var substr := EscapeCharacters(encodedValue);
        t' := t'.(literals := t.literals + substr, patternText := t.patternText + substr);
      case Variable(name, pattern) =>
        t' := t'.(variables := t.variables + [name]);
        if pattern.Some? {
          t' := t'.(customVariables := t.customVariables + [name],
                    patternText := t.patternText + (['(' as int] + pattern.value + [')' as int]));
        } else {
          t' := t'.(patternText := t.patternText + DEFAULT_REGEX);
        }
    }
  }

  /** The chunks can be compiled: custom patterns one by one did, and now the whole expression. */
  ghost predicate Compilable(chunks: seq<Chunk>, compiles: Text -> bool) {
    CustomNames(chunks) == [] || compiles(PatternText(chunks))
  }

  /**
   * The constructor; `None` is the exception of `Pattern.compile`. An expression without custom patterns
   * always compiles, as `TemplatePatternCompiles` shows.
   */
  method Construct(theTemplate: Text, compiles: Text -> bool) returns (r: Option<Template>)
    ensures r.Some? ==> Reads(theTemplate, r.value.chunks, compiles) && Built(r.value)
    ensures r.Some? ==> r.value.template == theTemplate
    ensures r.Some? <==> exists chunks :: Reads(theTemplate, chunks, compiles) && Compilable(chunks, compiles)
  {
    hide Create, Tokenization, FlatMap, PatternPart, TokenAt;
    var tokens := Tokenize(theTemplate);
    var t := Template(theTemplate, [], [], [], [], []);
    BuiltEmpty(t);
    for i := 0 to |tokens|
      invariant |t.chunks| == i && t.template == theTemplate
      invariant forall j: nat :: j < i ==> tokens[j] != [] && Create(tokens[j], compiles) == Chunk(t.chunks[j])
      invariant Built(t)
    {
      TokenNotEmpty(theTemplate, tokens, i);
      var created := Create(tokens[i], compiles);
      if created.BadPattern? {
        NoReading(theTemplate, tokens, i, compiles);
        return None;
      }
      t := AddChunk(t, created.chunk);
    }
    assert ReadsFrom(theTemplate, tokens, t.chunks, compiles);
    forall other | Reads(theTemplate, other, compiles) ensures other == t.chunks {
      ReadsUnique(theTemplate, other, t.chunks, compiles);
    }
    if |t.customVariables| > 0 && !compiles(t.patternText) {
      return None;
    }
    r := Some(t);
  }

  lemma BuiltEmpty(t: Template)
    requires t.chunks == [] && t.variables == [] && t.customVariables == [] && t.literals == [] && t.patternText == []
    ensures Built(t)
  {
  }

  lemma TokenNotEmpty(s: Text, tokens: seq<Text>, i: nat)
    requires Tokenization(tokens, s) && i < |tokens|
    ensures tokens[i] != []
  {
    assert TokenAt(tokens, i);
  }

  lemma NoReading(s: Text, tokens: seq<Text>, i: nat, compiles: Text -> bool)
    requires Tokenization(tokens, s) && i < |tokens| && tokens[i] != [] && Create(tokens[i], compiles).BadPattern?
    ensures !exists chunks :: Reads(s, chunks, compiles)
  {
    forall chunks ensures !Reads(s, chunks, compiles) {
      if Reads(s, chunks, compiles) {
        var other :| ReadsFrom(s, other, chunks, compiles);
        TokenizationUnique(tokens, other, s);
      }
    }
  }

  // ---------------------------------------------------- the compiled expression

  predicate AllDefault(chunks: seq<Chunk>) {
    forall i :: 0 <= i < |chunks| && chunks[i].Variable? ==> chunks[i].pattern.None?
  }

  function ItemsOf(chunks: seq<Chunk>): seq<Item> {
    if chunks == [] then []
    else (if chunks[0].Literal? then Chars(Encoded(chunks[0].value)) else [Segment]) + ItemsOf(chunks[1..])
  }

  /** The built text compiles to the encoded literals and one group per variable. */
  lemma {:induction false} TemplatePatternCompiles(chunks: seq<Chunk>)
    requires AllDefault(chunks)
    ensures ParseRegex(PatternText(chunks)) == Some(ItemsOf(chunks))
  {
    hide Meta, Letter, Digit, ReservedCharacter, Encoded, Escape;
    if chunks != [] {
      var rest := chunks[1..];
      TemplatePatternCompiles(rest);
      if chunks[0].Literal? {
        assert forall i :: 0 <= i < |Encoded(chunks[0].value)| ==> EncodedChar(Encoded(chunks[0].value)[i]) by {
          EncodedLiteralChars(chunks[0].value);
        }
        EscapedParses(Encoded(chunks[0].value), PatternText(rest));
      } else {
        var p := DEFAULT_REGEX + PatternText(rest);
        assert p[..8] == DEFAULT_REGEX && p[8..] == PatternText(rest);
      }
    }
  }

  lemma EncodedLiteralChars(value: Text)
    ensures forall i :: 0 <= i < |Encoded(value)| ==> EncodedChar(Encoded(value)[i])
  {
    EncodedIsRfc3986Path(value);
    Rfc3986Chars(Encoded(value));
  }
}
