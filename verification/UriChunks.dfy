/** `UriChunk`, `Variable` and `Literal`: tokens read as chunks, and chunks printed back. */
module UriChunks {
  import opened Options
  import opened Text
  import opened UriTokens
  import Seqs

  datatype Chunk = Literal(value: Text) | Variable(name: Text, pattern: Option<Text>)

  /** A chunk, or the exception of `Pattern.compile` on a custom pattern. */
  datatype Created = Chunk(chunk: Chunk) | BadPattern

  const COLON: CodeUnit := ':' as int

  predicate WordChar(c: CodeUnit) { Letter(c) || Digit(c) || c == '_' as int }

  predicate NameChar(c: CodeUnit) { WordChar(c) || c == '-' as int || c == '.' as int }

  /** The characters `.` does not match. */
  predicate LineTerminator(c: CodeUnit) {
    c == 0x0A || c == 0x0D || c == 0x85 || c == 0x2028 || c == 0x2029
  }

  predicate Blank(c: CodeUnit) { c <= SPACE }

  // ----------------------------------------------------------------------- trim

  function TrimLeft(s: Text): (t: Text)
    ensures |t| <= |s| && t == s[|s| - |t|..]
    ensures t == [] || !Blank(t[0])
    ensures forall i :: 0 <= i < |s| - |t| ==> Blank(s[i])
  {
    if s != [] && Blank(s[0]) then TrimLeft(s[1..]) else s
  }

  function TrimRight(s: Text): (t: Text)
    ensures |t| <= |s| && t == s[..|t|]
    ensures t == [] || !Blank(t[|t| - 1])
    ensures forall i :: |t| <= i < |s| ==> Blank(s[i])
  {
    if s != [] && Blank(s[|s| - 1]) then TrimRight(s[..|s| - 1]) else s
  }

  predicate Trimmed(s: Text) { s == [] || (!Blank(s[0]) && !Blank(s[|s| - 1])) }

  /** `String.trim`. */
  function Trim(s: Text): (t: Text)
    ensures Trimmed(t)
    ensures Trimmed(s) ==> t == s
  {
    hide TrimLeft, TrimRight;
    TrimRight(TrimLeft(s))
  }

  // --------------------------------------------------------------------- create

  predicate InsideBraces(token: Text)
    requires token != []
  {
    token[0] == OPEN && token[|token| - 1] == CLOSE
  }

  function StripBraces(token: Text): Text
    requires token != [] && InsideBraces(token)
  {
    assert |token| >= 2;
    token[1..|token| - 1]
  }

  /** `\w[-\w\.]*[ ]*` */
  predicate NameForm(s: Text) {
    exists m | 0 <= m <= |s| :: NameFormAt(s, m)
  }

  predicate NameFormAt(s: Text, m: nat) {
    && 1 <= m <= |s| && WordChar(s[0])
    && (forall i :: 0 <= i < m ==> NameChar(s[i]))
    && forall i :: m <= i < |s| ==> s[i] == SPACE
  }

  /**
   * The two groups of the variable syntax. A name holds no colon, so the first colon is the only place
   * where the pattern can start.
   */
  predicate VariableForm(x: Text) {
    var k := Seqs.IndexOf(x, COLON);
    && NameForm(x[..k])
    && (k < |x| ==> k + 1 < |x| && forall i :: k < i < |x| ==> !LineTerminator(x[i]))
  }

  /** `UriChunk.createUriChunk`; `compiles` says which custom patterns `Pattern.compile` takes. */
  function Create(token: Text, compiles: Text -> bool): Created
    requires token != []
  {
    if !InsideBraces(token) then Chunk(Literal(token))
    else
      var x := Trim(StripBraces(token));
      if !VariableForm(x) then Chunk(Literal(token))
      else
        var k := Seqs.IndexOf(x, COLON);
        var name := Trim(x[..k]);
        if k == |x| then Chunk(Variable(name, None))
        else
          var pattern := Trim(x[k + 1..]);
          if compiles(pattern) then Chunk(Variable(name, Some(pattern))) else BadPattern
  }

  // ---------------------------------------------------------------------- print

  /** The part of a printed variable between its braces. */
  function Inner(name: Text, pattern: Option<Text>): Text {
    if pattern.Some? then name + [COLON] + pattern.value else name
  }

  /** `UriChunk.getValue`. */
  function Print(chunk: Chunk): Text {
    match chunk
    case Literal(value) => value
    case Variable(name, pattern) => [OPEN] + Inner(name, pattern) + [CLOSE]
  }

  function PrintAll(chunks: seq<Chunk>): (parts: seq<Text>)
    ensures |parts| == |chunks| && forall i :: 0 <= i < |parts| ==> parts[i] == Print(chunks[i])
  {
    seq(|chunks|, i requires 0 <= i < |chunks| => Print(chunks[i]))
  }

  // -------------------------------------------------------- dropping non-braces

  lemma {:induction false} DepthAppend(a: Text, b: Text)
    ensures Depth(a + b) == Depth(a) + Depth(b)
  {
    if b == [] {
      assert a + b == a;
    } else {
      var init := b[..|b| - 1];
      assert (a + b)[..|a + b| - 1] == a + init;
      DepthAppend(a, init);
    }
  }

  predicate NoBraces(w: Text) { OPEN !in w && CLOSE !in w }

  lemma {:induction false} NoBracesDepth(w: Text)
    requires NoBraces(w)
    ensures Depth(w) == 0
  {
    if w != [] {
      assert w[|w| - 1] in w;
      NoBracesDepth(w[..|w| - 1]);
    }
  }

  /** Taking a stretch without braces out of a section changes no prefix depth. */
  lemma DropStretch(a: Text, w: Text, b: Text, end: nat)
    requires a != [] && NoBraces(w) && end <= |a + b| + 1
    requires OpenBefore(a + w + b, end + |w|)
    ensures OpenBefore(a + b, end)
    ensures Depth(a + b) == Depth(a + w + b)
  {
    DepthAppend(a, w);
    DepthAppend(a + w, b);
    DepthAppend(a, b);
    NoBracesDepth(w);
    forall n: nat | 0 < n < end ensures Depth((a + b)[..n]) > 0 {
      if n <= |a| {
        assert (a + b)[..n] == a[..n] == (a + w + b)[..n];
      } else {
        var c := b[..n - |a|];
        assert (a + b)[..n] == a + c && (a + w + b)[..n + |w|] == a + w + c;
        DepthAppend(a, c);
        DepthAppend(a + w, c);
      }
    }
  }

  ghost predicate SameKind(t: Text, u: Text) {
    && u != []
    && (Outside(t) <==> Outside(u)) && (Closed(t) ==> Closed(u)) && (Unclosed(t) ==> Unclosed(u))
  }

  lemma DropKeepsKind(a: Text, w: Text, b: Text)
    requires a != [] && a[0] == OPEN && NoBraces(w)
    ensures SameKind(a + w + b, a + b)
  {
    assert a[0] in a + b && a[0] in a + w + b;
    assert (a + w + b)[0] == OPEN && (a + b)[0] == OPEN;
    if Closed(a + w + b) {
      DropStretch(a, w, b, |a + b|);
    }
    if Unclosed(a + w + b) {
      DropStretch(a, w, b, |a + b| + 1);
    }
  }

  // ------------------------------------------------------- printing and re-reading

  predicate AllBlank(s: Text) { forall i :: 0 <= i < |s| ==> Blank(s[i]) }

  lemma BlankHasNoBraces(s: Text)
    requires AllBlank(s)
    ensures NoBraces(s)
  {
  }

  lemma TrimSplit(s: Text) returns (l: Text, r: Text)
    ensures s == l + Trim(s) + r && NoBraces(l) && NoBraces(r)
    ensures s != [] && !Blank(s[0]) ==> l == []
    ensures s != [] && !Blank(s[|s| - 1]) ==> r == [] && Trim(s) != []
  {
    hide TrimLeft, TrimRight;
    var t := TrimLeft(s);
    l, r := s[..|s| - |t|], t[|Trim(s)|..];
    assert s == l + t && t == Trim(s) + r;
    BlankHasNoBraces(l);
    BlankHasNoBraces(r);
  }

  /** The name group without its trailing blanks. */
  lemma NameOf(s: Text)
    requires NameForm(s)
    ensures Trim(s) != [] && NameForm(Trim(s)) && !Blank(s[0])
    ensures COLON !in Trim(s)
  {
    var m :| 0 <= m <= |s| && NameFormAt(s, m);
    assert TrimLeft(s) == s;
    assert |Trim(s)| == m by {
      if |Trim(s)| > m {
        assert Blank(s[|Trim(s)| - 1]);
      } else if |Trim(s)| < m {
        assert NameChar(s[m - 1]) && Blank(s[m - 1]);
      }
    }
    var name := Trim(s);
    assert NameFormAt(name, m);
    assert forall i :: 0 <= i < m ==> NameChar(name[i]);
  }

  predicate GoodName(name: Text) {
    name != [] && Trimmed(name) && NameForm(name) && COLON !in name
  }

  predicate GoodPattern(pattern: Text) {
    pattern != [] && Trimmed(pattern) && forall i :: 0 <= i < |pattern| ==> !LineTerminator(pattern[i])
  }

  predicate GoodVariable(name: Text, pattern: Option<Text>, compiles: Text -> bool) {
    GoodName(name) && (pattern.Some? ==> GoodPattern(pattern.value) && compiles(pattern.value))
  }

  /** The printed part after the name, with the blanks `ws` still in it. */
  function Tail(ws: Text, pattern: Option<Text>): Text {
    if pattern.Some? then [COLON] + ws + pattern.value else []
  }

  lemma PatternInner(x: Text, k: nat) returns (ws: Text)
    requires k + 1 < |x| && x[k] == COLON && Trimmed(x) && forall i :: k < i < |x| ==> !LineTerminator(x[i])
    ensures NoBraces(ws) && GoodPattern(Trim(x[k + 1..])) && x[k..] == Tail(ws, Some(Trim(x[k + 1..])))
  {
    hide Trim, LineTerminator;
    var rest, last := x[k + 1..], x[|x| - 1];
    assert rest[|rest| - 1] == last;
    var ws', r' := TrimSplit(rest);
    ws := ws';
    var pattern := Trim(rest);
    assert rest == ws + pattern;
    forall i | 0 <= i < |pattern| ensures !LineTerminator(pattern[i]) {
      assert pattern[i] == rest[|ws| + i] == x[k + 1 + |ws| + i];
    }
    assert x[k..] == [COLON] + rest;
  }

  /** The trimmed inside of a variable token, cut at the blanks that printing drops. */
  lemma VariableInner(x: Text, name: Text, pattern: Option<Text>) returns (sp: Text, ws: Text)
    requires VariableForm(x) && Trimmed(x)
    requires name == Trim(x[..Seqs.IndexOf(x, COLON)])
    requires Seqs.IndexOf(x, COLON) == |x| ==> pattern == None
    requires Seqs.IndexOf(x, COLON) < |x| ==> pattern == Some(Trim(x[Seqs.IndexOf(x, COLON) + 1..]))
    ensures NoBraces(sp) && NoBraces(ws) && GoodName(name) && (pattern.Some? ==> GoodPattern(pattern.value))
    ensures x == name + sp + Tail(ws, pattern)
  {
    hide Trim, NameForm, LineTerminator, GoodPattern;
    var k := Seqs.IndexOf(x, COLON);
    NameOf(x[..k]);
    var none, sp' := TrimSplit(x[..k]);
    sp, ws := sp', [];
    assert x[..k] == name + sp;
    assert x == x[..k] + x[k..];
    if k < |x| {
      ws := PatternInner(x, k);
      hide VariableForm, NoBraces, GoodName, Tail;
    } else {
      assert x[k..] == [];
    }
  }

  /** What a variable token looks like around its name and pattern. */
  lemma VariableShape(token: Text, name: Text, pattern: Option<Text>, compiles: Text -> bool)
    returns (l: Text, sp: Text, ws: Text, r: Text)
    requires token != [] && Create(token, compiles) == Chunk(Variable(name, pattern))
    ensures NoBraces(l) && NoBraces(sp) && NoBraces(ws) && NoBraces(r)
    ensures GoodVariable(name, pattern, compiles)
    ensures token == [OPEN] + (l + (name + sp + Tail(ws, pattern)) + r) + [CLOSE]
  {
    hide Trim, NameForm, VariableForm, Trimmed, NoBraces, GoodName, GoodPattern, Tail;
    var inner := StripBraces(token);
    l, r := TrimSplit(inner);
    sp, ws := VariableInner(Trim(inner), name, pattern);
    assert token == [OPEN] + inner + [CLOSE];
  }

  lemma InnerForm(name: Text, pattern: Option<Text>, compiles: Text -> bool)
    requires GoodVariable(name, pattern, compiles)
    ensures var y := Inner(name, pattern);
            && VariableForm(y) && Trimmed(y) && Seqs.IndexOf(y, COLON) == |name| && y[..|name|] == name
            && (pattern.Some? ==> |name| < |y| && y[|name| + 1..] == pattern.value)
            && (pattern.None? ==> |name| == |y|)
  {
    hide NameForm;
    var y := Inner(name, pattern);
    assert y[..|name|] == name;
    Seqs.IndexOfIs(y, COLON, |name|);
    if pattern.Some? {
      assert y[|name| + 1..] == pattern.value;
      assert forall i :: |name| < i < |y| ==> y[i] == pattern.value[i - |name| - 1];
    }
  }

  lemma PrintedIsReadBack(name: Text, pattern: Option<Text>, compiles: Text -> bool)
    requires GoodVariable(name, pattern, compiles)
    ensures Print(Variable(name, pattern)) != []
    ensures Create(Print(Variable(name, pattern)), compiles) == Chunk(Variable(name, pattern))
  {
    hide NameForm, VariableForm, Trim, LineTerminator;
    var token, y := Print(Variable(name, pattern)), Inner(name, pattern);
    assert StripBraces(token) == y;
    InnerForm(name, pattern, compiles);
  }

  lemma PrintedKind(token: Text, name: Text, pattern: Option<Text>, l: Text, sp: Text, ws: Text, r: Text)
    requires NoBraces(l) && NoBraces(sp) && NoBraces(ws) && NoBraces(r)
    requires token == [OPEN] + (l + (name + sp + Tail(ws, pattern)) + r) + [CLOSE]
    ensures SameKind(token, Print(Variable(name, pattern)))
  {
    hide SameKind, NoBraces;
    var rest := Tail(ws, pattern);
    var t0, t1 := [OPEN] + l + (name + sp + rest + r + [CLOSE]), [OPEN] + (name + sp + rest + r + [CLOSE]);
    DropKeepsKind([OPEN], l, name + sp + rest + r + [CLOSE]);
    var u1, u2 := ([OPEN] + name + sp + rest) + r + [CLOSE], ([OPEN] + name + sp + rest) + [CLOSE];
    DropKeepsKind([OPEN] + name + sp + rest, r, [CLOSE]);
    var v2, v3 := ([OPEN] + name) + sp + (rest + [CLOSE]), ([OPEN] + name) + (rest + [CLOSE]);
    DropKeepsKind([OPEN] + name, sp, rest + [CLOSE]);
    assert token == t0 && t1 == u1 && u2 == v2;
    SameKindTransitive(t0, t1, u2);
    SameKindTransitive(t0, u2, v3);
    if pattern.Some? {
      PrintedPatternKind(name, pattern.value, ws);
      assert v3 == ([OPEN] + name + [COLON]) + ws + (pattern.value + [CLOSE]);
      SameKindTransitive(t0, v3, Print(Variable(name, pattern)));
    } else {
      assert v3 == Print(Variable(name, pattern));
    }
  }

  lemma PrintedPatternKind(name: Text, pattern: Text, ws: Text)
    requires NoBraces(ws)
    ensures SameKind(([OPEN] + name + [COLON]) + ws + (pattern + [CLOSE]), Print(Variable(name, Some(pattern))))
  {
    hide SameKind, NoBraces;
    DropKeepsKind([OPEN] + name + [COLON], ws, pattern + [CLOSE]);
    assert ([OPEN] + name + [COLON]) + (pattern + [CLOSE]) == Print(Variable(name, Some(pattern)));
  }

  lemma SameKindTransitive(t: Text, u: Text, v: Text)
    requires SameKind(t, u) && SameKind(u, v)
    ensures SameKind(t, v)
  {
  }

  lemma PrintedChunk(token: Text, chunk: Chunk, compiles: Text -> bool)
    requires token != [] && Create(token, compiles) == Chunk(chunk)
    ensures SameKind(token, Print(chunk)) && Create(Print(chunk), compiles) == Chunk(chunk)
  {
    if chunk.Variable? {
      var l, sp, ws, r := VariableShape(token, chunk.name, chunk.pattern, compiles);
      PrintedIsReadBack(chunk.name, chunk.pattern, compiles);
      PrintedKind(token, chunk.name, chunk.pattern, l, sp, ws, r);
    }
  }

  /** `chunks` is what the constructor reads from the string `s`. */
  ghost predicate Reads(s: Text, chunks: seq<Chunk>, compiles: Text -> bool) {
    exists tokens :: ReadsFrom(s, tokens, chunks, compiles)
  }

  ghost predicate ReadsFrom(s: Text, tokens: seq<Text>, chunks: seq<Chunk>, compiles: Text -> bool) {
    && Tokenization(tokens, s) && |tokens| == |chunks|
    && forall i: nat :: i < |tokens| ==> tokens[i] != [] && Create(tokens[i], compiles) == Chunk(chunks[i])
  }

  /** Chunks are determined by the string. */
  lemma ReadsUnique(s: Text, a: seq<Chunk>, b: seq<Chunk>, compiles: Text -> bool)
    requires Reads(s, a, compiles) && Reads(s, b, compiles)
    ensures a == b
  {
    var ta :| ReadsFrom(s, ta, a, compiles);
    var tb :| ReadsFrom(s, tb, b, compiles);
    TokenizationUnique(ta, tb, s);
    assert forall i: nat :: i < |ta| ==> Create(ta[i], compiles) == Chunk(a[i]) == Chunk(b[i]);
  }

  /** Printing the chunks of a template and reading the print gives the same chunks again, and no others. */
  lemma PrintedTemplateReadsTheSame(s: Text, chunks: seq<Chunk>, compiles: Text -> bool)
    requires Reads(s, chunks, compiles)
    ensures Reads(Concat(PrintAll(chunks)), chunks, compiles)
    ensures forall other :: Reads(Concat(PrintAll(chunks)), other, compiles) ==> other == chunks
  {
    var tokens :| ReadsFrom(s, tokens, chunks, compiles);
    var parts := PrintAll(chunks);
    forall i: nat | i < |parts|
      ensures SameKind(tokens[i], parts[i]) && Create(parts[i], compiles) == Chunk(chunks[i])
    {
      PrintedChunk(tokens[i], chunks[i], compiles);
    }
    forall i: nat | i < |parts| ensures TokenAt(parts, i) {
      assert TokenAt(tokens, i);
      assert SameKind(tokens[i], parts[i]);
      if i + 1 < |parts| {
        assert SameKind(tokens[i + 1], parts[i + 1]);
      }
    }
    assert ReadsFrom(Concat(parts), parts, chunks, compiles);
    forall other | Reads(Concat(parts), other, compiles) ensures other == chunks {
      ReadsUnique(Concat(parts), other, chunks, compiles);
    }
  }
}
