/** What decides whether a route matches, and what its key compares. */
module RouteMatching {
  import opened Options
  import opened Text
  import opened UriChunks
  import opened UriTemplate
  import opened Routing
  import Seqs

  // ------------------------------------------------------------------------- verbs

  lemma SameVerb(a: Text, b: Text, c: Text)
    requires EqualsIgnoreCase(a, b)
    ensures EqualsIgnoreCase(b, a) && EqualsIgnoreCase(a, a)
    ensures EqualsIgnoreCase(a, c) <==> EqualsIgnoreCase(b, c)
  {
  }

  lemma SameWildcard(a: Text, b: Text)
    requires EqualsIgnoreCase(a, b)
    ensures IsWildcardMethod(a) <==> IsWildcardMethod(b)
  {
    SameVerb(a, b, ALL);
    if a == ['*' as int] || b == ['*' as int] {
      assert Lower(a[0]) == Lower(b[0]);
    }
  }

  /** The letter case of the verbs does not matter, on either side. */
  lemma VerbCaseIsIgnored(route: Route, request: Request, routeVerb: Text, requestVerb: Text, matcher: Matcher)
    requires route.verb.Some? && EqualsIgnoreCase(route.verb.value, routeVerb)
    requires request.verb.Some? && EqualsIgnoreCase(request.verb.value, requestVerb)
    ensures IsMatch(route.(verb := Some(routeVerb)), request.(verb := Some(requestVerb)), matcher)
       <==> IsMatch(route, request, matcher)
  {
    SameWildcard(route.verb.value, routeVerb);
    SameWildcard(request.verb.value, requestVerb);
    SameVerb(route.verb.value, routeVerb, request.verb.value);
    SameVerb(request.verb.value, requestVerb, routeVerb);
    SameVerb(request.verb.value, requestVerb, route.verb.value);
    hide EqualsIgnoreCase, IsWildcardMethod;
    assert MethodsMatch(routeVerb, requestVerb) <==> MethodsMatch(route.verb.value, request.verb.value);
  }

  /** A wildcard verb, on either side, stands for any verb there is. */
  lemma WildcardMatchesAnyVerb(route: Route, request: Request, verb: Text, matcher: Matcher)
    requires route.verb.Some? && IsWildcardMethod(route.verb.value) && request.verb.Some?
    ensures IsMatch(route, request, matcher) <==> IsMatch(route, request.(verb := Some(verb)), matcher)
  {
  }

  /** The answers of a table match. */
  lemma AnswersMatch(filled: seq<Route>, late: seq<Route>, request: Request, matcher: Matcher)
    ensures var answer := Lookup(filled, late, request, matcher);
      answer.Some? ==> IsMatch(answer.value, request, matcher)
  {
    hide IsMatch;
    BestIsGreatest(filled, request, matcher);
    FirstMatchIsMatch(late, request, matcher);
  }

  /** A route with another verb that is no wildcard never answers. */
  lemma OtherVerbNeverAnswers(filled: seq<Route>, late: seq<Route>, route: Route, request: Request, matcher: Matcher)
    requires route.verb.Some? && request.verb.Some? && !EqualsIgnoreCase(route.verb.value, request.verb.value)
    requires !IsWildcardMethod(route.verb.value) && !IsWildcardMethod(request.verb.value)
    ensures !IsMatch(route, request, matcher) && Lookup(filled, late, request, matcher) != Some(route)
  {
    AnswersMatch(filled, late, request, matcher);
    if EqualsIgnoreCase(request.verb.value, route.verb.value) {
      SameVerb(request.verb.value, route.verb.value, request.verb.value);
    }
  }

  // -------------------------------------------------------------------- properties

  /** Properties of a request that the route does not name change nothing. */
  lemma ExtraPropertiesAreIgnored(route: Route, request: Request, properties: map<Text, Text>, matcher: Matcher)
    requires forall key :: key in route.properties ==>
               ValueOr(properties, key) == ValueOr(request.properties, key)
    ensures IsMatch(route, request.(properties := properties), matcher) <==> IsMatch(route, request, matcher)
  {
  }

  /** A property the route names must have its value, up to letter case and the blanks around the route's. */
  lemma PropertyMustAgree(route: Route, request: Request, key: Text, matcher: Matcher)
    requires key in route.properties && IsMatch(route, request, matcher)
    ensures if key in request.properties then EqualsIgnoreCase(request.properties[key], Trim(route.properties[key]))
            else Trim(route.properties[key]) == []
  {
    assert EqualsIgnoreCase(ValueOr(request.properties, key), Trim(route.properties[key]));
  }

  /** A route matches its own path under its own verb, whatever its template makes of it. */
  lemma OwnPathMatches(route: Route, properties: map<Text, Text>, matcher: Matcher)
    requires route.verb.Some? && route.path.Some?
    requires forall key :: key in route.properties ==>
               key in properties && properties[key] == Trim(route.properties[key])
    ensures IsMatch(route, Request(route.verb, route.path, properties), matcher)
  {
    assert EqualsIgnoreCase(route.verb.value, route.verb.value);
    forall key | key in route.properties
      ensures EqualsIgnoreCase(ValueOr(properties, key), Trim(route.properties[key]))
    {
    }
  }

  // -------------------------------------------------------------------------- keys

  /** The literals of a template, in encoded form. */
  function LiteralText(chunks: seq<Chunk>): Text {
    if chunks == [] then []
    else
      var n := |chunks| - 1;
      LiteralText(chunks[..n]) + if chunks[n].Literal? then Encoded(chunks[n].value) else []
  }

  lemma {:induction false} EscapeParts(s: Text, t: Text)
    ensures Escape(s + t) == Escape(s) + Escape(t)
  {
    hide ReservedCharacter;
    if s == [] {
      assert s + t == t;
    } else {
      Seqs.AppendDrop(s, t, 1);
      EscapeParts(s[1..], t);
      Seqs.Assoc(if ReservedCharacter(s[0]) then [BACKSLASH, s[0]] else [s[0]], Escape(s[1..]), Escape(t));
    }
  }

  lemma {:induction false} KeyIsEscapedLiterals(chunks: seq<Chunk>)
    ensures LiteralChars(chunks) == Escape(LiteralText(chunks))
    decreases |chunks|
  {
    hide Encoded, Escape, FlatMap;
    if chunks == [] {
      NothingEscaped();
    } else {
      var n := |chunks| - 1;
      KeyIsEscapedLiterals(chunks[..n]);
      assert chunks[..n] + [chunks[n]] == chunks;
      FlatMapAppend(LiteralPart, chunks[..n], chunks[n]);
      var last := if chunks[n].Literal? then Encoded(chunks[n].value) else [];
      EscapeParts(LiteralText(chunks[..n]), last);
      NothingEscaped();
    }
  }

  lemma NothingEscaped()
    ensures Escape([]) == [] && LiteralChars([]) == []
  {
  }

  lemma {:induction false} LiteralTextIsEncoded(chunks: seq<Chunk>)
    ensures forall i :: 0 <= i < |LiteralText(chunks)| ==> EncodedChar(LiteralText(chunks)[i])
    decreases |chunks|
  {
    hide Encoded, EncodedChar;
    if chunks != [] {
      var n := |chunks| - 1;
      LiteralTextIsEncoded(chunks[..n]);
      if chunks[n].Literal? {
        EncodedLiteralChars(chunks[n].value);
      }
    }
  }

  /** No two encoded texts have one escaped form. */
  lemma {:induction false} EscapeIsInjective(s: Text, t: Text)
    requires (forall i :: 0 <= i < |s| ==> EncodedChar(s[i])) && (forall i :: 0 <= i < |t| ==> EncodedChar(t[i]))
    requires Escape(s) == Escape(t)
    ensures s == t
  {
    hide EncodedChar, ReservedCharacter;
    if s != [] && t != [] {
      EscapeListIsEnough(s[0]);
      EscapeListIsEnough(t[0]);
      EscapedFirst(s);
      EscapedFirst(t);
      EscapeIsInjective(s[1..], t[1..]);
      assert s == [s[0]] + s[1..] && t == [t[0]] + t[1..];
    }
  }

  lemma EscapedFirst(s: Text)
    requires s != [] && s[0] != BACKSLASH
    ensures Escape(s) != []
    ensures ReservedCharacter(s[0]) <==> Escape(s)[0] == BACKSLASH
    ensures ReservedCharacter(s[0]) ==> |Escape(s)| >= 2 && Escape(s)[1] == s[0] && Escape(s)[2..] == Escape(s[1..])
    ensures !ReservedCharacter(s[0]) ==> Escape(s)[0] == s[0] && Escape(s)[1..] == Escape(s[1..])
  {
  }

  /** Two templates have the same key exactly when their encoded literals, put together, are the same. */
  lemma SameKeyIffSameLiterals(a: Route, b: Route)
    requires Built(a.template) && Built(b.template)
    ensures a.Key() == b.Key() <==> LiteralText(a.template.chunks) == LiteralText(b.template.chunks)
  {
    KeyIsEscapedLiterals(a.template.chunks);
    KeyIsEscapedLiterals(b.template.chunks);
    LiteralTextIsEncoded(a.template.chunks);
    LiteralTextIsEncoded(b.template.chunks);
    if a.Key() == b.Key() {
      EscapeIsInjective(LiteralText(a.template.chunks), LiteralText(b.template.chunks));
    }
  }

  /** A template whose encoded literals extend those of another has the greater key. */
  lemma LongerLiteralsAreGreater(a: Route, b: Route, more: Text)
    requires Built(a.template) && Built(b.template) && more != []
    requires LiteralText(b.template.chunks) == LiteralText(a.template.chunks) + more
    ensures NotAbove(a.Key(), b.Key()) && !NotAbove(b.Key(), a.Key())
  {
    KeyIsEscapedLiterals(a.template.chunks);
    KeyIsEscapedLiterals(b.template.chunks);
    EscapeParts(LiteralText(a.template.chunks), more);
    ExtensionIsGreater(a.Key(), Escape(more));
  }

  /** So of two routes that match, the one with the longer literals answers, if no other route exceeds it. */
  lemma LongerLiteralsAnswer(routes: seq<Route>, a: Route, b: Route, more: Text, request: Request, matcher: Matcher)
    requires a in routes && b in routes && Built(a.template) && Built(b.template) && more != []
    requires LiteralText(b.template.chunks) == LiteralText(a.template.chunks) + more
    requires IsMatch(b, request, matcher)
    ensures Lookup(routes, [], request, matcher).Some? && Lookup(routes, [], request, matcher) != Some(a)
  {
    hide IsMatch;
    BestIsGreatest(routes, request, matcher);
    LongerLiteralsAreGreater(a, b, more);
  }
}
