/** `DefaultRoutingTable`, `RouteSupport.isMatch` and the route map of `ScriptObject`. */
module Routing {
  import opened Options
  import opened Text
  import opened UriChunks
  import opened UriTemplate
  import Seqs

  // ------------------------------------------------------------- String.compareTo

  /** Code units compared from the left; a proper prefix comes first. */
  predicate NotAbove(a: Text, b: Text) {
    a == [] || (b != [] && (a[0] < b[0] || (a[0] == b[0] && NotAbove(a[1..], b[1..]))))
  }

  lemma {:induction false} OrderIsTotal(a: Text, b: Text)
    ensures NotAbove(a, b) || NotAbove(b, a)
    ensures NotAbove(a, b) && NotAbove(b, a) <==> a == b
  {
    if a != [] && b != [] {
      OrderIsTotal(a[1..], b[1..]);
      assert a == [a[0]] + a[1..] && b == [b[0]] + b[1..];
    }
  }

  lemma {:induction false} OrderIsTransitive(a: Text, b: Text, c: Text)
    requires NotAbove(a, b) && NotAbove(b, c)
    ensures NotAbove(a, c)
  {
    if a != [] && a[0] == b[0] == c[0] {
      OrderIsTransitive(a[1..], b[1..], c[1..]);
    }
  }

  /** A literal that extends another one is the greater of the two. */
  lemma {:induction false} ExtensionIsGreater(a: Text, more: Text)
    requires more != []
    ensures NotAbove(a, a + more) && !NotAbove(a + more, a)
  {
    if a != [] {
      assert (a + more)[1..] == a[1..] + more;
      ExtensionIsGreater(a[1..], more);
    }
  }

  // -------------------------------------------------------------------- matching

  /** A route with its compiled template; the processing key is the literal text of the template. */
  datatype Route = Route(verb: Option<Text>, path: Option<Text>, properties: map<Text, Text>, template: Template) {
    function Key(): Text { template.literals }
  }

  datatype Request = Request(verb: Option<Text>, url: Option<Text>, properties: map<Text, Text>)

  /** ASCII part of `equalsIgnoreCase`. */
  function Lower(c: CodeUnit): CodeUnit { if 'A' as int <= c <= 'Z' as int then c + 32 else c }

  predicate EqualsIgnoreCase(a: Text, b: Text) {
    |a| == |b| && forall i :: 0 <= i < |a| ==> Lower(a[i]) == Lower(b[i])
  }

  const ALL: Text := ['a' as int, 'l' as int, 'l' as int]

  predicate IsWildcardMethod(verb: Text) { verb == ['*' as int] || EqualsIgnoreCase(verb, ALL) }

  predicate MethodsMatch(method1: Text, method2: Text) {
    IsWildcardMethod(method2) || IsWildcardMethod(method1) || EqualsIgnoreCase(method2, method1)
  }

  function ValueOr(properties: map<Text, Text>, key: Text): Text { if key in properties then properties[key] else [] }

  predicate PropertiesMatch(routeProperties: map<Text, Text>, requestProperties: map<Text, Text>) {
    forall key | key in routeProperties ::
      EqualsIgnoreCase(ValueOr(requestProperties, key), Trim(routeProperties[key]))
  }

  /** `template.match(url)`: a parameter, so that templates with custom patterns are covered. */
  type Matcher = (Template, Text) -> bool

  predicate IsMatch(route: Route, request: Request, matcher: Matcher) {
    && request.verb.Some? && request.url.Some? && route.verb.Some? && route.path.Some?
    && MethodsMatch(route.verb.value, request.verb.value)
    && PropertiesMatch(route.properties, request.properties)
    && (route.path.value == request.url.value || matcher(route.template, request.url.value))
  }

  function FirstMatch(routes: seq<Route>, request: Request, matcher: Matcher): Option<Route> {
    if routes == [] then None
    else if IsMatch(routes[0], request, matcher) then Some(routes[0])
    else FirstMatch(routes[1..], request, matcher)
  }

  // --------------------------------------------------------------------- sorting

  /** Behind every route whose key is not smaller: descending and stable, as `List.sort` is. */
  function Insert(route: Route, sorted: seq<Route>): seq<Route> {
    if sorted != [] && NotAbove(route.Key(), sorted[0].Key()) then [sorted[0]] + Insert(route, sorted[1..])
    else [route] + sorted
  }

  function StableSort(routes: seq<Route>): seq<Route> {
    if routes == [] then [] else Insert(routes[|routes| - 1], StableSort(routes[..|routes| - 1]))
  }

  predicate Descending(routes: seq<Route>) {
    forall i, j :: 0 <= i < j < |routes| ==> NotAbove(routes[j].Key(), routes[i].Key())
  }

  lemma {:induction false} InsertKeepsAll(route: Route, sorted: seq<Route>)
    ensures multiset(Insert(route, sorted)) == multiset(sorted) + multiset{route}
  {
    hide NotAbove;
    if sorted != [] {
      assert sorted == [sorted[0]] + sorted[1..];
      InsertKeepsAll(route, sorted[1..]);
    }
  }

  lemma {:induction false} InsertDescending(route: Route, sorted: seq<Route>)
    requires Descending(sorted)
    ensures Descending(Insert(route, sorted))
    ensures forall i :: 0 <= i < |Insert(route, sorted)| ==>
              Insert(route, sorted)[i] == route || Insert(route, sorted)[i] in sorted
  {
    hide NotAbove;
    if sorted != [] {
      assert sorted == [sorted[0]] + sorted[1..];
      OrderIsTotal(route.Key(), sorted[0].Key());
      if NotAbove(route.Key(), sorted[0].Key()) {
        InsertDescending(route, sorted[1..]);
      } else {
        forall i | 0 <= i < |sorted| ensures NotAbove(sorted[i].Key(), route.Key()) {
          if i > 0 {
            OrderIsTransitive(sorted[i].Key(), sorted[0].Key(), route.Key());
          }
        }
      }
    }
  }

  /** The sort orders by key, and keeps every route. */
  lemma {:induction false} StableSortSorts(routes: seq<Route>)
    ensures Descending(StableSort(routes)) && multiset(StableSort(routes)) == multiset(routes)
  {
    if routes != [] {
      var init := routes[..|routes| - 1];
      StableSortSorts(init);
      InsertDescending(routes[|routes| - 1], StableSort(init));
      InsertKeepsAll(routes[|routes| - 1], StableSort(init));
      assert routes == init + [routes[|routes| - 1]];
    }
  }

  /** Routes with the same key keep the order in which they were added. */
  lemma {:induction false} StableSortIsStable(routes: seq<Route>, key: Text)
    ensures WithKey(StableSort(routes), key) == WithKey(routes, key)
  {
    hide Insert, Descending, NotAbove;
    if routes != [] {
      var init, last := routes[..|routes| - 1], routes[|routes| - 1];
      StableSortIsStable(init, key);
      StableSortSorts(init);
      InsertIsStable(last, StableSort(init), key);
      WithKeyAppend(init, last, key);
      assert routes == init + [last];
    }
  }

  function WithKey(routes: seq<Route>, key: Text): seq<Route> {
    if routes == [] then []
    else (if routes[0].Key() == key then [routes[0]] else []) + WithKey(routes[1..], key)
  }

  lemma {:induction false} WithKeyAppend(routes: seq<Route>, route: Route, key: Text)
    ensures WithKey(routes + [route], key) == WithKey(routes, key) + if route.Key() == key then [route] else []
  {
    if routes == [] {
      assert WithKey([route], key) == (if route.Key() == key then [route] else []) + WithKey([], key);
    } else {
      var head := if routes[0].Key() == key then [routes[0]] else [];
      Seqs.AppendDrop(routes, [route], 1);
      WithKeyAppend(routes[1..], route, key);
      Seqs.Assoc(head, WithKey(routes[1..], key), if route.Key() == key then [route] else []);
    }
  }

  lemma {:induction false} InsertIsStable(route: Route, sorted: seq<Route>, key: Text)
    requires Descending(sorted)
    ensures WithKey(Insert(route, sorted), key) == WithKey(sorted, key) + if route.Key() == key then [route] else []
  {
    hide NotAbove;
    if sorted != [] && NotAbove(route.Key(), sorted[0].Key()) {
      InsertIsStable(route, sorted[1..], key);
    } else if route.Key() == key {
      assert WithKey(sorted, key) == [] by {
        NoneWithKey(route, sorted);
      }
    }
  }

  lemma {:induction false} NoneWithKey(route: Route, sorted: seq<Route>)
    requires Descending(sorted) && (sorted != [] ==> !NotAbove(route.Key(), sorted[0].Key()))
    ensures WithKey(sorted, route.Key()) == []
  {
    if sorted != [] {
      OrderIsTotal(route.Key(), sorted[0].Key());
      if |sorted| > 1 && NotAbove(route.Key(), sorted[1].Key()) {
        OrderIsTransitive(route.Key(), sorted[1].Key(), sorted[0].Key());
      }
      NoneWithKey(route, sorted[1..]);
    }
  }

  // ------------------------------------------------------------- the best match

  /** The match with the greatest key, the earliest added among equals: one pass, no sorting. */
  function Best(routes: seq<Route>, request: Request, matcher: Matcher): Option<Route> {
    if routes == [] then None
    else
      var best, last := Best(routes[..|routes| - 1], request, matcher), routes[|routes| - 1];
      if IsMatch(last, request, matcher) && (best.None? || !NotAbove(last.Key(), best.value.Key())) then Some(last)
      else best
  }

  lemma {:induction false} FirstMatchOfInsert(route: Route, sorted: seq<Route>, request: Request, matcher: Matcher)
    requires Descending(sorted)
    ensures var first := FirstMatch(sorted, request, matcher);
            FirstMatch(Insert(route, sorted), request, matcher)
            == (if IsMatch(route, request, matcher) && (first.None? || !NotAbove(route.Key(), first.value.Key()))
                then Some(route) else first)
  {
    hide IsMatch;
    var first := FirstMatch(sorted, request, matcher);
    if sorted != [] && NotAbove(route.Key(), sorted[0].Key()) {
      FirstMatchOfInsert(route, sorted[1..], request, matcher);
    } else {
      assert ([route] + sorted)[1..] == sorted;
      if first.Some? && NotAbove(route.Key(), first.value.Key()) {
        FirstMatchNotAboveHead(sorted, request, matcher);
        OrderIsTransitive(route.Key(), first.value.Key(), sorted[0].Key());
      }
    }
  }

  lemma FirstMatchNotAboveHead(sorted: seq<Route>, request: Request, matcher: Matcher)
    requires Descending(sorted) && FirstMatch(sorted, request, matcher).Some?
    ensures sorted != [] && NotAbove(FirstMatch(sorted, request, matcher).value.Key(), sorted[0].Key())
  {
    FirstMatchIsIn(sorted, request, matcher);
    OrderIsTotal(sorted[0].Key(), sorted[0].Key());
  }

  lemma {:induction false} FirstMatchIsIn(routes: seq<Route>, request: Request, matcher: Matcher)
    ensures FirstMatch(routes, request, matcher).Some? ==> FirstMatch(routes, request, matcher).value in routes
  {
    if routes != [] {
      FirstMatchIsIn(routes[1..], request, matcher);
    }
  }

  /** Scanning the sorted list finds the best match of the unsorted one. */
  lemma {:induction false} ScanOfSortedIsBest(routes: seq<Route>, request: Request, matcher: Matcher)
    ensures FirstMatch(StableSort(routes), request, matcher) == Best(routes, request, matcher)
  {
    if routes != [] {
      var init := routes[..|routes| - 1];
      ScanOfSortedIsBest(init, request, matcher);
      StableSortSorts(init);
      FirstMatchOfInsert(routes[|routes| - 1], StableSort(init), request, matcher);
    }
  }

  /** `Best` in words: no match means no route matches; otherwise nothing that matches has a greater key. */
  lemma {:induction false} BestIsGreatest(routes: seq<Route>, request: Request, matcher: Matcher)
    ensures var best := Best(routes, request, matcher);
            if best.None? then forall r :: r in routes ==> !IsMatch(r, request, matcher)
            else
              && best.value in routes && IsMatch(best.value, request, matcher)
              && forall r :: r in routes && IsMatch(r, request, matcher) ==> NotAbove(r.Key(), best.value.Key())
  {
    hide IsMatch;
    if routes != [] {
      var init, last := routes[..|routes| - 1], routes[|routes| - 1];
      var before, best := Best(init, request, matcher), Best(routes, request, matcher);
      BestIsGreatest(init, request, matcher);
      assert routes == init + [last];
      forall r | r in routes && IsMatch(r, request, matcher) ensures NotAbove(r.Key(), best.value.Key()) {
        OrderIsTotal(last.Key(), r.Key());
        if r in init {
          OrderIsTotal(last.Key(), before.value.Key());
          if best == Some(last) {
            OrderIsTransitive(r.Key(), before.value.Key(), last.Key());
          }
        }
      }
    }
  }

  // ----------------------------------------------------------------- the table

  /** What a lookup answers: routes added after the first lookup only count when no earlier one matches. */
  function Lookup(filled: seq<Route>, late: seq<Route>, request: Request, matcher: Matcher): Option<Route> {
    if Best(filled, request, matcher).Some? then Best(filled, request, matcher)
    else FirstMatch(late, request, matcher)
  }

  lemma {:induction false} FirstMatchAppend(a: seq<Route>, b: seq<Route>, request: Request, matcher: Matcher)
    ensures FirstMatch(a + b, request, matcher)
         == if FirstMatch(a, request, matcher).Some? then FirstMatch(a, request, matcher)
            else FirstMatch(b, request, matcher)
  {
    if a == [] {
      assert a + b == b;
    } else {
      assert (a + b)[1..] == a[1..] + b;
      FirstMatchAppend(a[1..], b, request, matcher);
    }
  }

  class RoutingTable {
    var routeDetails: Option<seq<Route>>
    var routesSorted: bool
    /** The routes there were at the first lookup, in the order they were added, and those added since. */
    ghost var filled: seq<Route>
    ghost var late: seq<Route>

    ghost predicate Valid()
      reads this
    {
      && (routeDetails.None? ==> filled == [] && late == [])
      && (routeDetails.Some? ==> routeDetails.value == (if routesSorted then StableSort(filled) else filled) + late)
      && (!routesSorted ==> late == [])
    }

    constructor ()
      ensures Valid() && filled == [] && late == [] && !routesSorted && routeDetails.None?
    {
      routeDetails, routesSorted, filled, late := None, false, [], [];
    }

    method AddRouteDetails(route: Route)
      requires Valid()
      modifies this
      ensures Valid() && routesSorted == old(routesSorted)
      ensures if routesSorted then filled == old(filled) && late == old(late) + [route]
              else filled == old(filled) + [route] && late == []
    {
      if routeDetails.None? {
        routeDetails := Some([]);
      }
      routeDetails := Some(routeDetails.value + [route]);
      if routesSorted {
        late := late + [route];
      } else {
        filled := filled + [route];
      }
    }

    /** The first lookup on a list sorts it in place; all of them answer the same question the same way. */
    method FindMatch(request: Request, matcher: Matcher) returns (match_: Option<Route>)
      requires Valid()
      modifies this
      ensures Valid() && filled == old(filled) && late == old(late)
      ensures match_ == Lookup(filled, late, request, matcher)
    {
      if routeDetails.None? {
        return None;
      }
      if !routesSorted {
        assert filled + [] == filled;
        routeDetails := Some(StableSort(routeDetails.value));
        routesSorted := true;
      }
      var routes := routeDetails.value;
      assert routes[0..] == routes;
      for i := 0 to |routes|
        invariant FirstMatch(routes, request, matcher) == FirstMatch(routes[i..], request, matcher)
        invariant routesSorted && Valid() && routeDetails == Some(routes) && filled == old(filled) && late == old(late)
      {
        assert routes[i..][0] == routes[i] && routes[i..][1..] == routes[i + 1..];
        if IsMatch(routes[i], request, matcher) {
          LookupIsScan(filled, late, request, matcher);
          return Some(routes[i]);
        }
      }
      LookupIsScan(filled, late, request, matcher);
      match_ := None;
    }
  }

  lemma LookupIsScan(filled: seq<Route>, late: seq<Route>, request: Request, matcher: Matcher)
    ensures FirstMatch(StableSort(filled) + late, request, matcher) == Lookup(filled, late, request, matcher)
  {
    ScanOfSortedIsBest(filled, request, matcher);
    FirstMatchAppend(StableSort(filled), late, request, matcher);
  }

  /** The answer that matches with the greatest literal text of all routes, or no answer and no match. */
  ghost predicate Greatest(answer: Option<Route>, routes: seq<Route>, request: Request, matcher: Matcher) {
    if answer.None? then forall r :: r in routes ==> !IsMatch(r, request, matcher)
    else
      && answer.value in routes && IsMatch(answer.value, request, matcher)
      && forall r :: r in routes && IsMatch(r, request, matcher) ==> NotAbove(r.Key(), answer.value.Key())
  }

  /**
   * A route added after the first lookup leaves the answer to a request the greatest one exactly when it was,
   * and the route does not match the request, or nothing did before, or its literal text is no greater than
   * that of the answer so far. The answer changes only from none to the new route.
   */
  lemma LateAddition(filled: seq<Route>, late: seq<Route>, route: Route, request: Request, matcher: Matcher)
    ensures var before := Lookup(filled, late, request, matcher);
            var after := Lookup(filled, late + [route], request, matcher);
      && (Greatest(after, filled + (late + [route]), request, matcher) <==>
            && Greatest(before, filled + late, request, matcher)
            && (!IsMatch(route, request, matcher) || before.None? || NotAbove(route.Key(), before.value.Key())))
      && after == if before.None? && IsMatch(route, request, matcher) then Some(route) else before
  {
    hide IsMatch, Best;
    FirstMatchAppend(late, [route], request, matcher);
    FirstMatchIsMatch(late, request, matcher);
    BestIsGreatest(filled, request, matcher);
    assert [route][1..] == [];
    assert FirstMatch([route], request, matcher) == if IsMatch(route, request, matcher) then Some(route) else None;
    OrderIsTotal(route.Key(), route.Key());
    forall r ensures r in filled + (late + [route]) <==> r in filled + late || r == route {}
  }

  /** So the answers of a table stay the greatest while no late route exceeds the answer it finds. */
  lemma {:induction false} LateRoutes(filled: seq<Route>, late: seq<Route>, request: Request, matcher: Matcher)
    ensures Greatest(Lookup(filled, late, request, matcher), filled + late, request, matcher)
       <==> forall i :: 0 <= i < |late| ==> Unexceeded(filled, late, i, request, matcher)
    decreases |late|
  {
    hide IsMatch, Best, Greatest;
    if late == [] {
      assert filled + late == filled;
      FilledBeforeLookup(filled, request, matcher);
    } else {
      var n := |late| - 1;
      LateRoutes(filled, late[..n], request, matcher);
      LateAddition(filled, late[..n], late[n], request, matcher);
      assert late[..n] + [late[n]] == late;
      assert Unexceeded(filled, late, n, request, matcher)
        <==> (var before := Lookup(filled, late[..n], request, matcher);
              !IsMatch(late[n], request, matcher) || before.None? || NotAbove(late[n].Key(), before.value.Key()));
      hide Lookup;
      forall i | 0 <= i < n
        ensures Unexceeded(filled, late, i, request, matcher) <==> Unexceeded(filled, late[..n], i, request, matcher)
      {
        assert late[..n][..i] == late[..i];
      }
      hide Unexceeded;
      if forall i :: 0 <= i < n ==> Unexceeded(filled, late[..n], i, request, matcher) {
        assert forall i :: 0 <= i < n ==> Unexceeded(filled, late, i, request, matcher);
      } else {
        var i :| 0 <= i < n && !Unexceeded(filled, late[..n], i, request, matcher);
        assert !Unexceeded(filled, late, i, request, matcher);
      }
    }
  }

  /** When `late[i]` is added it does not match, or finds no answer before it, or none that it exceeds. */
  ghost predicate Unexceeded(filled: seq<Route>, late: seq<Route>, i: nat, request: Request, matcher: Matcher)
    requires i < |late|
  {
    var before := Lookup(filled, late[..i], request, matcher);
    !IsMatch(late[i], request, matcher) || before.None? || NotAbove(late[i].Key(), before.value.Key())
  }

  /** For a table filled before its first lookup the answer is the match with the greatest literal text. */
  lemma FilledBeforeLookup(filled: seq<Route>, request: Request, matcher: Matcher)
    ensures Greatest(Lookup(filled, [], request, matcher), filled, request, matcher)
  {
    hide IsMatch;
    BestIsGreatest(filled, request, matcher);
  }

  lemma {:induction false} FirstMatchIsMatch(routes: seq<Route>, request: Request, matcher: Matcher)
    ensures var first := FirstMatch(routes, request, matcher);
            if first.None? then forall r :: r in routes ==> !IsMatch(r, request, matcher)
            else first.value in routes && IsMatch(first.value, request, matcher)
  {
    hide IsMatch;
    if routes != [] {
      FirstMatchIsMatch(routes[1..], request, matcher);
      assert routes == [routes[0]] + routes[1..];
    }
  }

  // ---------------------------------------------------------------- ScriptObject

  /** An entry of the route map; keys are compared by identity, so every `define` adds an entry. */
  datatype Entry<H> = Entry(route: Route, handler: H)

  /** What `getMatchedFunction` may return: the map is scanned in an order that is not specified. */
  ghost predicate MatchedFunction<H(!new)>(entries: seq<Entry<H>>, request: Request, matcher: Matcher, r: Option<H>) {
    if r.None? then forall i :: 0 <= i < |entries| ==> !IsMatch(entries[i].route, request, matcher)
    else exists i :: 0 <= i < |entries| && IsMatch(entries[i].route, request, matcher) && entries[i].handler == r.value
  }

  class ScriptObject<H(!new)> {
    var routes: seq<Entry<H>>

    constructor ()
      ensures routes == []
    {
      routes := [];
    }

    method Define(route: Route, handler: H)
      modifies this
      ensures routes == old(routes) + [Entry(route, handler)]
    {
      routes := routes + [Entry(route, handler)];
    }

    method GetMatchedFunction(request: Request, matcher: Matcher) returns (r: Option<H>)
      ensures MatchedFunction(routes, request, matcher, r)
    {
      if i :| 0 <= i < |routes| && IsMatch(routes[i].route, request, matcher) {
        r := Some(routes[i].handler);
      } else {
        r := None;
      }
    }
  }

  /**
   * What `define` changes: a request the new route matches may now get its handler beside those it could get
   * before, and never none; any other request gets what it could get before.
   */
  lemma DefineAddsItsHandler<H(!new)>(entries: seq<Entry<H>>, route: Route, handler: H, request: Request,
                               matcher: Matcher, r: Option<H>)
    ensures var before, after := entries, entries + [Entry(route, handler)];
      MatchedFunction(after, request, matcher, r)
      <==> if IsMatch(route, request, matcher)
           then r == Some(handler) || (r.Some? && MatchedFunction(before, request, matcher, r))
           else MatchedFunction(before, request, matcher, r)
  {
    hide IsMatch;
    var after := entries + [Entry(route, handler)];
    assert after[|entries|] == Entry(route, handler);
    assert forall i :: 0 <= i < |entries| ==> after[i] == entries[i];
  }

  /** Which function runs is certain exactly when the routes that match are there and share their handler. */
  lemma HandlerIsCertain<H(!new)>(entries: seq<Entry<H>>, handler: H, request: Request, matcher: Matcher)
    ensures (forall r :: MatchedFunction(entries, request, matcher, r) ==> r == Some(handler))
       <==> (&& (exists i :: 0 <= i < |entries| && IsMatch(entries[i].route, request, matcher))
             && (forall i :: 0 <= i < |entries| && IsMatch(entries[i].route, request, matcher) ==>
                   entries[i].handler == handler))
  {
    hide IsMatch;
    if forall r :: MatchedFunction(entries, request, matcher, r) ==> r == Some(handler) {
      assert !MatchedFunction(entries, request, matcher, None);
      forall i | 0 <= i < |entries| && IsMatch(entries[i].route, request, matcher)
        ensures entries[i].handler == handler
      {
        assert MatchedFunction(entries, request, matcher, Some(entries[i].handler));
      }
    }
  }

  /** When exactly one route matches, the table answers with it and its handler is the one that runs. */
  lemma OnlyMatchRuns<H(!new)>(entries: seq<Entry<H>>, table: seq<Route>, only: nat, request: Request, matcher: Matcher,
                               r: Option<H>)
    requires only < |entries| && IsMatch(entries[only].route, request, matcher)
    requires forall i :: 0 <= i < |entries| && i != only ==> !IsMatch(entries[i].route, request, matcher)
    requires forall route :: route in table <==> exists i :: 0 <= i < |entries| && entries[i].route == route
    requires MatchedFunction(entries, request, matcher, r)
    ensures Lookup(table, [], request, matcher) == Some(entries[only].route)
    ensures r == Some(entries[only].handler)
  {
    hide IsMatch, Best;
    BestIsGreatest(table, request, matcher);
    assert entries[only].route in table;
  }
}
