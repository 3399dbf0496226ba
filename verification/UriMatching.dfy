/** `match` and `substitute`, and how they undo each other. */
module UriMatching {
  import opened Options
  import opened Text
  import opened UrlEncoding
  import opened UriTokens
  import opened UriChunks
  import opened UriTemplate
  import Seqs

  predicate SlashFree(s: Text) { SLASH !in s }

  /** A text the group `([^/]+?)` can capture in front of `rest`: the matcher never splits a code point. */
  predicate Captures(group: Text, rest: Text) { group != [] && SlashFree(group) && CleanCut(group, rest) }

  /** The expression matches all of `uri`, its groups capturing `groups`. */
  predicate Matches(items: seq<Item>, uri: Text, groups: seq<Text>) {
    if items == [] then uri == [] && groups == []
    else
      match items[0]
      case Char(c) => uri != [] && uri[0] == c && Matches(items[1..], uri[1..], groups)
      case Segment =>
        && groups != [] && |groups[0]| <= |uri| && uri[..|groups[0]|] == groups[0]
        && Captures(groups[0], uri[|groups[0]|..])
        && Matches(items[1..], uri[|groups[0]|..], groups[1..])
  }

  /** `Matcher.matches` with its groups: a reluctant group tries the shortest capture first. */
  function Run(items: seq<Item>, uri: Text): Option<seq<Text>>
    decreases |items|, 0, 0
  {
    if items == [] then if uri == [] then Some([]) else None
    else
      match items[0]
      case Char(c) => if uri != [] && uri[0] == c then Run(items[1..], uri[1..]) else None
      case Segment => Extend(items[1..], uri, 1)
  }

  function Extend(rest: seq<Item>, uri: Text, k: nat): Option<seq<Text>>
    requires k >= 1
    decreases |rest|, 1, |uri| + 1 - k
  {
    if k > |uri| || uri[k - 1] == SLASH then None
    else if CleanCut(uri[..k], uri[k..]) && Run(rest, uri[k..]).Some? then
      Some([uri[..k]] + Run(rest, uri[k..]).value)
    else Extend(rest, uri, k + 1)
  }

  /** The order in which the matcher tries captures: shorter first group first. */
  predicate TriedNoLater(a: seq<Text>, b: seq<Text>) {
    |a| == |b| && (a == [] || |a[0]| < |b[0]| || (a[0] == b[0] && TriedNoLater(a[1..], b[1..])))
  }

  lemma {:induction false} RunSound(items: seq<Item>, uri: Text)
    ensures Run(items, uri).Some? ==> Matches(items, uri, Run(items, uri).value)
    decreases |items|, 0, 0
  {
    if items != [] {
      match items[0] {
        case Char(c) =>
          if uri != [] {
            RunSound(items[1..], uri[1..]);
          }
        case Segment => ExtendSound(items, uri, 1);
      }
    }
  }

  lemma {:induction false} ExtendSound(items: seq<Item>, uri: Text, k: nat)
    requires k >= 1 && items != [] && items[0] == Segment
    requires forall i :: 0 <= i < k - 1 && i < |uri| ==> uri[i] != SLASH
    ensures Extend(items[1..], uri, k).Some? ==> Matches(items, uri, Extend(items[1..], uri, k).value)
    decreases |items| - 1, 1, |uri| + 1 - k
  {
    var rest := items[1..];
    if k <= |uri| && uri[k - 1] != SLASH {
      RunSound(rest, uri[k..]);
      if CleanCut(uri[..k], uri[k..]) && Run(rest, uri[k..]).Some? {
        var groups := [uri[..k]] + Run(rest, uri[k..]).value;
        assert groups[1..] == Run(rest, uri[k..]).value;
        assert SlashFree(uri[..k]);
      } else {
        ExtendSound(items, uri, k + 1);
      }
    }
  }

  /** The matcher finds a match whenever there is one, and it is the first in its order. */
  lemma {:induction false} RunComplete(items: seq<Item>, uri: Text, groups: seq<Text>)
    requires Matches(items, uri, groups)
    ensures Run(items, uri).Some? && TriedNoLater(Run(items, uri).value, groups)
    decreases |items|, 0, 0
  {
    if items != [] {
      match items[0] {
        case Char(c) => RunComplete(items[1..], uri[1..], groups);
        case Segment => ExtendComplete(items, uri, groups, 1);
      }
    }
  }

  lemma {:induction false} ExtendComplete(items: seq<Item>, uri: Text, groups: seq<Text>, k: nat)
    requires items != [] && items[0] == Segment && Matches(items, uri, groups) && 1 <= k <= |groups[0]|
    ensures Extend(items[1..], uri, k).Some? && TriedNoLater(Extend(items[1..], uri, k).value, groups)
    decreases |items| - 1, 1, |uri| + 1 - k
  {
    var rest, group := items[1..], groups[0];
    assert uri[k - 1] == group[k - 1] && group[k - 1] in group;
    if CleanCut(uri[..k], uri[k..]) && Run(rest, uri[k..]).Some? {
      var found := [uri[..k]] + Run(rest, uri[k..]).value;
      assert found[1..] == Run(rest, uri[k..]).value;
      RunCount(rest, uri[k..]);
      MatchCount(rest, uri[|group|..], groups[1..]);
      if k == |group| {
        RunComplete(rest, uri[k..], groups[1..]);
      }
    } else {
      if k == |group| {
        RunComplete(rest, uri[k..], groups[1..]);
      } else {
        ExtendComplete(items, uri, groups, k + 1);
      }
    }
  }

  function GroupCount(items: seq<Item>): nat {
    if items == [] then 0 else (if items[0].Segment? then 1 else 0) + GroupCount(items[1..])
  }

  lemma {:induction false} MatchCount(items: seq<Item>, uri: Text, groups: seq<Text>)
    requires Matches(items, uri, groups)
    ensures |groups| == GroupCount(items)
  {
    if items != [] {
      if items[0].Char? {
        MatchCount(items[1..], uri[1..], groups);
      } else {
        MatchCount(items[1..], uri[|groups[0]|..], groups[1..]);
      }
    }
  }

  lemma RunCount(items: seq<Item>, uri: Text)
    ensures Run(items, uri).Some? ==> |Run(items, uri).value| == GroupCount(items)
  {
    RunSound(items, uri);
    if Run(items, uri).Some? {
      MatchCount(items, uri, Run(items, uri).value);
    }
  }

  // ------------------------------------------------------------------- literals

  lemma {:induction false} CharsMatch(s: Text, items: seq<Item>, uri: Text, groups: seq<Text>)
    ensures Matches(Chars(s) + items, uri, groups)
       <==> |s| <= |uri| && uri[..|s|] == s && Matches(items, uri[|s|..], groups)
  {
    if s == [] {
      assert Chars(s) + items == items && uri[0..] == uri;
    } else if uri != [] {
      Seqs.AppendDrop(Chars(s), items, 1);
      CharsMatch(s[1..], items, uri[1..], groups);
      if |s| <= |uri| {
        assert uri[1..][|s| - 1..] == uri[|s|..];
        assert uri[..|s|] == [uri[0]] + uri[1..][..|s| - 1];
        assert s == [s[0]] + s[1..];
      }
    }
  }

  /** A compiled literal matches its encoded form and nothing else, and captures nothing. */
  lemma LiteralMatchesOneString(value: Text, uri: Text, groups: seq<Text>)
    ensures ParseRegex(Escape(Encoded(value))) == Some(Chars(Encoded(value)))
    ensures Matches(Chars(Encoded(value)), uri, groups) <==> uri == Encoded(value) && groups == []
  {
    var chunks := [Literal(value)];
    TemplatePatternCompiles(chunks);
    assert PatternText(chunks) == Escape(Encoded(value)) + PatternText(chunks[1..]);
    assert PatternText(chunks) == Escape(Encoded(value));
    assert ItemsOf(chunks) == Chars(Encoded(value)) + ItemsOf(chunks[1..]);
    CharsMatch(Encoded(value), [], uri, groups);
    assert Chars(Encoded(value)) + [] == Chars(Encoded(value));
  }

  // ------------------------------------------------------------------ substitute

  datatype Substituted = Bound(text: Text) | IllegalValue

  function Glue(part: Text, rest: Substituted): Substituted {
    match rest
    case Bound(text) => Bound(part + text)
    case IllegalValue => IllegalValue
  }

  /** Values for the variables in order; the variables left over are printed. */
  function Substitution(chunks: seq<Chunk>, values: seq<Text>, fits: (Text, Text) -> bool): Substituted {
    if chunks == [] then Bound([])
    else if chunks[0].Variable? && values != [] then
      if chunks[0].pattern.Some? && !fits(chunks[0].pattern.value, values[0]) then IllegalValue
      else Glue(values[0], Substitution(chunks[1..], values[1..], fits))
    else Glue(Print(chunks[0]), Substitution(chunks[1..], values, fits))
  }

  lemma GlueGlue(a: Text, b: Text, rest: Substituted)
    ensures Glue(a, Glue(b, rest)) == Glue(a + b, rest)
  {
    if rest.Bound? {
      Seqs.Assoc(a, b, rest.text);
    }
  }

  lemma GlueEmpty(rest: Substituted)
    ensures Glue([], rest) == rest
  {
    if rest.Bound? {
      assert [] + rest.text == rest.text;
    }
  }

  /** `substitute(List)`; `fits` is what custom patterns accept, `IllegalValue` the exception. */
  method Substitute(chunks: seq<Chunk>, values: seq<Text>, fits: (Text, Text) -> bool) returns (r: Substituted)
    ensures r == Substitution(chunks, values, fits)
  {
    hide Substitution, Print, Glue;
    var sb: Text, next := [], 0;
    assert chunks[0..] == chunks && values[0..] == values;
    GlueEmpty(Substitution(chunks, values, fits));
    for i := 0 to |chunks|
      invariant next <= |values|
      invariant Substitution(chunks, values, fits) == Glue(sb, Substitution(chunks[i..], values[next..], fits))
    {
      SubstitutionStep(chunks, values, fits, i, next, sb);
      var chunk := chunks[i];
      if chunk.Variable? {
        if next < |values| {
          var value := values[next];
          next := next + 1;
          if chunk.pattern.Some? && !fits(chunk.pattern.value, value) {
            return IllegalValue;
          }
          sb := sb + value;
        } else {
          sb := sb + Print(chunk);
        }
      } else {
        sb := sb + Print(chunk);
      }
    }
    SubstitutionEnd(chunks, values[next..], fits, sb);
    r := Bound(sb);
  }

  lemma SubstitutionStep(chunks: seq<Chunk>, values: seq<Text>, fits: (Text, Text) -> bool, i: nat, next: nat, sb: Text)
    requires i < |chunks| && next <= |values|
    ensures var here, chunk := Glue(sb, Substitution(chunks[i..], values[next..], fits)), chunks[i];
            if chunk.Variable? && next < |values| then
              if chunk.pattern.Some? && !fits(chunk.pattern.value, values[next]) then here == IllegalValue
              else here == Glue(sb + values[next], Substitution(chunks[i + 1..], values[next + 1..], fits))
            else here == Glue(sb + Print(chunk), Substitution(chunks[i + 1..], values[next..], fits))
  {
    hide Print;
    Seqs.DropDrop(chunks, i, 1);
    if chunks[i].Variable? && next < |values| {
      Seqs.DropDrop(values, next, 1);
      GlueGlue(sb, values[next], Substitution(chunks[i + 1..], values[next + 1..], fits));
    } else {
      GlueGlue(sb, Print(chunks[i]), Substitution(chunks[i + 1..], values[next..], fits));
    }
  }

  lemma SubstitutionEnd(chunks: seq<Chunk>, values: seq<Text>, fits: (Text, Text) -> bool, sb: Text)
    ensures Glue(sb, Substitution(chunks[|chunks|..], values, fits)) == Bound(sb)
  {
    assert chunks[|chunks|..] == [];
    assert sb + [] == sb;
  }

  /** What chunk `i` becomes: the value at its place among the variables, or its print without one. */
  function PartOf(chunks: seq<Chunk>, values: seq<Text>, i: nat): Text
    requires i < |chunks|
  {
    var place := |Names(chunks[..i])|;
    if chunks[i].Variable? && place < |values| then values[place] else Print(chunks[i])
  }

  /** Chunk `i` is a variable whose value its custom pattern does not accept. */
  predicate Unfit(chunks: seq<Chunk>, values: seq<Text>, fits: (Text, Text) -> bool, i: int) {
    0 <= i < |chunks| && chunks[i].Variable? && chunks[i].pattern.Some?
    && |Names(chunks[..i])| < |values| && !fits(chunks[i].pattern.value, values[|Names(chunks[..i])|])
  }

  lemma {:induction false} SubstitutionMore(chunks: seq<Chunk>, chunk: Chunk, values: seq<Text>,
                                            fits: (Text, Text) -> bool)
    ensures var place, before := |Names(chunks)|, Substitution(chunks, values, fits);
      Substitution(chunks + [chunk], values, fits)
      == if before.IllegalValue? then before
         else if chunk.Variable? && place < |values| then
           if chunk.pattern.Some? && !fits(chunk.pattern.value, values[place]) then IllegalValue
           else Bound(before.text + values[place])
         else Bound(before.text + Print(chunk))
    decreases |chunks|
  {
    hide Print;
    if chunks == [] {
      assert chunks + [chunk] == [chunk] && [chunk][1..] == [] && Names([]) == [];
      assert [] + Print(chunk) == Print(chunk) == Print(chunk) + [];
      if values != [] {
        assert [] + values[0] == values[0] == values[0] + [];
      }
    } else {
      var rest, used := chunks[1..], chunks[0].Variable? && values != [];
      var values' := if used then values[1..] else values;
      assert (chunks + [chunk])[0] == chunks[0] && (chunks + [chunk])[1..] == rest + [chunk];
      assert |Names(chunks)| == |Names(rest)| + if chunks[0].Variable? then 1 else 0;
      SubstitutionMore(rest, chunk, values', fits);
      var before := Substitution(rest, values', fits);
      if before.Bound? {
        var first := if used then values[0] else Print(chunks[0]);
        Seqs.Assoc(first, before.text, Print(chunk));
        if |Names(rest)| < |values'| {
          Seqs.Assoc(first, before.text, values'[|Names(rest)|]);
        }
      }
    }
  }

  /** Chunk by chunk: it fails exactly on an unfit value, and otherwise puts the parts one after another. */
  lemma {:induction false} SubstitutionByPlaces(chunks: seq<Chunk>, values: seq<Text>, fits: (Text, Text) -> bool)
      returns (parts: seq<Text>)
    ensures |parts| == |chunks| && forall i :: 0 <= i < |chunks| ==> parts[i] == PartOf(chunks, values, i)
    ensures Substitution(chunks, values, fits).IllegalValue? <==> exists i :: Unfit(chunks, values, fits, i)
    ensures var r := Substitution(chunks, values, fits); r.Bound? ==> r.text == Concat(parts)
    decreases |chunks|
  {
    hide Print, Concat;
    parts := [];
    if chunks == [] {
      assert Concat([]) == [] by { NothingJoined(); }
    } else {
      var n := |chunks| - 1;
      var init := SubstitutionByPlaces(chunks[..n], values, fits);
      SubstitutionMore(chunks[..n], chunks[n], values, fits);
      assert chunks[..n] + [chunks[n]] == chunks;
      hide Substitution;
      parts := init + [PartOf(chunks, values, n)];
      ConcatAppend(init, parts[n]);
      forall i | 0 <= i < n
        ensures PartOf(chunks[..n], values, i) == PartOf(chunks, values, i)
        ensures Unfit(chunks[..n], values, fits, i) <==> Unfit(chunks, values, fits, i)
      {
        assert chunks[..n][..i] == chunks[..i];
      }
      if Unfit(chunks, values, fits, n) {
        assert exists i :: Unfit(chunks, values, fits, i);
      } else if i :| Unfit(chunks, values, fits, i) {
        assert Unfit(chunks[..n], values, fits, i);
      }
    }
  }

  lemma NothingJoined()
    ensures Concat([]) == []
  {
  }

  // ------------------------------------------------------------------ round trip

  /** No two variables share a path segment; `within` says that one came before in the current segment. */
  predicate OnePerSegment(chunks: seq<Chunk>, within: bool) {
    if chunks == [] then true
    else if chunks[0].Variable? then !within && OnePerSegment(chunks[1..], true)
    else OnePerSegment(chunks[1..], within && SLASH !in chunks[0].value)
  }

  predicate GoodValues(values: seq<Text>) {
    forall i :: 0 <= i < |values| ==> values[i] != [] && SlashFree(values[i])
  }

  predicate LiteralsEncoded(chunks: seq<Chunk>) {
    forall i :: 0 <= i < |chunks| && chunks[i].Literal? ==> Rfc3986Path(chunks[i].value)
  }

  /** The substituted text of a template without custom patterns, all of whose variables get a value. */
  function Filled(chunks: seq<Chunk>, values: seq<Text>): Text
    requires |values| == |Names(chunks)|
  {
    if chunks == [] then []
    else if chunks[0].Variable? then values[0] + Filled(chunks[1..], values[1..])
    else chunks[0].value + Filled(chunks[1..], values)
  }

  lemma {:induction false} FilledIsSubstitution(chunks: seq<Chunk>, values: seq<Text>, fits: (Text, Text) -> bool)
    requires AllDefault(chunks) && |values| == |Names(chunks)|
    ensures Substitution(chunks, values, fits) == Bound(Filled(chunks, values))
  {
    if chunks != [] {
      FilledIsSubstitution(chunks[1..], if chunks[0].Variable? then values[1..] else values, fits);
    }
  }

  /** What follows a variable does not open with half a code point. */
  lemma CleanAfterVariable(group: Text, chunks: seq<Chunk>, values: seq<Text>)
    requires |values| == |Names(chunks)| && OnePerSegment(chunks, true) && LiteralsEncoded(chunks)
    ensures CleanCut(group, Filled(chunks, values))
    decreases |chunks|
  {
    hide Rfc3986Path;
    if chunks != [] {
      var value := chunks[0].value;
      if value == [] {
        assert Filled(chunks, values) == Filled(chunks[1..], values);
        CleanAfterVariable(group, chunks[1..], values);
      } else {
        assert Filled(chunks, values)[0] == value[0];
        Rfc3986Chars(value);
      }
    }
  }

  lemma {:induction false} FilledMatches(chunks: seq<Chunk>, values: seq<Text>, within: bool)
    requires |values| == |Names(chunks)| && GoodValues(values)
    requires OnePerSegment(chunks, within) && LiteralsEncoded(chunks)
    ensures Matches(ItemsOf(chunks), Filled(chunks, values), values)
  {
    hide Rfc3986Path, Partially;
    if chunks != [] {
      var rest, uri := chunks[1..], Filled(chunks, values);
      assert LiteralsEncoded(rest);
      if chunks[0].Variable? {
        var group, tail := values[0], Filled(rest, values[1..]);
        FilledMatches(rest, values[1..], true);
        CleanAfterVariable(group, rest, values[1..]);
        assert uri[..|group|] == group && uri[|group|..] == tail;
        assert ItemsOf(chunks)[1..] == ItemsOf(rest);
      } else {
        var value := chunks[0].value;
        FilledMatches(rest, values, within && SLASH !in value);
        EncoderFixpoints(value);
        assert uri[..|value|] == value && uri[|value|..] == Filled(rest, values);
        CharsMatch(value, ItemsOf(rest), uri, values);
      }
    }
  }

  /** The same of an expression: between two groups there is a '/'. */
  predicate SlashBetween(items: seq<Item>, within: bool) {
    if items == [] then true
    else if items[0].Segment? then !within && SlashBetween(items[1..], true)
    else SlashBetween(items[1..], within && items[0].c != SLASH)
  }

  lemma {:induction false} CharsBetween(s: Text, items: seq<Item>, within: bool)
    ensures SlashBetween(Chars(s) + items, within) <==> SlashBetween(items, within && SLASH !in s)
  {
    if s == [] {
      assert Chars(s) + items == items;
    } else {
      Seqs.AppendDrop(Chars(s), items, 1);
      CharsBetween(s[1..], items, within && s[0] != SLASH);
      assert SLASH in s <==> s[0] == SLASH || SLASH in s[1..];
    }
  }

  lemma {:induction false} ItemsBetween(chunks: seq<Chunk>, within: bool)
    requires LiteralsEncoded(chunks)
    ensures SlashBetween(ItemsOf(chunks), within) <==> OnePerSegment(chunks, within)
  {
    hide Rfc3986Path, Partially;
    if chunks != [] {
      var rest := chunks[1..];
      assert LiteralsEncoded(rest);
      if chunks[0].Variable? {
        assert ItemsOf(chunks)[1..] == ItemsOf(rest);
        ItemsBetween(rest, true);
      } else {
        var value := chunks[0].value;
        EncoderFixpoints(value);
        CharsBetween(value, ItemsOf(rest), within);
        ItemsBetween(rest, within && SLASH !in value);
      }
    }
  }

  /** With such an expression a URI can be cut up in one way only. */
  lemma {:induction false} CutIsUnique(items: seq<Item>, within: bool, uri: Text, a: seq<Text>, b: seq<Text>)
    requires SlashBetween(items, within) && Matches(items, uri, a) && Matches(items, uri, b)
    ensures a == b
  {
    if items != [] {
      if items[0].Char? {
        CutIsUnique(items[1..], within && items[0].c != SLASH, uri[1..], a, b);
      } else {
        GroupNotLonger(items, uri, a, b);
        GroupNotLonger(items, uri, b, a);
        CutIsUnique(items[1..], true, uri[|a[0]|..], a[1..], b[1..]);
        assert a == [a[0]] + a[1..] && b == [b[0]] + b[1..];
      }
    }
  }

  lemma GroupNotLonger(items: seq<Item>, uri: Text, a: seq<Text>, b: seq<Text>)
    requires items != [] && items[0].Segment? && SlashBetween(items[1..], true)
    requires Matches(items, uri, a) && Matches(items, uri, b)
    ensures |b[0]| <= |a[0]|
  {
    if |a[0]| < |b[0]| {
      var n, d := |a[0]|, |b[0]| - |a[0]|;
      Seqs.DropDrop(uri, n, d);
      Seqs.DropTake(uri, n, d);
      assert uri[n..n + d] == b[0][n..];
      NoShift(items[1..], uri[n..], d, a[1..], b[1..]);
    }
  }

  /** What follows a group in its segment cannot match again `d` characters on, still inside the segment. */
  lemma {:induction false} NoShift(items: seq<Item>, uri: Text, d: nat, a: seq<Text>, b: seq<Text>)
    requires SlashBetween(items, true) && 0 < d <= |uri| && SLASH !in uri[..d]
    requires Matches(items, uri, a) && Matches(items, uri[d..], b)
    ensures false
  {
    if items != [] {
      assert uri[0] in uri[..d];
      Seqs.DropDrop(uri, 1, d);
      Seqs.DropDrop(uri, d, 1);
      assert forall i :: 0 <= i < d - 1 ==> uri[1..][i] == uri[..d][i + 1];
      assert uri[1..][d - 1] == uri[d..][0];
      NoShift(items[1..], uri[1..], d, a, b);
    }
  }

  lemma {:induction false} FilledLength(chunks: seq<Chunk>, values: seq<Text>, uri: Text)
    requires |values| == |Names(chunks)| && Matches(ItemsOf(chunks), uri, values)
    ensures |uri| >= |Filled(chunks, values)|
    ensures |uri| == |Filled(chunks, values)| ==> LiteralsEncoded(chunks)
  {
    hide Rfc3986Path, Partially, Captures, Chars;
    if chunks != [] {
      var rest := chunks[1..];
      if chunks[0].Variable? {
        assert ItemsOf(chunks)[1..] == ItemsOf(rest);
        FilledLength(rest, values[1..], uri[|values[0]|..]);
      } else {
        hide Matches;
        var value := chunks[0].value;
        EncoderFixpoints(value);
        CharsMatch(Encoded(value), ItemsOf(rest), uri, values);
        FilledLength(rest, values, uri[|Encoded(value)|..]);
      }
      assert forall i :: 0 < i < |chunks| ==> chunks[i] == rest[i - 1];
    }
  }

  /** Whatever the template: the values come back only if every literal was in encoded form already. */
  lemma ValuesReturnedOnlyIfEncoded(chunks: seq<Chunk>, values: seq<Text>)
    requires |values| == |Names(chunks)|
    requires Run(ItemsOf(chunks), Filled(chunks, values)) == Some(values)
    ensures LiteralsEncoded(chunks)
  {
    RunSound(ItemsOf(chunks), Filled(chunks, values));
    FilledLength(chunks, values, Filled(chunks, values));
  }

  // ------------------------------------------------------ when the round trip fails

  /** The literal text in front of the next variable, and the chunks after that variable. */
  function TextBefore(chunks: seq<Chunk>): Text {
    if chunks == [] || chunks[0].Variable? then [] else chunks[0].value + TextBefore(chunks[1..])
  }

  function AfterNext(chunks: seq<Chunk>): (rest: seq<Chunk>)
    requires Names(chunks) != []
    ensures |Names(rest)| == |Names(chunks)| - 1
  {
    if chunks[0].Variable? then chunks[1..] else AfterNext(chunks[1..])
  }

  lemma {:induction false} FilledUpToNext(chunks: seq<Chunk>, value: Text, values: seq<Text>)
    requires |Names(chunks)| == 1 + |values|
    ensures Filled(chunks, [value] + values) == TextBefore(chunks) + (value + Filled(AfterNext(chunks), values))
  {
    assert ([value] + values)[1..] == values;
    if chunks[0].Variable? {
      assert [] + (value + Filled(chunks[1..], values)) == value + Filled(chunks[1..], values);
    } else {
      FilledUpToNext(chunks[1..], value, values);
      Seqs.Assoc(chunks[0].value, TextBefore(chunks[1..]), value + Filled(AfterNext(chunks), values));
    }
  }

  /** The second variable of a segment is reached over slash-free text. */
  lemma {:induction false} SecondOfSegment(chunks: seq<Chunk>)
    requires OnePerSegment(chunks, false) && !OnePerSegment(chunks, true)
    ensures Names(chunks) != [] && SLASH !in TextBefore(chunks)
  {
    if chunks[0].Literal? {
      SecondOfSegment(chunks[1..]);
    }
  }

  const LETTER: Text := ['a' as int]

  function Letters(n: nat): (values: seq<Text>)
    ensures |values| == n && GoodValues(values)
  {
    seq(n, i => LETTER)
  }

  /** With two variables in a segment, two lists of values give the same text. */
  lemma {:induction false} TwoFillings(chunks: seq<Chunk>) returns (v: seq<Text>, w: seq<Text>)
    requires !OnePerSegment(chunks, false)
    ensures |v| == |w| == |Names(chunks)| && GoodValues(v) && GoodValues(w) && v != w
    ensures Filled(chunks, v) == Filled(chunks, w)
  {
    var rest := chunks[1..];
    if chunks[0].Literal? {
      v, w := TwoFillings(rest);
    } else if !OnePerSegment(rest, false) {
      var v', w' := TwoFillings(rest);
      v, w := [LETTER] + v', [LETTER] + w';
      assert v[1..] == v' && w[1..] == w';
    } else {
      SecondOfSegment(rest);
      v, w := SwapAround(chunks);
    }
  }

  lemma SwapAround(chunks: seq<Chunk>) returns (v: seq<Text>, w: seq<Text>)
    requires chunks != [] && chunks[0].Variable? && Names(chunks[1..]) != [] && SLASH !in TextBefore(chunks[1..])
    ensures |v| == |w| == |Names(chunks)| && GoodValues(v) && GoodValues(w) && v != w
    ensures Filled(chunks, v) == Filled(chunks, w)
  {
    var rest, l := chunks[1..], TextBefore(chunks[1..]);
    var others := Letters(|Names(rest)| - 1);
    var long := LETTER + l + LETTER;
    v, w := [long] + ([LETTER] + others), [LETTER] + ([long] + others);
    assert v[1..] == [LETTER] + others && w[1..] == [long] + others;
    assert v[0] != w[0];
    hide TextBefore, AfterNext;
    FilledUpToNext(rest, LETTER, others);
    FilledUpToNext(rest, long, others);
    SwapText(LETTER, l, Filled(AfterNext(rest), others));
  }

  lemma SwapText(a: Text, l: Text, tail: Text)
    ensures a + l + a + (l + (a + tail)) == a + (l + (a + l + a + tail))
  {
    Seqs.Assoc(a + l + a, l, a + tail);
    Seqs.Assoc4(a, l, a + l + a, tail);
    assert a + l + a + l + (a + tail) == a + l + (a + l + a) + tail;
  }

  ghost predicate RoundTrips(chunks: seq<Chunk>, values: seq<Text>, fits: (Text, Text) -> bool) {
    var r := Substitution(chunks, values, fits);
    r.Bound? && Run(ItemsOf(chunks), r.text) == Some(values)
  }

  lemma ReturnsValues(chunks: seq<Chunk>, values: seq<Text>, fits: (Text, Text) -> bool)
    requires AllDefault(chunks) && |values| == |Names(chunks)| && GoodValues(values)
    requires LiteralsEncoded(chunks) && OnePerSegment(chunks, false)
    ensures RoundTrips(chunks, values, fits)
  {
    hide OnePerSegment, LiteralsEncoded, GoodValues;
    var items, uri := ItemsOf(chunks), Filled(chunks, values);
    FilledIsSubstitution(chunks, values, fits);
    FilledMatches(chunks, values, false);
    RunComplete(items, uri, values);
    RunSound(items, uri);
    ItemsBetween(chunks, false);
    CutIsUnique(items, false, uri, values, Run(items, uri).value);
  }

  /**
   * `match(substitute(values))` returns exactly the values, in order, for all non-empty slash-free values, if
   * and only if the literals are in encoded form and no two variables share a path segment.
   */
  lemma MatchUndoesSubstitute(chunks: seq<Chunk>, fits: (Text, Text) -> bool)
    requires AllDefault(chunks)
    ensures (forall values :: |values| == |Names(chunks)| && GoodValues(values) ==> RoundTrips(chunks, values, fits))
       <==> LiteralsEncoded(chunks) && OnePerSegment(chunks, false)
  {
    hide OnePerSegment, LiteralsEncoded, GoodValues, Run, RoundTrips;
    if LiteralsEncoded(chunks) && OnePerSegment(chunks, false) {
      forall values | |values| == |Names(chunks)| && GoodValues(values) ensures RoundTrips(chunks, values, fits) {
        ReturnsValues(chunks, values, fits);
      }
    } else if !OnePerSegment(chunks, false) {
      var v, w := TwoFillings(chunks);
      assert !(RoundTrips(chunks, v, fits) && RoundTrips(chunks, w, fits)) by { OnlyOneReturned(chunks, v, w, fits); }
    } else {
      var v := Letters(|Names(chunks)|);
      if RoundTrips(chunks, v, fits) {
        EncodedIfReturned(chunks, v, fits);
      }
    }
  }

  lemma OnlyOneReturned(chunks: seq<Chunk>, v: seq<Text>, w: seq<Text>, fits: (Text, Text) -> bool)
    requires AllDefault(chunks) && |v| == |w| == |Names(chunks)| && v != w && Filled(chunks, v) == Filled(chunks, w)
    ensures !RoundTrips(chunks, v, fits) || !RoundTrips(chunks, w, fits)
  {
    FilledIsSubstitution(chunks, v, fits);
    FilledIsSubstitution(chunks, w, fits);
  }

  lemma EncodedIfReturned(chunks: seq<Chunk>, values: seq<Text>, fits: (Text, Text) -> bool)
    requires AllDefault(chunks) && |values| == |Names(chunks)| && RoundTrips(chunks, values, fits)
    ensures LiteralsEncoded(chunks)
  {
    FilledIsSubstitution(chunks, values, fits);
    ValuesReturnedOnlyIfEncoded(chunks, values);
  }

  const DASH: CodeUnit := '-' as int
  const A: CodeUnit := 'a' as int
  const B: CodeUnit := 'b' as int
  const C: CodeUnit := 'c' as int

  /** The template "{x}-{y}" filled with "a-b" and "c" matches, but gives "a" and "b-c". */
  lemma SharedSegmentMisleads(x: Text, y: Text, fits: (Text, Text) -> bool)
    ensures var chunks := [Variable(x, None), Literal([DASH]), Variable(y, None)];
            var r := Substitution(chunks, [[A, DASH, B], [C]], fits);
            r.Bound? && Run(ItemsOf(chunks), r.text) == Some([[A], [B, DASH, C]])
  {
    var chunks, values := [Variable(x, None), Literal([DASH]), Variable(y, None)], [[A, DASH, B], [C]];
    DashItems(x, y);
    var second: seq<Chunk>, third: seq<Chunk> := [Literal([DASH]), Variable(y, None)], [Variable(y, None)];
    assert chunks[1..] == second && second[1..] == third && third[1..] == [];
    DashNames(x, y);
    assert values[1..] == [[C]];
    assert Filled(third[1..], []) == [] && Filled(third, [[C]]) == [C] + [];
    assert Filled(second, [[C]]) == [DASH] + Filled(second[1..], [[C]]) == [DASH, C];
    assert Filled(chunks, values) == [A, DASH, B] + Filled(chunks[1..], [[C]]) == [A, DASH, B, DASH, C];
    assert |Names(chunks)| == 2;
    FilledIsSubstitution(chunks, values, fits);
    ShortestFirst();
  }

  lemma DashNames(x: Text, y: Text)
    ensures Names([Variable(y, None)]) == [y] && Names([Literal([DASH]), Variable(y, None)]) == [y]
    ensures Names([Variable(x, None), Literal([DASH]), Variable(y, None)]) == [x, y]
  {
    var none: seq<Chunk> := [];
    var third: seq<Chunk> := [Variable(y, None)];
    assert third[1..] == none && Names(none) == [];
    assert Names(third) == [y] + Names(third[1..]);
    var second: seq<Chunk> := [Literal([DASH]), Variable(y, None)];
    assert second[1..] == third && Names(second) == Names(second[1..]);
    var all: seq<Chunk> := [Variable(x, None), Literal([DASH]), Variable(y, None)];
    assert all[1..] == second && Names(all) == [x] + Names(all[1..]);
  }

  lemma DashItems(x: Text, y: Text)
    ensures var chunks := [Variable(x, None), Literal([DASH]), Variable(y, None)];
      ItemsOf(chunks) == [Segment, Char(DASH), Segment] && Names(chunks) == [x, y]
  {
    var chunks := [Variable(x, None), Literal([DASH]), Variable(y, None)];
    var second: seq<Chunk>, third: seq<Chunk> := [Literal([DASH]), Variable(y, None)], [Variable(y, None)];
    assert chunks[1..] == second && second[1..] == third && third[1..] == [];
    DashNames(x, y);
    EncoderFixpoints([DASH]);
    assert Rfc3986Path([DASH]) by { assert [DASH][1..] == []; }
    assert Chars([DASH]) == [Char(DASH)] by { assert [DASH][1..] == []; }
    assert ItemsOf(third) == [Segment] && ItemsOf(second) == [Char(DASH), Segment];
  }

  lemma ShortestFirst()
    ensures Run([Segment, Char(DASH), Segment], [A, DASH, B, DASH, C]) == Some([[A], [B, DASH, C]])
  {
    var items, uri := [Segment, Char(DASH), Segment], [A, DASH, B, DASH, C];
    var noItems: seq<Item>, noGroups: seq<Text>, noText: Text := [], [], [];
    assert Matches(noItems, noText, noGroups);
    assert Matches([Segment], [B, DASH, C], [[B, DASH, C]]);
    assert Matches([Char(DASH), Segment], [DASH, B, DASH, C], [[B, DASH, C]]);
    assert uri[1..] == [DASH, B, DASH, C] && uri[..1] == [A] && items[1..] == [Char(DASH), Segment];
    assert Matches(items, uri, [[A], [B, DASH, C]]);
    RunComplete(items, uri, [[A], [B, DASH, C]]);
    RunSound(items, uri);
    var found := Run(items, uri).value;
    assert |found| > 0 && found[0] != [] && found[0] == [A];
    assert Matches(items[1..], uri[1..], found[1..]);
    CutIsUnique([Char(DASH), Segment], false, uri[1..], found[1..], [[B, DASH, C]]);
    assert found[1..] == [[B, DASH, C]];
    assert found == [found[0]] + found[1..] == [[A], [B, DASH, C]];
    assert Run(items, uri) == Some(found);
  }

  // ----------------------------------------------------------------------- match

  type Params = map<Text, seq<Text>>

  /** The outcome of `match`; what the matrix-parameter retry makes of a URI with ';' is left open. */
  datatype MatchResult = NoMatch | MatrixRetry | Matched(params: Params, finalGroup: Text)

  const SEMICOLON: CodeUnit := ';' as int

  function Get(params: Params, name: Text): seq<Text> { if name in params then params[name] else [] }

  /** The captures that belong to a variable name, in order. */
  function ValuesOf(name: Text, names: seq<Text>, groups: seq<Text>): seq<Text>
    requires |names| == |groups|
  {
    if names == [] then []
    else
      ValuesOf(name, names[..|names| - 1], groups[..|names| - 1])
      + if names[|names| - 1] == name then [groups[|names| - 1]] else []
  }

  /** A name has as many captures as it has places, and the capture at place `k` follows those before it. */
  lemma {:induction false} CapturesByPlace(names: seq<Text>, groups: seq<Text>, name: Text)
    requires |names| == |groups|
    ensures |ValuesOf(name, names, groups)| == multiset(names)[name]
    ensures forall k :: 0 <= k < |names| && names[k] == name ==>
              multiset(names[..k])[name] < |ValuesOf(name, names, groups)|
              && ValuesOf(name, names, groups)[multiset(names[..k])[name]] == groups[k]
    decreases |names|
  {
    if names != [] {
      var n := |names| - 1;
      CapturesByPlace(names[..n], groups[..n], name);
      assert names[..n] + [names[n]] == names;
      assert multiset(names) == multiset(names[..n]) + multiset([names[n]]);
      var before := ValuesOf(name, names[..n], groups[..n]);
      assert ValuesOf(name, names, groups) == before + if names[n] == name then [groups[n]] else [];
      forall k | 0 <= k < |names| && names[k] == name
        ensures multiset(names[..k])[name] < |ValuesOf(name, names, groups)|
        ensures ValuesOf(name, names, groups)[multiset(names[..k])[name]] == groups[k]
      {
        if k < n {
          assert names[..n][k] == name && names[..n][..k] == names[..k];
        }
      }
    }
  }

  lemma {:induction false} ItemsGroupCount(chunks: seq<Chunk>)
    ensures GroupCount(ItemsOf(chunks)) == |Names(chunks)|
  {
    hide Partially;
    if chunks != [] {
      ItemsGroupCount(chunks[1..]);
      if chunks[0].Literal? {
        CharsGroupCount(Encoded(chunks[0].value), ItemsOf(chunks[1..]));
      } else {
        assert ItemsOf(chunks)[1..] == ItemsOf(chunks[1..]);
      }
    }
  }

  lemma {:induction false} CharsGroupCount(s: Text, items: seq<Item>)
    ensures GroupCount(Chars(s) + items) == GroupCount(items)
  {
    if s == [] {
      assert Chars(s) + items == items;
    } else {
      Seqs.AppendDrop(Chars(s), items, 1);
      CharsGroupCount(s[1..], items);
    }
  }

  /** `params` holds the captures of the first `v` variables. */
  ghost predicate Assigned(params: Params, names: seq<Text>, groups: seq<Text>, v: nat)
    requires v <= |names| == |groups|
  {
    forall name :: Get(params, name) == ValuesOf(name, names[..v], groups[..v])
  }

  lemma AssignedNext(params: Params, names: seq<Text>, groups: seq<Text>, v: nat)
    requires v < |names| == |groups| && Assigned(params, names, groups, v)
    ensures Assigned(params[names[v] := Get(params, names[v]) + [groups[v]]], names, groups, v + 1)
  {
    var params' := params[names[v] := Get(params, names[v]) + [groups[v]]];
    assert names[..v + 1][..v] == names[..v] && groups[..v + 1][..v] == groups[..v];
    forall name ensures Get(params', name) == ValuesOf(name, names[..v + 1], groups[..v + 1]) {
      assert Get(params, name) == ValuesOf(name, names[..v], groups[..v]);
    }
  }

  lemma AssignedAll(params: Params, names: seq<Text>, groups: seq<Text>)
    requires |names| == |groups| && Assigned(params, names, groups, |names|)
    ensures forall name :: Get(params, name) == ValuesOf(name, names, groups)
  {
    hide ValuesOf, Get;
    assert names[..|names|] == names && groups[..|names|] == groups;
  }

  /**
   * `match` of a template without custom patterns: a variable gets the captures at its places in order.
   * There are as many captures as variables and none is empty (`MatchedGroupsNotEmpty`), so no capture is
   * skipped and the final match group is always "/".
   */
  method Match(t: Template, uri: Text) returns (r: MatchResult)
    requires Built(t) && AllDefault(t.chunks)
    ensures var found := Run(ItemsOf(t.chunks), uri);
            if found.None? then r == if SEMICOLON in uri then MatrixRetry else NoMatch
            else
              && r.Matched? && r.finalGroup == [SLASH] && |found.value| == |t.variables|
              && forall name :: Get(r.params, name) == ValuesOf(name, t.variables, found.value)
  {
    hide Run, Partially, FlatMap, ItemsOf, Assigned, ValuesOf;
    var found := Run(ItemsOf(t.chunks), uri);
    if found.None? {
      return if SEMICOLON in uri then MatrixRetry else NoMatch;
    }
    var groups := found.value;
    RunCount(ItemsOf(t.chunks), uri);
    ItemsGroupCount(t.chunks);
    var params := map[];
    AssignedNone(t.variables, groups);
    for i := 0 to |t.variables|
      invariant Assigned(params, t.variables, groups, i)
    {
      AssignedNext(params, t.variables, groups, i);
      params := params[t.variables[i] := Get(params, t.variables[i]) + [groups[i]]];
    }
    AssignedAll(params, t.variables, groups);
    r := Matched(params, [SLASH]);
  }

  lemma AssignedNone(names: seq<Text>, groups: seq<Text>)
    requires |names| == |groups|
    ensures Assigned(map[], names, groups, 0)
  {
  }

  lemma {:induction false} MatchedGroupsNotEmpty(items: seq<Item>, uri: Text, groups: seq<Text>)
    requires Matches(items, uri, groups)
    ensures forall i :: 0 <= i < |groups| ==> groups[i] != []
  {
    if items != [] {
      if items[0].Char? {
        MatchedGroupsNotEmpty(items[1..], uri[1..], groups);
      } else {
        MatchedGroupsNotEmpty(items[1..], uri[|groups[0]|..], groups[1..]);
        assert forall i :: 0 < i < |groups| ==> groups[i] == groups[1..][i - 1];
      }
    }
  }
}
