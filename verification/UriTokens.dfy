/** `CurlyBraceTokenizer`: a string cut into parts inside and outside of balanced curly braces. */
module UriTokens {
  import opened Text
  import Seqs

  const OPEN: CodeUnit := '{' as int
  const CLOSE: CodeUnit := '}' as int

  function Concat(parts: seq<Text>): Text {
    if parts == [] then [] else parts[0] + Concat(parts[1..])
  }

  lemma {:induction false} ConcatAppend(parts: seq<Text>, part: Text)
    ensures Concat(parts + [part]) == Concat(parts) + part
  {
    if parts == [] {
      assert Concat([part]) == part + Concat([]);
    } else {
      Seqs.AppendDrop(parts, [part], 1);
      ConcatAppend(parts[1..], part);
      Seqs.Assoc(parts[0], Concat(parts[1..]), part);
    }
  }

  function Brace(c: CodeUnit): int { if c == OPEN then 1 else if c == CLOSE then -1 else 0 }

  /** Opening minus closing braces. */
  function Depth(s: Text): int {
    if s == [] then 0 else Depth(s[..|s| - 1]) + Brace(s[|s| - 1])
  }

  /** Every proper prefix that is not empty leaves a brace open. */
  ghost predicate OpenBefore(t: Text, end: nat)
    requires end <= |t| + 1
  {
    forall n: nat :: 0 < n < end ==> Depth(t[..n]) > 0
  }

  predicate Outside(t: Text) { t != [] && OPEN !in t }

  ghost predicate Closed(t: Text) {
    t != [] && t[0] == OPEN && Depth(t) == 0 && OpenBefore(t, |t|)
  }

  ghost predicate Unclosed(t: Text) {
    t != [] && t[0] == OPEN && OpenBefore(t, |t| + 1)
  }

  ghost predicate TokenAt(tokens: seq<Text>, i: nat)
    requires i < |tokens|
  {
    && (Outside(tokens[i]) || Closed(tokens[i]) || (Unclosed(tokens[i]) && i == |tokens| - 1))
    && (i + 1 < |tokens| && Outside(tokens[i]) ==> !Outside(tokens[i + 1]))
  }

  /**
   * `tokens` cut up `s` as the class comment says: top-level brace sections, and the longest stretches
   * between them. Only a last token may lack its closing brace.
   */
  ghost predicate Tokenization(tokens: seq<Text>, s: Text) {
    Concat(tokens) == s && forall i: nat :: i < |tokens| ==> TokenAt(tokens, i)
  }

  // --------------------------------------------------------------- uniqueness

  lemma TokenizationTail(tokens: seq<Text>, s: Text)
    requires Tokenization(tokens, s) && tokens != []
    ensures tokens[0] != [] && |tokens[0]| <= |s| && s[..|tokens[0]|] == tokens[0]
    ensures Tokenization(tokens[1..], s[|tokens[0]|..])
  {
    assert TokenAt(tokens, 0);
    forall i: nat | i < |tokens[1..]| ensures TokenAt(tokens[1..], i) {
      assert TokenAt(tokens, i + 1);
    }
  }

  /** The length of the first token is forced by the string. */
  lemma FirstTokenNotLonger(a: seq<Text>, b: seq<Text>, s: Text)
    requires Tokenization(a, s) && Tokenization(b, s) && a != [] && b != []
    ensures |b[0]| <= |a[0]|
  {
    TokenizationTail(a, s);
    TokenizationTail(b, s);
    assert TokenAt(a, 0) && TokenAt(b, 0);
    var n := |a[0]|;
    if n < |b[0]| {
      assert b[0][..n] == a[0];
      if Outside(a[0]) {
        if |a| == 1 {
          assert a[1..] == [];
        } else {
          TokenizationTail(a[1..], s[n..]);
          assert TokenAt(a, 1) && a[1][0] == s[n] == b[0][n];
          assert b[0][0] == a[0][0] && a[0][0] in a[0] && b[0][n] in b[0];
        }
      } else if Closed(a[0]) {
        assert b[0][0] == OPEN && b[0][0] in b[0];
        assert Depth(b[0][..n]) == 0;
      } else {
        assert a[1..] == [];
      }
    }
  }

  /** A string has only one tokenization. */
  lemma {:induction false} TokenizationUnique(a: seq<Text>, b: seq<Text>, s: Text)
    requires Tokenization(a, s) && Tokenization(b, s)
    ensures a == b
    decreases |s|
  {
    if a != [] && b != [] {
      FirstTokenNotLonger(a, b, s);
      FirstTokenNotLonger(b, a, s);
      TokenizationTail(a, s);
      TokenizationTail(b, s);
      TokenizationUnique(a[1..], b[1..], s[|a[0]|..]);
      assert a == [a[0]] + a[1..] && b == [b[0]] + b[1..];
    } else {
      if a != [] {
        TokenizationTail(a, s);
      }
      if b != [] {
        TokenizationTail(b, s);
      }
    }
  }

  // ---------------------------------------------------------------- tokenizer

  /** `tokens` are finished; `s[lastIdx..idx]` is what was read since. */
  ghost predicate Scanned(s: Text, tokens: seq<Text>, lastIdx: nat, idx: nat, outside: bool, level: nat) {
    && lastIdx <= idx <= |s|
    && Concat(tokens) == s[..lastIdx]
    && (forall i: nat :: i < |tokens| ==> TokenAt(tokens, i) && (Outside(tokens[i]) || Closed(tokens[i])))
    && var current := s[lastIdx..idx];
       if outside then
         level == 0 && OPEN !in current && (tokens != [] ==> Closed(tokens[|tokens| - 1]))
       else
         Unclosed(current) && Depth(current) == level + 1
  }

  lemma ScannedToken(s: Text, tokens: seq<Text>, lastIdx: nat, idx: nat, token: Text)
    requires lastIdx <= idx <= |s| && Concat(tokens) == s[..lastIdx] && token == s[lastIdx..idx]
    requires forall i: nat :: i < |tokens| ==> TokenAt(tokens, i) && (Outside(tokens[i]) || Closed(tokens[i]))
    requires Outside(token) || Closed(token)
    requires Outside(token) && tokens != [] ==> Closed(tokens[|tokens| - 1])
    ensures Concat(tokens + [token]) == s[..idx]
    ensures forall i: nat :: i < |tokens| + 1 ==>
              TokenAt(tokens + [token], i) && (Outside((tokens + [token])[i]) || Closed((tokens + [token])[i]))
  {
    ConcatAppend(tokens, token);
    assert s[..lastIdx] + token == s[..idx];
    forall i: nat | i < |tokens| + 1
      ensures TokenAt(tokens + [token], i) && (Outside((tokens + [token])[i]) || Closed((tokens + [token])[i]))
    {
      if i < |tokens| {
        assert TokenAt(tokens, i);
        if i + 1 == |tokens| && Closed(tokens[i]) {
          assert tokens[i][0] in tokens[i];
        }
      }
    }
  }

  lemma CurrentStep(s: Text, lastIdx: nat, idx: nat)
    requires lastIdx <= idx < |s|
    ensures s[lastIdx..idx + 1] == s[lastIdx..idx] + [s[idx]]
    ensures Depth(s[lastIdx..idx + 1]) == Depth(s[lastIdx..idx]) + Brace(s[idx])
    ensures forall n: nat :: n <= idx - lastIdx ==> s[lastIdx..idx + 1][..n] == s[lastIdx..idx][..n]
  {
    var next := s[lastIdx..idx + 1];
    assert next[..|next| - 1] == s[lastIdx..idx];
  }

  /** Reading on inside a brace section. */
  lemma ScanInside(s: Text, tokens: seq<Text>, lastIdx: nat, idx: nat, level: nat, level': nat)
    requires Scanned(s, tokens, lastIdx, idx, false, level) && idx < |s|
    requires level' == level + Brace(s[idx])
    ensures Scanned(s, tokens, lastIdx, idx + 1, false, level')
  {
    CurrentStep(s, lastIdx, idx);
    var current, next := s[lastIdx..idx], s[lastIdx..idx + 1];
    forall n: nat | 0 < n < |next| + 1 ensures Depth(next[..n]) > 0 {
      if n == |next| {
        assert next[..n] == next;
      } else {
        assert next[..n] == current[..n];
      }
    }
  }

  /** The closing brace of a section. */
  lemma ScanClose(s: Text, tokens: seq<Text>, lastIdx: nat, idx: nat)
    requires Scanned(s, tokens, lastIdx, idx, false, 0) && idx < |s| && s[idx] == CLOSE
    ensures Scanned(s, tokens + [s[lastIdx..idx + 1]], idx + 1, idx + 1, true, 0)
  {
    CurrentStep(s, lastIdx, idx);
    var current, next := s[lastIdx..idx], s[lastIdx..idx + 1];
    forall n: nat | 0 < n < |next| ensures Depth(next[..n]) > 0 {
      assert next[..n] == current[..n];
    }
    assert Closed(next) && next[0] in next;
    ScannedToken(s, tokens, lastIdx, idx + 1, next);
    assert s[idx + 1..idx + 1] == [];
  }

  /** The opening brace of a section. */
  lemma ScanOpen(s: Text, tokens: seq<Text>, lastIdx: nat, idx: nat)
    requires Scanned(s, tokens, lastIdx, idx, true, 0) && idx < |s| && s[idx] == OPEN
    ensures Scanned(s, if lastIdx < idx then tokens + [s[lastIdx..idx]] else tokens, idx, idx + 1, false, 0)
  {
    var next := s[idx..idx + 1];
    assert next[..0] == [] && Depth(next) == Depth([]) + 1;
    forall n: nat | 0 < n < |next| + 1 ensures Depth(next[..n]) > 0 {
      assert next[..n] == next;
    }
    if lastIdx < idx {
      ScannedToken(s, tokens, lastIdx, idx, s[lastIdx..idx]);
    }
  }

  lemma ScanOutside(s: Text, tokens: seq<Text>, lastIdx: nat, idx: nat)
    requires Scanned(s, tokens, lastIdx, idx, true, 0) && idx < |s| && s[idx] != OPEN
    ensures Scanned(s, tokens, lastIdx, idx + 1, true, 0)
  {
    assert s[lastIdx..idx + 1] == s[lastIdx..idx] + [s[idx]];
  }

  lemma ScanEnd(s: Text, tokens: seq<Text>, lastIdx: nat, outside: bool, level: nat)
    requires Scanned(s, tokens, lastIdx, |s|, outside, level)
    ensures Tokenization(if lastIdx < |s| then tokens + [s[lastIdx..]] else tokens, s)
  {
    var current := s[lastIdx..|s|];
    assert current == s[lastIdx..];
    if lastIdx < |s| {
      if outside {
        ScannedToken(s, tokens, lastIdx, |s|, current);
        assert s[..|s|] == s;
      } else {
        ConcatAppend(tokens, current);
        var all := tokens + [current];
        forall i: nat | i < |all| ensures TokenAt(all, i) {
          if i < |tokens| {
            assert TokenAt(tokens, i);
          }
          assert current[0] in current;
        }
      }
    } else {
      assert s[..lastIdx] == s;
    }
  }

  method Tokenize(s: Text) returns (tokens: seq<Text>)
    ensures Tokenization(tokens, s)
  {
    hide Scanned;
    tokens := [];
    var outside, level, lastIdx := true, 0, 0;
    ScanStart(s);
    for idx := 0 to |s|
      invariant lastIdx <= idx && (outside ==> level == 0)
      invariant Scanned(s, tokens, lastIdx, idx, outside, level)
    {
      if s[idx] == OPEN {
        if outside {
          ScanOpen(s, tokens, lastIdx, idx);
          if lastIdx < idx {
            tokens := tokens + [s[lastIdx..idx]];
          }
          lastIdx := idx;
          outside := false;
        } else {
          ScanInside(s, tokens, lastIdx, idx, level, level + 1);
          level := level + 1;
        }
      } else if s[idx] == CLOSE && !outside {
        if level > 0 {
          ScanInside(s, tokens, lastIdx, idx, level, level - 1);
          level := level - 1;
        } else {
          ScanClose(s, tokens, lastIdx, idx);
          tokens := tokens + [s[lastIdx..idx + 1]];
          lastIdx := idx + 1;
          outside := true;
        }
      } else if outside {
        ScanOutside(s, tokens, lastIdx, idx);
      } else {
        ScanInside(s, tokens, lastIdx, idx, level, level);
      }
    }
    ScanEnd(s, tokens, lastIdx, outside, level);
    if lastIdx < |s| {
      tokens := tokens + [s[lastIdx..]];
    }
  }

  lemma ScanStart(s: Text)
    ensures Scanned(s, [], 0, 0, true, 0)
  {
  }
}
