/** Which elements `_.difference` and `_.uniq` keep, by position and in terms of the callback's values. */
module LodashPicks {
  import opened LodashCache
  import opened Options

  /** The elements of `list` that are flagged, in order. */
  function Flagged(list: seq<Value>, flags: seq<bool>): seq<Value>
    requires |list| == |flags|
  {
    if list == [] then []
    else
      var n := |list| - 1;
      Flagged(list[..n], flags[..n]) + if flags[n] then [list[n]] else []
  }

  lemma FlaggedMore(list: seq<Value>, flags: seq<bool>, v: Value, flag: bool)
    requires |list| == |flags|
    ensures Flagged(list + [v], flags + [flag]) == Flagged(list, flags) + if flag then [v] else []
  {
    assert (list + [v])[..|list|] == list && (flags + [flag])[..|list|] == flags;
  }

  /** The value `_.uniq` compares the `i`th element by. */
  function Compared(list: seq<Value>, callback: Option<(Value, int) -> Value>, i: nat): Value
    requires i < |list|
  {
    if callback.Some? then callback.value(list[i], i) else list[i]
  }

  lemma ComputedAre(list: seq<Value>, callback: Option<(Value, int) -> Value>)
    ensures |Computed(list, callback)| == |list|
    ensures forall i :: 0 <= i < |list| ==> Computed(list, callback)[i] == Compared(list, callback, i)
  {
  }

  /** The hash cache takes NaN to equal itself, `===` does not. */
  predicate Same(a: Value, b: Value, hashed: bool) { if hashed then a == b else StrictlyEqual(a, b) }

  lemma SeenIsSame(seen: seq<Value>, v: Value, hashed: bool)
    ensures Seen(seen, v, hashed) <==> exists j :: 0 <= j < |seen| && Same(seen[j], v, hashed)
  {
    if Seen(seen, v, hashed) {
      var j :| 0 <= j < |seen| && seen[j] == v;
      assert Same(seen[j], v, hashed);
    }
  }

  // ------------------------------------------------------------------------- difference

  lemma {:induction false} DifferenceMore(list: seq<Value>, values: seq<Value>, v: Value, hashed: bool)
    ensures Difference(list + [v], values, hashed)
         == Difference(list, values, hashed) + if Seen(values, v, hashed) then [] else [v]
    decreases |list|
  {
    hide Seen;
    var last := if Seen(values, v, hashed) then [] else [v];
    if list == [] {
      assert list + [v] == [v] && [v][1..] == [] && last + [] == last && [] + last == last;
    } else {
      assert (list + [v])[0] == list[0] && (list + [v])[1..] == list[1..] + [v];
      DifferenceMore(list[1..], values, v, hashed);
      var first, rest := if Seen(values, list[0], hashed) then [] else [list[0]], Difference(list[1..], values, hashed);
      assert first + (rest + last) == first + rest + last;
    }
  }

  /** `v` equals none of `values`. */
  ghost predicate IsOther(values: seq<Value>, v: Value, hashed: bool) {
    forall j :: 0 <= j < |values| ==> !Same(values[j], v, hashed)
  }

  /** `_.difference` keeps, in order, exactly the elements that equal none of the other values. */
  lemma {:induction false} DifferenceKeepsOthers(list: seq<Value>, values: seq<Value>, hashed: bool)
      returns (flags: seq<bool>)
    ensures |flags| == |list| && Difference(list, values, hashed) == Flagged(list, flags)
    ensures forall i :: 0 <= i < |list| ==> (flags[i] <==> IsOther(values, list[i], hashed))
    decreases |list|
  {
    hide Difference, Same, Flagged;
    flags := [];
    if list == [] {
      NoDifference(values, hashed);
    } else {
      var n := |list| - 1;
      var init := DifferenceKeepsOthers(list[..n], values, hashed);
      DifferenceMore(list[..n], values, list[n], hashed);
      SeenIsSame(values, list[n], hashed);
      assert list[..n] + [list[n]] == list;
      flags := init + [!Seen(values, list[n], hashed)];
      FlaggedMore(list[..n], init, list[n], flags[n]);
      hide Seen, IsOther;
    }
  }

  lemma NoDifference(values: seq<Value>, hashed: bool)
    ensures Difference([], values, hashed) == [] == Flagged([], [])
  {
  }

  // ------------------------------------------------------------------------------- uniq

  lemma {:induction false} UniqMore(list: seq<Value>, computed: seq<Value>, seen: seq<Value>, hashed: bool, v: Value,
                                    c: Value)
    requires |list| == |computed|
    ensures Uniq(list + [v], computed + [c], seen, hashed)
         == Uniq(list, computed, seen, hashed) + if Seen(seen + computed, c, hashed) then [] else [v]
    decreases |list|
  {
    var last := if Seen(seen + computed, c, hashed) then [] else [v];
    if list == [] {
      assert seen + computed == seen && list + [v] == [v] && computed + [c] == [c];
      assert [v][1..] == [] && [c][1..] == [] && [v] + [] == [v] && [] + last == last;
      assert Uniq([], [], seen, hashed) == [] && Uniq([], [], seen + [c], hashed) == [];
    } else {
      var seen' := if Seen(seen, computed[0], hashed) then seen else seen + [computed[0]];
      assert (list + [v])[1..] == list[1..] + [v] && (computed + [c])[1..] == computed[1..] + [c];
      UniqMore(list[1..], computed[1..], seen', hashed, v, c);
      assert Seen(seen' + computed[1..], c, hashed) <==> Seen(seen + computed, c, hashed) by {
        SeenMoved(seen, computed, c, hashed);
      }
      hide Seen;
      var rest := Uniq(list[1..], computed[1..], seen', hashed);
      assert [list[0]] + (rest + last) == [list[0]] + rest + last;
    }
  }

  lemma SeenMoved(seen: seq<Value>, computed: seq<Value>, c: Value, hashed: bool)
    requires computed != []
    ensures var seen' := if Seen(seen, computed[0], hashed) then seen else seen + [computed[0]];
      Seen(seen' + computed[1..], c, hashed) <==> Seen(seen + computed, c, hashed)
  {
    assert computed == [computed[0]] + computed[1..];
    assert c in computed <==> c == computed[0] || c in computed[1..];
    InEither(seen, computed, c);
    InEither(seen, computed[1..], c);
    InEither(seen, [computed[0]], c);
    InEither(seen + [computed[0]], computed[1..], c);
  }

  /** No element before `i` is the same by what the callback makes of it. */
  ghost predicate IsFirst(list: seq<Value>, callback: Option<(Value, int) -> Value>, hashed: bool, i: nat) {
    i < |list| && forall j :: 0 <= j < i ==> !Same(Compared(list, callback, j), Compared(list, callback, i), hashed)
  }

  lemma {:induction false} UniqFlags(list: seq<Value>, computed: seq<Value>, hashed: bool) returns (flags: seq<bool>)
    requires |list| == |computed|
    ensures |flags| == |list| && Uniq(list, computed, [], hashed) == Flagged(list, flags)
    ensures forall i :: 0 <= i < |list| ==> (flags[i] <==> !Seen(computed[..i], computed[i], hashed))
    decreases |list|
  {
    hide Uniq, Seen, Flagged;
    flags := [];
    if list == [] {
      NothingUniq(hashed);
    } else {
      var n := |list| - 1;
      var init := UniqFlags(list[..n], computed[..n], hashed);
      UniqMore(list[..n], computed[..n], [], hashed, list[n], computed[n]);
      assert [] + computed[..n] == computed[..n];
      assert list[..n] + [list[n]] == list && computed[..n] + [computed[n]] == computed;
      flags := init + [!Seen(computed[..n], computed[n], hashed)];
      FlaggedMore(list[..n], init, list[n], flags[n]);
      forall i | 0 <= i < n ensures flags[i] <==> !Seen(computed[..i], computed[i], hashed) {
        assert computed[..n][..i] == computed[..i] && flags[i] == init[i];
      }
    }
  }

  lemma NothingUniq(hashed: bool)
    ensures Uniq([], [], [], hashed) == [] == Flagged([], [])
  {
  }

  /** `_.uniq` keeps, in order, exactly the elements whose compared value has not come before. */
  lemma UniqKeepsFirsts(list: seq<Value>, callback: Option<(Value, int) -> Value>, hashed: bool)
      returns (flags: seq<bool>)
    ensures |flags| == |list| && Uniq(list, Computed(list, callback), [], hashed) == Flagged(list, flags)
    ensures forall i :: 0 <= i < |list| ==> (flags[i] <==> IsFirst(list, callback, hashed, i))
  {
    hide Uniq, Same, Seen, Flagged, Computed, Compared;
    var computed := Computed(list, callback);
    ComputedAre(list, callback);
    flags := UniqFlags(list, computed, hashed);
    forall i | 0 <= i < |list| ensures flags[i] <==> IsFirst(list, callback, hashed, i) {
      SeenIsSame(computed[..i], computed[i], hashed);
      assert forall j :: 0 <= j < i ==> computed[..i][j] == Compared(list, callback, j);
    }
  }

  /** So every value is represented: what is dropped equals something kept before it. */
  lemma {:induction false} EveryValueIsKept(list: seq<Value>, callback: Option<(Value, int) -> Value>, hashed: bool,
                                            i: nat)
      returns (first: nat)
    requires i < |list|
    ensures first <= i && IsFirst(list, callback, hashed, first)
    ensures first == i || Same(Compared(list, callback, first), Compared(list, callback, i), hashed)
    decreases i
  {
    hide Compared;
    if IsFirst(list, callback, hashed, i) {
      first := i;
    } else {
      var j :| 0 <= j < i && Same(Compared(list, callback, j), Compared(list, callback, i), hashed);
      first := EveryValueIsKept(list, callback, hashed, j);
    }
  }

  // ------------------------------------------------------------------------ sorted uniq

  lemma {:induction false} SortedMore(list: seq<Value>, computed: seq<Value>, last: Option<Value>, v: Value, c: Value)
    requires |list| == |computed|
    ensures var before := if computed == [] then last else Some(computed[|computed| - 1]);
      SortedUniq(list + [v], computed + [c], last)
      == SortedUniq(list, computed, last) + if before.Some? && StrictlyEqual(before.value, c) then [] else [v]
    decreases |list|
  {
    if list == [] {
      assert list + [v] == [v] && computed + [c] == [c] && [v][1..] == [] && [c][1..] == [];
      assert [v] + [] == [v] && [] + [v] == [v];
      assert SortedUniq([], [], last) == [] && SortedUniq([], [], Some(c)) == [];
    } else {
      var like := last.Some? && StrictlyEqual(last.value, computed[0]);
      assert (list + [v])[1..] == list[1..] + [v] && (computed + [c])[1..] == computed[1..] + [c];
      var last' := if like then last else Some(computed[0]);
      SortedMore(list[1..], computed[1..], last', v, c);
      var before := Some(computed[|computed| - 1]);
      var tail := if StrictlyEqual(before.value, c) then [] else [v];
      var rest := SortedUniq(list[1..], computed[1..], last');
      assert [list[0]] + (rest + tail) == [list[0]] + rest + tail;
    }
  }

  /** The compared value differs from the one before it, or there is none. */
  predicate IsChange(list: seq<Value>, callback: Option<(Value, int) -> Value>, i: nat) {
    && i < |list|
    && (i == 0 || !StrictlyEqual(Compared(list, callback, i - 1), Compared(list, callback, i)))
  }

  predicate Changes(computed: seq<Value>, i: nat) {
    i < |computed| && (i == 0 || !StrictlyEqual(computed[i - 1], computed[i]))
  }

  lemma {:induction false} SortedFlags(list: seq<Value>, computed: seq<Value>) returns (flags: seq<bool>)
    requires |list| == |computed|
    ensures |flags| == |list| && SortedUniq(list, computed, None) == Flagged(list, flags)
    ensures forall i :: 0 <= i < |list| ==> (flags[i] <==> Changes(computed, i))
    decreases |list|
  {
    hide SortedUniq, StrictlyEqual, Flagged;
    flags := [];
    if list == [] {
      NothingSorted();
    } else {
      var n := |list| - 1;
      var init := SortedFlags(list[..n], computed[..n]);
      SortedMore(list[..n], computed[..n], None, list[n], computed[n]);
      assert list[..n] + [list[n]] == list && computed[..n] + [computed[n]] == computed;
      flags := init + [Changes(computed, n)];
      FlaggedMore(list[..n], init, list[n], flags[n]);
      forall i | 0 <= i < n ensures Changes(computed[..n], i) <==> Changes(computed, i) {}
    }
  }

  lemma NothingSorted()
    ensures SortedUniq([], [], None) == [] == Flagged([], [])
  {
  }

  /** Told that the array is sorted, `_.uniq` keeps exactly the elements where the compared value changes. */
  lemma SortedUniqKeepsChanges(list: seq<Value>, callback: Option<(Value, int) -> Value>) returns (flags: seq<bool>)
    ensures |flags| == |list| && SortedUniq(list, Computed(list, callback), None) == Flagged(list, flags)
    ensures forall i :: 0 <= i < |list| ==> (flags[i] <==> IsChange(list, callback, i))
  {
    hide SortedUniq, StrictlyEqual, Flagged, Computed, Compared;
    ComputedAre(list, callback);
    var computed := Computed(list, callback);
    flags := SortedFlags(list, computed);
    forall i | 0 <= i < |list| ensures Changes(computed, i) <==> IsChange(list, callback, i) {
      assert computed[i] == Compared(list, callback, i);
      assert i > 0 ==> computed[i - 1] == Compared(list, callback, i - 1);
    }
  }
}
