/**
 * lodash's fast path for large arrays: a hash cache built from pooled objects in place of a linear search,
 * in `_.difference` and `_.uniq`.
 */
module LodashCache {
  import opened Options

  /** JavaScript values up to `===`, except that NaN equals itself here; callables are `typeof` function. */
  datatype Value = Undefined | Null | Bool(b: bool) | Num(n: int) | NaN | Str(s: string) | Ref(id: nat, callable: bool)

  const LARGE_ARRAY_SIZE := 75
  const MAX_POOL_SIZE := 40

  predicate StrictlyEqual(a: Value, b: Value) { a == b && a != NaN }

  /** `baseIndexOf` finds `v`: NaN is never found. */
  predicate Includes(list: seq<Value>, v: Value) { v in list && v != NaN }

  method BaseIndexOf(list: seq<Value>, value: Value) returns (index: int)
    ensures -1 <= index < |list| && (index >= 0 <==> Includes(list, value))
    ensures index >= 0 ==> StrictlyEqual(list[index], value) && value !in list[..index]
  {
    index := 0;
    while index < |list|
      invariant 0 <= index <= |list| && !Includes(list[..index], value)
    {
      if StrictlyEqual(list[index], value) {
        return;
      }
      index := index + 1;
    }
    assert list[..index] == list;
    index := -1;
  }

  // ------------------------------------------------------------------ what a cache holds

  /** The fields of a cache object that values are filed under; `None` is a slot still null. */
  datatype Table = Table(
    isFalse: bool, isTrue: bool, isNull: bool, isUndefined: bool,
    numbers: Option<set<Value>>, strings: Option<set<string>>, objects: Option<map<string, seq<Value>>>)

  const EMPTY := Table(false, false, false, false, None, None, None)

  /** The string forms of objects, which need not differ, and the prefix of every key. */
  datatype Keys = Keys(prefix: string, text: nat -> string)

  function Key(keys: Keys, v: Value): string
    requires v.Str? || v.Ref?
  {
    keys.prefix + if v.Str? then v.s else keys.text(v.id)
  }

  function Listed(t: Table, key: string): seq<Value> {
    if t.objects.Some? && key in t.objects.value then t.objects.value[key] else []
  }

  predicate Find(keys: Keys, t: Table, v: Value) {
    match v
    case Undefined => t.isUndefined
    case Null => t.isNull
    case Bool(b) => if b then t.isTrue else t.isFalse
    case Num(_) => t.numbers.Some? && v in t.numbers.value
    case NaN => t.numbers.Some? && v in t.numbers.value
    case Str(_) => t.strings.Some? && Key(keys, v) in t.strings.value
    case Ref(_, _) => v in Listed(t, Key(keys, v))
  }

  function Add(keys: Keys, t: Table, v: Value): Table {
    match v
    case Undefined => t.(isUndefined := true)
    case Null => t.(isNull := true)
    case Bool(b) => if b then t.(isTrue := true) else t.(isFalse := true)
    case Num(_) => t.(numbers := Some((if t.numbers.Some? then t.numbers.value else {}) + {v}))
    case NaN => t.(numbers := Some((if t.numbers.Some? then t.numbers.value else {}) + {v}))
    case Str(_) => t.(strings := Some((if t.strings.Some? then t.strings.value else {}) + {Key(keys, v)}))
    case Ref(_, _) =>
      var key := Key(keys, v);
      t.(objects := Some((if t.objects.Some? then t.objects.value else map[])[key := Listed(t, key) + [v]]))
  }

  /** A cache finds what was pushed and nothing else, however string forms collide; NaN too. */
  lemma FindAfterAdd(keys: Keys, t: Table, v: Value, w: Value)
    ensures Find(keys, Add(keys, t, v), w) <==> Find(keys, t, w) || w == v
  {
    if v.Str? && w.Str? {
      assert Key(keys, v)[|keys.prefix|..] == v.s && Key(keys, w)[|keys.prefix|..] == w.s;
    }
  }

  function AddAll(keys: Keys, t: Table, values: seq<Value>): Table
    decreases |values|
  {
    if values == [] then t else AddAll(keys, Add(keys, t, values[0]), values[1..])
  }

  lemma {:induction false} FindAfterAddAll(keys: Keys, t: Table, values: seq<Value>, w: Value)
    ensures Find(keys, AddAll(keys, t, values), w) <==> Find(keys, t, w) || w in values
    decreases |values|
  {
    hide Add, Find;
    if values != [] {
      FindAfterAdd(keys, t, values[0], w);
      FindAfterAddAll(keys, Add(keys, t, values[0]), values[1..], w);
    }
  }

  lemma NothingAdded(keys: Keys)
    ensures AddAll(keys, EMPTY, []) == EMPTY
  {
  }

  lemma {:induction false} AddAllAppend(keys: Keys, t: Table, values: seq<Value>, v: Value)
    ensures AddAll(keys, t, values + [v]) == Add(keys, AddAll(keys, t, values), v)
    decreases |values|
  {
    hide Add;
    if values == [] {
      assert values + [v] == [v];
    } else {
      assert (values + [v])[1..] == values[1..] + [v];
      AddAllAppend(keys, Add(keys, t, values[0]), values[1..], v);
    }
  }

  // -------------------------------------------------------------- the linear meaning

  /** What `_.difference` keeps; the hash cache takes NaN to equal itself. */
  function Difference(list: seq<Value>, values: seq<Value>, hashed: bool): (r: seq<Value>) {
    if list == [] then []
    else
      (if Seen(values, list[0], hashed) then [] else [list[0]]) + Difference(list[1..], values, hashed)
  }

  predicate Seen(values: seq<Value>, v: Value, hashed: bool) { if hashed then v in values else Includes(values, v) }

  /** The two paths of `_.difference` agree exactly when NaN is not in both arrays. */
  lemma {:induction false} DifferencesAgree(list: seq<Value>, values: seq<Value>)
    ensures |Difference(list, values, true)| <= |Difference(list, values, false)|
    ensures Difference(list, values, true) == Difference(list, values, false) <==> !(NaN in list && NaN in values)
  {
    if list != [] {
      DifferencesAgree(list[1..], values);
      var hashed, linear := Difference(list[1..], values, true), Difference(list[1..], values, false);
      assert ([list[0]] + hashed)[1..] == hashed && ([list[0]] + linear)[1..] == linear;
      assert [] + hashed == hashed && [] + linear == linear;
      assert NaN in list <==> list[0] == NaN || NaN in list[1..];
    }
  }

  /** What `_.uniq` keeps of `list`, where `computed` are the values compared. */
  function Uniq(list: seq<Value>, computed: seq<Value>, seen: seq<Value>, hashed: bool): seq<Value>
    requires |list| == |computed|
    decreases |list|
  {
    if list == [] then []
    else if Seen(seen, computed[0], hashed) then Uniq(list[1..], computed[1..], seen, hashed)
    else [list[0]] + Uniq(list[1..], computed[1..], seen + [computed[0]], hashed)
  }

  /** Without a callback, what is kept is each value that was not seen before, once. */
  lemma {:induction false} UniqKeepsEachOnce(list: seq<Value>, seen: seq<Value>)
    ensures var r := Uniq(list, list, seen, true);
      && (forall v :: v in r <==> v in list && v !in seen)
      && (forall i, j :: 0 <= i < j < |r| ==> r[i] != r[j])
    decreases |list|
  {
    if list != [] {
      var v := list[0];
      assert forall w :: w in list <==> w == v || w in list[1..];
      if v in seen {
        UniqKeepsEachOnce(list[1..], seen);
      } else {
        UniqKeepsEachOnce(list[1..], seen + [v]);
        var rest := Uniq(list[1..], list[1..], seen + [v], true);
        var r := [v] + rest;
        assert Uniq(list, list, seen, true) == r;
        assert v in seen + [v];
        forall i, j | 0 <= i < j < |r| ensures r[i] != r[j] {
          assert r[j] == rest[j - 1] && r[j] in rest;
          assert i > 0 ==> r[i] == rest[i - 1];
        }
      }
    }
  }

  predicate SecondNaN(computed: seq<Value>, seen: seq<Value>, i: int) {
    0 <= i < |computed| && computed[i] == NaN && NaN in seen + computed[..i]
  }

  ghost predicate Repeats(computed: seq<Value>, seen: seq<Value>) { exists i :: SecondNaN(computed, seen, i) }

  lemma InEither(a: seq<Value>, b: seq<Value>, v: Value)
    ensures v in a + b <==> v in a || v in b
  {
  }

  lemma RepeatsStep(computed: seq<Value>, seen: seq<Value>)
    requires computed != []
    ensures Repeats(computed, seen)
       <==> || (computed[0] == NaN && NaN in seen)
            || Repeats(computed[1..], if computed[0] == NaN then seen + [NaN] else seen)
  {
    var rest, more := computed[1..], if computed[0] == NaN then seen + [NaN] else seen;
    if i :| i > 0 && SecondNaN(computed, seen, i) {
      assert computed[..i] == [computed[0]] + rest[..i - 1];
      InEither(seen, computed[..i], NaN);
      InEither([computed[0]], rest[..i - 1], NaN);
      InEither(more, rest[..i - 1], NaN);
      assert SecondNaN(rest, more, i - 1);
    }
    if i :| SecondNaN(rest, more, i) {
      assert computed[..i + 1] == [computed[0]] + rest[..i];
      InEither(more, rest[..i], NaN);
      InEither([computed[0]], rest[..i], NaN);
      InEither(seen, computed[..i + 1], NaN);
      assert SecondNaN(computed, seen, i + 1);
    }
    if computed[0] == NaN && NaN in seen {
      assert SecondNaN(computed, seen, 0);
    }
  }

  /** The two paths of `_.uniq` agree exactly when no value compared is a second NaN. */
  lemma {:induction false} UniqsAgree(list: seq<Value>, computed: seq<Value>, a: seq<Value>, b: seq<Value>)
    requires |list| == |computed| && forall v :: v in a <==> v in b
    ensures |Uniq(list, computed, a, true)| <= |Uniq(list, computed, b, false)|
    ensures Uniq(list, computed, a, true) == Uniq(list, computed, b, false) <==> !Repeats(computed, a)
    decreases |list|
  {
    if list != [] {
      RepeatsStep(computed, a);
      var c := computed[0];
      var a' := if c in a then a else a + [c];
      var b' := if Includes(b, c) then b else b + [c];
      UniqsAgree(list[1..], computed[1..], a', b');
      RepeatsSame(computed[1..], a', if c == NaN then a + [NaN] else a);
      var hashed, linear := Uniq(list[1..], computed[1..], a', true), Uniq(list[1..], computed[1..], b', false);
      assert ([list[0]] + hashed)[1..] == hashed && ([list[0]] + linear)[1..] == linear;
    }
  }

  lemma RepeatsSame(computed: seq<Value>, a: seq<Value>, b: seq<Value>)
    requires NaN in a <==> NaN in b
    ensures Repeats(computed, a) <==> Repeats(computed, b)
  {
    if i :| SecondNaN(computed, a, i) {
      assert SecondNaN(computed, b, i);
    }
    if i :| SecondNaN(computed, b, i) {
      assert SecondNaN(computed, a, i);
    }
  }

  // -------------------------------------------------------------------- pooled objects

  /** An object of the pool, with the slots the caches use and those sorting does. */
  class Slots {
    var list: Option<seq<Value>>
    var cache: Slots?
    var criteria: Option<Value>
    var value: Option<Value>
    var isFalse: bool
    var isTrue: bool
    var isNull: bool
    var isUndefined: bool
    var numbers: Option<set<Value>>
    var strings: Option<set<string>>
    var objects: Option<map<string, seq<Value>>>
    /** Whether the `push` slot holds `cachePush`; `releaseObject` leaves it as it is. */
    var push: bool

    constructor ()
      ensures Released() && Filed() == EMPTY && !push
    {
      list, cache, criteria, value, push := None, null, None, None, false;
      isFalse, isTrue, isNull, isUndefined := false, false, false, false;
      numbers, strings, objects := None, None, None;
    }

    /** Every reference it held to a value is gone; the four flags and `push` may be stale. */
    ghost predicate Released()
      reads this
    {
      && list == None && cache == null && criteria == None && value == None
      && numbers == None && strings == None && objects == None
    }

    ghost function Filed(): Table
      reads this
    {
      Table(isFalse, isTrue, isNull, isUndefined, numbers, strings, objects)
    }
  }

  function PoolPush(pool: seq<Slots>, o: Slots): seq<Slots> { if |pool| < MAX_POOL_SIZE then pool + [o] else pool }

  predicate IsObject(v: Value) { v.Ref? && !v.callable }

  /** The first, middle and last elements are all objects: `createCache` declines. */
  predicate Declines(values: seq<Value>) {
    values != [] && IsObject(values[0]) && IsObject(values[|values| / 2]) && IsObject(values[|values| - 1])
  }

  class Lodash {
    const keys: Keys
    var objectPool: seq<Slots>
    /** Objects handed out and not released. */
    ghost var live: set<Slots>

    /** No pooled object is in use, in the pool twice, or holding on to a value. */
    ghost predicate Valid()
      reads this, objectPool
    {
      && |objectPool| <= MAX_POOL_SIZE
      && (forall i, j :: 0 <= i < j < |objectPool| ==> objectPool[i] != objectPool[j])
      && (forall o :: o in objectPool ==> o !in live && o.Released())
    }

    constructor (keys: Keys)
      ensures Valid() && this.keys == keys && objectPool == [] && live == {}
    {
      this.keys := keys;
      objectPool, live := [], {};
    }

    method GetObject() returns (o: Slots)
      requires Valid()
      modifies this
      ensures Valid() && o.Released() && o !in objectPool && o !in old(live) && live == old(live) + {o}
      ensures if old(objectPool) == [] then fresh(o) && objectPool == [] else old(objectPool) == objectPool + [o]
      ensures (fresh(o) || o in old(objectPool)) && forall p :: p in objectPool ==> p in old(objectPool)
    {
      if objectPool == [] {
        o := new Slots();
      } else {
        o := objectPool[|objectPool| - 1];
        objectPool := objectPool[..|objectPool| - 1];
      }
      live := live + {o};
    }

    method ReleaseObject(o: Slots)
      requires Valid() && o in live
      requires o.cache != null ==> o.cache in live && o.cache != o && o.cache.cache == null
      modifies this, o, o.cache
      ensures Valid() && o.Released()
      ensures old(o.cache) == null ==> live == old(live) - {o} && objectPool == PoolPush(old(objectPool), o)
      ensures var c := old(o.cache);
        c != null ==>
          live == old(live) - {o, c} && objectPool == PoolPush(PoolPush(old(objectPool), c), o) && c.Released()
      ensures o.push == old(o.push) && (old(o.cache) != null ==> old(o.cache).push == old(o.cache.push))
      decreases if o.cache == null then 0 else 1
    {
      var cache := o.cache;
      if cache != null {
        ReleaseObject(cache);
      }
      o.list, o.cache, o.criteria, o.value := None, null, None, None;
      o.numbers, o.strings, o.objects := None, None, None;
      live := live - {o};
      if |objectPool| < MAX_POOL_SIZE {
        objectPool := objectPool + [o];
      }
    }

    /** What a cache object has been given, however its slots came to be. */
    ghost predicate IsCache(result: Slots, pushed: seq<Value>)
      reads result, result.cache
    {
      result.push && result.cache != null && result.cache != result && result.cache.cache == null
      && result.cache.Filed() == AddAll(keys, EMPTY, pushed)
    }

    method CachePush(result: Slots, v: Value, ghost pushed: seq<Value>)
      requires IsCache(result, pushed)
      modifies result.cache
      ensures result.cache == old(result.cache) && IsCache(result, pushed + [v])
    {
      AddAllAppend(keys, EMPTY, pushed, v);
      hide AddAll;
      var c := result.cache;
      match v {
        case Undefined => c.isUndefined := true;
        case Null => c.isNull := true;
        case Bool(b) => if b { c.isTrue := true; } else { c.isFalse := true; }
        case Num(_) => c.numbers := Some((if c.numbers.Some? then c.numbers.value else {}) + {v});
        case NaN => c.numbers := Some((if c.numbers.Some? then c.numbers.value else {}) + {v});
        case Str(_) => c.strings := Some((if c.strings.Some? then c.strings.value else {}) + {Key(keys, v)});
        case Ref(_, _) =>
          var key := Key(keys, v);
          var typeCache := if c.objects.Some? then c.objects.value else map[];
          var bucket := if key in typeCache then typeCache[key] else [];
          c.objects := Some(typeCache[key := bucket + [v]]);
      }
    }

    method CacheIndexOf(result: Slots, v: Value, ghost pushed: seq<Value>) returns (index: int)
      requires IsCache(result, pushed)
      ensures index == if v in pushed then 0 else -1
    {
      FindAfterAddAll(keys, EMPTY, pushed, v);
      hide AddAll;
      var c := result.cache;
      var found: bool;
      match v {
        case Undefined => found := c.isUndefined;
        case Null => found := c.isNull;
        case Bool(b) => found := if b then c.isTrue else c.isFalse;
        case Num(_) => found := c.numbers.Some? && v in c.numbers.value;
        case NaN => found := c.numbers.Some? && v in c.numbers.value;
        case Str(_) => found := c.strings.Some? && Key(keys, v) in c.strings.value;
        case Ref(_, _) =>
          var key := Key(keys, v);
          found := false;
          if c.objects.Some? && key in c.objects.value {
            var at := BaseIndexOf(c.objects.value[key], v);
            found := at > -1;
          }
      }
      index := if found then 0 else -1;
    }

    method FillCache(result: Slots, values: seq<Value>)
      requires IsCache(result, [])
      modifies result.cache
      ensures result.cache == old(result.cache) && IsCache(result, values)
    {
      ghost var cache := result.cache;
      var index := 0;
      while index < |values|
        invariant index <= |values| && IsCache(result, values[..index]) && result.cache == cache
      {
        assert values[..index + 1] == values[..index] + [values[index]];
        CachePush(result, values[index], values[..index]);
        index := index + 1;
      }
      assert values[..index] == values;
    }

    /** A cache of `values` is on loan beside the objects of `before`; with no cache, nothing is. */
    ghost predicate Lent(cache: Slots?, values: seq<Value>, before: set<Slots>)
      reads this, cache, if cache == null then null else cache.cache
    {
      if cache == null then live == before
      else
        && IsCache(cache, values)
        && cache !in before && cache.cache !in before && live == before + {cache, cache.cache}
    }

    /** A cache of `values` from two pooled objects, whatever flags and `push` they come with; null when it declines. */
    method CreateCache(values: seq<Value>) returns (result: Slots?)
      requires Valid()
      modifies this, objectPool
      ensures Valid() && (result == null <==> Declines(values)) && Lent(result, values, old(live))
      ensures result != null ==> result.list == Some(values)
      ensures result != null ==> fresh(result) || result in old(objectPool)
      ensures result != null ==> fresh(result.cache) || result.cache in old(objectPool)
    {
      if Declines(values) {
        return null;
      }
      hide Declines, AddAll;
      NothingAdded(keys);
      var cache := GetObject();
      cache.isFalse, cache.isNull, cache.isTrue, cache.isUndefined := false, false, false, false;
      result := GetObject();
      result.list := Some(values);
      result.cache := cache;
      result.push := true;
      FillCache(result, values);
    }

    method BaseDifference(list: seq<Value>, values: seq<Value>) returns (result: seq<Value>)
      requires Valid()
      modifies this, objectPool
      ensures Valid() && live == old(live)
      ensures result == Difference(list, values, |list| >= LARGE_ARRAY_SIZE && !Declines(values))
    {
      var cache: Slots? := null;
      if |list| >= LARGE_ARRAY_SIZE {
        cache := CreateCache(values);
      }
      hide Difference;
      ghost var hashed := cache != null;
      result := [];
      var index := 0;
      while index < |list|
        invariant index <= |list| && (cache != null ==> IsCache(cache, values))
        invariant Difference(list, values, hashed) == result + Difference(list[index..], values, hashed)
        modifies {}
      {
        DifferenceStep(list, values, hashed, index, result);
        var at: int;
        if cache != null {
          at := CacheIndexOf(cache, list[index], values);
        } else {
          at := BaseIndexOf(values, list[index]);
        }
        if at < 0 {
          result := result + [list[index]];
        }
        index := index + 1;
      }
      if cache != null {
        ReleaseObject(cache);
      }
    }

    method BaseUniq(list: seq<Value>, sorted: bool, callback: Option<(Value, int) -> Value>)
        returns (result: seq<Value>)
      requires Valid()
      modifies this, objectPool
      ensures Valid() && live == old(live)
      ensures !sorted ==> result == Uniq(list, Computed(list, callback), [], |list| >= LARGE_ARRAY_SIZE)
      ensures sorted ==> result == SortedUniq(list, Computed(list, callback), None)
    {
      hide Uniq, SortedUniq;
      ghost var computed := Computed(list, callback);
      var isLarge := !sorted && |list| >= LARGE_ARRAY_SIZE;
      var seen: seq<Value> := [];
      var cache: Slots? := null;
      if isLarge {
        cache := CreateCache(seen);
      }
      ghost var inner := if cache == null then null else cache.cache;
      result := [];
      var index := 0;
      UniqEnds(list, computed);
      while index < |list|
        invariant index <= |list| && Valid() && (isLarge <==> cache != null)
        invariant Lent(cache, seen, old(live)) && (cache != null ==> cache.cache == inner)
        invariant seen == [] <==> index == 0
        invariant !sorted ==>
          Uniq(list, computed, [], isLarge) == result + Uniq(list[index..], computed[index..], seen, isLarge)
        invariant sorted ==>
          SortedUniq(list, computed, None) == result + SortedUniq(list[index..], computed[index..], Last(seen))
        modifies if inner == null then {} else {inner}
      {
        UniqStep(list, computed, seen, isLarge, index, result);
        SortedStep(list, computed, Last(seen), index, result);
        var value := list[index];
        var c := if callback.Some? then callback.value(value, index) else value;
        var isNew: bool;
        if sorted {
          isNew := index == 0 || !StrictlyEqual(seen[|seen| - 1], c);
        } else if cache != null {
          var at := CacheIndexOf(cache, c, seen);
          isNew := at < 0;
        } else {
          var at := BaseIndexOf(seen, c);
          isNew := at < 0;
        }
        if isNew {
          if cache != null {
            CachePush(cache, c, seen);
          }
          seen := seen + [c];
          result := result + [value];
        }
        index := index + 1;
      }
      if cache != null {
        ReleaseObject(cache);
      }
    }
  }

  lemma DifferenceStep(list: seq<Value>, values: seq<Value>, hashed: bool, i: nat, kept: seq<Value>)
    requires i < |list|
    ensures kept + Difference(list[i..], values, hashed)
         == (if Seen(values, list[i], hashed) then kept else kept + [list[i]])
            + Difference(list[i + 1..], values, hashed)
  {
    assert list[i..][0] == list[i] && list[i..][1..] == list[i + 1..];
    var rest := Difference(list[i + 1..], values, hashed);
    assert [] + rest == rest && kept + ([list[i]] + rest) == kept + [list[i]] + rest;
  }

  lemma UniqEnds(list: seq<Value>, computed: seq<Value>)
    requires |list| == |computed|
    ensures list[0..] == list && computed[0..] == computed
    ensures forall seen, hashed :: Uniq(list[|list|..], computed[|list|..], seen, hashed) == []
    ensures forall last :: SortedUniq(list[|list|..], computed[|list|..], last) == []
  {
  }

  lemma UniqStep(list: seq<Value>, computed: seq<Value>, seen: seq<Value>, hashed: bool, i: nat, kept: seq<Value>)
    requires i < |list| == |computed|
    ensures kept + Uniq(list[i..], computed[i..], seen, hashed)
         == if Seen(seen, computed[i], hashed) then kept + Uniq(list[i + 1..], computed[i + 1..], seen, hashed)
            else kept + [list[i]] + Uniq(list[i + 1..], computed[i + 1..], seen + [computed[i]], hashed)
  {
    assert list[i..][0] == list[i] && list[i..][1..] == list[i + 1..];
    assert computed[i..][0] == computed[i] && computed[i..][1..] == computed[i + 1..];
    var rest := Uniq(list[i + 1..], computed[i + 1..], seen + [computed[i]], hashed);
    assert kept + ([list[i]] + rest) == kept + [list[i]] + rest;
  }

  function Last(values: seq<Value>): Option<Value> { if values == [] then None else Some(values[|values| - 1]) }

  /** What `_.uniq` keeps of an array said to be sorted: a value is compared with the last one kept only. */
  function SortedUniq(list: seq<Value>, computed: seq<Value>, last: Option<Value>): seq<Value>
    requires |list| == |computed|
    decreases |list|
  {
    if list == [] then []
    else if last.Some? && StrictlyEqual(last.value, computed[0]) then SortedUniq(list[1..], computed[1..], last)
    else [list[0]] + SortedUniq(list[1..], computed[1..], Some(computed[0]))
  }

  lemma SortedStep(list: seq<Value>, computed: seq<Value>, last: Option<Value>, i: nat, kept: seq<Value>)
    requires i < |list| == |computed|
    ensures kept + SortedUniq(list[i..], computed[i..], last)
         == if last.Some? && StrictlyEqual(last.value, computed[i])
            then kept + SortedUniq(list[i + 1..], computed[i + 1..], last)
            else kept + [list[i]] + SortedUniq(list[i + 1..], computed[i + 1..], Some(computed[i]))
  {
    assert list[i..][0] == list[i] && list[i..][1..] == list[i + 1..];
    assert computed[i..][0] == computed[i] && computed[i..][1..] == computed[i + 1..];
    var rest := SortedUniq(list[i + 1..], computed[i + 1..], Some(computed[i]));
    assert kept + ([list[i]] + rest) == kept + [list[i]] + rest;
  }

  /** From `start` on, a value equal to an earlier one is equal to the one right before it. */
  ghost predicate Grouped(computed: seq<Value>, start: nat) {
    forall i :: start <= i < |computed| && Includes(computed[..i], computed[i]) ==> FollowsItsLike(computed, i)
  }

  predicate FollowsItsLike(computed: seq<Value>, i: int) {
    0 < i < |computed| && StrictlyEqual(computed[i - 1], computed[i])
  }

  /** The run after `past`, where `seen` holds what `past` does and `last` is like its last value. */
  lemma {:induction false} SortedAgrees(list: seq<Value>, computed: seq<Value>, past: seq<Value>, seen: seq<Value>,
                                        last: Option<Value>)
    requires |list| == |computed|
    requires forall v :: Includes(seen, v) <==> Includes(past, v)
    requires last.Some? <==> past != []
    requires past != [] ==> forall v :: StrictlyEqual(last.value, v) <==> StrictlyEqual(past[|past| - 1], v)
    ensures |Uniq(list, computed, seen, false)| <= |SortedUniq(list, computed, last)|
    ensures SortedUniq(list, computed, last) == Uniq(list, computed, seen, false) <==> Grouped(past + computed, |past|)
    decreases |list|
  {
    if list != [] {
      var c := computed[0];
      var past' := past + [c];
      var all := past + computed;
      assert all == past' + computed[1..] && all[..|past|] == past && all[|past|] == c;
      assert Grouped(all, |past|)
        <==> (Includes(past, c) ==> FollowsItsLike(all, |past|)) && Grouped(all, |past'|);
      forall v ensures Includes(past', v) <==> Includes(past, v) || StrictlyEqual(c, v) {}
      forall v ensures Includes(seen + [c], v) <==> Includes(seen, v) || StrictlyEqual(c, v) {}
      var like := last.Some? && StrictlyEqual(last.value, c);
      assert like ==> Includes(past, c) && StrictlyEqual(past[|past| - 1], c);
      var seen' := if Includes(seen, c) then seen else seen + [c];
      var last' := if like then last else Some(c);
      SortedAgrees(list[1..], computed[1..], past', seen', last');
      var linear, fast := Uniq(list[1..], computed[1..], seen', false), SortedUniq(list[1..], computed[1..], last');
      assert ([list[0]] + linear)[1..] == linear && ([list[0]] + fast)[1..] == fast;
    }
  }

  /** The sorted variant agrees with the linear one exactly when equal values stand next to each other. */
  lemma SortedIsLinear(list: seq<Value>, callback: Option<(Value, int) -> Value>)
    ensures var computed := Computed(list, callback);
      SortedUniq(list, computed, None) == Uniq(list, computed, [], false)
      <==> forall i, k :: 0 <= i < k < |computed| && StrictlyEqual(computed[i], computed[k]) ==>
             FollowsItsLike(computed, k)
  {
    hide Uniq, SortedUniq, Computed, Grouped;
    var computed := Computed(list, callback);
    SortedAgrees(list, computed, [], [], None);
    assert [] + computed == computed;
    GroupedMeans(computed);
  }

  lemma GroupedMeans(computed: seq<Value>)
    ensures Grouped(computed, 0)
       <==> forall i, k :: 0 <= i < k < |computed| && StrictlyEqual(computed[i], computed[k]) ==>
              FollowsItsLike(computed, k)
  {
    hide FollowsItsLike;
    if Grouped(computed, 0) {
      forall i, k | 0 <= i < k < |computed| && StrictlyEqual(computed[i], computed[k])
        ensures FollowsItsLike(computed, k)
      {
        assert computed[..k][i] == computed[i];
      }
    } else {
      var k :| 0 <= k < |computed| && Includes(computed[..k], computed[k]) && !FollowsItsLike(computed, k);
      var i :| 0 <= i < k && computed[..k][i] == computed[k];
      assert StrictlyEqual(computed[i], computed[k]);
    }
  }

  /** The values `_.uniq` compares. */
  function Computed(list: seq<Value>, callback: Option<(Value, int) -> Value>): (r: seq<Value>)
    ensures |r| == |list|
  {
    seq(|list|, i requires 0 <= i < |list| => if callback.Some? then callback.value(list[i], i) else list[i])
  }

  /** For `_.uniq` itself: the fast path agrees with the linear one exactly when at most one value compared is NaN. */
  lemma UniqIsLinear(list: seq<Value>, callback: Option<(Value, int) -> Value>)
    ensures var computed := Computed(list, callback);
      Uniq(list, computed, [], true) == Uniq(list, computed, [], false)
      <==> forall i, j :: 0 <= i < j < |computed| ==> computed[i] != NaN || computed[j] != NaN
  {
    var computed := Computed(list, callback);
    UniqsAgree(list, computed, [], []);
    if i :| SecondNaN(computed, [], i) {
      var j :| 0 <= j < i && computed[..i][j] == NaN;
      assert computed[j] == NaN && computed[i] == NaN;
    }
    if i, j :| 0 <= i < j < |computed| && computed[i] == NaN && computed[j] == NaN {
      assert computed[..j][i] == NaN;
      assert SecondNaN(computed, [], j);
    }
  }
}
