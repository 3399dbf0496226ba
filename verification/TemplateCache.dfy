/** The renderer's map of parsed templates: access-ordered, at most 50 entries, softly referenced. */
module TemplateCache {
  import opened LiquidSyntax
  import opened Options

  const CAPACITY := 50

  function Without(order: seq<string>, key: string): (r: seq<string>)
    ensures forall k :: k in r <==> k in order && k != key
    ensures |r| <= |order|
  {
    if order == [] then []
    else if order[0] == key then Without(order[1..], key)
    else [order[0]] + Without(order[1..], key)
  }

  /** Access moves a key to the young end, where a new one also starts. */
  function Touch(order: seq<string>, key: string): seq<string> { Without(order, key) + [key] }

  predicate Distinct(order: seq<string>) { forall i, j :: 0 <= i < j < |order| ==> order[i] != order[j] }

  lemma {:induction false} WithoutIsDistinct(order: seq<string>, key: string)
    requires Distinct(order)
    ensures Distinct(Without(order, key))
    ensures key in order ==> |Without(order, key)| < |order|
  {
    if order != [] {
      TailOfDistinct(order);
      WithoutIsDistinct(order[1..], key);
      if order[0] != key {
        ConsIsDistinct(order[0], Without(order[1..], key));
      }
    }
  }

  lemma ConsIsDistinct(k: string, order: seq<string>)
    requires Distinct(order) && k !in order
    ensures Distinct([k] + order)
  {
    var r := [k] + order;
    forall i, j | 0 <= i < j < |r| ensures r[i] != r[j] {
      assert r[j] == order[j - 1];
    }
  }

  lemma TouchIsDistinct(order: seq<string>, key: string)
    requires Distinct(order)
    ensures Distinct(Touch(order, key)) && (forall k :: k in Touch(order, key) <==> k in order || k == key)
    ensures |Touch(order, key)| <= if key in order then |order| else |order| + 1
  {
    WithoutIsDistinct(order, key);
  }

  lemma TailOfDistinct(order: seq<string>)
    requires Distinct(order) && order != []
    ensures Distinct(order[1..]) && (forall k :: k in order[1..] <==> k in order && k != order[0])
  {
  }

  /** The order after an entry is added: the eldest is dropped when there are too many. */
  function Trim(order: seq<string>): seq<string> { if |order| > CAPACITY then order[1..] else order }

  /** A parsed template, or nothing once the garbage collector has cleared the reference. */
  type SoftReference = Option<seq<Node>>

  class Cache {
    var entries: map<string, SoftReference>
    var order: seq<string>

    ghost predicate Valid()
      reads this
    {
      Distinct(order) && (forall k :: k in order <==> k in entries) && |order| <= CAPACITY
    }

    constructor ()
      ensures Valid() && entries == map[]
    {
      entries, order := map[], [];
    }

    /** A hit, even on a cleared reference, makes the entry the youngest. */
    method Get(key: string) returns (ref: SoftReference)
      requires Valid()
      modifies this
      ensures Valid() && entries == old(entries)
      ensures ref == if key in entries then entries[key] else None
      ensures order == if key in entries then Touch(old(order), key) else old(order)
    {
      if key in entries {
        TouchIsDistinct(order, key);
        order := Touch(order, key);
        ref := entries[key];
      } else {
        ref := None;
      }
    }

    /** The new entry is the youngest, and stays; the eldest goes when there are too many. */
    method Put(key: string, nodes: seq<Node>)
      requires Valid()
      modifies this
      ensures Valid() && key in entries && entries[key] == Some(nodes)
      ensures order == Trim(Touch(old(order), key))
      ensures forall k :: k in entries && k != key ==> k in old(entries) && entries[k] == old(entries)[k]
    {
      hide Without;
      TouchIsDistinct(order, key);
      order := Touch(order, key);
      entries := entries[key := Some(nodes)];
      if |order| > CAPACITY {
        assert order[|order| - 1] == key;
        TailOfDistinct(order);
        entries := entries - {order[0]};
        order := order[1..];
      }
    }

    /** The collector clears any references it likes; the entries themselves stay. */
    method ClearSome()
      requires Valid()
      modifies this
      ensures Valid() && order == old(order) && entries.Keys == old(entries).Keys
      ensures forall k :: k in entries ==> entries[k] == old(entries)[k] || entries[k] == None
    {
      var cleared: set<string> := *;
      entries := map k | k in entries :: if k in cleared then None else entries[k];
    }
  }
}
