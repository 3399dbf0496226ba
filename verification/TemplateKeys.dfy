/** The keys templates are cached under, for several services at once, and what the cache may hold under them. */
module TemplateKeys {
  import opened LiquidSyntax
  import opened LiquidEval
  import opened TemplateCache
  import opened Options

  // ------------------------------------------------------------------------ keys

  function RenderKey(hash: string, name: string): string { "r-" + hash + name }

  function IncludeKey(hash: string, name: string): string { "i-" + hash + "-" + name }

  /** Identity hashes are printed in decimal. */
  predicate Digits(hash: string) { hash != "" && forall i :: 0 <= i < |hash| ==> '0' <= hash[i] <= '9' }

  lemma RenderAndIncludeKeysDiffer(hash: string, name: string, hash': string, name': string)
    ensures RenderKey(hash, name) != IncludeKey(hash', name')
  {
    assert RenderKey(hash, name)[0] == 'r' && IncludeKey(hash', name')[0] == 'i';
  }

  lemma {:induction false} SplitAtDash(hash: string, name: string, hash': string, name': string)
    requires forall i :: 0 <= i < |hash| ==> hash[i] != '-'
    requires forall i :: 0 <= i < |hash'| ==> hash'[i] != '-'
    requires hash + ("-" + name) == hash' + ("-" + name')
    ensures hash == hash' && name == name'
    decreases |hash|
  {
    var s, s' := hash + ("-" + name), hash' + ("-" + name');
    assert s[0] == if hash == "" then '-' else hash[0];
    assert s'[0] == if hash' == "" then '-' else hash'[0];
    if hash == "" {
      assert s[1..] == name && s'[1..] == name';
    } else {
      assert s[1..] == hash[1..] + ("-" + name) && s'[1..] == hash'[1..] + ("-" + name');
      SplitAtDash(hash[1..], name, hash'[1..], name');
      assert hash == [hash[0]] + hash[1..] && hash' == [hash'[0]] + hash'[1..];
    }
  }

  /** The key of an include says which service and which template it is for. */
  lemma IncludeKeyIsInjective(hash: string, name: string, hash': string, name': string)
    requires Digits(hash) && Digits(hash') && IncludeKey(hash, name) == IncludeKey(hash', name')
    ensures hash == hash' && name == name'
  {
    assert IncludeKey(hash, name)[2..] == hash + ("-" + name);
    assert IncludeKey(hash', name')[2..] == hash' + ("-" + name');
    SplitAtDash(hash, name, hash', name');
  }

  /** The key of a render does not: two services share one exactly when one hash starts with the other. */
  lemma RenderKeysMeet(hash: string, hash': string)
    ensures (exists name, name' :: RenderKey(hash, name) == RenderKey(hash', name')) <==> hash <= hash' || hash' <= hash
  {
    if name, name' :| RenderKey(hash, name) == RenderKey(hash', name') {
      SharedKeyIsPrefix(hash, name, hash', name');
    }
    if hash <= hash' {
      assert RenderKey(hash, hash'[|hash|..]) == RenderKey(hash', "");
    }
    if hash' <= hash {
      assert RenderKey(hash, "") == RenderKey(hash', hash[|hash'|..]);
    }
  }

  lemma SharedKeyIsPrefix(hash: string, name: string, hash': string, name': string)
    requires RenderKey(hash, name) == RenderKey(hash', name')
    ensures hash <= hash' || hash' <= hash
    ensures hash == hash' ==> name == name'
  {
    var s, s' := hash + name, hash' + name';
    assert RenderKey(hash, name)[2..] == s && RenderKey(hash', name')[2..] == s';
    if |hash| <= |hash'| {
      assert s[..|hash|] == hash && s'[..|hash|] == hash'[..|hash|];
    } else {
      assert s[..|hash'|] == hash[..|hash'|] && s'[..|hash'|] == hash';
    }
    assert s[|hash|..] == name && s'[|hash'|..] == name';
  }

  // --------------------------------------------------------- what the cache holds

  /** The services a renderer works for, by the hash they print as; no hash starts with another. */
  ghost predicate Services(services: map<string, Env>) {
    && (forall hash :: hash in services ==> Digits(hash))
    && (forall hash, hash' :: hash in services && hash' in services && hash != hash' ==> !(hash <= hash'))
  }

  /** The template a render asks for: the file by its plain name, tidied and parsed. */
  function Rendered(env: Env, prepare: string -> string, name: string): Option<seq<Node>> {
    var file := env.read("templates/" + name + ".liquid");
    if file.None? then None else env.parse(prepare(file.value))
  }

  predicate Live(entries: map<string, SoftReference>, key: string) { key in entries && entries[key].Some? }

  ghost predicate HoldsRender(entries: map<string, SoftReference>, env: Env, prepare: string -> string, hash: string,
                              name: string)
  {
    Live(entries, RenderKey(hash, name)) ==> entries[RenderKey(hash, name)] == Rendered(env, prepare, name)
  }

  ghost predicate HoldsInclude(entries: map<string, SoftReference>, env: Env, hash: string, name: string) {
    Live(entries, IncludeKey(hash, name)) ==> entries[IncludeKey(hash, name)] == Included(env, name)
  }

  /** Every live entry is what parsing its file now would give: prepared under `r-`, as it is under `i-`. */
  ghost predicate Consistent(services: map<string, Env>, prepare: string -> string,
                             entries: map<string, SoftReference>)
  {
    && (forall hash, name :: hash in services ==> HoldsRender(entries, services[hash], prepare, hash, name))
    && (forall hash, name :: hash in services ==> HoldsInclude(entries, services[hash], hash, name))
  }

  /** Dropping entries and clearing references keeps the cache consistent. */
  lemma ConsistentWhenLess(services: map<string, Env>, prepare: string -> string,
                           entries: map<string, SoftReference>, entries': map<string, SoftReference>)
    requires Consistent(services, prepare, entries)
    requires forall k :: Live(entries', k) ==> k in entries && entries'[k] == entries[k]
    ensures Consistent(services, prepare, entries')
  {
    forall hash, name | hash in services ensures HoldsRender(entries', services[hash], prepare, hash, name) {
      assert HoldsRender(entries, services[hash], prepare, hash, name);
    }
    forall hash, name | hash in services ensures HoldsInclude(entries', services[hash], hash, name) {
      assert HoldsInclude(entries, services[hash], hash, name);
    }
  }

  ghost predicate PutsOnly(entries: map<string, SoftReference>, entries': map<string, SoftReference>, key: string,
                           nodes: seq<Node>)
  {
    && key in entries' && entries'[key] == Some(nodes)
    && forall k :: k in entries' && k != key ==> k in entries && entries'[k] == entries[k]
  }

  lemma ConsistentWithRender(services: map<string, Env>, prepare: string -> string,
                             entries: map<string, SoftReference>, entries': map<string, SoftReference>,
                             hash: string, name: string, nodes: seq<Node>)
    requires Services(services) && Consistent(services, prepare, entries) && hash in services
    requires Rendered(services[hash], prepare, name) == Some(nodes)
    requires PutsOnly(entries, entries', RenderKey(hash, name), nodes)
    ensures Consistent(services, prepare, entries')
  {
    hide RenderKey, IncludeKey, Rendered, Included;
    forall h, n | h in services ensures HoldsRender(entries', services[h], prepare, h, n) {
      assert HoldsRender(entries, services[h], prepare, h, n);
      if RenderKey(h, n) == RenderKey(hash, name) {
        SharedKeyIsPrefix(h, n, hash, name);
      }
    }
    forall h, n | h in services ensures HoldsInclude(entries', services[h], h, n) {
      assert HoldsInclude(entries, services[h], h, n);
      RenderAndIncludeKeysDiffer(hash, name, h, n);
    }
  }

  lemma ConsistentWithInclude(services: map<string, Env>, prepare: string -> string,
                              entries: map<string, SoftReference>, entries': map<string, SoftReference>,
                              hash: string, name: string, nodes: seq<Node>)
    requires Services(services) && Consistent(services, prepare, entries) && hash in services
    requires Included(services[hash], name) == Some(nodes)
    requires PutsOnly(entries, entries', IncludeKey(hash, name), nodes)
    ensures Consistent(services, prepare, entries')
  {
    hide RenderKey, IncludeKey, Rendered, Included;
    forall h, n | h in services ensures HoldsRender(entries', services[h], prepare, h, n) {
      assert HoldsRender(entries, services[h], prepare, h, n);
      RenderAndIncludeKeysDiffer(h, n, hash, name);
    }
    forall h, n | h in services ensures HoldsInclude(entries', services[h], h, n) {
      assert HoldsInclude(entries, services[h], h, n);
      if IncludeKey(h, n) == IncludeKey(hash, name) {
        IncludeKeyIsInjective(h, n, hash, name);
      }
    }
  }
}
