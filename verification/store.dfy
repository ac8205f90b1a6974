/**
 * The value types of Configuration: the nested section/key/value map
 * (ConfigData), the handler registry keyed by (section, key) pairs, the
 * insertion `data[section][key] = value`, and what it means for a sequence
 * to list a set, or a sequence of handler calls to be one dispatch.
 */
module Store {

  /** section_to_key_to_value: section name -> key -> value. */
  type ConfigData = map<string, map<string, string>>

  /** SectionKeyPair: compared by exact equality of both strings. */
  type SectionKeyPair = (string, string)

  /** A registered callback, known only by an identity. */
  type HandlerId = nat

  /** section_key_to_config_logic: at most one handler per pair. */
  type Registry = map<SectionKeyPair, HandlerId>

  /** One call of a handler with a value, made for the pair it is registered under. */
  datatype Invocation = Invocation(handler: HandlerId, pair: SectionKeyPair, value: string)

  /** The store's invariant: a section present in the map holds at least one key. */
  ghost predicate NoEmptySection(d: ConfigData) {
    forall s :: s in d ==> d[s] != map[]
  }

  /** `d[s]` through operator[]: the key map of `s`, empty when `s` is absent. */
  function Section(d: ConfigData, s: string): map<string, string> {
    if s in d then d[s] else map[]
  }

  /**
   * `d[s][k] = v`: creates section `s` when absent, then inserts or
   * overwrites key `k`; every other section and key is left as it was.
   */
  function Put(d: ConfigData, s: string, k: string, v: string): (r: ConfigData)
    ensures r.Keys == d.Keys + {s}
    ensures r[s].Keys == Section(d, s).Keys + {k} && r[s][k] == v
    ensures forall k' :: k' in Section(d, s) && k' != k ==> r[s][k'] == d[s][k']
    ensures forall s' :: s' in d && s' != s ==> r[s'] == d[s']
    ensures NoEmptySection(d) ==> NoEmptySection(r)
  {
    d[s := Section(d, s)[k := v]]
  }

  /**
   * Erasing key `k` of a section that holds it, then the section itself when
   * that left it without keys; every other section and key is left as it was.
   */
  function Remove(d: ConfigData, s: string, k: string): (r: ConfigData)
    requires s in d && k in d[s]
    ensures s in r <==> d[s].Keys != {k}
    ensures s in r ==> r[s].Keys == d[s].Keys - {k}
    ensures s in r ==> forall k' :: k' in r[s] ==> r[s][k'] == d[s][k']
    ensures r.Keys == d.Keys || r.Keys == d.Keys - {s}
    ensures forall s' :: s' in d && s' != s ==> r[s'] == d[s']
    ensures NoEmptySection(d) ==> NoEmptySection(r)
  {
    var rest := d[s] - {k};
    assert rest.Keys == d[s].Keys - {k};
    if |rest| == 0 then d - {s} else d[s := rest]
  }

  /** Remove as the two steps of remove_value: erase the key, then the section if it is left empty. */
  lemma EraseSteps(d: ConfigData, s: string, k: string)
    requires s in d && k in d[s]
    ensures var erased := d[s := d[s] - {k}];
      (if |d[s] - {k}| == 0 then erased - {s} else erased) == Remove(d, s, k)
  {
    var erased := d[s := d[s] - {k}];
    if |d[s] - {k}| == 0 {
      assert erased - {s} == d - {s};
    }
  }

  /** Removing one pair leaves every other pair's presence and value as it was. */
  lemma RemoveElsewhere(d: ConfigData, s: string, k: string)
    requires s in d && k in d[s]
    ensures forall s', k' :: (s', k') != (s, k) ==>
      ((s' in Remove(d, s, k) && k' in Remove(d, s, k)[s']) <==> (s' in d && k' in d[s']))
    ensures forall s', k' :: (s', k') != (s, k) && s' in d && k' in d[s'] ==> Remove(d, s, k)[s'][k'] == d[s'][k']
  {
  }

  /** Removing a key that was just added restores the store. */
  lemma RemovePut(d: ConfigData, s: string, k: string, v: string)
    requires NoEmptySection(d) && (s !in d || k !in d[s])
    ensures Remove(Put(d, s, k, v), s, k) == d
  {
    if s in d {
      RemovePutInSection(d, s, k, v);
    } else {
      var p := Put(d, s, k, v);
      assert (p[s] - {k}).Keys == {};
      assert p - {s} == d;
    }
  }

  lemma RemovePutInSection(d: ConfigData, s: string, k: string, v: string)
    requires s in d && d[s] != map[] && k !in d[s]
    ensures Remove(Put(d, s, k, v), s, k) == d
  {
    var p := Put(d, s, k, v);
    var rest := p[s] - {k};
    assert rest == d[s];
    assert p[s := rest] == d;
  }

  /** Putting back the removed value restores the store. */
  lemma PutRemove(d: ConfigData, s: string, k: string)
    requires s in d && k in d[s]
    ensures Put(Remove(d, s, k), s, k, d[s][k]) == d
  {
    var r := Remove(d, s, k);
    SectionRestored(d, s, k);
    var m := r[s := d[s]];
    assert m.Keys == d.Keys;
    assert forall s' :: s' in d ==> m[s'] == d[s'];
  }

  lemma SectionRestored(d: ConfigData, s: string, k: string)
    requires s in d && k in d[s]
    ensures Section(Remove(d, s, k), s)[k := d[s][k]] == d[s]
  {
  }

  ghost predicate NoDuplicates<T>(xs: seq<T>) {
    forall i, j :: 0 <= i < j < |xs| ==> xs[i] != xs[j]
  }

  /** `xs` lists every element of `elems` exactly once and nothing else. */
  ghost predicate Enumerates(xs: seq<string>, elems: set<string>) {
    NoDuplicates(xs) && forall x :: x in xs <==> x in elems
  }

  /** An enumeration has as many entries as the set has elements. */
  lemma {:induction false} EnumerationSize(xs: seq<string>, elems: set<string>)
    requires Enumerates(xs, elems)
    ensures |xs| == |elems|
  {
    if xs != [] {
      var last := xs[|xs| - 1];
      var init := xs[..|xs| - 1];
      assert Enumerates(init, elems - {last}) by {
        forall x ensures x in init <==> x in elems - {last} {
          if x in init {
            var i :| 0 <= i < |init| && init[i] == x;
            assert xs[i] == x && i < |xs| - 1;
          }
          if x in elems - {last} {
            assert x in xs;
            var i :| 0 <= i < |xs| && xs[i] == x;
            assert i != |xs| - 1;
            assert init[i] == x;
          }
        }
      }
      EnumerationSize(init, elems - {last});
    }
  }

  /** The call a dispatch makes for pair (s, k): its handler with the stored value. */
  ghost predicate IsDue(c: Invocation, d: ConfigData, reg: Registry) {
    && c.pair in reg
    && c.handler == reg[c.pair]
    && c.pair.0 in d
    && c.pair.1 in d[c.pair.0]
    && c.value == d[c.pair.0][c.pair.1]
  }

  /**
   * `calls` is one full dispatch of `d` against `reg`: every stored pair that
   * has a handler is called exactly once, with its stored value, through its
   * own handler, and nothing else is called.
   */
  ghost predicate IsDispatch(calls: seq<Invocation>, d: ConfigData, reg: Registry) {
    && (forall i, j :: 0 <= i < j < |calls| ==> calls[i].pair != calls[j].pair)
    && (forall c :: c in calls ==> IsDue(c, d, reg))
    && (forall s, k :: s in d && k in d[s] && (s, k) in reg ==> Invocation(reg[(s, k)], (s, k), d[s][k]) in calls)
  }

  /**
   * `calls` is a dispatch of the pairs in `done` so far: distinct pairs, each
   * call due and for a pair in `done`, and every registered pair of `done`
   * called.
   */
  ghost predicate DispatchedFor(calls: seq<Invocation>, d: ConfigData, reg: Registry, done: set<SectionKeyPair>) {
    && (forall i, j :: 0 <= i < j < |calls| ==> calls[i].pair != calls[j].pair)
    && (forall c :: c in calls ==> IsDue(c, d, reg) && c.pair in done)
    && (forall p :: p in done && p in reg && p.0 in d && p.1 in d[p.0] ==> Invocation(reg[p], p, d[p.0][p.1]) in calls)
  }

  /** Visiting a pair extends a partial dispatch, with one call when the pair has a handler. */
  lemma DispatchVisit(calls: seq<Invocation>, d: ConfigData, reg: Registry, done: set<SectionKeyPair>, s: string, k: string)
    requires DispatchedFor(calls, d, reg, done) && (s, k) !in done
    requires s in d && k in d[s]
    ensures (s, k) in reg ==> DispatchedFor(calls + [Invocation(reg[(s, k)], (s, k), d[s][k])], d, reg, done + {(s, k)})
    ensures (s, k) !in reg ==> DispatchedFor(calls, d, reg, done + {(s, k)})
  {
    if (s, k) in reg {
      var c := Invocation(reg[(s, k)], (s, k), d[s][k]);
      var calls' := calls + [c];
      forall i, j | 0 <= i < j < |calls'| ensures calls'[i].pair != calls'[j].pair {
        if j == |calls| {
          assert calls[i] in calls;
        }
      }
    }
  }

  /** A dispatch of every stored pair is a full dispatch. */
  lemma DispatchedAll(calls: seq<Invocation>, d: ConfigData, reg: Registry, done: set<SectionKeyPair>)
    requires DispatchedFor(calls, d, reg, done)
    requires forall s, k :: s in d && k in d[s] ==> (s, k) in done
    ensures IsDispatch(calls, d, reg)
  {
  }

  lemma {:induction false} DistinctCount<T>(xs: seq<T>, x: T)
    requires NoDuplicates(xs)
    ensures multiset(xs)[x] == if x in xs then 1 else 0
  {
    if xs != [] {
      var init := xs[..|xs| - 1];
      assert xs == init + [xs[|xs| - 1]];
      assert NoDuplicates(init);
      DistinctCount(init, x);
      if x == xs[|xs| - 1] {
        assert x !in init;
      }
    }
  }

  /**
   * Dispatch is determined up to order: any two dispatches of the same store
   * and registry make the same calls, each the same number of times.
   */
  lemma DispatchUnique(c1: seq<Invocation>, c2: seq<Invocation>, d: ConfigData, reg: Registry)
    requires IsDispatch(c1, d, reg) && IsDispatch(c2, d, reg)
    ensures multiset(c1) == multiset(c2)
  {
    assert NoDuplicates(c1) && NoDuplicates(c2);
    forall x ensures multiset(c1)[x] == multiset(c2)[x] {
      DistinctCount(c1, x);
      DistinctCount(c2, x);
      if x in c1 {
        assert IsDue(x, d, reg);
      }
      if x in c2 {
        assert IsDue(x, d, reg);
      }
    }
  }
}
