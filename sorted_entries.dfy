// Sequences of (key, value) entries, as an in-order traversal yields them,
// and the finite map such a sequence denotes.

module SortedEntries {

  /** Keys strictly increase along e. */
  ghost predicate Sorted<V>(e: seq<(int, V)>)
  {
    forall i, j :: 0 <= i < j < |e| ==> e[i].0 < e[j].0
  }

  ghost function KeySet<V>(e: seq<(int, V)>): set<int>
  {
    set p | p in e :: p.0
  }

  /** The finite map a sequence of entries denotes, later entries winning. */
  ghost function ToMap<V>(e: seq<(int, V)>): map<int, V>
  {
    if e == [] then map[] else ToMap(e[..|e| - 1])[e[|e| - 1].0 := e[|e| - 1].1]
  }

  lemma {:induction false} ToMapConcat<V>(a: seq<(int, V)>, b: seq<(int, V)>)
    ensures ToMap(a + b) == ToMap(a) + ToMap(b)
    decreases |b|
  {
    if b != [] {
      var b' := b[..|b| - 1];
      assert (a + b)[..|a + b| - 1] == a + b';
      ToMapConcat(a, b');
    } else {
      assert a + b == a;
    }
  }

  lemma {:induction false} ToMapKeys<V>(e: seq<(int, V)>)
    ensures ToMap(e).Keys == KeySet(e)
    decreases |e|
  {
    if e != [] {
      var e' := e[..|e| - 1];
      ToMapKeys(e');
      assert e == e' + [e[|e| - 1]];
      assert KeySet(e) == KeySet(e') + {e[|e| - 1].0};
    }
  }

  /**
   * Inserting an entry whose key no later entry has is a map update; and if
   * no other entry has that key at all, taking it out again is a map removal.
   */
  lemma Splice<V>(a: seq<(int, V)>, p: (int, V), b: seq<(int, V)>)
    requires p.0 !in KeySet(b)
    ensures ToMap(a + [p] + b) == ToMap(a + b)[p.0 := p.1]
    ensures p.0 !in KeySet(a) ==> ToMap(a + b) == ToMap(a + [p] + b) - {p.0}
  {
    ToMapConcat(a + [p], b);
    ToMapConcat(a, [p]);
    ToMapConcat(a, b);
    ToMapKeys(b);
    ToMapKeys(a);
    assert ToMap([p]) == map[p.0 := p.1] by {
      assert [p][..0] == [];
    }
  }

  /** In a sorted sequence the entry at position i is the only one with its key. */
  lemma SortedUnique<V>(e: seq<(int, V)>, i: int)
    requires Sorted(e) && 0 <= i < |e|
    ensures e[i].0 !in KeySet(e[..i]) && e[i].0 !in KeySet(e[i + 1..])
  {
  }

  /** Giving the entry at position i a new value keeps e sorted and updates the map at its key only. */
  lemma ToMapUpdate<V>(e: seq<(int, V)>, i: int, v: V)
    requires Sorted(e) && 0 <= i < |e|
    ensures Sorted(e[i := (e[i].0, v)])
    ensures ToMap(e[i := (e[i].0, v)]) == ToMap(e)[e[i].0 := v]
  {
    var a, b := e[..i], e[i + 1..];
    assert e[i := (e[i].0, v)] == a + [(e[i].0, v)] + b;
    assert e == a + [e[i]] + b;
    SortedUnique(e, i);
    Splice(a, (e[i].0, v), b);
    Splice(a, e[i], b);
  }

  /** Removing a key that is not there leaves a map as it was. */
  /**
   * The last entry of a non-empty sorted sequence holds its largest key, and
   * the map of the rest is the whole map without that key.
   */
  lemma SortedLast<V>(e: seq<(int, V)>)
    requires Sorted(e) && e != []
    ensures forall p :: p in KeySet(e) ==> p <= e[|e| - 1].0
    ensures e[|e| - 1].0 in ToMap(e) && ToMap(e)[e[|e| - 1].0] == e[|e| - 1].1
    ensures ToMap(e[..|e| - 1]) == ToMap(e) - {e[|e| - 1].0}
  {
    var e', x := e[..|e| - 1], e[|e| - 1];
    assert x.0 !in KeySet(e');
    ToMapKeys(e');
    DropLast(ToMap(e'), x.0, x.1);
  }

  /** Adding a key a map lacks and taking it away again gives the map back. */
  lemma DropLast<V>(m: map<int, V>, k: int, v: V)
    requires k !in m
    ensures m[k := v] - {k} == m
  {
  }

  /** Only the empty sequence has no keys. */
  lemma KeySetEmpty<V>(e: seq<(int, V)>)
    ensures e == [] <==> KeySet(e) == {}
  {
    if e != [] {
      assert e[0].0 in KeySet(e);
    }
  }

  /** Two non-empty sorted sequences denoting the same map end in the same entry. */
  lemma SameLast<V>(a: seq<(int, V)>, b: seq<(int, V)>)
    requires Sorted(a) && Sorted(b) && a != [] && b != [] && ToMap(a) == ToMap(b)
    ensures a[|a| - 1] == b[|b| - 1]
  {
    SortedLast(a);
    SortedLast(b);
    ToMapKeys(a);
    ToMapKeys(b);
    var x, y := a[|a| - 1], b[|b| - 1];
    assert x.0 in KeySet(a) && y.0 in KeySet(b);
  }

  /** A sorted sequence of entries is determined by the map it denotes. */
  lemma {:induction false} SortedDetermined<V>(a: seq<(int, V)>, b: seq<(int, V)>)
    requires Sorted(a) && Sorted(b) && ToMap(a) == ToMap(b)
    ensures a == b
    decreases |a|
  {
    if a == [] || b == [] {
      ToMapKeys(a);
      ToMapKeys(b);
      KeySetEmpty(a);
      KeySetEmpty(b);
    } else {
      SameLast(a, b);
      SortedLast(a);
      SortedLast(b);
      var a', b' := a[..|a| - 1], b[..|b| - 1];
      SortedDetermined(a', b');
      assert a == a' + [a[|a| - 1]] && b == b' + [b[|b| - 1]];
    }
  }
}
