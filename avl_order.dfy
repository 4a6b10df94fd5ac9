// Key order on the ghost view. kv records every node's (key, value) pair;
// the tree is a search tree when keys strictly increase along the in-order
// node sequence. The lemmas here say where a key belongs on a search path
// and what attaching, re-valuing or taking out one node does to the map the
// in-order entries denote.

module AvlOrder {
  import opened AvlNode
  import opened AvlShape
  import opened SortedEntries

  /** Keys, as kv records them, strictly increase along ns. */
  ghost predicate Increasing<V>(ns: seq<Node<V>>, kv: map<Node<V>, (int, V)>)
  {
    (forall y: Node<V> :: y in ns ==> y in kv)
    && forall i, j :: 0 <= i < j < |ns| ==> kv[ns[i]].0 < kv[ns[j]].0
  }

  /** Increasing nodes are exactly sorted entries. */
  lemma IncreasingSorted<V>(ns: seq<Node<V>>, kv: map<Node<V>, (int, V)>)
    requires forall y: Node<V> :: y in ns ==> y in kv
    ensures Increasing(ns, kv) <==> Sorted(EntriesOf(ns, kv))
  {
    var e := EntriesOf(ns, kv);
    if Sorted(e) {
      forall i, j | 0 <= i < j < |ns| ensures kv[ns[i]].0 < kv[ns[j]].0 {
        assert e[i].0 < e[j].0;
      }
    }
  }

  /**
   * The search-tree property on a shape: every key of the left subtree is
   * below the root's, every key of the right subtree above it.
   */
  ghost predicate Ordered<V>(s: Shape<V>, kv: map<Node<V>, (int, V)>)
  {
    match s
    case Nil => true
    case Br(l, x, r) =>
      x in kv
      && (forall y: Node<V> :: y in Nodes(l) ==> y in kv && kv[y].0 < kv[x].0)
      && (forall y: Node<V> :: y in Nodes(r) ==> y in kv && kv[x].0 < kv[y].0)
      && Ordered(l, kv) && Ordered(r, kv)
  }

  /** The parts of an increasing sequence around one of its nodes are increasing, below and above it. */
  lemma IncreasingSplit<V>(a: seq<Node<V>>, x: Node<V>, b: seq<Node<V>>, kv: map<Node<V>, (int, V)>)
    requires Increasing(a + [x] + b, kv)
    ensures Increasing(a, kv) && Increasing(b, kv)
    ensures forall y: Node<V> :: y in a ==> kv[y].0 < kv[x].0
    ensures forall y: Node<V> :: y in b ==> kv[x].0 < kv[y].0
  {
    var ns := a + [x] + b;
    assert ns[|a|] == x;
    forall i, j | 0 <= i < j < |a| ensures kv[a[i]].0 < kv[a[j]].0 {
      assert ns[i] == a[i] && ns[j] == a[j];
    }
    forall i, j | 0 <= i < j < |b| ensures kv[b[i]].0 < kv[b[j]].0 {
      assert ns[|a| + 1 + i] == b[i] && ns[|a| + 1 + j] == b[j];
    }
    forall y: Node<V> | y in a ensures kv[y].0 < kv[x].0 {
      var i :| 0 <= i < |a| && a[i] == y;
      assert ns[i] == y;
    }
    forall y: Node<V> | y in b ensures kv[x].0 < kv[y].0 {
      var i :| 0 <= i < |b| && b[i] == y;
      assert ns[|a| + 1 + i] == y;
    }
  }

  /** Increasing in-order keys make a search tree. */
  lemma {:induction false} IncreasingOrdered<V>(s: Shape<V>, kv: map<Node<V>, (int, V)>)
    requires Increasing(InOrder(s), kv)
    ensures Ordered(s, kv)
    decreases s
  {
    match s
    case Nil =>
    case Br(l, x, r) =>
      InOrderNodes(l);
      InOrderNodes(r);
      IncreasingSplit(InOrder(l), x, InOrder(r), kv);
      IncreasingOrdered(l, kv);
      IncreasingOrdered(r, kv);
  }

  /**
   * Key k belongs in the hole of c: it is below the key of every node the
   * path leaves on its right, and above that of every node it leaves on its left.
   */
  ghost predicate Fits<V>(c: Ctx<V>, kv: map<Node<V>, (int, V)>, k: int)
  {
    match c
    case Top => true
    case InL(up, x, r) =>
      x in kv && k < kv[x].0 && (forall y: Node<V> :: y in Nodes(r) ==> y in kv && k < kv[y].0) && Fits(up, kv, k)
    case InR(l, x, up) =>
      x in kv && kv[x].0 < k && (forall y: Node<V> :: y in Nodes(l) ==> y in kv && kv[y].0 < k) && Fits(up, kv, k)
  }

  /** Where k fits, every node in order before the hole has a smaller key and every node after a larger one. */
  lemma {:induction false} FitsOrder<V>(c: Ctx<V>, kv: map<Node<V>, (int, V)>, k: int)
    requires Fits(c, kv, k)
    ensures forall y: Node<V> :: y in Before(c) ==> y in kv && kv[y].0 < k
    ensures forall y: Node<V> :: y in After(c) ==> y in kv && k < kv[y].0
    decreases c
  {
    match c
    case Top =>
    case InL(up, x, r) =>
      InOrderNodes(r);
      FitsOrder(up, kv, k);
      forall y: Node<V> | y in After(c) ensures y in kv && k < kv[y].0 {
        assert y in [x] + InOrder(r) + After(up);
        if y in InOrder(r) { InOrderHas(r, y); }
      }
    case InR(l, x, up) =>
      InOrderNodes(l);
      FitsOrder(up, kv, k);
      forall y: Node<V> | y in Before(c) ensures y in kv && kv[y].0 < k {
        assert y in Before(up) + InOrder(l) + [x];
        if y in InOrder(l) { InOrderHas(l, y); }
      }
  }

  /** A search path that ends in an empty hole where k fits has met no node with key k. */
  lemma AbsentKey<V>(c: Ctx<V>, kv: map<Node<V>, (int, V)>, k: int)
    requires Fits(c, kv, k) && forall y: Node<V> :: y in InOrder(Plug(c, Nil)) ==> y in kv
    ensures k !in ToMap(EntriesOf(InOrder(Plug(c, Nil)), kv))
  {
    var ns := InOrder(Plug(c, Nil));
    PlugInOrder(c, Nil);
    FitsOrder(c, kv, k);
    var e := EntriesOf(ns, kv);
    ToMapKeys(e);
    forall i | 0 <= i < |e| ensures e[i].0 != k {
      assert ns[i] in Before(c) || ns[i] in After(c);
    }
  }

  /** No node of a context where k fits has key k. */
  lemma {:induction false} FitsAvoids<V>(c: Ctx<V>, kv: map<Node<V>, (int, V)>, k: int)
    requires Fits(c, kv, k)
    ensures forall y: Node<V> :: y in CtxNodes(c) ==> y in kv && kv[y].0 != k
    decreases c
  {
    match c
    case Top =>
    case InL(up, x, r) => FitsAvoids(up, kv, k);
    case InR(l, x, up) => FitsAvoids(up, kv, k);
  }

  /** The key of a node listed in an increasing sequence maps to that node's value. */
  lemma PresentKey<V>(ns: seq<Node<V>>, kv: map<Node<V>, (int, V)>, x: Node<V>)
    requires Increasing(ns, kv) && x in ns
    ensures kv[x].0 in ToMap(EntriesOf(ns, kv)) && ToMap(EntriesOf(ns, kv))[kv[x].0] == kv[x].1
  {
    var i :| 0 <= i < |ns| && ns[i] == x;
    var e := EntriesOf(ns, kv);
    IncreasingSorted(ns, kv);
    SortedUnique(e, i);
    assert e == e[..i] + [e[i]] + e[i + 1..];
    Splice(e[..i], e[i], e[i + 1..]);
  }

  /** A node listed in order is a node of the shape. */
  lemma InOrderHas<V>(s: Shape<V>, y: Node<V>)
    requires y in InOrder(s)
    ensures y in Nodes(s)
  {
    InOrderNodes(s);
  }

  /** The nodes before and after the hole are nodes of the context. */
  lemma {:induction false} BeforeAfterNodes<V>(c: Ctx<V>)
    ensures forall y: Node<V> :: y in Before(c) ==> y in CtxNodes(c)
    ensures forall y: Node<V> :: y in After(c) ==> y in CtxNodes(c)
    decreases c
  {
    match c
    case Top =>
    case InL(up, x, r) =>
      BeforeAfterNodes(up);
      forall y: Node<V> | y in After(c) ensures y in CtxNodes(c) {
        assert y in [x] + InOrder(r) + After(up);
        if y in InOrder(r) { InOrderHas(r, y); }
      }
    case InR(l, x, up) =>
      BeforeAfterNodes(up);
      forall y: Node<V> | y in Before(c) ensures y in CtxNodes(c) {
        assert y in Before(up) + InOrder(l) + [x];
        if y in InOrder(l) { InOrderHas(l, y); }
      }
  }

  /** In an increasing sequence, a node's key is the key of no other position. */
  lemma IncreasingUnique<V>(ns: seq<Node<V>>, kv: map<Node<V>, (int, V)>, i: int, j: int)
    requires Increasing(ns, kv) && 0 <= i < |ns| && 0 <= j < |ns| && i != j
    ensures ns[i] != ns[j]
  {
    if i < j {
      assert kv[ns[i]].0 < kv[ns[j]].0;
    } else if j < i {
      assert kv[ns[j]].0 < kv[ns[i]].0;
    }
  }

  /** Giving the node at position i a new value changes the entries at position i only. */
  lemma EntriesUpdate<V>(ns: seq<Node<V>>, kv: map<Node<V>, (int, V)>, i: int, v: V)
    requires Increasing(ns, kv) && 0 <= i < |ns|
    ensures EntriesOf(ns, kv[ns[i] := (kv[ns[i]].0, v)]) == EntriesOf(ns, kv)[i := (kv[ns[i]].0, v)]
  {
    var kv' := kv[ns[i] := (kv[ns[i]].0, v)];
    forall j | 0 <= j < |ns| && j != i ensures kv'[ns[j]] == kv[ns[j]] {
      IncreasingUnique(ns, kv, i, j);
    }
  }

  /**
   * Giving node x a new value v keeps the keys increasing and updates the
   * map the entries denote at x's key only.
   */
  lemma UpdateValue<V>(ns: seq<Node<V>>, kv: map<Node<V>, (int, V)>, x: Node<V>, v: V)
    requires Increasing(ns, kv) && x in ns
    ensures Increasing(ns, kv[x := (kv[x].0, v)])
    ensures ToMap(EntriesOf(ns, kv[x := (kv[x].0, v)])) == ToMap(EntriesOf(ns, kv))[kv[x].0 := v]
  {
    var i :| 0 <= i < |ns| && ns[i] == x;
    EntriesUpdate(ns, kv, i, v);
    IncreasingSorted(ns, kv);
    ToMapUpdate(EntriesOf(ns, kv), i, v);
    IncreasingSorted(ns, kv[x := (kv[x].0, v)]);
  }

  /**
   * A node x with entry (k, v), put between a sequence whose keys are all
   * below k and one whose keys are all above it, keeps the keys increasing.
   */
  lemma InsertIncreasing<V>(a: seq<Node<V>>, x: Node<V>, b: seq<Node<V>>, kv: map<Node<V>, (int, V)>, k: int, v: V)
    requires Increasing(a + b, kv) && x !in a && x !in b
    requires forall y: Node<V> :: y in a ==> kv[y].0 < k
    requires forall y: Node<V> :: y in b ==> k < kv[y].0
    ensures Increasing(a + [x] + b, kv[x := (k, v)])
  {
    var kv' := kv[x := (k, v)];
    var ns0, ns1 := a + b, a + [x] + b;
    forall i, j | 0 <= i < j < |ns1| ensures kv'[ns1[i]].0 < kv'[ns1[j]].0 {
      if j < |a| {
        assert ns1[i] == ns0[i] && ns1[j] == ns0[j];
      } else if j == |a| {
        assert ns1[i] in a;
      } else if i < |a| {
        assert ns1[i] == ns0[i] && ns1[j] == ns0[j - 1];
      } else if i == |a| {
        assert ns1[j] in b;
      } else {
        assert ns1[i] == ns0[i - 1] && ns1[j] == ns0[j - 1];
      }
    }
  }

  /** The same insertion, on the map the entries denote: k is added with value v. */
  lemma InsertToMap<V>(a: seq<Node<V>>, x: Node<V>, b: seq<Node<V>>, kv: map<Node<V>, (int, V)>, k: int, v: V)
    requires (forall y: Node<V> :: y in a + b ==> y in kv) && x !in a && x !in b
    requires forall y: Node<V> :: y in b ==> k < kv[y].0
    ensures ToMap(EntriesOf(a + [x] + b, kv[x := (k, v)])) == ToMap(EntriesOf(a + b, kv))[k := v]
  {
    var kv' := kv[x := (k, v)];
    var ea, eb := EntriesOf(a, kv), EntriesOf(b, kv);
    assert EntriesOf(a + b, kv) == ea + eb;
    assert EntriesOf(a + [x] + b, kv') == ea + [(k, v)] + eb;
    ToMapKeys(eb);
    assert k !in KeySet(eb) by {
      forall i | 0 <= i < |eb| ensures eb[i].0 != k {
        assert b[i] in b;
      }
    }
    Splice(ea, (k, v), eb);
  }

  /**
   * Attaching a new node x with entry (k, v) in an empty hole where k fits
   * keeps the keys increasing and adds k to the map.
   */
  lemma InsertLeaf<V>(c: Ctx<V>, kv: map<Node<V>, (int, V)>, x: Node<V>, k: int, v: V)
    requires Increasing(InOrder(Plug(c, Nil)), kv) && Fits(c, kv, k) && x !in CtxNodes(c)
    ensures Increasing(InOrder(Plug(c, Br(Nil, x, Nil))), kv[x := (k, v)])
    ensures ToMap(EntriesOf(InOrder(Plug(c, Br(Nil, x, Nil))), kv[x := (k, v)]))
            == ToMap(EntriesOf(InOrder(Plug(c, Nil)), kv))[k := v]
  {
    var a, b := Before(c), After(c);
    PlugInOrder(c, Nil);
    PlugInOrder(c, Br(Nil, x, Nil));
    BeforeAfterNodes(c);
    FitsOrder(c, kv, k);
    assert InOrder(Br(Nil, x, Nil)) == [x];
    assert InOrder(Plug(c, Nil)) == a + b;
    assert InOrder(Plug(c, Br(Nil, x, Nil))) == a + [x] + b;
    InsertIncreasing(a, x, b, kv, k, v);
    InsertToMap(a, x, b, kv, k, v);
  }

  /**
   * Taking node m out of an increasing sequence keeps it increasing and
   * removes m's key from the map.
   */
  lemma RemoveEntry<V>(a: seq<Node<V>>, m: Node<V>, b: seq<Node<V>>, kv: map<Node<V>, (int, V)>)
    requires Increasing(a + [m] + b, kv)
    ensures Increasing(a + b, kv)
    ensures ToMap(EntriesOf(a + b, kv)) == ToMap(EntriesOf(a + [m] + b, kv)) - {kv[m].0}
  {
    var ns, ns' := a + [m] + b, a + b;
    forall i, j | 0 <= i < j < |ns'| ensures kv[ns'[i]].0 < kv[ns'[j]].0 {
      if j < |a| {
        assert ns'[i] == ns[i] && ns'[j] == ns[j];
      } else if i < |a| {
        assert ns'[i] == ns[i] && ns'[j] == ns[j + 1];
      } else {
        assert ns'[i] == ns[i + 1] && ns'[j] == ns[j + 1];
      }
    }
    var ea, eb := EntriesOf(a, kv), EntriesOf(b, kv);
    assert EntriesOf(ns, kv) == ea + [kv[m]] + eb;
    assert EntriesOf(ns', kv) == ea + eb;
    IncreasingSorted(ns, kv);
    SortedUnique(ea + [kv[m]] + eb, |a|);
    assert (ea + [kv[m]] + eb)[..|a|] == ea && (ea + [kv[m]] + eb)[|a| + 1..] == eb;
    Splice(ea, kv[m], eb);
  }

  /** Neither m nor n, adjacent in an increasing sequence, occurs elsewhere in it. */
  lemma AdjacentApart<V>(a: seq<Node<V>>, m: Node<V>, n: Node<V>, b: seq<Node<V>>, kv: map<Node<V>, (int, V)>)
    requires Increasing(a + [m] + [n] + b, kv)
    ensures m != n && m !in a && n !in a && m !in b && n !in b
  {
    var ns := a + [m] + [n] + b;
    assert ns[|a|] == m && ns[|a| + 1] == n;
    forall i | 0 <= i < |a| ensures a[i] != m && a[i] != n {
      assert ns[i] == a[i];
      IncreasingUnique(ns, kv, i, |a|);
      IncreasingUnique(ns, kv, i, |a| + 1);
    }
    forall i | 0 <= i < |b| ensures b[i] != m && b[i] != n {
      assert ns[|a| + 2 + i] == b[i];
      IncreasingUnique(ns, kv, |a| + 2 + i, |a|);
      IncreasingUnique(ns, kv, |a| + 2 + i, |a| + 1);
    }
    IncreasingUnique(ns, kv, |a|, |a| + 1);
  }

  /**
   * Node m comes right before node n in order; after their entries are
   * exchanged, taking m out keeps the keys increasing and removes n's
   * former key from the map.
   */
  lemma RemoveSwapped<V>(a: seq<Node<V>>, m: Node<V>, n: Node<V>, b: seq<Node<V>>, kv: map<Node<V>, (int, V)>)
    requires Increasing(a + [m] + [n] + b, kv)
    ensures Increasing(a + [n] + b, kv[m := kv[n]][n := kv[m]])
    ensures ToMap(EntriesOf(a + [n] + b, kv[m := kv[n]][n := kv[m]]))
            == ToMap(EntriesOf(a + [m] + [n] + b, kv)) - {kv[n].0}
  {
    var kv' := kv[m := kv[n]][n := kv[m]];
    AdjacentApart(a, m, n, b, kv);
    assert a + [m] + [n] + b == (a + [m]) + [n] + b;
    RemoveEntry(a + [m], n, b, kv);
    var ns1, ns2 := a + [m] + b, a + [n] + b;
    assert |ns1| == |ns2|;
    forall i | 0 <= i < |ns2| ensures kv'[ns2[i]] == kv[ns1[i]] {
      if i < |a| { assert ns2[i] == ns1[i] == a[i]; }
      else if i > |a| { assert ns2[i] == ns1[i] == b[i - |a| - 1]; }
    }
    assert EntriesOf(ns2, kv') == EntriesOf(ns1, kv);
  }

  /** Sequence regrouping used when a node is left out of the in-order sequence. */
  lemma Regroup<T>(a: seq<T>, x: T, r: seq<T>, z: seq<T>)
    ensures a + [] + ([x] + r + z) == a + [x] + (r + z)
  {
  }

  /** Sequence regrouping used when a node is left out of the in-order sequence. */
  lemma Regroup5<T>(p: seq<T>, l: seq<T>, x: T, r: seq<T>, z: seq<T>)
    ensures p + (l + [x] + r) + z == (p + l) + [x] + (r + z)
    ensures p + l + r + z == (p + l) + (r + z)
  {
  }

  /** Leaving out the root of the subtree at c keeps the order increasing and drops exactly that node's key. */
  lemma RemoveAt<V>(c: Ctx<V>, s: Shape<V>, kv: map<Node<V>, (int, V)>)
    requires s.Br? && Increasing(InOrder(Plug(c, s)), kv) && s.x in kv
    ensures Increasing(InOrderWithout(c, s), kv)
    ensures ToMap(EntriesOf(InOrderWithout(c, s), kv)) == ToMap(EntriesOf(InOrder(Plug(c, s)), kv)) - {kv[s.x].0}
  {
    PlugInOrder(c, s);
    var a, b := Before(c) + InOrder(s.l), InOrder(s.r) + After(c);
    Regroup5(Before(c), InOrder(s.l), s.x, InOrder(s.r), After(c));
    RemoveEntry(a, s.x, b, kv);
  }

  /**
   * Removing a node n with two children by way of its in-order predecessor
   * m (the root of the subtree at cm, without a right child): once m and n
   * exchange their entries, leaving m out keeps the order increasing and
   * drops exactly n's key.
   */
  lemma RemoveAtPredecessor<V>(c: Ctx<V>, s: Shape<V>, cm: Ctx<V>, sm: Shape<V>, kv: map<Node<V>, (int, V)>)
    requires s.Br? && sm.Br? && sm.r.Nil? && Increasing(InOrder(Plug(c, s)), kv)
    requires Before(cm) + InOrder(sm.l) + [sm.x] == Before(c) + InOrder(s.l)
    requires After(cm) == [s.x] + InOrder(s.r) + After(c)
    requires s.x in kv && sm.x in kv
    ensures var kv' := kv[sm.x := kv[s.x]][s.x := kv[sm.x]];
      Increasing(InOrderWithout(cm, sm), kv')
      && ToMap(EntriesOf(InOrderWithout(cm, sm), kv')) == ToMap(EntriesOf(InOrder(Plug(c, s)), kv)) - {kv[s.x].0}
  {
    PlugInOrder(c, s);
    var a, b := Before(cm) + InOrder(sm.l), InOrder(s.r) + After(c);
    Regroup5(Before(c), InOrder(s.l), s.x, InOrder(s.r), After(c));
    assert InOrder(Plug(c, s)) == a + [sm.x] + [s.x] + b;
    Regroup(a, s.x, InOrder(s.r), After(c));
    RemoveSwapped(a, sm.x, s.x, b, kv);
  }
}
