// The ghost view of a linked AVL tree. A Shape records which node sits at
// which position; a Ctx is the path from a position up to the root (a
// zipper), so that "the subtree at p inside the whole tree" is Plug(c, s).
// The predicates here read exactly the fields they talk about, so that a
// method that only relinks nodes keeps every fact about keys and balances.

module AvlShape {
  import opened AvlNode

  datatype Shape<V> = Nil | Br(l: Shape<V>, x: Node<V>, r: Shape<V>)

  /** The path from a hole up to the root: the hole is x's left child (InL) or right child (InR). */
  datatype Ctx<V> = Top | InL(up: Ctx<V>, x: Node<V>, r: Shape<V>) | InR(l: Shape<V>, x: Node<V>, up: Ctx<V>)

  // ---------------------------------------------------------------------
  // Structure, independent of the heap

  function RootOf<V>(s: Shape<V>): Node?<V>
  {
    if s.Nil? then null else s.x
  }

  ghost function Nodes<V>(s: Shape<V>): set<Node<V>>
  {
    match s
    case Nil => {}
    case Br(l, x, r) => Nodes(l) + {x} + Nodes(r)
  }

  ghost function InOrder<V>(s: Shape<V>): seq<Node<V>>
  {
    match s
    case Nil => []
    case Br(l, x, r) => InOrder(l) + [x] + InOrder(r)
  }

  /** Number of nodes on the longest downward path; an empty tree has height 0. */
  ghost function Height<V>(s: Shape<V>): nat
  {
    match s
    case Nil => 0
    case Br(l, x, r) => 1 + Max(Height(l), Height(r))
  }

  function Max(a: int, b: int): int
  {
    if a < b then b else a
  }

  /** No node occurs twice. */
  ghost predicate Distinct<V>(s: Shape<V>)
  {
    match s
    case Nil => true
    case Br(l, x, r) =>
      Distinct(l) && Distinct(r) && x !in Nodes(l) && x !in Nodes(r) && Nodes(l) !! Nodes(r)
  }

  ghost function Plug<V>(c: Ctx<V>, s: Shape<V>): Shape<V>
  {
    match c
    case Top => s
    case InL(up, x, r) => Plug(up, Br(s, x, r))
    case InR(l, x, up) => Plug(up, Br(l, x, s))
  }

  ghost function CtxNodes<V>(c: Ctx<V>): set<Node<V>>
  {
    match c
    case Top => {}
    case InL(up, x, r) => CtxNodes(up) + {x} + Nodes(r)
    case InR(l, x, up) => CtxNodes(up) + {x} + Nodes(l)
  }

  /** The nodes that come before the hole in in-order. */
  ghost function Before<V>(c: Ctx<V>): seq<Node<V>>
  {
    match c
    case Top => []
    case InL(up, x, r) => Before(up)
    case InR(l, x, up) => Before(up) + InOrder(l) + [x]
  }

  /** The nodes that come after the hole in in-order. */
  ghost function After<V>(c: Ctx<V>): seq<Node<V>>
  {
    match c
    case Top => []
    case InL(up, x, r) => [x] + InOrder(r) + After(up)
    case InR(l, x, up) => After(up)
  }

  /** The node whose child the hole is, or null at the root. */
  function Parent<V>(c: Ctx<V>): Node?<V>
  {
    if c.Top? then null else c.x
  }

  ghost function Depth<V>(c: Ctx<V>): nat
  {
    match c
    case Top => 0
    case InL(up, _, _) => 1 + Depth(up)
    case InR(_, _, up) => 1 + Depth(up)
  }

  /** The shape after rotating left at the root: the right child rises. */
  ghost function RotL<V>(s: Shape<V>): Shape<V>
    requires s.Br? && s.r.Br?
  {
    Br(Br(s.l, s.x, s.r.l), s.r.x, s.r.r)
  }

  /** The shape after rotating right at the root: the left child rises. */
  ghost function RotR<V>(s: Shape<V>): Shape<V>
    requires s.Br? && s.l.Br?
  {
    Br(s.l.l, s.l.x, Br(s.l.r, s.x, s.r))
  }

  /** The in-order sequence lists exactly the nodes of the shape. */
  lemma {:induction false} InOrderNodes<V>(s: Shape<V>)
    ensures forall x :: x in InOrder(s) <==> x in Nodes(s)
    decreases s
  {
    match s
    case Nil =>
    case Br(l, x, r) => InOrderNodes(l); InOrderNodes(r);
  }

  lemma {:induction false} PlugNodes<V>(c: Ctx<V>, s: Shape<V>)
    ensures Nodes(Plug(c, s)) == CtxNodes(c) + Nodes(s)
    decreases c
  {
    match c
    case Top =>
    case InL(up, x, r) => PlugNodes(up, Br(s, x, r));
    case InR(l, x, up) => PlugNodes(up, Br(l, x, s));
  }

  lemma {:induction false} PlugInOrder<V>(c: Ctx<V>, s: Shape<V>)
    ensures InOrder(Plug(c, s)) == Before(c) + InOrder(s) + After(c)
    decreases c
  {
    match c
    case Top =>
    case InL(up, x, r) => PlugInOrder(up, Br(s, x, r));
    case InR(l, x, up) => PlugInOrder(up, Br(l, x, s));
  }

  /** A whole tree has no repeated node iff its context and the plugged subtree have none and share none. */
  lemma {:induction false} PlugDistinct<V>(c: Ctx<V>, s: Shape<V>)
    ensures Distinct(Plug(c, s)) <==> Distinct(Plug(c, Nil)) && Distinct(s) && Nodes(s) !! CtxNodes(c)
    decreases c
  {
    match c
    case Top =>
    case InL(up, x, r) =>
      PlugDistinct(up, Br(s, x, r));
      PlugDistinct(up, Br(Nil, x, r));
      assert Nodes(Br(Nil, x, r)) == {x} + Nodes(r);
      assert Distinct(Br(Nil, x, r)) == (Distinct(r) && x !in Nodes(r));
    case InR(l, x, up) =>
      PlugDistinct(up, Br(l, x, s));
      PlugDistinct(up, Br(l, x, Nil));
      assert Nodes(Br(l, x, Nil)) == Nodes(l) + {x};
      assert Distinct(Br(l, x, Nil)) == (Distinct(l) && x !in Nodes(l));
  }

  /** Below the root, what is plugged into a context does not change the root. */
  lemma {:induction false} PlugRoot<V>(c: Ctx<V>, s: Shape<V>, t: Shape<V>)
    requires !c.Top?
    ensures RootOf(Plug(c, s)) == RootOf(Plug(c, t))
    decreases c
  {
    match c
    case InL(up, x, r) =>
      if !up.Top? { PlugRoot(up, Br(s, x, r), Br(t, x, r)); }
    case InR(l, x, up) =>
      if !up.Top? { PlugRoot(up, Br(l, x, s), Br(l, x, t)); }
  }

  /** One step up a context without repeated nodes: the step's node and side subtree are apart from the rest. */
  lemma CtxStep<V>(c: Ctx<V>)
    requires Distinct(Plug(c, Nil)) && !c.Top?
    ensures Distinct(Plug(c.up, Nil)) && c.x !in CtxNodes(c.up)
    ensures c.InL? ==> Distinct(c.r) && c.x !in Nodes(c.r) && Nodes(c.r) !! CtxNodes(c.up)
    ensures c.InR? ==> Distinct(c.l) && c.x !in Nodes(c.l) && Nodes(c.l) !! CtxNodes(c.up)
  {
    if c.InL? {
      PlugDistinct(c.up, Br(Nil, c.x, c.r));
    } else {
      PlugDistinct(c.up, Br(c.l, c.x, Nil));
    }
  }

  /** The nodes a left rotation at the root of s relinks lie outside every subtree it moves intact. */
  lemma RotLApart<V>(c: Ctx<V>, s: Shape<V>)
    requires s.Br? && s.r.Br? && Distinct(Plug(c, s))
    ensures Distinct(s.r) && Distinct(s.r.l)
    ensures var relinked := {s.x, s.r.x} + (if c.Top? then {} else {c.x});
      relinked !! Nodes(s.l) && relinked !! Nodes(s.r.l) && relinked !! Nodes(s.r.r)
    ensures s.r.l.Br? ==> var bx := s.r.l.x;
      bx !in Nodes(s.r.l.l) && bx !in Nodes(s.r.l.r) && bx != s.x && bx != s.r.x && bx !in CtxNodes(c)
      && Nodes(s.r.l.l) !! {s.x, s.r.x} && Nodes(s.r.l.r) !! {s.x, s.r.x}
    ensures {s.x, s.r.x} !! CtxNodes(c) && s.x != s.r.x
    ensures !c.Top? ==> c.x !in CtxNodes(c.up)
  {
    PlugDistinct(c, s);
    if !c.Top? { CtxStep(c); }
  }

  /** The nodes a right rotation at the root of s relinks lie outside every subtree it moves intact. */
  lemma RotRApart<V>(c: Ctx<V>, s: Shape<V>)
    requires s.Br? && s.l.Br? && Distinct(Plug(c, s))
    ensures Distinct(s.l) && Distinct(s.l.r)
    ensures var relinked := {s.x, s.l.x} + (if c.Top? then {} else {c.x});
      relinked !! Nodes(s.r) && relinked !! Nodes(s.l.r) && relinked !! Nodes(s.l.l)
    ensures s.l.r.Br? ==> var bx := s.l.r.x;
      bx !in Nodes(s.l.r.l) && bx !in Nodes(s.l.r.r) && bx != s.x && bx != s.l.x && bx !in CtxNodes(c)
      && Nodes(s.l.r.l) !! {s.x, s.l.x} && Nodes(s.l.r.r) !! {s.x, s.l.x}
    ensures {s.x, s.l.x} !! CtxNodes(c) && s.x != s.l.x
    ensures !c.Top? ==> c.x !in CtxNodes(c.up)
  {
    PlugDistinct(c, s);
    if !c.Top? { CtxStep(c); }
  }

  lemma RotLShape<V>(s: Shape<V>)
    requires s.Br? && s.r.Br?
    ensures Nodes(RotL(s)) == Nodes(s) && InOrder(RotL(s)) == InOrder(s)
    ensures Distinct(RotL(s)) == Distinct(s)
  {
  }

  lemma RotRShape<V>(s: Shape<V>)
    requires s.Br? && s.l.Br?
    ensures Nodes(RotR(s)) == Nodes(s) && InOrder(RotR(s)) == InOrder(s)
    ensures Distinct(RotR(s)) == Distinct(s)
  {
  }

  // ---------------------------------------------------------------------
  // Links

  /** The three links of one node, as the ghost link map records them. */
  datatype Link<V> = Link(left: Node?<V>, right: Node?<V>, parent: Node?<V>)

  /** Every node of s has exactly the children s gives it, and its parent is par or its parent in s. */
  ghost predicate Linked<V>(s: Shape<V>, par: Node?<V>, M: map<Node<V>, Link<V>>)
  {
    match s
    case Nil => true
    case Br(l, x, r) =>
      x in M && M[x] == Link(RootOf(l), RootOf(r), par) && Linked(l, x, M) && Linked(r, x, M)
  }

  /** The links of the context nodes agree with the context, the hole being filled by node hole. */
  ghost predicate CtxLinked<V>(c: Ctx<V>, hole: Node?<V>, M: map<Node<V>, Link<V>>)
  {
    match c
    case Top => true
    case InL(up, x, r) =>
      x in M && M[x] == Link(hole, RootOf(r), Parent(up)) && Linked(r, x, M) && CtxLinked(up, x, M)
    case InR(l, x, up) =>
      x in M && M[x] == Link(RootOf(l), hole, Parent(up)) && Linked(l, x, M) && CtxLinked(up, x, M)
  }

  lemma {:induction false} PlugLinked<V>(c: Ctx<V>, s: Shape<V>, M: map<Node<V>, Link<V>>)
    ensures Linked(Plug(c, s), null, M) <==> CtxLinked(c, RootOf(s), M) && Linked(s, Parent(c), M)
    decreases c
  {
    match c
    case Top =>
    case InL(up, x, r) => PlugLinked(up, Br(s, x, r), M);
    case InR(l, x, up) => PlugLinked(up, Br(l, x, s), M);
  }

  /** M' records the same links as M for every node of T. */
  ghost predicate Agree<V>(M: map<Node<V>, Link<V>>, M': map<Node<V>, Link<V>>, T: set<Node<V>>)
  {
    forall y :: y in T && y in M ==> y in M' && M'[y] == M[y]
  }

  lemma AgreeOutside<V>(M: map<Node<V>, Link<V>>, M': map<Node<V>, Link<V>>, K: set<Node?<V>>, T: set<Node<V>>)
    requires UpdatesOnly(M, M', K) && K !! T
    ensures Agree(M, M', T)
  {
  }

  /** M' records the same links as M for every node of M outside K. */
  ghost predicate UpdatesOnly<V>(M: map<Node<V>, Link<V>>, M': map<Node<V>, Link<V>>, K: set<Node?<V>>)
  {
    forall y :: y in M && y !in K ==> y in M' && M'[y] == M[y]
  }

  /** Links of a subtree only depend on the map entries of its own nodes. */
  lemma {:induction false} LinkedFrame<V>(s: Shape<V>, par: Node?<V>, M: map<Node<V>, Link<V>>, M': map<Node<V>, Link<V>>)
    requires Linked(s, par, M)
    requires Agree(M, M', Nodes(s))
    ensures Linked(s, par, M')
    decreases s
  {
    match s
    case Nil =>
    case Br(l, x, r) => LinkedFrame(l, x, M, M'); LinkedFrame(r, x, M, M');
  }

  /** Links of a context only depend on the map entries of its own nodes. */
  lemma {:induction false} CtxLinkedFrame<V>(c: Ctx<V>, hole: Node?<V>, M: map<Node<V>, Link<V>>, M': map<Node<V>, Link<V>>)
    requires CtxLinked(c, hole, M)
    requires Agree(M, M', CtxNodes(c))
    ensures CtxLinked(c, hole, M')
    decreases c
  {
    match c
    case Top =>
    case InL(up, x, r) => LinkedFrame(r, x, M, M'); CtxLinkedFrame(up, x, M, M');
    case InR(l, x, up) => LinkedFrame(l, x, M, M'); CtxLinkedFrame(up, x, M, M');
  }

  /** The nodes whose links a left rotation at the root of s, in context c, rewrites. */
  ghost function RotLTouched<V>(c: Ctx<V>, s: Shape<V>): set<Node?<V>>
    requires s.Br? && s.r.Br?
  {
    {s.x, s.r.x, RootOf(s.r.l), Parent(c)}
  }

  /** The nodes whose links a right rotation at the root of s, in context c, rewrites. */
  ghost function RotRTouched<V>(c: Ctx<V>, s: Shape<V>): set<Node?<V>>
    requires s.Br? && s.l.Br?
  {
    {s.x, s.l.x, RootOf(s.l.r), Parent(c)}
  }

  /** The links of the touched nodes once the tree is Plug(c, RotL(s)); all other entries of M stay. */
  ghost function RotLLinks<V>(c: Ctx<V>, s: Shape<V>, M: map<Node<V>, Link<V>>): (M': map<Node<V>, Link<V>>)
    requires s.Br? && s.r.Br?
    ensures UpdatesOnly(M, M', RotLTouched(c, s))
  {
    var curr, child, b := s.x, s.r.x, s.r.l;
    var M1 := M[child := Link(curr, RootOf(s.r.r), Parent(c))][curr := Link(RootOf(s.l), RootOf(b), child)];
    var M2 := if b.Br? then M1[b.x := Link(RootOf(b.l), RootOf(b.r), curr)] else M1;
    match c
    case Top => M2
    case InL(up, p, r) => M2[p := Link(child, RootOf(r), Parent(up))]
    case InR(l, p, up) => M2[p := Link(RootOf(l), child, Parent(up))]
  }

  /** The links of the touched nodes once the tree is Plug(c, RotR(s)); all other entries of M stay. */
  ghost function RotRLinks<V>(c: Ctx<V>, s: Shape<V>, M: map<Node<V>, Link<V>>): (M': map<Node<V>, Link<V>>)
    requires s.Br? && s.l.Br?
    ensures UpdatesOnly(M, M', RotRTouched(c, s))
  {
    var curr, child, b := s.x, s.l.x, s.l.r;
    var M1 := M[child := Link(RootOf(s.l.l), curr, Parent(c))][curr := Link(RootOf(b), RootOf(s.r), child)];
    var M2 := if b.Br? then M1[b.x := Link(RootOf(b.l), RootOf(b.r), curr)] else M1;
    match c
    case Top => M2
    case InL(up, p, r) => M2[p := Link(child, RootOf(r), Parent(up))]
    case InR(l, p, up) => M2[p := Link(RootOf(l), child, Parent(up))]
  }

  /** The links inside a rotated subtree, given the new links of the nodes a left rotation touches. */
  lemma RotLLinkedIn<V>(s: Shape<V>, P: Node?<V>, M: map<Node<V>, Link<V>>, M': map<Node<V>, Link<V>>)
    requires s.Br? && s.r.Br? && Linked(s, P, M)
    requires s.x in M' && M'[s.x] == Link(RootOf(s.l), RootOf(s.r.l), s.r.x)
    requires s.r.x in M' && M'[s.r.x] == Link(s.x, RootOf(s.r.r), P)
    requires s.r.l.Br? ==> s.r.l.x in M' && M'[s.r.l.x] == Link(RootOf(s.r.l.l), RootOf(s.r.l.r), s.x)
    requires Agree(M, M', Nodes(s.l)) && Agree(M, M', Nodes(s.r.r))
    requires s.r.l.Br? ==> Agree(M, M', Nodes(s.r.l.l)) && Agree(M, M', Nodes(s.r.l.r))
    ensures Linked(RotL(s), P, M')
  {
    assert Linked(s.l, s.x, M) && Linked(s.r, s.x, M);
    assert Linked(s.r.l, s.r.x, M) && Linked(s.r.r, s.r.x, M);
    LinkedFrame(s.l, s.x, M, M');
    LinkedFrame(s.r.r, s.r.x, M, M');
    var b := s.r.l;
    if b.Br? {
      LinkedFrame(b.l, b.x, M, M');
      LinkedFrame(b.r, b.x, M, M');
    }
  }

  /** The links inside a rotated subtree, given the new links of the nodes a right rotation touches. */
  lemma RotRLinkedIn<V>(s: Shape<V>, P: Node?<V>, M: map<Node<V>, Link<V>>, M': map<Node<V>, Link<V>>)
    requires s.Br? && s.l.Br? && Linked(s, P, M)
    requires s.x in M' && M'[s.x] == Link(RootOf(s.l.r), RootOf(s.r), s.l.x)
    requires s.l.x in M' && M'[s.l.x] == Link(RootOf(s.l.l), s.x, P)
    requires s.l.r.Br? ==> s.l.r.x in M' && M'[s.l.r.x] == Link(RootOf(s.l.r.l), RootOf(s.l.r.r), s.x)
    requires Agree(M, M', Nodes(s.r)) && Agree(M, M', Nodes(s.l.l))
    requires s.l.r.Br? ==> Agree(M, M', Nodes(s.l.r.l)) && Agree(M, M', Nodes(s.l.r.r))
    ensures Linked(RotR(s), P, M')
  {
    assert Linked(s.r, s.x, M) && Linked(s.l, s.x, M);
    assert Linked(s.l.l, s.l.x, M) && Linked(s.l.r, s.l.x, M);
    LinkedFrame(s.r, s.x, M, M');
    LinkedFrame(s.l.l, s.l.x, M, M');
    var b := s.l.r;
    if b.Br? {
      LinkedFrame(b.l, b.x, M, M');
      LinkedFrame(b.r, b.x, M, M');
    }
  }

  /** A context stays linked when the node in its hole is replaced and only the hole's parent learns of it. */
  lemma CtxRelinked<V>(c: Ctx<V>, old_hole: Node?<V>, hole: Node?<V>, M: map<Node<V>, Link<V>>, M': map<Node<V>, Link<V>>)
    requires CtxLinked(c, old_hole, M)
    requires c.InL? ==> c.x in M' && M'[c.x] == Link(hole, RootOf(c.r), Parent(c.up))
    requires c.InR? ==> c.x in M' && M'[c.x] == Link(RootOf(c.l), hole, Parent(c.up))
    requires c.InL? ==> Agree(M, M', CtxNodes(c.up)) && Agree(M, M', Nodes(c.r))
    requires c.InR? ==> Agree(M, M', CtxNodes(c.up)) && Agree(M, M', Nodes(c.l))
    ensures CtxLinked(c, hole, M')
  {
    match c
    case Top =>
    case InL(up, p, r) =>
      LinkedFrame(r, p, M, M');
      CtxLinkedFrame(up, p, M, M');
    case InR(l, p, up) =>
      LinkedFrame(l, p, M, M');
      CtxLinkedFrame(up, p, M, M');
  }

  /** Relinking as a left rotation does turns a linked tree into the linked rotated tree. */
  lemma RotLLinked<V>(c: Ctx<V>, s: Shape<V>, M: map<Node<V>, Link<V>>)
    requires s.Br? && s.r.Br? && Distinct(Plug(c, s)) && Linked(Plug(c, s), null, M)
    ensures Linked(Plug(c, RotL(s)), null, RotLLinks(c, s, M))
  {
    PlugLinked(c, s, M);
    PlugDistinct(c, s);
    RotLApart(c, s);
    assert Linked(s.r, s.x, M) && Linked(s.r.l, s.r.x, M);
    if !c.Top? { CtxStep(c); }
    var M' := RotLLinks(c, s, M);
    var K := RotLTouched(c, s);
    AgreeOutside(M, M', K, Nodes(s.l));
    AgreeOutside(M, M', K, Nodes(s.r.r));
    if s.r.l.Br? {
      AgreeOutside(M, M', K, Nodes(s.r.l.l));
      AgreeOutside(M, M', K, Nodes(s.r.l.r));
    }
    match c {
      case Top =>
      case InL(up, _, r) => AgreeOutside(M, M', K, CtxNodes(up)); AgreeOutside(M, M', K, Nodes(r));
      case InR(l, _, up) => AgreeOutside(M, M', K, CtxNodes(up)); AgreeOutside(M, M', K, Nodes(l));
    }
    RotLLinkedIn(s, Parent(c), M, M');
    CtxRelinked(c, s.x, s.r.x, M, M');
    PlugLinked(c, RotL(s), M');
  }

  /** Relinking as a right rotation does turns a linked tree into the linked rotated tree. */
  lemma RotRLinked<V>(c: Ctx<V>, s: Shape<V>, M: map<Node<V>, Link<V>>)
    requires s.Br? && s.l.Br? && Distinct(Plug(c, s)) && Linked(Plug(c, s), null, M)
    ensures Linked(Plug(c, RotR(s)), null, RotRLinks(c, s, M))
  {
    PlugLinked(c, s, M);
    PlugDistinct(c, s);
    RotRApart(c, s);
    assert Linked(s.l, s.x, M) && Linked(s.l.r, s.l.x, M);
    if !c.Top? { CtxStep(c); }
    var M' := RotRLinks(c, s, M);
    var K := RotRTouched(c, s);
    AgreeOutside(M, M', K, Nodes(s.r));
    AgreeOutside(M, M', K, Nodes(s.l.l));
    if s.l.r.Br? {
      AgreeOutside(M, M', K, Nodes(s.l.r.l));
      AgreeOutside(M, M', K, Nodes(s.l.r.r));
    }
    match c {
      case Top =>
      case InL(up, _, r) => AgreeOutside(M, M', K, CtxNodes(up)); AgreeOutside(M, M', K, Nodes(r));
      case InR(l, _, up) => AgreeOutside(M, M', K, CtxNodes(up)); AgreeOutside(M, M', K, Nodes(l));
    }
    RotRLinkedIn(s, Parent(c), M, M');
    CtxRelinked(c, s.x, s.l.x, M, M');
    PlugLinked(c, RotR(s), M');
  }

  /**
   * The link changes of a left rotation at curr, from M to M': curr's right
   * child takes curr's place under P (or at the top), curr becomes its left
   * child, and the child's former left subtree b moves under curr. Only the
   * four touched nodes change, and all of them are in N.
   */
  ghost predicate RelinkedL<V>(M: map<Node<V>, Link<V>>, M': map<Node<V>, Link<V>>, N: set<Node<V>>,
                               curr: Node<V>, child: Node<V>, b: Node?<V>, P: Node?<V>)
  {
    curr in N && child in N && (b != null ==> b in N) && (P != null ==> P in N)
    && child != curr && b != curr && b != child && P != curr && P != child && (P != null ==> P != b)
    && curr in M && child in M && M[curr].right == child && M[child].left == b && M[curr].parent == P
    && (P != null ==> P in M && ((M[P].left == curr) != (M[P].right == curr)))
    && UpdatesOnly(M, M', {curr, child, b, P})
    && curr in M' && M'[curr] == Link(M[curr].left, b, child)
    && child in M' && M'[child] == Link(curr, M[child].right, P)
    && (b != null ==> b in M && b in M' && M'[b] == Link(M[b].left, M[b].right, curr))
    && (P != null ==>
          P in M' && M'[P] == if M[P].left == curr then Link(child, M[P].right, M[P].parent)
                              else Link(M[P].left, child, M[P].parent))
  }

  /** The mirror image of RelinkedL, for a right rotation at curr. */
  ghost predicate RelinkedR<V>(M: map<Node<V>, Link<V>>, M': map<Node<V>, Link<V>>, N: set<Node<V>>,
                               curr: Node<V>, child: Node<V>, b: Node?<V>, P: Node?<V>)
  {
    curr in N && child in N && (b != null ==> b in N) && (P != null ==> P in N)
    && child != curr && b != curr && b != child && P != curr && P != child && (P != null ==> P != b)
    && curr in M && child in M && M[curr].left == child && M[child].right == b && M[curr].parent == P
    && (P != null ==> P in M && ((M[P].left == curr) != (M[P].right == curr)))
    && UpdatesOnly(M, M', {curr, child, b, P})
    && curr in M' && M'[curr] == Link(b, M[curr].right, child)
    && child in M' && M'[child] == Link(M[child].left, curr, P)
    && (b != null ==> b in M && b in M' && M'[b] == Link(M[b].left, M[b].right, curr))
    && (P != null ==>
          P in M' && M'[P] == if M[P].right == curr then Link(M[P].left, child, M[P].parent)
                              else Link(child, M[P].right, M[P].parent))
  }

  /** A left rotation at the root of s, in context c, changes the links as RelinkedL says. */
  lemma RotLAt<V>(c: Ctx<V>, s: Shape<V>, M: map<Node<V>, Link<V>>)
    requires s.Br? && s.r.Br? && Distinct(Plug(c, s)) && Linked(Plug(c, s), null, M)
    ensures RelinkedL(M, RotLLinks(c, s, M), Nodes(Plug(c, s)), s.x, s.r.x, RootOf(s.r.l), Parent(c))
  {
    PlugLinked(c, s, M);
    PlugNodes(c, s);
    RotLApart(c, s);
    assert Linked(s.r, s.x, M) && Linked(s.r.l, s.r.x, M);
  }

  /** A right rotation at the root of s, in context c, changes the links as RelinkedR says. */
  lemma RotRAt<V>(c: Ctx<V>, s: Shape<V>, M: map<Node<V>, Link<V>>)
    requires s.Br? && s.l.Br? && Distinct(Plug(c, s)) && Linked(Plug(c, s), null, M)
    ensures RelinkedR(M, RotRLinks(c, s, M), Nodes(Plug(c, s)), s.x, s.l.x, RootOf(s.l.r), Parent(c))
  {
    PlugLinked(c, s, M);
    PlugNodes(c, s);
    RotRApart(c, s);
    assert Linked(s.l, s.x, M) && Linked(s.l.r, s.l.x, M);
  }

  /** A left rotation inside a context keeps the nodes, their order and their distinctness; it changes the root only at the top. */
  lemma RotLPlug<V>(c: Ctx<V>, s: Shape<V>)
    requires s.Br? && s.r.Br? && Distinct(Plug(c, s))
    ensures Nodes(Plug(c, RotL(s))) == Nodes(Plug(c, s)) && InOrder(Plug(c, RotL(s))) == InOrder(Plug(c, s))
    ensures Distinct(Plug(c, RotL(s)))
    ensures RootOf(Plug(c, RotL(s))) == if c.Top? then s.r.x else RootOf(Plug(c, s))
  {
    RotLShape(s);
    PlugNodes(c, s);
    PlugNodes(c, RotL(s));
    PlugInOrder(c, s);
    PlugInOrder(c, RotL(s));
    PlugDistinct(c, s);
    PlugDistinct(c, RotL(s));
    if !c.Top? { PlugRoot(c, s, RotL(s)); }
  }

  /** A right rotation inside a context keeps the nodes, their order and their distinctness; it changes the root only at the top. */
  lemma RotRPlug<V>(c: Ctx<V>, s: Shape<V>)
    requires s.Br? && s.l.Br? && Distinct(Plug(c, s))
    ensures Nodes(Plug(c, RotR(s))) == Nodes(Plug(c, s)) && InOrder(Plug(c, RotR(s))) == InOrder(Plug(c, s))
    ensures Distinct(Plug(c, RotR(s)))
    ensures RootOf(Plug(c, RotR(s))) == if c.Top? then s.l.x else RootOf(Plug(c, s))
  {
    RotRShape(s);
    PlugNodes(c, s);
    PlugNodes(c, RotR(s));
    PlugInOrder(c, s);
    PlugInOrder(c, RotR(s));
    PlugDistinct(c, s);
    PlugDistinct(c, RotR(s));
    if !c.Top? { PlugRoot(c, s, RotR(s)); }
  }

  // ---------------------------------------------------------------------
  // Balance factors

  /**
   * Every node's balance factor, as B records it, is height(right) -
   * height(left) and lies in -1..1; except that the stale nodes S, whose
   * recorded factor is out of date, only have to be truly balanced (both
   * subtrees of equal height).
   */
  ghost predicate BalOK<V>(s: Shape<V>, B: map<Node<V>, int>, S: set<Node<V>>)
  {
    match s
    case Nil => true
    case Br(l, x, r) =>
      (if x in S then Height(l) == Height(r)
       else x in B && B[x] == Height(r) - Height(l) && -1 <= B[x] <= 1)
      && BalOK(l, B, S) && BalOK(r, B, S)
  }

  /**
   * The context nodes carry correct balance factors for a hole of height h,
   * and their other subtrees are balanced.
   */
  ghost predicate CtxBal<V>(c: Ctx<V>, h: int, B: map<Node<V>, int>)
  {
    match c
    case Top => true
    case InL(up, x, r) =>
      BalOK(r, B, {}) && x in B && B[x] == Height(r) - h && -1 <= B[x] <= 1
      && CtxBal(up, 1 + Max(h, Height(r)), B)
    case InR(l, x, up) =>
      BalOK(l, B, {}) && x in B && B[x] == h - Height(l) && -1 <= B[x] <= 1
      && CtxBal(up, 1 + Max(Height(l), h), B)
  }

  /** Only the stale nodes inside s matter to BalOK(s, _, S). */
  lemma {:induction false} BalStale<V>(s: Shape<V>, B: map<Node<V>, int>, S: set<Node<V>>, S': set<Node<V>>)
    requires forall x :: x in Nodes(s) ==> (x in S <==> x in S')
    ensures BalOK(s, B, S) <==> BalOK(s, B, S')
    decreases s
  {
    match s
    case Nil =>
    case Br(l, x, r) =>
      BalStale(l, B, S, S'); BalStale(r, B, S, S');
  }

  /** A subtree plugged into a context is balanced iff the subtree is and the context is, for its height. */
  lemma {:induction false} PlugBal<V>(c: Ctx<V>, s: Shape<V>, B: map<Node<V>, int>, S: set<Node<V>>)
    requires S !! CtxNodes(c)
    ensures BalOK(Plug(c, s), B, S) <==> BalOK(s, B, S) && CtxBal(c, Height(s), B)
    decreases c
  {
    match c
    case Top =>
    case InL(up, x, r) =>
      BalStale(r, B, S, {});
      PlugBal(up, Br(s, x, r), B, S);
    case InR(l, x, up) =>
      BalStale(l, B, S, {});
      PlugBal(up, Br(l, x, s), B, S);
  }

  /** The nodes of a subtree in a context are distinct from each other and from the context's. */
  lemma PlugApart<V>(c: Ctx<V>, s: Shape<V>)
    requires Distinct(Plug(c, s))
    ensures Distinct(s) && Nodes(s) !! CtxNodes(c)
  {
    PlugDistinct(c, s);
  }

  /** An AVL tree seen as a subtree s in its context c, with a node x from outside it. */
  lemma PlugSplit<V>(c: Ctx<V>, s: Shape<V>, B: map<Node<V>, int>, x: Node<V>)
    requires Distinct(Plug(c, s)) && BalOK(Plug(c, s), B, {}) && x !in Nodes(Plug(c, s))
    ensures Distinct(s) && Nodes(s) !! CtxNodes(c) && x !in Nodes(s) && x !in CtxNodes(c)
    ensures BalOK(s, B, {}) && CtxBal(c, Height(s), B)
  {
    PlugDistinct(c, s);
    PlugNodes(c, s);
    PlugBal(c, s, B, {});
  }

  /** In an AVL tree, the node at any position carries its true factor, which lies in -1..1. */
  lemma BalAt<V>(c: Ctx<V>, s: Shape<V>, B: map<Node<V>, int>)
    requires s.Br? && BalOK(Plug(c, s), B, {})
    ensures s.x in B && B[s.x] == Height(s.r) - Height(s.l) && -1 <= B[s.x] <= 1
  {
    PlugBal(c, s, B, {});
  }

  /** BalOK(s, _, S) only reads the factors of the nodes of s outside S. */
  lemma {:induction false} BalKeep<V>(s: Shape<V>, B: map<Node<V>, int>, B': map<Node<V>, int>, S: set<Node<V>>)
    requires BalOK(s, B, S)
    requires forall x :: x in Nodes(s) && x !in S && x in B ==> x in B' && B'[x] == B[x]
    ensures BalOK(s, B', S)
    decreases s
  {
    match s
    case Nil =>
    case Br(l, x, r) => BalKeep(l, B, B', S); BalKeep(r, B, B', S);
  }

  /** CtxBal(c, _, _) only reads the factors of the nodes of c. */
  lemma {:induction false} CtxBalKeep<V>(c: Ctx<V>, h: int, B: map<Node<V>, int>, B': map<Node<V>, int>)
    requires CtxBal(c, h, B)
    requires forall x :: x in CtxNodes(c) && x in B ==> x in B' && B'[x] == B[x]
    ensures CtxBal(c, h, B')
    decreases c
  {
    match c
    case Top =>
    case InL(up, x, r) => BalKeep(r, B, B', {}); CtxBalKeep(up, 1 + Max(h, Height(r)), B, B');
    case InR(l, x, up) => BalKeep(l, B, B', {}); CtxBalKeep(up, 1 + Max(Height(l), h), B, B');
  }

  /** A balanced subtree of the height its context expects makes a balanced whole. */
  lemma PlugReplace<V>(c: Ctx<V>, s: Shape<V>, B: map<Node<V>, int>, B': map<Node<V>, int>, S: set<Node<V>>)
    requires CtxBal(c, Height(s), B) && BalOK(s, B', S) && S !! CtxNodes(c)
    requires forall x :: x in CtxNodes(c) && x in B ==> x in B' && B'[x] == B[x]
    ensures BalOK(Plug(c, s), B', S)
  {
    CtxBalKeep(c, Height(s), B, B');
    PlugBal(c, s, B', S);
  }

  /**
   * A stale node whose subtree is balanced may have its factor refreshed to 0,
   * after which it need no longer be exempt.
   */
  lemma {:induction false} BalOKRefresh<V>(s: Shape<V>, B: map<Node<V>, int>, S: set<Node<V>>, n: Node<V>)
    requires BalOK(s, B, S + {n}) && n !in S
    ensures BalOK(s, B[n := 0], S)
    decreases s
  {
    match s
    case Nil =>
    case Br(l, x, r) => BalOKRefresh(l, B, S, n); BalOKRefresh(r, B, S, n);
  }

  // ---------------------------------------------------------------------
  // Keys and values

  /** The (key, value) pairs that kv records for a sequence of nodes. */
  ghost function EntriesOf<V>(ns: seq<Node<V>>, kv: map<Node<V>, (int, V)>): (e: seq<(int, V)>)
    requires forall x :: x in ns ==> x in kv
    ensures |e| == |ns| && forall i :: 0 <= i < |ns| ==> e[i] == kv[ns[i]]
  {
    seq(|ns|, i requires 0 <= i < |ns| => kv[ns[i]])
  }

  // ---------------------------------------------------------------------
  // Which child a node is, and attaching a leaf

  /**
   * The links of a subtree's root lead to its children and to the
   * context's node, and that node's link on the hole's side leads back.
   */
  lemma ChildSide<V>(c: Ctx<V>, s: Shape<V>, M: map<Node<V>, Link<V>>)
    requires s.Br? && Distinct(Plug(c, s)) && Linked(Plug(c, s), null, M)
    ensures s.x in M && M[s.x] == Link(RootOf(s.l), RootOf(s.r), Parent(c))
    ensures !c.Top? ==> c.x in M && (M[c.x].left == s.x <==> c.InL?) && (M[c.x].right == s.x <==> c.InR?)
  {
    PlugLinked(c, s, M);
    PlugDistinct(c, s);
    match c
    case Top =>
    case InL(up, x, r) =>
      assert RootOf(r) != s.x by { if r.Br? { assert r.x in Nodes(r) && r.x in CtxNodes(c); } }
    case InR(l, x, up) =>
      assert RootOf(l) != s.x by { if l.Br? { assert l.x in Nodes(l) && l.x in CtxNodes(c); } }
  }

  /** The link map after a leaf x becomes the left child of loc. */
  ghost function AttachLeftLinks<V>(M: map<Node<V>, Link<V>>, loc: Node<V>, x: Node<V>): map<Node<V>, Link<V>>
    requires loc in M
  {
    M[x := Link(null, null, loc)][loc := Link(x, M[loc].right, M[loc].parent)]
  }

  /** The link map after a leaf x becomes the right child of loc. */
  ghost function AttachRightLinks<V>(M: map<Node<V>, Link<V>>, loc: Node<V>, x: Node<V>): map<Node<V>, Link<V>>
    requires loc in M
  {
    M[x := Link(null, null, loc)][loc := Link(M[loc].left, x, M[loc].parent)]
  }

  /**
   * A new node x hung as a leaf under loc, which had no left child: the
   * shape stays linked, without repeated nodes, with the same root, and
   * gains exactly x.
   */
  lemma AttachLeftLinked<V>(c: Ctx<V>, loc: Node<V>, r: Shape<V>, M: map<Node<V>, Link<V>>, x: Node<V>)
    requires Distinct(Plug(c, Br(Nil, loc, r))) && Linked(Plug(c, Br(Nil, loc, r)), null, M)
    requires x !in Nodes(Plug(c, Br(Nil, loc, r)))
    ensures loc in M && Linked(Plug(c, Br(Br(Nil, x, Nil), loc, r)), null, AttachLeftLinks(M, loc, x))
    ensures Distinct(Plug(c, Br(Br(Nil, x, Nil), loc, r)))
    ensures Nodes(Plug(c, Br(Br(Nil, x, Nil), loc, r))) == Nodes(Plug(c, Br(Nil, loc, r))) + {x}
    ensures RootOf(Plug(c, Br(Br(Nil, x, Nil), loc, r))) == RootOf(Plug(c, Br(Nil, loc, r)))
  {
    var s, t := Br(Nil, loc, r), Br(Br(Nil, x, Nil), loc, r);
    PlugLinked(c, s, M);
    PlugDistinct(c, s);
    PlugDistinct(c, t);
    PlugNodes(c, s);
    PlugNodes(c, t);
    var M' := AttachLeftLinks(M, loc, x);
    assert Agree(M, M', CtxNodes(c));
    CtxLinkedFrame(c, loc, M, M');
    assert Agree(M, M', Nodes(r));
    LinkedFrame(r, loc, M, M');
    assert Linked(t, Parent(c), M');
    PlugLinked(c, t, M');
    if !c.Top? { PlugRoot(c, s, t); }
  }

  /** The mirror image of AttachLeftLinked. */
  lemma AttachRightLinked<V>(c: Ctx<V>, l: Shape<V>, loc: Node<V>, M: map<Node<V>, Link<V>>, x: Node<V>)
    requires Distinct(Plug(c, Br(l, loc, Nil))) && Linked(Plug(c, Br(l, loc, Nil)), null, M)
    requires x !in Nodes(Plug(c, Br(l, loc, Nil)))
    ensures loc in M && Linked(Plug(c, Br(l, loc, Br(Nil, x, Nil))), null, AttachRightLinks(M, loc, x))
    ensures Distinct(Plug(c, Br(l, loc, Br(Nil, x, Nil))))
    ensures Nodes(Plug(c, Br(l, loc, Br(Nil, x, Nil)))) == Nodes(Plug(c, Br(l, loc, Nil))) + {x}
    ensures RootOf(Plug(c, Br(l, loc, Br(Nil, x, Nil)))) == RootOf(Plug(c, Br(l, loc, Nil)))
  {
    var s, t := Br(l, loc, Nil), Br(l, loc, Br(Nil, x, Nil));
    PlugLinked(c, s, M);
    PlugDistinct(c, s);
    PlugDistinct(c, t);
    PlugNodes(c, s);
    PlugNodes(c, t);
    var M' := AttachRightLinks(M, loc, x);
    assert Agree(M, M', CtxNodes(c));
    CtxLinkedFrame(c, loc, M, M');
    assert Agree(M, M', Nodes(l));
    LinkedFrame(l, loc, M, M');
    assert Linked(t, Parent(c), M');
    PlugLinked(c, t, M');
    if !c.Top? { PlugRoot(c, s, t); }
  }

  // ---------------------------------------------------------------------
  // Rotations, before and after

  /** A left rotation at the root of s, in context c, as the link map sees it: before and after. */
  lemma RotLState<V>(c: Ctx<V>, s: Shape<V>, M: map<Node<V>, Link<V>>, N: set<Node<V>>)
    requires s.Br? && s.r.Br? && Distinct(Plug(c, s)) && Linked(Plug(c, s), null, M) && N == Nodes(Plug(c, s))
    ensures RelinkedL(M, RotLLinks(c, s, M), N, s.x, s.r.x, RootOf(s.r.l), Parent(c))
    ensures N == Nodes(Plug(c, RotL(s))) && Distinct(Plug(c, RotL(s)))
    ensures InOrder(Plug(c, RotL(s))) == InOrder(Plug(c, s))
    ensures RootOf(Plug(c, RotL(s))) == if c.Top? then s.r.x else RootOf(Plug(c, s))
    ensures Linked(Plug(c, RotL(s)), null, RotLLinks(c, s, M))
  {
    RotLAt(c, s, M);
    RotLPlug(c, s);
    RotLLinked(c, s, M);
  }

  /** A right rotation at the root of s, in context c, as the link map sees it: before and after. */
  lemma RotRState<V>(c: Ctx<V>, s: Shape<V>, M: map<Node<V>, Link<V>>, N: set<Node<V>>)
    requires s.Br? && s.l.Br? && Distinct(Plug(c, s)) && Linked(Plug(c, s), null, M) && N == Nodes(Plug(c, s))
    ensures RelinkedR(M, RotRLinks(c, s, M), N, s.x, s.l.x, RootOf(s.l.r), Parent(c))
    ensures N == Nodes(Plug(c, RotR(s))) && Distinct(Plug(c, RotR(s)))
    ensures InOrder(Plug(c, RotR(s))) == InOrder(Plug(c, s))
    ensures RootOf(Plug(c, RotR(s))) == if c.Top? then s.l.x else RootOf(Plug(c, s))
    ensures Linked(Plug(c, RotR(s)), null, RotRLinks(c, s, M))
  {
    RotRAt(c, s, M);
    RotRPlug(c, s);
    RotRLinked(c, s, M);
  }

  /**
   * The links after a node x with at most one child ch is cut out: x's
   * parent P (if any) points to ch where it pointed to x, and ch's parent
   * becomes P.
   */
  ghost function SpliceLinks<V>(M: map<Node<V>, Link<V>>, P: Node?<V>, x: Node<V>, ch: Node?<V>): map<Node<V>, Link<V>>
    requires P != null ==> P in M
    requires ch != null ==> ch in M
  {
    var M1 := if P == null then M
              else if M[P].left == x then M[P := Link(ch, M[P].right, M[P].parent)]
              else M[P := Link(M[P].left, ch, M[P].parent)];
    if ch == null then M1 else M1[ch := Link(M[ch].left, M[ch].right, P)]
  }

  /** The subtree that takes the place of a node with at most one child when it is cut out. */
  function Remaining<V>(s: Shape<V>): Shape<V>
    requires s.Br?
  {
    if s.r.Br? then s.r else s.l
  }

  /** The in-order sequence of Plug(c, s) with s's root left out. */
  ghost function InOrderWithout<V>(c: Ctx<V>, s: Shape<V>): seq<Node<V>>
    requires s.Br?
  {
    Before(c) + InOrder(s.l) + InOrder(s.r) + After(c)
  }

  /** Cutting out a node with at most one child leaves a linked tree of the other nodes. */
  lemma SpliceLinked<V>(c: Ctx<V>, s: Shape<V>, M: map<Node<V>, Link<V>>)
    requires s.Br? && (s.l.Nil? || s.r.Nil?) && Distinct(Plug(c, s)) && Linked(Plug(c, s), null, M)
    ensures var t, P := Remaining(s), Parent(c);
      (P != null ==> P in M) && (RootOf(t) != null ==> RootOf(t) in M && RootOf(t) != P)
      && s.x in M && M[s.x] == Link(RootOf(s.l), RootOf(s.r), P)
      && Linked(Plug(c, t), null, SpliceLinks(M, P, s.x, RootOf(t)))
      && Distinct(Plug(c, t)) && Nodes(Plug(c, t)) == Nodes(Plug(c, s)) - {s.x}
  {
    var t, P, x := Remaining(s), Parent(c), s.x;
    ChildSide(c, s, M);
    PlugLinked(c, s, M);
    PlugDistinct(c, s);
    PlugDistinct(c, t);
    PlugNodes(c, s);
    PlugNodes(c, t);
    var ch := RootOf(t);
    assert Linked(t, x, M);
    assert ch != null ==> ch in Nodes(t) && ch in M && ch !in CtxNodes(c);
    var M' := SpliceLinks(M, P, x, ch);
    SpliceCtxLinked(c, x, ch, M, M');
    SpliceSubLinked(t, x, P, M, M');
    PlugLinked(c, t, M');
  }

  /** The rightmost node of s, as the subtree at the context reached by going right from (c, s). */
  ghost function Rightmost<V>(c: Ctx<V>, s: Shape<V>): (Ctx<V>, Shape<V>)
    requires s.Br?
    decreases s
  {
    if s.r.Nil? then (c, s) else Rightmost(InR(s.l, s.x, c), s.r)
  }

  /**
   * The rightmost node of s has no right child, is a node of s, and comes
   * last among s's nodes in order; everything after it is what came after s.
   */
  lemma {:induction false} RightmostFacts<V>(c: Ctx<V>, s: Shape<V>)
    requires s.Br?
    ensures var (cm, sm) := Rightmost(c, s);
      sm.Br? && sm.r.Nil? && Plug(cm, sm) == Plug(c, s) && sm.x in Nodes(s)
      && Before(cm) + InOrder(sm.l) + [sm.x] == Before(c) + InOrder(s)
      && After(cm) == After(c)
    decreases s
  {
    assert Before(c) + InOrder(s.l) + [s.x] + InOrder(s.r) == Before(c) + (InOrder(s.l) + [s.x] + InOrder(s.r));
    assert InOrder(s.l) + [s.x] + [] == InOrder(s.l) + [s.x];
    if s.r.Br? {
      RightmostFacts(InR(s.l, s.x, c), s.r);
    }
  }

  /**
   * Everything the cut of remove needs to know about the shape: x = s.x
   * has at most one child ch, which takes its place under x's parent P;
   * both are in the remaining tree, which is linked as SpliceLinks says,
   * has the same root unless x was the root, and keeps the order of the
   * other nodes.
   */
  lemma SpliceFacts<V>(c: Ctx<V>, s: Shape<V>, M: map<Node<V>, Link<V>>)
    requires s.Br? && (s.l.Nil? || s.r.Nil?) && Distinct(Plug(c, s)) && Linked(Plug(c, s), null, M)
    ensures var t, P, ch := Plug(c, Remaining(s)), Parent(c), RootOf(Remaining(s));
      (P != null ==> P in Nodes(t) && P in M && (M[P].left == s.x || M[P].right == s.x))
      && (ch != null ==> ch in Nodes(t) && ch in M && ch != P)
      && Nodes(t) == Nodes(Plug(c, s)) - {s.x} && s.x in Nodes(Plug(c, s))
      && Distinct(t) && Linked(t, null, SpliceLinks(M, P, s.x, ch))
      && RootOf(t) == (if c.Top? then ch else RootOf(Plug(c, s)))
      && InOrder(t) == InOrderWithout(c, s)
  {
    SpliceLinked(c, s, M);
    ChildSide(c, s, M);
    PlugNodes(c, Remaining(s));
    PlugNodes(c, s);
    SpliceRootOrder(c, s);
  }

  /** Cutting out a node with at most one child keeps the root unless it was the root, and keeps the order of the rest. */
  lemma SpliceRootOrder<V>(c: Ctx<V>, s: Shape<V>)
    requires s.Br? && (s.l.Nil? || s.r.Nil?)
    ensures RootOf(Plug(c, Remaining(s))) == (if c.Top? then RootOf(Remaining(s)) else RootOf(Plug(c, s)))
    ensures InOrder(Plug(c, Remaining(s))) == InOrderWithout(c, s)
  {
    if !c.Top? { PlugRoot(c, s, Remaining(s)); }
    PlugInOrder(c, Remaining(s));
  }

  /** The context part of SpliceLinked: only the parent's link to the hole changes. */
  lemma SpliceCtxLinked<V>(c: Ctx<V>, x: Node<V>, ch: Node?<V>, M: map<Node<V>, Link<V>>, M': map<Node<V>, Link<V>>)
    requires Distinct(Plug(c, Nil)) && CtxLinked(c, x, M) && x !in CtxNodes(c)
    requires ch != null ==> ch in M && ch !in CtxNodes(c)
    requires !c.Top? ==> c.x in M && (M[c.x].left == x <==> c.InL?)
    requires M' == SpliceLinks(M, Parent(c), x, ch)
    ensures CtxLinked(c, ch, M')
  {
    if !c.Top? {
      CtxStep(c);
      assert Agree(M, M', CtxNodes(c.up));
      assert c.InL? ==> Agree(M, M', Nodes(c.r));
      assert c.InR? ==> Agree(M, M', Nodes(c.l));
    }
    CtxRelinked(c, x, ch, M, M');
  }

  /** The subtree part of SpliceLinked: only the parent link of the subtree's root changes. */
  lemma SpliceSubLinked<V>(t: Shape<V>, x: Node<V>, P: Node?<V>, M: map<Node<V>, Link<V>>, M': map<Node<V>, Link<V>>)
    requires Distinct(t) && Linked(t, x, M) && (P != null ==> P in M && P !in Nodes(t))
    requires M' == SpliceLinks(M, P, x, RootOf(t))
    ensures Linked(t, P, M')
  {
    if t.Br? {
      assert Agree(M, M', Nodes(t.l)) && Agree(M, M', Nodes(t.r));
      LinkedFrame(t.l, t.x, M, M');
      LinkedFrame(t.r, t.x, M, M');
    }
  }
}
