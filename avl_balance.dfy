// What the rebalancing steps of insertion and removal do to the balance
// factors, stated on the ghost view alone: a shape in its context and the map
// B of recorded factors. Each lemma is one case of the fixup code; the heap
// methods of AvlTreeHeap perform the case and call the lemma.

module AvlBalance {
  import opened AvlNode
  import opened AvlShape

  /**
   * A double rotation lifts a node whose factor was b above two new
   * children. Its right child, which received its right subtree, leans
   * right if the lifted node leaned left and is balanced otherwise.
   */
  function NewRightFactor(b: int): int
  {
    if b == -1 then 1 else 0
  }

  /** The mirror image of NewRightFactor: the new left child leans left if the lifted node leaned right. */
  function NewLeftFactor(b: int): int
  {
    if b == 1 then -1 else 0
  }

  // ---------------------------------------------------------------------
  // Insertion

  /**
   * The subtree s at context c has become one taller than the factors of
   * its context expect; s itself is an AVL tree whose root leans (by one)
   * toward its child n, on the side that grew.
   */
  ghost predicate Grown<V>(c: Ctx<V>, s: Shape<V>, B: map<Node<V>, int>, n: Node<V>)
  {
    s.Br? && BalOK(s, B, {}) && CtxBal(c, Height(s) - 1, B) && s.x in B
    && ((B[s.x] == -1 && n == RootOf(s.l)) || (B[s.x] == 1 && n == RootOf(s.r)))
  }

  /** A single leaf, as insertion creates it. */
  ghost function Leaf<V>(x: Node<V>): (s: Shape<V>)
    ensures Height(s) == 1 && Nodes(s) == {x}
  {
    Br(Nil, x, Nil)
  }

  /**
   * A new leaf x attached as the left child of loc, where loc leaned right:
   * loc becomes balanced and no height above changes.
   */
  lemma {:induction false} AttachAbsorbedLeft<V>(c: Ctx<V>, loc: Node<V>, r: Shape<V>, B: map<Node<V>, int>, x: Node<V>)
    requires Distinct(Plug(c, Br(Nil, loc, r))) && x !in Nodes(Plug(c, Br(Nil, loc, r)))
    requires BalOK(Plug(c, Br(Nil, loc, r)), B, {}) && loc in B && (B[loc] == -1 || B[loc] == 1)
    ensures BalOK(Plug(c, Br(Leaf(x), loc, r)), B[x := 0][loc := 0], {})
  {
    var s, B' := Br(Nil, loc, r), B[x := 0][loc := 0];
    PlugSplit(c, s, B, x);
    assert x !in Nodes(r) && loc !in Nodes(r) && x != loc;
    assert x !in CtxNodes(c) && loc !in CtxNodes(c);
    assert Height(r) == 1;
    BalKeep(r, B, B', {});
    PlugReplace(c, Br(Leaf(x), loc, r), B, B', {});
  }

  /**
   * A new leaf x attached as the left child of a balanced leaf loc: loc
   * leans left and its subtree has grown, toward x.
   */
  lemma {:induction false} AttachGrewLeft<V>(c: Ctx<V>, loc: Node<V>, r: Shape<V>, B: map<Node<V>, int>, x: Node<V>)
    requires Distinct(Plug(c, Br(Nil, loc, r))) && x !in Nodes(Plug(c, Br(Nil, loc, r)))
    requires BalOK(Plug(c, Br(Nil, loc, r)), B, {}) && loc in B && B[loc] == 0
    ensures Grown(c, Br(Leaf(x), loc, r), B[x := 0][loc := -1], x)
  {
    var s, B' := Br(Nil, loc, r), B[x := 0][loc := -1];
    PlugSplit(c, s, B, x);
    assert x !in CtxNodes(c) && loc !in CtxNodes(c) && x != loc;
    assert r == Nil;
    CtxBalKeep(c, 1, B, B');
    assert B'[loc] == -1 && BalOK(Leaf(x), B', {});
    assert Height(Br(Leaf(x), loc, r)) == 2 && BalOK(Br(Leaf(x), loc, r), B', {});
  }

  /** The mirror image of AttachAbsorbedLeft. */
  lemma {:induction false} AttachAbsorbedRight<V>(c: Ctx<V>, l: Shape<V>, loc: Node<V>, B: map<Node<V>, int>, x: Node<V>)
    requires Distinct(Plug(c, Br(l, loc, Nil))) && x !in Nodes(Plug(c, Br(l, loc, Nil)))
    requires BalOK(Plug(c, Br(l, loc, Nil)), B, {}) && loc in B && (B[loc] == -1 || B[loc] == 1)
    ensures BalOK(Plug(c, Br(l, loc, Leaf(x))), B[x := 0][loc := 0], {})
  {
    var s, B' := Br(l, loc, Nil), B[x := 0][loc := 0];
    PlugSplit(c, s, B, x);
    assert x !in Nodes(l) && loc !in Nodes(l) && x != loc;
    assert x !in CtxNodes(c) && loc !in CtxNodes(c);
    assert Height(l) == 1;
    BalKeep(l, B, B', {});
    PlugReplace(c, Br(l, loc, Leaf(x)), B, B', {});
  }

  /** The mirror image of AttachGrewLeft. */
  lemma {:induction false} AttachGrewRight<V>(c: Ctx<V>, l: Shape<V>, loc: Node<V>, B: map<Node<V>, int>, x: Node<V>)
    requires Distinct(Plug(c, Br(l, loc, Nil))) && x !in Nodes(Plug(c, Br(l, loc, Nil)))
    requires BalOK(Plug(c, Br(l, loc, Nil)), B, {}) && loc in B && B[loc] == 0
    ensures Grown(c, Br(l, loc, Leaf(x)), B[x := 0][loc := 1], x)
  {
    var s, B' := Br(l, loc, Nil), B[x := 0][loc := 1];
    PlugSplit(c, s, B, x);
    assert x !in CtxNodes(c) && loc !in CtxNodes(c) && x != loc;
    assert l == Nil;
    CtxBalKeep(c, 1, B, B');
    assert B'[loc] == 1 && BalOK(Leaf(x), B', {});
    assert Height(Br(l, loc, Leaf(x))) == 2 && BalOK(Br(l, loc, Leaf(x)), B', {});
  }

  /** g's left subtree sp grew, and g leaned right: g becomes balanced and the growth stops. */
  lemma {:induction false} InsertAbsorbedLeft<V>(c: Ctx<V>, sp: Shape<V>, g: Node<V>, sr: Shape<V>, B: map<Node<V>, int>, n: Node<V>)
    requires Distinct(Plug(c, Br(sp, g, sr))) && Grown(InL(c, g, sr), sp, B, n) && B[g] - 1 == 0
    ensures BalOK(Plug(c, Br(sp, g, sr)), B[g := 0], {})
  {
    var B' := B[g := 0];
    PlugApart(c, Br(sp, g, sr));
    assert g !in Nodes(sp) && g !in Nodes(sr) && g !in CtxNodes(c);
    assert Height(sr) == Height(sp) && CtxBal(c, Height(Br(sp, g, sr)), B);
    BalKeep(sp, B, B', {});
    BalKeep(sr, B, B', {});
    PlugReplace(c, Br(sp, g, sr), B, B', {});
  }

  /** g's left subtree sp grew, and g was balanced: g leans left and its own subtree has grown, toward sp. */
  lemma {:induction false} InsertGrewLeft<V>(c: Ctx<V>, sp: Shape<V>, g: Node<V>, sr: Shape<V>, B: map<Node<V>, int>, n: Node<V>)
    requires Distinct(Plug(c, Br(sp, g, sr))) && Grown(InL(c, g, sr), sp, B, n) && B[g] - 1 == -1
    ensures Grown(c, Br(sp, g, sr), B[g := -1], sp.x)
  {
    var B' := B[g := -1];
    PlugApart(c, Br(sp, g, sr));
    assert g !in Nodes(sp) && g !in Nodes(sr) && g !in CtxNodes(c);
    assert Height(sr) == Height(sp) - 1 && CtxBal(c, Height(sp), B);
    BalKeep(sp, B, B', {});
    BalKeep(sr, B, B', {});
    CtxBalKeep(c, Height(sp), B, B');
  }

  /**
   * Left-left case: g's left subtree sp grew on its own left side and g
   * already leaned left. One right rotation at g with g and p = sp.x both
   * set to 0 makes the tree AVL again, and the rotated subtree has its
   * height from before the insertion.
   */
  lemma {:induction false} InsertSingleLeft<V>(c: Ctx<V>, sp: Shape<V>, g: Node<V>, sr: Shape<V>, B: map<Node<V>, int>, n: Node<V>)
    requires Distinct(Plug(c, Br(sp, g, sr))) && Grown(InL(c, g, sr), sp, B, n) && B[g] - 1 == -2
    requires n == RootOf(sp.l)
    ensures sp.Br? && BalOK(Plug(c, RotR(Br(sp, g, sr))), B[g := -2][g := 0][sp.x := 0], {})
    ensures Height(RotR(Br(sp, g, sr))) == Height(Br(sp, g, sr)) - 1
  {
    var p, B' := sp.x, B[g := 0][sp.x := 0];
    PlugApart(c, Br(sp, g, sr));
    assert g !in CtxNodes(c) && p !in CtxNodes(c);
    assert Distinct(sp) && sp.l.Br? && sp.l.x != RootOf(sp.r);
    assert B[p] == -1 && CtxBal(c, Height(sp), B);
    SingleLeftLocal(sp, g, sr, B, B');
    PlugReplace(c, RotR(Br(sp, g, sr)), B, B', {});
    assert B[g := -2][g := 0][p := 0] == B';
  }

  /** The subtree part of InsertSingleLeft, apart from the context. */
  lemma {:induction false} SingleLeftLocal<V>(sp: Shape<V>, g: Node<V>, sr: Shape<V>, B: map<Node<V>, int>, B': map<Node<V>, int>)
    requires Distinct(Br(sp, g, sr)) && sp.Br? && BalOK(sp, B, {}) && BalOK(sr, B, {})
    requires B[sp.x] == -1 && Height(sr) == Height(sp) - 2 && B' == B[g := 0][sp.x := 0]
    ensures BalOK(RotR(Br(sp, g, sr)), B', {}) && Height(RotR(Br(sp, g, sr))) == Height(sp)
  {
    var p := sp.x;
    assert g !in Nodes(sp) && g !in Nodes(sr) && p !in Nodes(sp.l) && p !in Nodes(sp.r) && p != g;
    var ha: int, hb: int, hd: int := Height(sp.l), Height(sp.r), Height(sr);
    assert hb == ha - 1 && hd == ha - 1;
    RebuildLeanRight(sp.l, p, sp.r, g, sr, B, B', {});
  }

  /**
   * Left-right case: g's left subtree sp grew on its right side, at n, and
   * g already leaned left. Rotating left at p = sp.x and then right at g
   * lifts n to the top; g and p are set from n's former factor
   * (-1 gives (1, 0), 0 gives (0, 0), 1 gives (0, -1)) and n to 0, which
   * makes the tree AVL again with the subtree's height from before the
   * insertion.
   */
  lemma {:induction false} InsertDoubleLeft<V>(c: Ctx<V>, sp: Shape<V>, g: Node<V>, sr: Shape<V>, B: map<Node<V>, int>, n: Node<V>)
    requires Distinct(Plug(c, Br(sp, g, sr))) && Grown(InL(c, g, sr), sp, B, n) && B[g] - 1 == -2
    requires n != RootOf(sp.l)
    ensures sp.Br? && sp.r.Br? && n == sp.r.x && n in B && -1 <= B[n] <= 1 && n != g && n != sp.x
    ensures var b := B[n];
      BalOK(Plug(c, RotR(Br(RotL(sp), g, sr))),
            B[g := -2][g := NewRightFactor(b)][sp.x := NewLeftFactor(b)][n := 0], {})
    ensures Height(RotR(Br(RotL(sp), g, sr))) == Height(Br(sp, g, sr)) - 1
  {
    var p, q := sp.x, sp.r;
    PlugApart(c, Br(sp, g, sr));
    assert B[p] == 1 && BalOK(sp.l, B, {}) && BalOK(q, B, {});
    var b := B[n];
    var B' := B[g := NewRightFactor(b)][p := NewLeftFactor(b)][n := 0];
    assert g !in CtxNodes(c) && p !in CtxNodes(c) && n !in CtxNodes(c);
    assert CtxBal(c, Height(sp), B);
    DoubleLeftLocal(sp, g, sr, B, B');
    PlugReplace(c, RotR(Br(RotL(sp), g, sr)), B, B', {});
    assert B[g := -2][g := NewRightFactor(b)][p := NewLeftFactor(b)][n := 0] == B';
  }

  /** The subtree part of InsertDoubleLeft, apart from the context. */
  lemma {:induction false} DoubleLeftLocal<V>(sp: Shape<V>, g: Node<V>, sr: Shape<V>, B: map<Node<V>, int>, B': map<Node<V>, int>)
    requires Distinct(Br(sp, g, sr)) && sp.Br? && sp.r.Br? && BalOK(sp, B, {}) && BalOK(sr, B, {})
    requires B[sp.x] == 1 && Height(sr) == Height(sp) - 2
    requires sp.r.x in B && var b, p, n := B[sp.r.x], sp.x, sp.r.x;
      B' == B[g := NewRightFactor(b)][p := NewLeftFactor(b)][n := 0]
    ensures BalOK(RotR(Br(RotL(sp), g, sr)), B', {}) && Height(RotR(Br(RotL(sp), g, sr))) == Height(sp)
  {
    var p, q, n := sp.x, sp.r, sp.r.x;
    assert Distinct(sp) && g !in Nodes(sp) && g !in Nodes(sr) && Nodes(sp) !! Nodes(sr);
    assert Distinct(q) && p !in Nodes(q) && p !in Nodes(sp.l) && Nodes(sp.l) !! Nodes(q);
    assert n !in Nodes(q.l) && n !in Nodes(q.r);
    assert BalOK(q, B, {}) && BalOK(q.l, B, {}) && BalOK(q.r, B, {});
    Rebuild(sp.l, p, q.l, n, q.r, g, sr, B, B', {});
  }

  /**
   * Two nodes over three AVL subtrees, the lower one on the right, each
   * factor set to the height difference it must have, make an AVL tree.
   */
  lemma {:induction false} RebuildLeanRight<V>(a: Shape<V>, p: Node<V>, b: Shape<V>, g: Node<V>, d: Shape<V>,
                                               B: map<Node<V>, int>, B': map<Node<V>, int>, S: set<Node<V>>)
    requires BalOK(a, B, S) && BalOK(b, B, S) && BalOK(d, B, S) && p != g && p !in S && g !in S
    requires p !in Nodes(a) && p !in Nodes(b) && p !in Nodes(d) && g !in Nodes(a) && g !in Nodes(b) && g !in Nodes(d)
    requires forall x :: x in B && x != p && x != g ==> x in B' && B'[x] == B[x]
    requires g in B' && B'[g] == Height(d) - Height(b) && -1 <= B'[g] <= 1
    requires p in B' && B'[p] == 1 + Max(Height(b), Height(d)) - Height(a) && -1 <= B'[p] <= 1
    ensures BalOK(Br(a, p, Br(b, g, d)), B', S)
  {
    BalKeep(a, B, B', S);
    BalKeep(b, B, B', S);
    BalKeep(d, B, B', S);
  }

  /** The mirror image of RebuildLeanRight: the lower node on the left. */
  lemma {:induction false} RebuildLeanLeft<V>(a: Shape<V>, g: Node<V>, b: Shape<V>, p: Node<V>, d: Shape<V>,
                                              B: map<Node<V>, int>, B': map<Node<V>, int>, S: set<Node<V>>)
    requires BalOK(a, B, S) && BalOK(b, B, S) && BalOK(d, B, S) && p != g && p !in S && g !in S
    requires p !in Nodes(a) && p !in Nodes(b) && p !in Nodes(d) && g !in Nodes(a) && g !in Nodes(b) && g !in Nodes(d)
    requires forall x :: x in B && x != p && x != g ==> x in B' && B'[x] == B[x]
    requires g in B' && B'[g] == Height(b) - Height(a) && -1 <= B'[g] <= 1
    requires p in B' && B'[p] == Height(d) - (1 + Max(Height(a), Height(b))) && -1 <= B'[p] <= 1
    ensures BalOK(Br(Br(a, g, b), p, d), B', S)
  {
    BalKeep(a, B, B', S);
    BalKeep(b, B, B', S);
    BalKeep(d, B, B', S);
  }

  /**
   * Three nodes p, n, g over four AVL subtrees, each factor set to the
   * height difference it must have, make an AVL tree with n on top.
   */
  lemma {:induction false} Rebuild<V>(a: Shape<V>, p: Node<V>, b: Shape<V>, n: Node<V>, c: Shape<V>, g: Node<V>, d: Shape<V>,
                                      B: map<Node<V>, int>, B': map<Node<V>, int>, S: set<Node<V>>)
    requires BalOK(a, B, S) && BalOK(b, B, S) && BalOK(c, B, S) && BalOK(d, B, S)
    requires p != n && n != g && p != g && p !in S && n !in S && g !in S
    requires {p, n, g} !! Nodes(a) && {p, n, g} !! Nodes(b) && {p, n, g} !! Nodes(c) && {p, n, g} !! Nodes(d)
    requires forall x :: x in B && x != p && x != n && x != g ==> x in B' && B'[x] == B[x]
    requires p in B' && B'[p] == Height(b) - Height(a) && -1 <= B'[p] <= 1
    requires g in B' && B'[g] == Height(d) - Height(c) && -1 <= B'[g] <= 1
    requires n in B' && B'[n] == Max(Height(c), Height(d)) - Max(Height(a), Height(b)) && -1 <= B'[n] <= 1
    ensures BalOK(Br(Br(a, p, b), n, Br(c, g, d)), B', S)
  {
    BalKeepOutside(a, p, n, g, B, B', S);
    BalKeepOutside(b, p, n, g, B, B', S);
    BalKeepOutside(c, p, n, g, B, B', S);
    BalKeepOutside(d, p, n, g, B, B', S);
  }

  /** A subtree none of whose nodes is p, n or g keeps its factors when only those three change. */
  lemma BalKeepOutside<V>(s: Shape<V>, p: Node<V>, n: Node<V>, g: Node<V>, B: map<Node<V>, int>, B': map<Node<V>, int>, S: set<Node<V>>)
    requires BalOK(s, B, S) && {p, n, g} !! Nodes(s)
    requires forall x :: x in B && x != p && x != n && x != g ==> x in B' && B'[x] == B[x]
    ensures BalOK(s, B', S)
  {
    BalKeep(s, B, B', S);
  }

  /** The mirror image of InsertAbsorbedLeft. */
  lemma {:induction false} InsertAbsorbedRight<V>(c: Ctx<V>, sl: Shape<V>, g: Node<V>, sp: Shape<V>, B: map<Node<V>, int>, n: Node<V>)
    requires Distinct(Plug(c, Br(sl, g, sp))) && Grown(InR(sl, g, c), sp, B, n) && B[g] + 1 == 0
    ensures BalOK(Plug(c, Br(sl, g, sp)), B[g := 0], {})
  {
    var B' := B[g := 0];
    PlugApart(c, Br(sl, g, sp));
    assert g !in Nodes(sp) && g !in Nodes(sl) && g !in CtxNodes(c);
    assert Height(sl) == Height(sp) && CtxBal(c, Height(Br(sl, g, sp)), B);
    BalKeep(sp, B, B', {});
    BalKeep(sl, B, B', {});
    PlugReplace(c, Br(sl, g, sp), B, B', {});
  }

  /** The mirror image of InsertGrewLeft. */
  lemma {:induction false} InsertGrewRight<V>(c: Ctx<V>, sl: Shape<V>, g: Node<V>, sp: Shape<V>, B: map<Node<V>, int>, n: Node<V>)
    requires Distinct(Plug(c, Br(sl, g, sp))) && Grown(InR(sl, g, c), sp, B, n) && B[g] + 1 == 1
    ensures Grown(c, Br(sl, g, sp), B[g := 1], sp.x)
  {
    var B' := B[g := 1];
    PlugApart(c, Br(sl, g, sp));
    assert g !in Nodes(sp) && g !in Nodes(sl) && g !in CtxNodes(c);
    assert Height(sl) == Height(sp) - 1 && CtxBal(c, Height(sp), B);
    BalKeep(sp, B, B', {});
    BalKeep(sl, B, B', {});
    CtxBalKeep(c, Height(sp), B, B');
  }

  /** Right-right case, the mirror image of InsertSingleLeft. */
  lemma {:induction false} InsertSingleRight<V>(c: Ctx<V>, sl: Shape<V>, g: Node<V>, sp: Shape<V>, B: map<Node<V>, int>, n: Node<V>)
    requires Distinct(Plug(c, Br(sl, g, sp))) && Grown(InR(sl, g, c), sp, B, n) && B[g] + 1 == 2
    requires n == RootOf(sp.r)
    ensures sp.Br? && BalOK(Plug(c, RotL(Br(sl, g, sp))), B[g := 2][g := 0][sp.x := 0], {})
    ensures Height(RotL(Br(sl, g, sp))) == Height(Br(sl, g, sp)) - 1
  {
    var p, B' := sp.x, B[g := 0][sp.x := 0];
    PlugApart(c, Br(sl, g, sp));
    assert g !in CtxNodes(c) && p !in CtxNodes(c);
    assert Distinct(sp) && sp.r.Br? && sp.r.x != RootOf(sp.l);
    assert B[p] == 1 && CtxBal(c, Height(sp), B);
    SingleRightLocal(sl, g, sp, B, B');
    PlugReplace(c, RotL(Br(sl, g, sp)), B, B', {});
    assert B[g := 2][g := 0][p := 0] == B';
  }

  /** The subtree part of InsertSingleRight, apart from the context. */
  lemma {:induction false} SingleRightLocal<V>(sl: Shape<V>, g: Node<V>, sp: Shape<V>, B: map<Node<V>, int>, B': map<Node<V>, int>)
    requires Distinct(Br(sl, g, sp)) && sp.Br? && BalOK(sp, B, {}) && BalOK(sl, B, {})
    requires B[sp.x] == 1 && Height(sl) == Height(sp) - 2 && B' == B[g := 0][sp.x := 0]
    ensures BalOK(RotL(Br(sl, g, sp)), B', {}) && Height(RotL(Br(sl, g, sp))) == Height(sp)
  {
    var p := sp.x;
    assert g !in Nodes(sp) && g !in Nodes(sl) && p !in Nodes(sp.l) && p !in Nodes(sp.r) && p != g;
    var ha: int, hb: int, hd: int := Height(sl), Height(sp.l), Height(sp.r);
    assert hb == hd - 1 && ha == hd - 1;
    RebuildLeanLeft(sl, g, sp.l, p, sp.r, B, B', {});
  }

  /**
   * Right-left case, the mirror image of InsertDoubleLeft: n's former
   * factor -1 gives (g, p) = (0, 1), 0 gives (0, 0), 1 gives (-1, 0).
   */
  lemma {:induction false} InsertDoubleRight<V>(c: Ctx<V>, sl: Shape<V>, g: Node<V>, sp: Shape<V>, B: map<Node<V>, int>, n: Node<V>)
    requires Distinct(Plug(c, Br(sl, g, sp))) && Grown(InR(sl, g, c), sp, B, n) && B[g] + 1 == 2
    requires n != RootOf(sp.r)
    ensures sp.Br? && sp.l.Br? && n == sp.l.x && n in B && -1 <= B[n] <= 1 && n != g && n != sp.x
    ensures var b := B[n];
      BalOK(Plug(c, RotL(Br(sl, g, RotR(sp)))),
            B[g := 2][g := NewLeftFactor(b)][sp.x := NewRightFactor(b)][n := 0], {})
    ensures Height(RotL(Br(sl, g, RotR(sp)))) == Height(Br(sl, g, sp)) - 1
  {
    var p, q := sp.x, sp.l;
    PlugApart(c, Br(sl, g, sp));
    assert B[p] == -1 && BalOK(sp.r, B, {}) && BalOK(q, B, {});
    var b := B[n];
    var B' := B[g := NewLeftFactor(b)][p := NewRightFactor(b)][n := 0];
    assert g !in CtxNodes(c) && p !in CtxNodes(c) && n !in CtxNodes(c);
    assert CtxBal(c, Height(sp), B);
    DoubleRightLocal(sl, g, sp, B, B');
    PlugReplace(c, RotL(Br(sl, g, RotR(sp))), B, B', {});
    assert B[g := 2][g := NewLeftFactor(b)][p := NewRightFactor(b)][n := 0] == B';
  }

  /** The subtree part of InsertDoubleRight, apart from the context. */
  lemma {:induction false} DoubleRightLocal<V>(sl: Shape<V>, g: Node<V>, sp: Shape<V>, B: map<Node<V>, int>, B': map<Node<V>, int>)
    requires Distinct(Br(sl, g, sp)) && sp.Br? && sp.l.Br? && BalOK(sp, B, {}) && BalOK(sl, B, {})
    requires B[sp.x] == -1 && Height(sl) == Height(sp) - 2
    requires sp.l.x in B && var b, p, n := B[sp.l.x], sp.x, sp.l.x;
      B' == B[g := NewLeftFactor(b)][p := NewRightFactor(b)][n := 0]
    ensures BalOK(RotL(Br(sl, g, RotR(sp))), B', {}) && Height(RotL(Br(sl, g, RotR(sp)))) == Height(sp)
  {
    var p, q, n := sp.x, sp.l, sp.l.x;
    assert Distinct(sp) && g !in Nodes(sp) && g !in Nodes(sl) && Nodes(sp) !! Nodes(sl);
    assert Distinct(q) && p !in Nodes(q) && p !in Nodes(sp.r) && Nodes(sp.r) !! Nodes(q);
    assert n !in Nodes(q.l) && n !in Nodes(q.r);
    assert BalOK(q, B, {}) && BalOK(q.l, B, {}) && BalOK(q.r, B, {});
    Rebuild(sl, g, q.l, n, q.r, p, sp.r, B, B', {});
  }

  // ---------------------------------------------------------------------
  // Removal

  /**
   * The subtree t at context c has become one lower than the factors of its
   * context expect: they still describe t's height before the removal. The
   * stale nodes S inside t are truly balanced but still carry the factor
   * they had before; they are brought up to date on the way back down.
   */
  ghost predicate Shrunk<V>(c: Ctx<V>, t: Shape<V>, B: map<Node<V>, int>, S: set<Node<V>>)
  {
    BalOK(t, B, S) && CtxBal(c, Height(t) + 1, B) && S !! CtxNodes(c)
  }

  /** The factors recorded for the nodes S are the same in B' as in B. */
  ghost predicate KeepsOn<V>(B: map<Node<V>, int>, B': map<Node<V>, int>, S: set<Node<V>>)
  {
    forall x :: x in S && x in B ==> x in B' && B'[x] == B[x]
  }

  /** Keeping the factors of S is transitive. */
  lemma KeepsOnChain<V>(B0: map<Node<V>, int>, B1: map<Node<V>, int>, B2: map<Node<V>, int>, S: set<Node<V>>)
    requires KeepsOn(B0, B1, S) && KeepsOn(B1, B2, S)
    ensures KeepsOn(B0, B2, S)
  {
  }

  /** A removal that leaves one node with both children present shrinks that node's place by one level. */
  lemma {:induction false} SpliceShrunk<V>(c: Ctx<V>, s: Shape<V>, B: map<Node<V>, int>)
    requires Distinct(Plug(c, s)) && BalOK(Plug(c, s), B, {}) && s.Br? && (s.l.Nil? || s.r.Nil?)
    ensures Shrunk(c, Remaining(s), B, {}) && InOrder(Remaining(s)) == InOrder(s.l) + InOrder(s.r)
  {
    PlugBal(c, s, B, {});
  }

  /** n's left subtree t shrank while n was balanced: n leans right and no height above changes. */
  lemma {:induction false} RemovedLeftLeans<V>(c: Ctx<V>, t: Shape<V>, n: Node<V>, r: Shape<V>, B: map<Node<V>, int>, S: set<Node<V>>)
    requires Distinct(Plug(c, Br(t, n, r))) && Shrunk(InL(c, n, r), t, B, S) && B[n] + 1 == 1
    ensures BalOK(Plug(c, Br(t, n, r)), B[n := 1], S)
  {
    var B' := B[n := 1];
    PlugApart(c, Br(t, n, r));
    assert n !in Nodes(t) && n !in Nodes(r) && n !in CtxNodes(c) && S !! Nodes(r);
    BalKeep(t, B, B', S);
    BalKeep(r, B, B', {});
    BalStale(r, B', {}, S);
    assert CtxBal(c, Height(Br(t, n, r)), B);
    PlugReplace(c, Br(t, n, r), B, B', S);
  }

  /**
   * n's left subtree t shrank while n leaned left: n becomes balanced, its
   * own subtree is one lower, and n joins the stale nodes until the caller
   * records its new factor.
   */
  lemma {:induction false} RemovedLeftLevels<V>(c: Ctx<V>, t: Shape<V>, n: Node<V>, r: Shape<V>, B: map<Node<V>, int>, S: set<Node<V>>)
    requires Distinct(Plug(c, Br(t, n, r))) && Shrunk(InL(c, n, r), t, B, S) && B[n] + 1 == 0
    ensures Shrunk(c, Br(t, n, r), B, S + {n})
  {
    PlugApart(c, Br(t, n, r));
    assert n !in Nodes(t) && n !in Nodes(r) && n !in CtxNodes(c) && S !! Nodes(r);
    BalStale(t, B, S, S + {n});
    BalStale(r, B, {}, S + {n});
    assert Height(Br(t, n, r)) + 1 == 1 + Max(Height(t) + 1, Height(r));
  }

  /**
   * n's left subtree t shrank while n leaned right, and n's right child
   * leans right too: one left rotation at n with both set to 0 restores the
   * AVL property; the rotated subtree is one lower than before the removal.
   */
  lemma {:induction false} RemovedLeftSingle<V>(c: Ctx<V>, t: Shape<V>, n: Node<V>, r: Shape<V>, B: map<Node<V>, int>, S: set<Node<V>>)
    requires Distinct(Plug(c, Br(t, n, r))) && Shrunk(InL(c, n, r), t, B, S) && B[n] + 1 == 2
    requires r.Br? && r.x in B && B[r.x] == 1
    ensures Shrunk(c, RotL(Br(t, n, r)), B[n := 0][r.x := 0], S)
  {
    var B' := B[n := 0][r.x := 0];
    PlugApart(c, Br(t, n, r));
    RemovedLeftRotated(t, n, r, B, B', S);
    assert Height(RotL(Br(t, n, r))) + 1 == 1 + Max(Height(t) + 1, Height(r));
    CtxBalKeep(c, Height(RotL(Br(t, n, r))) + 1, B, B');
  }

  /**
   * n's left subtree t shrank while n leaned right, and n's right child is
   * balanced: one left rotation at n, with n set to 1 and the risen child
   * to -1, restores the AVL property and keeps the subtree's height.
   */
  lemma {:induction false} RemovedLeftSingleStop<V>(c: Ctx<V>, t: Shape<V>, n: Node<V>, r: Shape<V>, B: map<Node<V>, int>, S: set<Node<V>>)
    requires Distinct(Plug(c, Br(t, n, r))) && Shrunk(InL(c, n, r), t, B, S) && B[n] + 1 == 2
    requires r.Br? && r.x in B && B[r.x] == 0
    ensures BalOK(Plug(c, RotL(Br(t, n, r))), B[n := 1][r.x := -1], S)
    ensures Height(RotL(Br(t, n, r))) == Height(Br(t, n, r))
  {
    var B' := B[n := 1][r.x := -1];
    PlugApart(c, Br(t, n, r));
    RemovedLeftRotated(t, n, r, B, B', S);
    assert Height(RotL(Br(t, n, r))) == 1 + Max(Height(t) + 1, Height(r));
    PlugReplace(c, RotL(Br(t, n, r)), B, B', S);
  }

  /** The subtree part of RemovedLeftSingle and RemovedLeftSingleStop. */
  lemma {:induction false} RemovedLeftRotated<V>(t: Shape<V>, n: Node<V>, r: Shape<V>, B: map<Node<V>, int>, B': map<Node<V>, int>, S: set<Node<V>>)
    requires Distinct(Br(t, n, r)) && r.Br? && BalOK(t, B, S) && BalOK(r, B, {}) && S !! Nodes(r) && n !in S
    requires Height(r) == Height(t) + 2 && r.x in B && (B[r.x] == 0 || B[r.x] == 1)
    requires B' == B[n := 1 - B[r.x]][r.x := B[r.x] - 1]
    ensures BalOK(RotL(Br(t, n, r)), B', S)
    ensures Height(RotL(Br(t, n, r))) == Height(t) + 3 - B[r.x]
  {
    assert n !in Nodes(t) && n !in Nodes(r) && r.x !in Nodes(t) && r.x !in Nodes(r.l) && r.x !in Nodes(r.r) && n != r.x;
    BalStale(r.l, B, {}, S);
    BalStale(r.r, B, {}, S);
    RebuildLeanLeft(t, n, r.l, r.x, r.r, B, B', S);
  }

  /**
   * n's left subtree t shrank while n leaned right, and n's right child
   * leans left: rotating right at the child and left at n lifts the child's
   * left child q to the top; n and the child are set from q's former factor
   * and q to 0, which restores the AVL property with the subtree one lower
   * than before the removal.
   */
  lemma {:induction false} RemovedLeftDouble<V>(c: Ctx<V>, t: Shape<V>, n: Node<V>, r: Shape<V>, B: map<Node<V>, int>, S: set<Node<V>>)
    requires Distinct(Plug(c, Br(t, n, r))) && Shrunk(InL(c, n, r), t, B, S) && B[n] + 1 == 2
    requires r.Br? && r.x in B && B[r.x] == -1
    ensures r.l.Br? && r.l.x in B && -1 <= B[r.l.x] <= 1
    ensures var b := B[r.l.x];
      Shrunk(c, RotL(Br(t, n, RotR(r))), B[n := NewLeftFactor(b)][r.x := NewRightFactor(b)][r.l.x := 0], S)
  {
    PlugApart(c, Br(t, n, r));
    assert BalOK(r, B, {}) && Height(r.l) == Height(t) + 1 && BalOK(r.l, B, {});
    var b := B[r.l.x];
    var B' := B[n := NewLeftFactor(b)][r.x := NewRightFactor(b)][r.l.x := 0];
    RemovedLeftDoubleLocal(t, n, r, B, B', S);
    assert Height(RotL(Br(t, n, RotR(r)))) + 1 == 1 + Max(Height(t) + 1, Height(r));
    CtxBalKeep(c, Height(RotL(Br(t, n, RotR(r)))) + 1, B, B');
  }

  /** The subtree part of RemovedLeftDouble. */
  lemma {:induction false} RemovedLeftDoubleLocal<V>(t: Shape<V>, n: Node<V>, r: Shape<V>, B: map<Node<V>, int>, B': map<Node<V>, int>, S: set<Node<V>>)
    requires Distinct(Br(t, n, r)) && r.Br? && r.l.Br? && BalOK(t, B, S) && BalOK(r, B, {}) && S !! Nodes(r) && n !in S
    requires Height(r) == Height(t) + 2 && B[r.x] == -1
    requires r.l.x in B && var b := B[r.l.x];
      B' == B[n := NewLeftFactor(b)][r.x := NewRightFactor(b)][r.l.x := 0]
    ensures BalOK(RotL(Br(t, n, RotR(r))), B', S) && Height(RotL(Br(t, n, RotR(r)))) == Height(t) + 2
  {
    var q := r.l;
    assert Distinct(r) && n !in Nodes(r) && n !in Nodes(t) && Nodes(r) !! Nodes(t);
    assert Distinct(q) && r.x !in Nodes(q) && r.x !in Nodes(r.r) && Nodes(r.r) !! Nodes(q);
    assert q.x !in Nodes(q.l) && q.x !in Nodes(q.r);
    assert BalOK(q.l, B, {}) && BalOK(q.r, B, {});
    BalStale(q.l, B, {}, S);
    BalStale(q.r, B, {}, S);
    BalStale(r.r, B, {}, S);
    Rebuild(t, n, q.l, q.x, q.r, r.x, r.r, B, B', S);
  }

  /** The subtree that c's innermost node roots once t is plugged in. */
  ghost function Up<V>(c: Ctx<V>, t: Shape<V>): (s: Shape<V>)
    requires !c.Top?
    ensures Plug(c.up, s) == Plug(c, t) && s.Br? && s.x == c.x
  {
    if c.InL? then Br(t, c.x, c.r) else Br(c.l, c.x, t)
  }

  /** RemovedLeftLevels or RemovedRightLevels, by the side t is on. */
  lemma RemovedLevels<V>(c: Ctx<V>, t: Shape<V>, B: map<Node<V>, int>, S: set<Node<V>>)
    requires Distinct(Plug(c, t)) && !c.Top? && Shrunk(c, t, B, S)
    requires c.InL? ==> B[c.x] + 1 == 0
    requires c.InR? ==> B[c.x] - 1 == 0
    ensures Shrunk(c.up, Up(c, t), B, S + {c.x}) && c.x !in S
  {
    if c.InL? {
      RemovedLeftLevels(c.up, t, c.x, c.r, B, S);
    } else {
      RemovedRightLevels(c.up, c.l, c.x, t, B, S);
    }
  }

  /** The mirror image of RemovedLeftLeans: n leans left. */
  lemma {:induction false} RemovedRightLeans<V>(c: Ctx<V>, l: Shape<V>, n: Node<V>, t: Shape<V>, B: map<Node<V>, int>, S: set<Node<V>>)
    requires Distinct(Plug(c, Br(l, n, t))) && Shrunk(InR(l, n, c), t, B, S) && B[n] - 1 == -1
    ensures BalOK(Plug(c, Br(l, n, t)), B[n := -1], S)
  {
    var B' := B[n := -1];
    PlugApart(c, Br(l, n, t));
    assert n !in Nodes(t) && n !in Nodes(l) && n !in CtxNodes(c) && S !! Nodes(l);
    BalKeep(t, B, B', S);
    BalKeep(l, B, B', {});
    BalStale(l, B', {}, S);
    assert CtxBal(c, Height(Br(l, n, t)), B);
    PlugReplace(c, Br(l, n, t), B, B', S);
  }

  /** The mirror image of RemovedLeftLevels. */
  lemma {:induction false} RemovedRightLevels<V>(c: Ctx<V>, l: Shape<V>, n: Node<V>, t: Shape<V>, B: map<Node<V>, int>, S: set<Node<V>>)
    requires Distinct(Plug(c, Br(l, n, t))) && Shrunk(InR(l, n, c), t, B, S) && B[n] - 1 == 0
    ensures Shrunk(c, Br(l, n, t), B, S + {n})
  {
    PlugApart(c, Br(l, n, t));
    assert n !in Nodes(t) && n !in Nodes(l) && n !in CtxNodes(c) && S !! Nodes(l);
    BalStale(t, B, S, S + {n});
    BalStale(l, B, {}, S + {n});
    assert Height(Br(l, n, t)) + 1 == 1 + Max(Height(l), Height(t) + 1);
  }

  /** The mirror image of RemovedLeftSingle: one right rotation at n. */
  lemma {:induction false} RemovedRightSingle<V>(c: Ctx<V>, l: Shape<V>, n: Node<V>, t: Shape<V>, B: map<Node<V>, int>, S: set<Node<V>>)
    requires Distinct(Plug(c, Br(l, n, t))) && Shrunk(InR(l, n, c), t, B, S) && B[n] - 1 == -2
    requires l.Br? && l.x in B && B[l.x] == -1
    ensures Shrunk(c, RotR(Br(l, n, t)), B[n := 0][l.x := 0], S)
  {
    var B' := B[n := 0][l.x := 0];
    PlugApart(c, Br(l, n, t));
    RemovedRightRotated(l, n, t, B, B', S);
    assert Height(RotR(Br(l, n, t))) + 1 == 1 + Max(Height(l), Height(t) + 1);
    CtxBalKeep(c, Height(RotR(Br(l, n, t))) + 1, B, B');
  }

  /** The mirror image of RemovedLeftSingleStop: n is set to -1 and the risen child to 1. */
  lemma {:induction false} RemovedRightSingleStop<V>(c: Ctx<V>, l: Shape<V>, n: Node<V>, t: Shape<V>, B: map<Node<V>, int>, S: set<Node<V>>)
    requires Distinct(Plug(c, Br(l, n, t))) && Shrunk(InR(l, n, c), t, B, S) && B[n] - 1 == -2
    requires l.Br? && l.x in B && B[l.x] == 0
    ensures BalOK(Plug(c, RotR(Br(l, n, t))), B[n := -1][l.x := 1], S)
    ensures Height(RotR(Br(l, n, t))) == Height(Br(l, n, t))
  {
    var B' := B[n := -1][l.x := 1];
    PlugApart(c, Br(l, n, t));
    RemovedRightRotated(l, n, t, B, B', S);
    assert Height(RotR(Br(l, n, t))) == 1 + Max(Height(l), Height(t) + 1);
    PlugReplace(c, RotR(Br(l, n, t)), B, B', S);
  }

  /** The subtree part of RemovedRightSingle and RemovedRightSingleStop. */
  lemma {:induction false} RemovedRightRotated<V>(l: Shape<V>, n: Node<V>, t: Shape<V>, B: map<Node<V>, int>, B': map<Node<V>, int>, S: set<Node<V>>)
    requires Distinct(Br(l, n, t)) && l.Br? && BalOK(t, B, S) && BalOK(l, B, {}) && S !! Nodes(l) && n !in S
    requires Height(l) == Height(t) + 2 && l.x in B && (B[l.x] == 0 || B[l.x] == -1)
    requires B' == B[n := -1 - B[l.x]][l.x := B[l.x] + 1]
    ensures BalOK(RotR(Br(l, n, t)), B', S)
    ensures Height(RotR(Br(l, n, t))) == Height(t) + 3 + B[l.x]
  {
    assert n !in Nodes(t) && n !in Nodes(l) && l.x !in Nodes(t) && l.x !in Nodes(l.l) && l.x !in Nodes(l.r) && n != l.x;
    BalStale(l.l, B, {}, S);
    BalStale(l.r, B, {}, S);
    RebuildLeanRight(l.l, l.x, l.r, n, t, B, B', S);
  }

  /** The mirror image of RemovedLeftDouble: the left child's right child q rises. */
  lemma {:induction false} RemovedRightDouble<V>(c: Ctx<V>, l: Shape<V>, n: Node<V>, t: Shape<V>, B: map<Node<V>, int>, S: set<Node<V>>)
    requires Distinct(Plug(c, Br(l, n, t))) && Shrunk(InR(l, n, c), t, B, S) && B[n] - 1 == -2
    requires l.Br? && l.x in B && B[l.x] == 1
    ensures l.r.Br? && l.r.x in B && -1 <= B[l.r.x] <= 1
    ensures var b := B[l.r.x];
      Shrunk(c, RotR(Br(RotL(l), n, t)), B[n := NewRightFactor(b)][l.x := NewLeftFactor(b)][l.r.x := 0], S)
  {
    PlugApart(c, Br(l, n, t));
    assert BalOK(l, B, {}) && Height(l.r) == Height(t) + 1 && BalOK(l.r, B, {});
    var b := B[l.r.x];
    var B' := B[n := NewRightFactor(b)][l.x := NewLeftFactor(b)][l.r.x := 0];
    RemovedRightDoubleLocal(l, n, t, B, B', S);
    assert Height(RotR(Br(RotL(l), n, t))) + 1 == 1 + Max(Height(l), Height(t) + 1);
    CtxBalKeep(c, Height(RotR(Br(RotL(l), n, t))) + 1, B, B');
  }

  /** The subtree part of RemovedRightDouble. */
  lemma {:induction false} RemovedRightDoubleLocal<V>(l: Shape<V>, n: Node<V>, t: Shape<V>, B: map<Node<V>, int>, B': map<Node<V>, int>, S: set<Node<V>>)
    requires Distinct(Br(l, n, t)) && l.Br? && l.r.Br? && BalOK(t, B, S) && BalOK(l, B, {}) && S !! Nodes(l) && n !in S
    requires Height(l) == Height(t) + 2 && B[l.x] == 1
    requires l.r.x in B && var b := B[l.r.x];
      B' == B[n := NewRightFactor(b)][l.x := NewLeftFactor(b)][l.r.x := 0]
    ensures BalOK(RotR(Br(RotL(l), n, t)), B', S) && Height(RotR(Br(RotL(l), n, t))) == Height(t) + 2
  {
    var q := l.r;
    assert Distinct(l) && n !in Nodes(l) && n !in Nodes(t) && Nodes(l) !! Nodes(t);
    assert Distinct(q) && l.x !in Nodes(q) && l.x !in Nodes(l.l) && Nodes(l.l) !! Nodes(q);
    assert q.x !in Nodes(q.l) && q.x !in Nodes(q.r);
    assert BalOK(q.l, B, {}) && BalOK(q.r, B, {});
    BalStale(q.l, B, {}, S);
    BalStale(q.r, B, {}, S);
    BalStale(l.l, B, {}, S);
    Rebuild(l.l, l.x, q.l, q.x, q.r, n, t, B, B', S);
  }
}
