// The AVL tree: a binary search tree of linked nodes whose balance factors
// are kept in -1..1 by rotations after every insertion and removal.
//
// The heap is tied to a ghost view: shape says which node sits where,
// links/bals/kv record every owned node's links, balance factor and
// (key, value) pair. The structural reasoning is done on those values by
// the lemmas of AvlShape and AvlBalance; the methods here follow the
// source statement by statement and only connect the heap to the view.

module AvlTreeHeap {
  import opened AvlNode
  import opened AvlShape
  import opened AvlBalance
  import opened AvlOrder
  import opened SortedEntries

  class AVLTree<V> {
    var root: Node?<V>
    ghost var shape: Shape<V>
    ghost var Repr: set<Node<V>>
    ghost var links: map<Node<V>, Link<V>>
    ghost var bals: map<Node<V>, int>
    ghost var kv: map<Node<V>, (int, V)>

    /** The owned nodes form exactly the ghost shape, rooted at root, as the link map records it. */
    ghost predicate Shaped()
      reads this`Repr, this`shape, this`root, this`links
    {
      Repr == Nodes(shape) && root == RootOf(shape) && Distinct(shape) && Linked(shape, null, links)
    }

    /** Every owned node's links and balance factor are the ones the ghost maps record. */
    ghost predicate Mirrored()
      reads this`Repr, this`links, this`bals, Repr`left, Repr`right, Repr`parent, Repr`balance
    {
      forall x :: x in Repr ==>
        x in links && links[x] == Link(x.left, x.right, x.parent) && x in bals && bals[x] == x.balance
    }

    /** Every owned node's key and value are the pair kv records. */
    ghost predicate Stored()
      reads this`Repr, this`kv, Repr`key, Repr`value
    {
      forall x :: x in Repr ==> x in kv && kv[x] == (x.key, x.value)
    }

    /** The in-order (key, value) sequence. */
    ghost function Elements(): seq<(int, V)>
      reads this`Repr, this`shape, this`kv
      requires Repr == Nodes(shape) && forall x :: x in Repr ==> x in kv
    {
      InOrderNodes(shape);
      EntriesOf(InOrder(shape), kv)
    }

    /** The map from keys to values that the tree stores. */
    ghost function Contents(): map<int, V>
      reads this`Repr, this`shape, this`kv
      requires Repr == Nodes(shape) && forall x :: x in Repr ==> x in kv
    {
      ToMap(Elements())
    }

    /**
     * A well-formed AVL tree: parent and child links agree, keys strictly
     * increase in order, and every balance factor is height(right) -
     * height(left) and lies in -1..1.
     */
    ghost predicate Valid()
      reads this, Repr
    {
      Shaped() && Mirrored() && Stored() && Increasing(InOrder(shape), kv) && BalOK(shape, bals, {})
    }

    /** The in-order entries of a valid tree are sorted by key. */
    lemma ElementsSorted()
      requires Valid()
      ensures Sorted(Elements())
    {
      InOrderNodes(shape);
      IncreasingSorted(InOrder(shape), kv);
    }

    /** An empty tree. */
    constructor ()
      ensures Valid() && Contents() == map[] && Repr == {}
    {
      root := null;
      shape := Nil;
      Repr := {};
      links := map[];
      bals := map[];
      kv := map[];
    }

    /**
     * The link surgery of a left rotation at curr: its right child takes
     * curr's place under curr's parent P (or becomes the root), curr becomes
     * that child's left child, and the child's former left subtree b becomes
     * curr's right subtree. Exactly the links of curr, the child, b and P change.
     */
    method RelinkLeft(curr: Node<V>, ghost child: Node<V>, ghost b: Node?<V>, ghost P: Node?<V>)
      requires curr.right == child && child.left == b && curr.parent == P
      requires child != curr && b != curr && b != child && P != curr && P != child && (P != null ==> P != b)
      requires P != null ==> P.left == curr || P.right == curr
      modifies this`root, {curr, child, b, P}`left, {curr, child, b, P}`right, {curr, child, b, P}`parent
      ensures child.left == curr && child.right == old(child.right) && child.parent == P
      ensures curr.left == old(curr.left) && curr.right == b && curr.parent == child
      ensures b != null ==> b.left == old(b.left) && b.right == old(b.right) && b.parent == curr
      ensures P == null ==> root == child
      ensures P != null ==>
                root == old(root) && P.parent == old(P.parent)
                && if old(P.left) == curr then P.left == child && P.right == old(P.right)
                   else P.left == old(P.left) && P.right == child
    {
      var child := curr.right;
      if curr.parent != null {
        var parent := curr.parent;
        if curr == parent.left {
          parent.left := child;
          child.parent := parent;
        } else if curr == parent.right {
          parent.right := child;
          child.parent := parent;
        }
      } else {
        child.parent := null;
        root := child;
      }
      if child.left != null {
        var newChild := child.left;
        curr.right := newChild;
        newChild.parent := curr;
      } else {
        curr.right := null;
      }
      child.left := curr;
      curr.parent := child;
    }

    /** The link surgery of a left rotation, recorded in the link map, which becomes M'. */
    method RelinkLeftMirrored(curr: Node<V>, ghost child: Node<V>, ghost b: Node?<V>, ghost P: Node?<V>,
                              ghost M': map<Node<V>, Link<V>>)
      requires Mirrored() && RelinkedL(links, M', Repr, curr, child, b, P)
      modifies this`root, this`links, Repr`left, Repr`right, Repr`parent
      ensures Mirrored() && links == M' && bals == old(bals)
      ensures root == if P == null then child else old(root)
    {
      RelinkLeft(curr, child, b, P);
      links := M';
    }

    /**
     * Rotation to the left at curr, whose subtree is s in context c: the
     * shape becomes RotL(s) in the same context; balance factors, keys and
     * values are untouched.
     */
    method RotateLeft(curr: Node<V>, ghost c: Ctx<V>, ghost s: Shape<V>)
      requires Shaped() && Mirrored()
      requires s.Br? && s.x == curr && s.r.Br? && shape == Plug(c, s)
      modifies this`root, this`shape, this`links, Repr`left, Repr`right, Repr`parent
      ensures Shaped() && Mirrored()
      ensures shape == Plug(c, RotL(s)) && InOrder(shape) == old(InOrder(shape))
      ensures bals == old(bals) && Repr == old(Repr)
    {
      RotLState(c, s, links, Repr);
      RelinkLeftMirrored(curr, s.r.x, RootOf(s.r.l), Parent(c), RotLLinks(c, s, links));
      shape := Plug(c, RotL(s));
    }

    /**
     * The link surgery of a right rotation at curr: its left child takes
     * curr's place under curr's parent P (or becomes the root), curr becomes
     * that child's right child, and the child's former right subtree b
     * becomes curr's left subtree. Exactly the links of curr, the child, b
     * and P change.
     */
    method RelinkRight(curr: Node<V>, ghost child: Node<V>, ghost b: Node?<V>, ghost P: Node?<V>)
      requires curr.left == child && child.right == b && curr.parent == P
      requires child != curr && b != curr && b != child && P != curr && P != child && (P != null ==> P != b)
      requires P != null ==> P.left == curr || P.right == curr
      modifies this`root, {curr, child, b, P}`left, {curr, child, b, P}`right, {curr, child, b, P}`parent
      ensures child.right == curr && child.left == old(child.left) && child.parent == P
      ensures curr.right == old(curr.right) && curr.left == b && curr.parent == child
      ensures b != null ==> b.left == old(b.left) && b.right == old(b.right) && b.parent == curr
      ensures P == null ==> root == child
      ensures P != null ==>
                root == old(root) && P.parent == old(P.parent)
                && if old(P.right) == curr then P.right == child && P.left == old(P.left)
                   else P.right == old(P.right) && P.left == child
    {
      var child := curr.left;
      if curr.parent != null {
        var parent := curr.parent;
        if curr == parent.right {
          parent.right := child;
          child.parent := parent;
        } else if curr == parent.left {
          parent.left := child;
          child.parent := parent;
        }
      } else {
        child.parent := null;
        root := child;
      }
      if child.right != null {
        var newChild := child.right;
        curr.left := newChild;
        newChild.parent := curr;
      } else {
        curr.left := null;
      }
      child.right := curr;
      curr.parent := child;
    }

    /** The link surgery of a right rotation, recorded in the link map, which becomes M'. */
    method RelinkRightMirrored(curr: Node<V>, ghost child: Node<V>, ghost b: Node?<V>, ghost P: Node?<V>,
                               ghost M': map<Node<V>, Link<V>>)
      requires Mirrored() && RelinkedR(links, M', Repr, curr, child, b, P)
      modifies this`root, this`links, Repr`left, Repr`right, Repr`parent
      ensures Mirrored() && links == M' && bals == old(bals)
      ensures root == if P == null then child else old(root)
    {
      RelinkRight(curr, child, b, P);
      links := M';
    }

    /** Rotation to the right at curr: the mirror image of RotateLeft. */
    method RotateRight(curr: Node<V>, ghost c: Ctx<V>, ghost s: Shape<V>)
      requires Shaped() && Mirrored()
      requires s.Br? && s.x == curr && s.l.Br? && shape == Plug(c, s)
      modifies this`root, this`shape, this`links, Repr`left, Repr`right, Repr`parent
      ensures Shaped() && Mirrored()
      ensures shape == Plug(c, RotR(s)) && InOrder(shape) == old(InOrder(shape))
      ensures bals == old(bals) && Repr == old(Repr)
    {
      RotRState(c, s, links, Repr);
      RelinkRightMirrored(curr, s.l.x, RootOf(s.l.r), Parent(c), RotRLinks(c, s, links));
      shape := Plug(c, RotR(s));
    }

    /** Sets x's balance factor (setBalance), keeping the recorded factors in step. */
    method SetBal(x: Node<V>, b: int)
      requires Mirrored() && x in Repr
      modifies x`balance, this`bals
      ensures Mirrored() && bals == old(bals)[x := b]
    {
      x.SetBalance(b);
      bals := bals[x := b];
    }

    /** Adds d to x's balance factor (updateBalance), keeping the recorded factors in step. */
    method UpdBal(x: Node<V>, d: int)
      requires Mirrored() && x in Repr
      modifies x`balance, this`bals
      ensures Mirrored() && bals == old(bals)[x := old(bals)[x] + d]
    {
      x.UpdateBalance(d);
      bals := bals[x := bals[x] + d];
    }

    /** A left rotation at p, g's left child, followed by a right rotation at g. */
    method RotateLeftRight(p: Node<V>, g: Node<V>, ghost c: Ctx<V>, ghost sp: Shape<V>, ghost sr: Shape<V>)
      requires Shaped() && Mirrored()
      requires sp.Br? && sp.x == p && sp.r.Br? && shape == Plug(c, Br(sp, g, sr))
      modifies this`root, this`shape, this`links, Repr`left, Repr`right, Repr`parent
      ensures Shaped() && Mirrored()
      ensures shape == Plug(c, RotR(Br(RotL(sp), g, sr))) && InOrder(shape) == old(InOrder(shape))
    {
      RotateLeft(p, InL(c, g, sr), sp);
      RotateRight(g, c, Br(RotL(sp), g, sr));
    }

    /** A right rotation at p, g's right child, followed by a left rotation at g. */
    method RotateRightLeft(p: Node<V>, g: Node<V>, ghost c: Ctx<V>, ghost sl: Shape<V>, ghost sp: Shape<V>)
      requires Shaped() && Mirrored()
      requires sp.Br? && sp.x == p && sp.l.Br? && shape == Plug(c, Br(sl, g, sp))
      modifies this`root, this`shape, this`links, Repr`left, Repr`right, Repr`parent
      ensures Shaped() && Mirrored()
      ensures shape == Plug(c, RotL(Br(sl, g, RotR(sp)))) && InOrder(shape) == old(InOrder(shape))
    {
      RotateRight(p, InR(sl, g, c), sp);
      RotateLeft(g, c, Br(sl, g, RotR(sp)));
    }

    /** Sets both g's and p's factors to 0, as after a single rotation. */
    method Level(g: Node<V>, p: Node<V>)
      requires Shaped() && Mirrored() && g in Repr && p in Repr
      modifies g`balance, p`balance, this`bals
      ensures Shaped() && Mirrored() && bals == old(bals)[g := 0][p := 0]
    {
      SetBal(g, 0);
      SetBal(p, 0);
    }

    /**
     * The factors after a left-right double rotation that lifted n above p
     * (left) and g (right), from n's former factor b.
     */
    method RefactorLeftRight(g: Node<V>, p: Node<V>, n: Node<V>, b: int)
      requires Shaped() && Mirrored() && g in Repr && p in Repr && n in Repr
      modifies g`balance, p`balance, n`balance, this`bals
      ensures Shaped() && Mirrored()
      ensures -1 <= b <= 1 ==> bals == old(bals)[g := NewRightFactor(b)][p := NewLeftFactor(b)][n := 0]
    {
      if b == -1 {
        SetBal(g, 1);
        SetBal(p, 0);
      } else if b == 0 {
        SetBal(g, 0);
        SetBal(p, 0);
      } else if b == 1 {
        SetBal(g, 0);
        SetBal(p, -1);
      }
      SetBal(n, 0);
    }

    /** The mirror image of RefactorLeftRight, after a right-left double rotation. */
    method RefactorRightLeft(g: Node<V>, p: Node<V>, n: Node<V>, b: int)
      requires Shaped() && Mirrored() && g in Repr && p in Repr && n in Repr
      modifies g`balance, p`balance, n`balance, this`bals
      ensures Shaped() && Mirrored()
      ensures -1 <= b <= 1 ==> bals == old(bals)[g := NewLeftFactor(b)][p := NewRightFactor(b)][n := 0]
    {
      if b == -1 {
        SetBal(g, 0);
        SetBal(p, 1);
      } else if b == 0 {
        SetBal(g, 0);
        SetBal(p, 0);
      } else if b == 1 {
        SetBal(g, -1);
        SetBal(p, 0);
      }
      SetBal(n, 0);
    }

    /** A right rotation at n, after which n's factor is set to bn and its risen left child's to bl. */
    method RotateRightSet(n: Node<V>, left: Node<V>, bn: int, bl: int, ghost c: Ctx<V>, ghost s: Shape<V>)
      requires Shaped() && Mirrored()
      requires s.Br? && s.x == n && s.l.Br? && s.l.x == left && shape == Plug(c, s)
      modifies this`root, this`shape, this`links, this`bals, Repr`left, Repr`right, Repr`parent, Repr`balance
      ensures Shaped() && Mirrored() && shape == Plug(c, RotR(s)) && InOrder(shape) == old(InOrder(shape))
      ensures bals == old(bals)[n := bn][left := bl]
    {
      PlugNodes(c, s);
      RotateRight(n, c, s);
      SetBal(n, bn);
      SetBal(left, bl);
    }

    /** A left rotation at n, after which n's factor is set to bn and its risen right child's to br. */
    method RotateLeftSet(n: Node<V>, right: Node<V>, bn: int, br: int, ghost c: Ctx<V>, ghost s: Shape<V>)
      requires Shaped() && Mirrored()
      requires s.Br? && s.x == n && s.r.Br? && s.r.x == right && shape == Plug(c, s)
      modifies this`root, this`shape, this`links, this`bals, Repr`left, Repr`right, Repr`parent, Repr`balance
      ensures Shaped() && Mirrored() && shape == Plug(c, RotL(s)) && InOrder(shape) == old(InOrder(shape))
      ensures bals == old(bals)[n := bn][right := br]
    {
      PlugNodes(c, s);
      RotateLeft(n, c, s);
      SetBal(n, bn);
      SetBal(right, br);
    }

    /**
     * removeMe's double rotation on the left: rotate left at left and then
     * right at n, reading the factor of left's right child in between, and
     * set n, left and that child from it.
     */
    method RotateLeftRightSet(n: Node<V>, left: Node<V>, ghost c: Ctx<V>, ghost l: Shape<V>, ghost t: Shape<V>)
      requires Shaped() && Mirrored()
      requires l.Br? && l.x == left && l.r.Br? && shape == Plug(c, Br(l, n, t))
      requires l.r.x in bals && -1 <= bals[l.r.x] <= 1
      modifies this`root, this`shape, this`links, this`bals, Repr`left, Repr`right, Repr`parent, Repr`balance
      ensures Shaped() && Mirrored() && shape == Plug(c, RotR(Br(RotL(l), n, t))) && InOrder(shape) == old(InOrder(shape))
      ensures var b := old(bals)[l.r.x];
        bals == old(bals)[n := NewRightFactor(b)][left := NewLeftFactor(b)][l.r.x := 0]
    {
      PlugNodes(c, Br(l, n, t));
      ChildSide(InL(c, n, t), l, links);
      assert left in Repr && l.r.x in Nodes(l.r) && n in Repr;
      var leftright := left.right;
      assert leftright == l.r.x && leftright in Repr;
      RotateLeft(left, InL(c, n, t), l);
      var rightBalance := leftright.balance;
      RotateRight(n, c, Br(RotL(l), n, t));
      RefactorLeftRight(n, left, leftright, rightBalance);
    }

    /** The mirror image of RotateLeftRightSet: right's left child rises. */
    method RotateRightLeftSet(n: Node<V>, right: Node<V>, ghost c: Ctx<V>, ghost t: Shape<V>, ghost r: Shape<V>)
      requires Shaped() && Mirrored()
      requires r.Br? && r.x == right && r.l.Br? && shape == Plug(c, Br(t, n, r))
      requires r.l.x in bals && -1 <= bals[r.l.x] <= 1
      modifies this`root, this`shape, this`links, this`bals, Repr`left, Repr`right, Repr`parent, Repr`balance
      ensures Shaped() && Mirrored() && shape == Plug(c, RotL(Br(t, n, RotR(r)))) && InOrder(shape) == old(InOrder(shape))
      ensures var b := old(bals)[r.l.x];
        bals == old(bals)[n := NewLeftFactor(b)][right := NewRightFactor(b)][r.l.x := 0]
    {
      PlugNodes(c, Br(t, n, r));
      ChildSide(InR(t, n, c), r, links);
      assert right in Repr && r.l.x in Nodes(r.l) && n in Repr;
      var rightleft := right.left;
      assert rightleft == r.l.x && rightleft in Repr;
      RotateRight(right, InR(t, n, c), r);
      var leftBalance := rightleft.balance;
      RotateLeft(n, c, Br(t, n, RotR(r)));
      RefactorRightLeft(n, right, rightleft, leftBalance);
    }

    // -------------------------------------------------------------------
    // Search

    /**
     * Searches from the root for key k, as internalFind does: the result is
     * the node holding k, or null exactly when k is absent. c and s record
     * where the search stopped; k fits there.
     */
    method Find(k: int) returns (x: Node?<V>, ghost c: Ctx<V>, ghost s: Shape<V>)
      requires Valid()
      ensures shape == Plug(c, s) && x == RootOf(s) && Fits(c, kv, k)
      ensures x == null <==> k !in Contents()
      ensures x != null ==> x in Repr && x.key == k && Contents()[k] == x.value && root != null
      ensures x == null ==> forall y :: y in Repr ==> y.key != k
    {
      IncreasingOrdered(shape, kv);
      x, c, s := root, Top, shape;
      while x != null && x.key != k
        invariant shape == Plug(c, s) && x == RootOf(s) && Fits(c, kv, k) && Ordered(s, kv)
        invariant Linked(s, Parent(c), links) && Nodes(s) <= Repr
        decreases s
      {
        if k < x.key {
          c, s, x := InL(c, x, s.r), s.l, x.left;
        } else {
          c, s, x := InR(s.l, x, c), s.r, x.right;
        }
      }
      if x == null {
        AbsentKey(c, kv, k);
        FitsAvoids(c, kv, k);
        PlugNodes(c, s);
      } else {
        InOrderNodes(shape);
        PresentKey(InOrder(shape), kv, x);
      }
    }

    // -------------------------------------------------------------------
    // Insertion

    /**
     * Inserts key k with value v (insert): a present key only gets the new
     * value, leaving the shape and every balance factor as they were; an
     * empty tree gets a single balanced root; otherwise a new leaf is
     * attached where k fits and the tree rebalanced.
     */
    method Insert(k: int, v: V)
      requires Valid()
      modifies this, Repr
      ensures Valid() && Contents() == old(Contents())[k := v]
      ensures fresh(Repr - old(Repr))
      ensures k in old(Contents()) ==> Repr == old(Repr) && shape == old(shape) && bals == old(bals)
      ensures k !in old(Contents()) ==> exists n :: n !in old(Repr) && Repr == old(Repr) + {n}
      ensures old(root) == null ==>
                root != null && root.key == k && root.value == v && root.balance == 0
                && root.left == null && root.right == null && Repr == {root}
    {
      var searchKey, c, s := Find(k);
      if searchKey != null {
        Revalue(searchKey, v);
        return;
      }
      InsertAbsent(k, v);
    }

    /** The part of insert after the search has not found k: a new node holding k and v is added. */
    method InsertAbsent(k: int, v: V)
      requires Valid() && forall y :: y in Repr ==> y.key != k
      modifies this, Repr
      ensures Valid() && Contents() == old(Contents())[k := v]
      ensures fresh(Repr - old(Repr))
      ensures exists n :: n !in old(Repr) && Repr == old(Repr) + {n}
      ensures old(root) == null ==>
                root != null && root.key == k && root.value == v && root.balance == 0
                && root.left == null && root.right == null && Repr == {root}
    {
      var curr := new Node(k, v, null);
      if root == null {
        assert Repr == {};
        InsertFirst(curr);
        assert Repr == old(Repr) + {curr};
        return;
      }
      InsertNew(curr);
      assert Repr == old(Repr) + {curr};
    }

    /** Gives the node x a new value (setValue): only x's key now maps to v. */
    method Revalue(x: Node<V>, v: V)
      requires Valid() && x in Repr
      modifies x`value, this`kv
      ensures Valid() && Contents() == old(Contents())[x.key := v]
    {
      InOrderNodes(shape);
      UpdateValue(InOrder(shape), kv, x, v);
      StoreValue(x, v);
    }

    /** x's value becomes v (setValue), and kv records it. */
    method StoreValue(x: Node<V>, v: V)
      requires Stored() && x in Repr
      modifies x`value, this`kv
      ensures Stored() && kv == old(kv)[x := (old(kv)[x].0, v)]
    {
      kv := kv[x := (x.key, v)];
      x.SetValue(v);
    }

    /** Makes curr the root of an empty tree, with balance 0. */
    method InsertFirst(curr: Node<V>)
      requires Valid() && root == null && curr.left == null && curr.right == null && curr.parent == null
      modifies this, curr`balance
      ensures Valid() && Repr == {curr} && root == curr && curr.balance == 0
      ensures Contents() == old(Contents())[curr.key := curr.value]
    {
      root := curr;
      curr.SetBalance(0);
      ghost var e := (curr.key, curr.value);
      shape := Br(Nil, curr, Nil);
      Repr := {curr};
      links := map[curr := Link(null, null, curr.parent)];
      bals := map[curr := 0];
      kv := map[];
      kv := kv[curr := e];
      assert InOrder(shape) == [curr] && Elements() == [e] && [e][..0] == [];
    }

    /**
     * Descends from the root to the node under which the new node curr
     * belongs and attaches it there as a leaf.
     */
    method InsertNew(curr: Node<V>)
      requires Valid() && root != null && curr !in Repr
      requires curr.left == null && curr.right == null
      requires forall y :: y in Repr ==> y.key != curr.key
      modifies this, Repr, curr`left, curr`right, curr`parent, curr`balance
      ensures Valid() && Repr == old(Repr) + {curr}
      ensures Contents() == old(Contents())[curr.key := curr.value]
    {
      IncreasingOrdered(shape, kv);
      var loc := root;
      ghost var c: Ctx<V> := Top;
      ghost var s := shape;
      while loc != null
        invariant s.Br? && loc == s.x && shape == Plug(c, s) && Fits(c, kv, curr.key) && Ordered(s, kv)
        invariant Linked(s, Parent(c), links) && Nodes(s) <= Repr
        decreases s
      {
        if curr.key < loc.key {
          if loc.left == null {
            break;
          }
          c, s, loc := InL(c, loc, s.r), s.l, loc.left;
        } else if curr.key > loc.key {
          if loc.right == null {
            break;
          }
          c, s, loc := InR(s.l, loc, c), s.r, loc.right;
        }
      }
      if curr.key < loc.key {
        AttachLeft(loc, curr, c, s.r);
      } else {
        AttachRight(loc, curr, c, s.l);
      }
    }

    /** Hangs curr under loc as its left child (setParent, setLeft) with balance 0. */
    method HangLeft(loc: Node<V>, curr: Node<V>)
      requires curr != loc
      modifies loc`left, curr`parent, curr`balance
      ensures loc.left == curr && curr.parent == loc && curr.balance == 0
    {
      curr.parent := loc;
      loc.left := curr;
      curr.SetBalance(0);
    }

    /** Hangs curr under loc as its right child (setParent, setRight) with balance 0. */
    method HangRight(loc: Node<V>, curr: Node<V>)
      requires curr != loc
      modifies loc`right, curr`parent, curr`balance
      ensures loc.right == curr && curr.parent == loc && curr.balance == 0
    {
      curr.parent := loc;
      loc.right := curr;
      curr.SetBalance(0);
    }

    /** Takes the new node curr into the ghost view, with its links, factor and entry as they stand, and sets the shape to S. */
    ghost method Adopt(curr: Node<V>, S: Shape<V>)
      requires Mirrored() && Stored() && curr !in Repr
      modifies this`shape, this`Repr, this`links, this`bals, this`kv
      ensures Mirrored() && Stored() && Repr == old(Repr) + {curr} && shape == S
      ensures links == old(links)[curr := Link(curr.left, curr.right, curr.parent)]
      ensures bals == old(bals)[curr := curr.balance] && kv == old(kv)[curr := (curr.key, curr.value)]
    {
      links := links[curr := Link(curr.left, curr.right, curr.parent)];
      bals := bals[curr := curr.balance];
      kv := kv[curr := (curr.key, curr.value)];
      Repr := Repr + {curr};
      shape := S;
    }

    /** HangLeft, recorded in the ghost maps. */
    method HangLeftMirrored(loc: Node<V>, curr: Node<V>)
      requires Mirrored() && Stored() && loc in Repr && curr in Repr && curr != loc && curr.left == null && curr.right == null
      modifies this`links, this`bals, loc`left, curr`parent, curr`balance
      ensures Mirrored() && Stored() && links == AttachLeftLinks(old(links), loc, curr) && bals == old(bals)[curr := 0]
    {
      HangLeft(loc, curr);
      links := AttachLeftLinks(links, loc, curr);
      bals := bals[curr := 0];
    }

    /** HangRight, recorded in the ghost maps. */
    method HangRightMirrored(loc: Node<V>, curr: Node<V>)
      requires Mirrored() && Stored() && loc in Repr && curr in Repr && curr != loc && curr.left == null && curr.right == null
      modifies this`links, this`bals, loc`right, curr`parent, curr`balance
      ensures Mirrored() && Stored() && links == AttachRightLinks(old(links), loc, curr) && bals == old(bals)[curr := 0]
    {
      HangRight(loc, curr);
      links := AttachRightLinks(links, loc, curr);
      bals := bals[curr := 0];
    }

    /** HangLeft, with the new node curr taken into the ghost maps. */
    method HangLeftRecorded(loc: Node<V>, curr: Node<V>, ghost S: Shape<V>)
      requires Mirrored() && Stored() && loc in Repr && curr !in Repr && curr.left == null && curr.right == null
      modifies this`shape, this`Repr, this`links, this`bals, this`kv, loc`left, curr`parent, curr`balance
      ensures Mirrored() && Stored() && Repr == old(Repr) + {curr} && shape == S
      ensures loc in old(links) && links == AttachLeftLinks(old(links), loc, curr)
      ensures bals == old(bals)[curr := 0] && kv == old(kv)[curr := (curr.key, curr.value)]
      ensures curr.key == old(curr.key) && curr.value == old(curr.value)
    {
      ghost var M, B := links, bals;
      Adopt(curr, S);
      assert AttachLeftLinks(links, loc, curr) == AttachLeftLinks(M, loc, curr);
      assert bals[curr := 0] == B[curr := 0];
      HangLeftMirrored(loc, curr);
    }

    /**
     * The new leaf curr under loc, on the left, where its key fits: the
     * whole ghost view takes it in and the tree now also maps curr's key to
     * curr's value.
     */
    method LinkLeft(loc: Node<V>, curr: Node<V>, ghost c: Ctx<V>, ghost r: Shape<V>)
      requires Shaped() && Mirrored() && Stored() && shape == Plug(c, Br(Nil, loc, r))
      requires Increasing(InOrder(shape), kv) && Fits(InL(c, loc, r), kv, curr.key)
      requires curr !in Repr && curr.left == null && curr.right == null
      modifies this`shape, this`Repr, this`links, this`bals, this`kv, loc`left, curr`parent, curr`balance
      ensures Shaped() && Mirrored() && Stored() && Increasing(InOrder(shape), kv)
      ensures shape == Plug(c, Br(Leaf(curr), loc, r)) && Repr == old(Repr) + {curr} && bals == old(bals)[curr := 0]
      ensures Contents() == old(Contents())[curr.key := curr.value]
    {
      PlugNodes(c, Br(Nil, loc, r));
      InsertLeaf(InL(c, loc, r), kv, curr, curr.key, curr.value);
      AttachLeftLinked(c, loc, r, links, curr);
      HangLeftRecorded(loc, curr, Plug(c, Br(Leaf(curr), loc, r)));
      assert Plug(InL(c, loc, r), Leaf(curr)) == shape;
    }

    /** HangRight, with the new node curr taken into the ghost maps. */
    method HangRightRecorded(loc: Node<V>, curr: Node<V>, ghost S: Shape<V>)
      requires Mirrored() && Stored() && loc in Repr && curr !in Repr && curr.left == null && curr.right == null
      modifies this`shape, this`Repr, this`links, this`bals, this`kv, loc`right, curr`parent, curr`balance
      ensures Mirrored() && Stored() && Repr == old(Repr) + {curr} && shape == S
      ensures loc in old(links) && links == AttachRightLinks(old(links), loc, curr)
      ensures bals == old(bals)[curr := 0] && kv == old(kv)[curr := (curr.key, curr.value)]
      ensures curr.key == old(curr.key) && curr.value == old(curr.value)
    {
      ghost var M, B := links, bals;
      Adopt(curr, S);
      assert AttachRightLinks(links, loc, curr) == AttachRightLinks(M, loc, curr);
      assert bals[curr := 0] == B[curr := 0];
      HangRightMirrored(loc, curr);
    }

    /**
     * The new leaf curr under loc, on the right, where its key fits: the
     * whole ghost view takes it in and the tree now also maps curr's key to
     * curr's value.
     */
    method LinkRight(loc: Node<V>, curr: Node<V>, ghost c: Ctx<V>, ghost l: Shape<V>)
      requires Shaped() && Mirrored() && Stored() && shape == Plug(c, Br(l, loc, Nil))
      requires Increasing(InOrder(shape), kv) && Fits(InR(l, loc, c), kv, curr.key)
      requires curr !in Repr && curr.left == null && curr.right == null
      modifies this`shape, this`Repr, this`links, this`bals, this`kv, loc`right, curr`parent, curr`balance
      ensures Shaped() && Mirrored() && Stored() && Increasing(InOrder(shape), kv)
      ensures shape == Plug(c, Br(l, loc, Leaf(curr))) && Repr == old(Repr) + {curr} && bals == old(bals)[curr := 0]
      ensures Contents() == old(Contents())[curr.key := curr.value]
    {
      PlugNodes(c, Br(l, loc, Nil));
      InsertLeaf(InR(l, loc, c), kv, curr, curr.key, curr.value);
      AttachRightLinked(c, l, loc, links, curr);
      HangRightRecorded(loc, curr, Plug(c, Br(l, loc, Leaf(curr))));
      assert Plug(InR(l, loc, c), Leaf(curr)) == shape;
    }

    /**
     * Attaches curr as the left child of loc, whose left subtree is empty
     * and where curr's key fits, and restores the balance.
     */
    method AttachLeft(loc: Node<V>, curr: Node<V>, ghost c: Ctx<V>, ghost r: Shape<V>)
      requires Valid() && shape == Plug(c, Br(Nil, loc, r)) && Fits(InL(c, loc, r), kv, curr.key)
      requires curr !in Repr && curr.left == null && curr.right == null
      modifies this, Repr, curr`left, curr`right, curr`parent, curr`balance
      ensures Valid() && Repr == old(Repr) + {curr}
      ensures Contents() == old(Contents())[curr.key := curr.value]
    {
      ghost var B: map<Node<V>, int> := bals;
      PlugNodes(c, Br(Nil, loc, r));
      BalAt(c, Br(Nil, loc, r), B);
      LinkLeft(loc, curr, c, r);
      SettleLeftValid(loc, curr, c, r, B);
    }

    /** SettleLeft on a tree whose keys and values are in place: the result is a valid tree with the same contents. */
    method SettleLeftValid(loc: Node<V>, curr: Node<V>, ghost c: Ctx<V>, ghost r: Shape<V>, ghost B: map<Node<V>, int>)
      requires Shaped() && Mirrored() && Stored() && Increasing(InOrder(shape), kv) && shape == Plug(c, Br(Leaf(curr), loc, r))
      requires Distinct(Plug(c, Br(Nil, loc, r))) && curr !in Nodes(Plug(c, Br(Nil, loc, r)))
      requires BalOK(Plug(c, Br(Nil, loc, r)), B, {}) && bals == B[curr := 0] && loc in B && -1 <= B[loc] <= 1
      modifies this`root, this`shape, this`links, this`bals, Repr`left, Repr`right, Repr`parent, Repr`balance
      ensures Valid() && Repr == old(Repr) && Contents() == old(Contents())
    {
      ghost var K := kv;
      SettleLeft(loc, curr, c, r, B);
      assert kv == K && Repr == old(Repr);
    }

    /**
     * The balance fixup once curr hangs as loc's left leaf: a leaning loc
     * becomes balanced, a balanced loc leans left and insertMe runs from it.
     */
    method SettleLeft(loc: Node<V>, curr: Node<V>, ghost c: Ctx<V>, ghost r: Shape<V>, ghost B: map<Node<V>, int>)
      requires Shaped() && Mirrored() && shape == Plug(c, Br(Leaf(curr), loc, r))
      requires Distinct(Plug(c, Br(Nil, loc, r))) && curr !in Nodes(Plug(c, Br(Nil, loc, r)))
      requires BalOK(Plug(c, Br(Nil, loc, r)), B, {}) && bals == B[curr := 0] && loc in B && -1 <= B[loc] <= 1
      modifies this`root, this`shape, this`links, this`bals, Repr`left, Repr`right, Repr`parent, Repr`balance
      ensures Shaped() && Mirrored() && BalOK(shape, bals, {})
      ensures InOrder(shape) == old(InOrder(shape))
    {
      PlugNodes(c, Br(Leaf(curr), loc, r));
      PlugNodes(c, Br(Nil, loc, r));
      if loc.balance == -1 || loc.balance == 1 {
        AbsorbLeft(loc, curr, c, r, B);
      } else if loc.balance == 0 {
        AttachGrewLeft(c, loc, r, B, curr);
        SetBal(loc, -1);
        InsertMe(loc, curr, c, Br(Leaf(curr), loc, r));
      }
    }

    /** A leaning loc takes the new left leaf curr: loc becomes balanced, and no other factor or link changes. */
    method AbsorbLeft(loc: Node<V>, curr: Node<V>, ghost c: Ctx<V>, ghost r: Shape<V>, ghost B: map<Node<V>, int>)
      requires Shaped() && Mirrored() && shape == Plug(c, Br(Leaf(curr), loc, r))
      requires Distinct(Plug(c, Br(Nil, loc, r))) && curr !in Nodes(Plug(c, Br(Nil, loc, r)))
      requires BalOK(Plug(c, Br(Nil, loc, r)), B, {}) && bals == B[curr := 0] && loc in B && (B[loc] == -1 || B[loc] == 1)
      modifies loc`balance, this`bals
      ensures Shaped() && Mirrored() && BalOK(shape, bals, {})
      ensures shape == old(shape) && bals == old(bals)[loc := 0]
    {
      PlugNodes(c, Br(Leaf(curr), loc, r));
      AttachAbsorbedLeft(c, loc, r, B, curr);
      SetBal(loc, 0);
    }

    /** The mirror image of AttachLeft. */
    method AttachRight(loc: Node<V>, curr: Node<V>, ghost c: Ctx<V>, ghost l: Shape<V>)
      requires Valid() && shape == Plug(c, Br(l, loc, Nil)) && Fits(InR(l, loc, c), kv, curr.key)
      requires curr !in Repr && curr.left == null && curr.right == null
      modifies this, Repr, curr`left, curr`right, curr`parent, curr`balance
      ensures Valid() && Repr == old(Repr) + {curr}
      ensures Contents() == old(Contents())[curr.key := curr.value]
    {
      ghost var B: map<Node<V>, int> := bals;
      PlugNodes(c, Br(l, loc, Nil));
      BalAt(c, Br(l, loc, Nil), B);
      LinkRight(loc, curr, c, l);
      SettleRightValid(loc, curr, c, l, B);
    }

    /** SettleRight on a tree whose keys and values are in place: the result is a valid tree with the same contents. */
    method SettleRightValid(loc: Node<V>, curr: Node<V>, ghost c: Ctx<V>, ghost l: Shape<V>, ghost B: map<Node<V>, int>)
      requires Shaped() && Mirrored() && Stored() && Increasing(InOrder(shape), kv) && shape == Plug(c, Br(l, loc, Leaf(curr)))
      requires Distinct(Plug(c, Br(l, loc, Nil))) && curr !in Nodes(Plug(c, Br(l, loc, Nil)))
      requires BalOK(Plug(c, Br(l, loc, Nil)), B, {}) && bals == B[curr := 0] && loc in B && -1 <= B[loc] <= 1
      modifies this`root, this`shape, this`links, this`bals, Repr`left, Repr`right, Repr`parent, Repr`balance
      ensures Valid() && Repr == old(Repr) && Contents() == old(Contents())
    {
      ghost var K := kv;
      SettleRight(loc, curr, c, l, B);
      assert kv == K && Repr == old(Repr);
    }

    /** The mirror image of SettleLeft. */
    method SettleRight(loc: Node<V>, curr: Node<V>, ghost c: Ctx<V>, ghost l: Shape<V>, ghost B: map<Node<V>, int>)
      requires Shaped() && Mirrored() && shape == Plug(c, Br(l, loc, Leaf(curr)))
      requires Distinct(Plug(c, Br(l, loc, Nil))) && curr !in Nodes(Plug(c, Br(l, loc, Nil)))
      requires BalOK(Plug(c, Br(l, loc, Nil)), B, {}) && bals == B[curr := 0] && loc in B && -1 <= B[loc] <= 1
      modifies this`root, this`shape, this`links, this`bals, Repr`left, Repr`right, Repr`parent, Repr`balance
      ensures Shaped() && Mirrored() && BalOK(shape, bals, {})
      ensures InOrder(shape) == old(InOrder(shape))
    {
      PlugNodes(c, Br(l, loc, Leaf(curr)));
      PlugNodes(c, Br(l, loc, Nil));
      if loc.balance == -1 || loc.balance == 1 {
        AbsorbRight(loc, curr, c, l, B);
      } else if loc.balance == 0 {
        AttachGrewRight(c, l, loc, B, curr);
        SetBal(loc, 1);
        InsertMe(loc, curr, c, Br(l, loc, Leaf(curr)));
      }
    }

    /** The mirror image of AbsorbLeft: a leaning loc takes the new right leaf curr and becomes balanced. */
    method AbsorbRight(loc: Node<V>, curr: Node<V>, ghost c: Ctx<V>, ghost l: Shape<V>, ghost B: map<Node<V>, int>)
      requires Shaped() && Mirrored() && shape == Plug(c, Br(l, loc, Leaf(curr)))
      requires Distinct(Plug(c, Br(l, loc, Nil))) && curr !in Nodes(Plug(c, Br(l, loc, Nil)))
      requires BalOK(Plug(c, Br(l, loc, Nil)), B, {}) && bals == B[curr := 0] && loc in B && (B[loc] == -1 || B[loc] == 1)
      modifies loc`balance, this`bals
      ensures Shaped() && Mirrored() && BalOK(shape, bals, {})
      ensures shape == old(shape) && bals == old(bals)[loc := 0]
    {
      PlugNodes(c, Br(l, loc, Leaf(curr)));
      AttachAbsorbedRight(c, l, loc, B, curr);
      SetBal(loc, 0);
    }

    /**
     * The upward fixup after an insertion (insertMe): the subtree s at c,
     * rooted at p, has grown by one toward p's child n. The parent's factor
     * is adjusted; the growth stops there, moves on up, or is undone by a
     * single or double rotation.
     */
    method InsertMe(p: Node?<V>, n: Node<V>, ghost c: Ctx<V>, ghost s: Shape<V>)
      requires Shaped() && Mirrored() && shape == Plug(c, s) && s.Br? && p == s.x && Grown(c, s, bals, n)
      modifies this`root, this`shape, this`links, this`bals, Repr`left, Repr`right, Repr`parent, Repr`balance
      ensures Shaped() && Mirrored() && BalOK(shape, bals, {})
      ensures InOrder(shape) == old(InOrder(shape))
      decreases Depth(c), 1
    {
      ChildSide(c, s, links);
      PlugNodes(c, s);
      if p == null || p.parent == null {
        return;
      }
      var g := p.parent;
      if p == g.left {
        InsertMeLeft(p, n, c.up, s, g, c.r);
      } else if p == g.right {
        InsertMeRight(p, n, c.up, c.l, g, s);
      }
    }

    /** insertMe when p is g's left child. */
    method InsertMeLeft(p: Node<V>, n: Node<V>, ghost c: Ctx<V>, ghost sp: Shape<V>, g: Node<V>, ghost sr: Shape<V>)
      requires Shaped() && Mirrored() && shape == Plug(c, Br(sp, g, sr)) && sp.Br? && p == sp.x
      requires Grown(InL(c, g, sr), sp, bals, n)
      modifies this`root, this`shape, this`links, this`bals, Repr`left, Repr`right, Repr`parent, Repr`balance
      ensures Shaped() && Mirrored() && BalOK(shape, bals, {})
      ensures InOrder(shape) == old(InOrder(shape))
      ensures old(g.balance) == 1 ==> shape == old(shape) && bals == old(bals)[g := 0]
      decreases Depth(c) + 1, 0
    {
      ghost var B: map<Node<V>, int> := bals;
      PlugNodes(c, Br(sp, g, sr));
      UpdBal(g, -1);
      if g.balance == 0 {
        InsertAbsorbedLeft(c, sp, g, sr, B, n);
        return;
      } else if g.balance == -1 {
        InsertGrewLeft(c, sp, g, sr, B, n);
        InsertMe(g, p, c, Br(sp, g, sr));
      } else if g.balance == -2 {
        ChildSide(InL(c, g, sr), sp, links);
        if p.left == n {
          InsertMeLeftSingle(p, n, c, sp, g, sr, B);
        } else {
          InsertMeLeftDouble(p, n, c, sp, g, sr, B);
        }
      }
    }

    /** insertMe's left-left case: rotate right at g and balance g and p. */
    method InsertMeLeftSingle(p: Node<V>, n: Node<V>, ghost c: Ctx<V>, ghost sp: Shape<V>, g: Node<V>, ghost sr: Shape<V>,
                              ghost B: map<Node<V>, int>)
      requires Shaped() && Mirrored() && shape == Plug(c, Br(sp, g, sr)) && sp.Br? && p == sp.x
      requires Grown(InL(c, g, sr), sp, B, n) && B[g] - 1 == -2 && n == RootOf(sp.l) && bals == B[g := -2]
      modifies this`root, this`shape, this`links, this`bals, Repr`left, Repr`right, Repr`parent, Repr`balance
      ensures Shaped() && Mirrored() && BalOK(shape, bals, {})
      ensures InOrder(shape) == old(InOrder(shape))
      ensures shape == Plug(c, RotR(Br(sp, g, sr))) && bals == old(bals)[g := 0][p := 0]
    {
      InsertSingleLeft(c, sp, g, sr, B, n);
      PlugNodes(c, Br(sp, g, sr));
      ghost var t, B' := Plug(c, RotR(Br(sp, g, sr))), B[g := -2][g := 0][p := 0];
      RotateRight(g, c, Br(sp, g, sr));
      Level(g, p);
      assert shape == t && bals == B';
    }

    /** insertMe's left-right case: rotate left at p, then right at g, and set the factors from n's. */
    method InsertMeLeftDouble(p: Node<V>, n: Node<V>, ghost c: Ctx<V>, ghost sp: Shape<V>, g: Node<V>, ghost sr: Shape<V>,
                              ghost B: map<Node<V>, int>)
      requires Shaped() && Mirrored() && shape == Plug(c, Br(sp, g, sr)) && sp.Br? && p == sp.x
      requires Grown(InL(c, g, sr), sp, B, n) && B[g] - 1 == -2 && n != RootOf(sp.l) && bals == B[g := -2]
      requires p.right == RootOf(sp.r)
      modifies this`root, this`shape, this`links, this`bals, Repr`left, Repr`right, Repr`parent, Repr`balance
      ensures Shaped() && Mirrored() && BalOK(shape, bals, {})
      ensures InOrder(shape) == old(InOrder(shape))
      ensures n in B && shape == Plug(c, RotR(Br(RotL(sp), g, sr)))
              && bals == old(bals)[g := NewRightFactor(B[n])][p := NewLeftFactor(B[n])][n := 0]
    {
      InsertDoubleLeft(c, sp, g, sr, B, n);
      PlugNodes(c, Br(sp, g, sr));
      assert n in Nodes(sp.r);
      ghost var b := B[n];
      var r := p.right;
      var rBalance := r.balance;
      assert n in Repr && n != g && bals[n] == b;
      assert r == n && rBalance == b;
      ghost var t := Plug(c, RotR(Br(RotL(sp), g, sr)));
      ghost var B' := B[g := -2][g := NewRightFactor(b)][p := NewLeftFactor(b)][n := 0];
      ghost var B0 := bals;
      RotateLeftRight(p, g, c, sp, sr);
      assert bals == B0;
      RefactorLeftRight(g, p, n, rBalance);
      assert shape == t && bals == B';
    }

    /** insertMe when p is g's right child: the mirror image of InsertMeLeft. */
    method InsertMeRight(p: Node<V>, n: Node<V>, ghost c: Ctx<V>, ghost sl: Shape<V>, g: Node<V>, ghost sp: Shape<V>)
      requires Shaped() && Mirrored() && shape == Plug(c, Br(sl, g, sp)) && sp.Br? && p == sp.x
      requires Grown(InR(sl, g, c), sp, bals, n)
      modifies this`root, this`shape, this`links, this`bals, Repr`left, Repr`right, Repr`parent, Repr`balance
      ensures Shaped() && Mirrored() && BalOK(shape, bals, {})
      ensures InOrder(shape) == old(InOrder(shape))
      ensures old(g.balance) == -1 ==> shape == old(shape) && bals == old(bals)[g := 0]
      decreases Depth(c) + 1, 0
    {
      ghost var B: map<Node<V>, int> := bals;
      PlugNodes(c, Br(sl, g, sp));
      UpdBal(g, 1);
      if g.balance == 0 {
        InsertAbsorbedRight(c, sl, g, sp, B, n);
        return;
      } else if g.balance == 1 {
        InsertGrewRight(c, sl, g, sp, B, n);
        InsertMe(g, p, c, Br(sl, g, sp));
      } else if g.balance == 2 {
        ChildSide(InR(sl, g, c), sp, links);
        if p.right == n {
          InsertMeRightSingle(p, n, c, sl, g, sp, B);
        } else {
          InsertMeRightDouble(p, n, c, sl, g, sp, B);
        }
      }
    }

    /** insertMe's right-right case: rotate left at g and balance g and p. */
    method InsertMeRightSingle(p: Node<V>, n: Node<V>, ghost c: Ctx<V>, ghost sl: Shape<V>, g: Node<V>, ghost sp: Shape<V>,
                               ghost B: map<Node<V>, int>)
      requires Shaped() && Mirrored() && shape == Plug(c, Br(sl, g, sp)) && sp.Br? && p == sp.x
      requires Grown(InR(sl, g, c), sp, B, n) && B[g] + 1 == 2 && n == RootOf(sp.r) && bals == B[g := 2]
      modifies this`root, this`shape, this`links, this`bals, Repr`left, Repr`right, Repr`parent, Repr`balance
      ensures Shaped() && Mirrored() && BalOK(shape, bals, {})
      ensures InOrder(shape) == old(InOrder(shape))
      ensures shape == Plug(c, RotL(Br(sl, g, sp))) && bals == old(bals)[g := 0][p := 0]
    {
      InsertSingleRight(c, sl, g, sp, B, n);
      PlugNodes(c, Br(sl, g, sp));
      ghost var t, B' := Plug(c, RotL(Br(sl, g, sp))), B[g := 2][g := 0][p := 0];
      RotateLeft(g, c, Br(sl, g, sp));
      Level(g, p);
      assert shape == t && bals == B';
    }

    /** insertMe's right-left case: rotate right at p, then left at g, and set the factors from n's. */
    method InsertMeRightDouble(p: Node<V>, n: Node<V>, ghost c: Ctx<V>, ghost sl: Shape<V>, g: Node<V>, ghost sp: Shape<V>,
                               ghost B: map<Node<V>, int>)
      requires Shaped() && Mirrored() && shape == Plug(c, Br(sl, g, sp)) && sp.Br? && p == sp.x
      requires Grown(InR(sl, g, c), sp, B, n) && B[g] + 1 == 2 && n != RootOf(sp.r) && bals == B[g := 2]
      requires p.left == RootOf(sp.l)
      modifies this`root, this`shape, this`links, this`bals, Repr`left, Repr`right, Repr`parent, Repr`balance
      ensures Shaped() && Mirrored() && BalOK(shape, bals, {})
      ensures InOrder(shape) == old(InOrder(shape))
      ensures n in B && shape == Plug(c, RotL(Br(sl, g, RotR(sp))))
              && bals == old(bals)[g := NewLeftFactor(B[n])][p := NewRightFactor(B[n])][n := 0]
    {
      InsertDoubleRight(c, sl, g, sp, B, n);
      PlugNodes(c, Br(sl, g, sp));
      assert n in Nodes(sp.l);
      ghost var b := B[n];
      var l := p.left;
      var lBalance := l.balance;
      assert n in Repr && n != g && bals[n] == b;
      assert l == n && lBalance == b;
      ghost var t := Plug(c, RotL(Br(sl, g, RotR(sp))));
      ghost var B' := B[g := 2][g := NewLeftFactor(b)][p := NewRightFactor(b)][n := 0];
      ghost var B0 := bals;
      RotateRightLeft(p, g, c, sl, sp);
      assert bals == B0;
      RefactorRightLeft(g, p, n, lBalance);
      assert shape == t && bals == B';
    }

    // -------------------------------------------------------------------
    // Removal

    /**
     * Removes key k (remove): an absent key leaves the tree untouched;
     * otherwise exactly one node is given up and k no longer maps to
     * anything, while every other key keeps its value.
     */
    method Remove(k: int)
      requires Valid()
      modifies this, Repr
      ensures Valid() && Contents() == old(Contents()) - {k}
      ensures Repr <= old(Repr)
      ensures k !in old(Contents()) ==> Repr == old(Repr) && shape == old(shape) && bals == old(bals) && kv == old(kv)
      ensures k in old(Contents()) ==> exists gone :: gone in old(Repr) && Repr == old(Repr) - {gone}
    {
      var n, c, s := Find(k);
      if n == null {
        assert Contents() - {k} == Contents();
        return;
      }
      ghost var gone := RemoveFound(n, c, s);
    }

    /**
     * Inserting a key the tree lacks and removing it again gives back the
     * same in-order (key, value) sequence.
     */
    method InsertThenRemove(k: int, v: V)
      requires Valid() && k !in Contents()
      modifies this, Repr
      ensures Valid() && Contents() == old(Contents()) && Elements() == old(Elements())
    {
      ghost var before := Elements();
      ElementsSorted();
      Insert(k, v);
      Remove(k);
      DropLast(old(Contents()), k, v);
      ElementsSorted();
      SortedDetermined(Elements(), before);
    }

    /**
     * remove once the search has found n: a node with two children first
     * exchanges contents with its in-order predecessor (nodeSwap), which
     * then holds the key and has no right child; the node holding the key
     * is cut out and the tree rebalanced.
     */
    method RemoveFound(n: Node<V>, ghost c: Ctx<V>, ghost s: Shape<V>) returns (ghost gone: Node<V>)
      requires Valid() && shape == Plug(c, s) && s.Br? && n == s.x
      modifies this, Repr
      ensures Valid() && Contents() == old(Contents()) - {old(n.key)}
      ensures gone in old(Repr) && Repr == old(Repr) - {gone}
    {
      ChildSide(c, s, links);
      PlugNodes(c, s);
      if n.right != null && n.left != null {
        gone := RemoveInner(n, c, s);
        return;
      }
      ghost var M := ToMap(EntriesOf(InOrder(shape), kv)) - {kv[n].0};
      assert M == Contents() - {n.key};
      RemoveAt(c, s, kv);
      Splice(n, c, s, M);
      gone := n;
    }

    /** remove of a node n with two children: n's entry moves to its predecessor's node, which is cut out. */
    method RemoveInner(n: Node<V>, ghost c: Ctx<V>, ghost s: Shape<V>) returns (ghost gone: Node<V>)
      requires Valid() && shape == Plug(c, s) && s.Br? && n == s.x && n in Repr && n.left != null && n.right != null
      modifies this, Repr
      ensures Valid() && Contents() == old(Contents()) - {old(n.key)}
      ensures gone in old(Repr) && Repr == old(Repr) - {gone}
    {
      ghost var M := ToMap(EntriesOf(InOrder(shape), kv)) - {kv[n].0};
      assert M == Contents() - {n.key};
      var m, cm, sm := SwapWithPredecessor(n, c, s, M);
      Splice(m, cm, sm, M);
      gone := m;
    }

    /**
     * The first step of removing n, which has two children: find its
     * in-order predecessor m and exchange their contents (nodeSwap). m then
     * holds n's entry and has no right child, and the in-order sequence
     * without m is increasing and carries exactly the entries M, the old
     * ones less n's key.
     */
    method SwapWithPredecessor(n: Node<V>, ghost c: Ctx<V>, ghost s: Shape<V>, ghost M: map<int, V>)
      returns (m: Node<V>, ghost cm: Ctx<V>, ghost sm: Shape<V>)
      requires Shaped() && Mirrored() && Stored() && Increasing(InOrder(shape), kv) && BalOK(shape, bals, {})
      requires shape == Plug(c, s) && s.Br? && n == s.x && n in Repr && n.left != null && n.right != null
      requires M == ToMap(EntriesOf(InOrder(shape), kv)) - {kv[n].0}
      modifies Repr`key, Repr`value, this`kv
      ensures Shaped() && Mirrored() && Stored() && BalOK(shape, bals, {}) && shape == Plug(cm, sm) && sm.Br? && m == sm.x && sm.r.Nil? && m in Repr
      ensures Increasing(InOrderWithout(cm, sm), kv) && ToMap(EntriesOf(InOrderWithout(cm, sm), kv)) == M
    {
      m, cm, sm := Predecessor(n, c, s);
      RemoveAtPredecessor(c, s, cm, sm, kv);
      NodeSwap(n, m);
    }

    /**
     * The in-order predecessor of n, which has a left child: the rightmost
     * node m of n's left subtree. m has no right child, and n comes right
     * after it in order.
     */
    method Predecessor(n: Node<V>, ghost c: Ctx<V>, ghost s: Shape<V>) returns (m: Node<V>, ghost cm: Ctx<V>, ghost sm: Shape<V>)
      requires Shaped() && Mirrored() && shape == Plug(c, s) && s.Br? && n == s.x && n.left != null
      ensures shape == Plug(cm, sm) && sm.Br? && m == sm.x && sm.r.Nil? && m in Repr && m != n
      ensures Before(cm) + InOrder(sm.l) + [m] == Before(c) + InOrder(s.l)
      ensures After(cm) == [n] + InOrder(s.r) + After(c)
    {
      PlugNodes(c, s);
      ChildSide(c, s, links);
      PlugLinked(c, s, links);
      PlugDistinct(c, s);
      ghost var c0, s0 := InL(c, n, s.r), s.l;
      RightmostFacts(c0, s0);
      m, cm, sm := n.left, c0, s0;
      while m.right != null
        invariant sm.Br? && m == sm.x && Rightmost(cm, sm) == Rightmost(c0, s0)
        invariant Linked(sm, Parent(cm), links) && Nodes(sm) <= Repr
        decreases sm
      {
        cm, sm, m := InR(sm.l, m, cm), sm.r, m.right;
      }
    }

    /**
     * nodeSwap as removal uses it: the base tree's exchange of the two
     * nodes' places, followed by the exchange of their balance factors,
     * leaves every place with its links and factor and only moves the
     * (key, value) pairs, which is what this does.
     */
    method NodeSwap(n1: Node<V>, n2: Node<V>)
      requires Shaped() && Mirrored() && Stored() && n1 in Repr && n2 in Repr && n1 != n2
      modifies n1`key, n1`value, n2`key, n2`value, this`kv
      ensures Shaped() && Mirrored() && Stored() && kv == old(kv)[n2 := old(kv)[n1]][n1 := old(kv)[n2]]
    {
      kv := kv[n2 := kv[n1]][n1 := kv[n2]];
      n1.SwapEntry(n2);
    }

    /**
     * Cuts out x, which has at most one child, and rebalances: the child
     * takes x's place, x's parent learns which side lost a level (diff),
     * x is given up, and removeMe runs from the parent.
     */
    method Splice(x: Node<V>, ghost cx: Ctx<V>, ghost sx: Shape<V>, ghost M: map<int, V>)
      requires Shaped() && Mirrored() && Stored() && BalOK(shape, bals, {})
      requires shape == Plug(cx, sx) && sx.Br? && sx.x == x && (sx.l.Nil? || sx.r.Nil?)
      requires Increasing(InOrderWithout(cx, sx), kv) && ToMap(EntriesOf(InOrderWithout(cx, sx), kv)) == M
      modifies this, Repr
      ensures Valid() && Contents() == M && Repr == old(Repr) - {x}
    {
      var p, diff := Unlink(x, cx, sx, M);
      RemoveMeValid(p, diff, cx, Remaining(sx), M);
    }

    /**
     * The relinking of remove, with what it leaves for removeMe: the tree
     * is one level short at x's former place and holds the entries M.
     */
    method Unlink(x: Node<V>, ghost cx: Ctx<V>, ghost sx: Shape<V>, ghost M: map<int, V>) returns (p: Node?<V>, diff: int)
      requires Shaped() && Mirrored() && Stored() && BalOK(shape, bals, {})
      requires shape == Plug(cx, sx) && sx.Br? && sx.x == x && (sx.l.Nil? || sx.r.Nil?)
      requires Increasing(InOrderWithout(cx, sx), kv) && ToMap(EntriesOf(InOrderWithout(cx, sx), kv)) == M
      modifies this`root, this`shape, this`links, this`Repr, Repr`left, Repr`right, Repr`parent
      ensures Shaped() && Mirrored() && Stored() && Increasing(InOrder(shape), kv)
      ensures shape == Plug(cx, Remaining(sx)) && p == Parent(cx) && Shrunk(cx, Remaining(sx), bals, {})
      ensures cx.InL? ==> diff == 1
      ensures cx.InR? ==> diff == -1
      ensures ToMap(EntriesOf(InOrder(shape), kv)) == M
      ensures Repr == old(Repr) - {x}
    {
      SpliceShrunk(cx, sx, bals);
      p, diff := Cut(x, cx, sx);
    }

    /**
     * The pointer surgery of remove: x's parent p learns which side lost a
     * level (diff, 1 for the left and -1 for the right), x's only child (if
     * any) takes x's place, and x is given up (delete n).
     */
    method Cut(x: Node<V>, ghost cx: Ctx<V>, ghost sx: Shape<V>) returns (p: Node?<V>, diff: int)
      requires Shaped() && Mirrored() && Stored() && shape == Plug(cx, sx) && sx.Br? && sx.x == x && (sx.l.Nil? || sx.r.Nil?)
      modifies this`root, this`shape, this`links, this`Repr, Repr`left, Repr`right, Repr`parent
      ensures Shaped() && Mirrored() && Stored() && shape == Plug(cx, Remaining(sx)) && Repr == old(Repr) - {x}
      ensures InOrder(shape) == InOrderWithout(cx, sx) && p == Parent(cx)
      ensures kv == old(kv) && bals == old(bals)
      ensures cx.InL? ==> diff == 1
      ensures cx.InR? ==> diff == -1
    {
      SpliceFacts(cx, sx, links);
      ChildSide(cx, sx, links);
      p := x.parent;
      diff := 0;
      if p != null {
        if x == p.left {
          diff := 1;
        } else if x == p.right {
          diff := -1;
        }
      }
      var child: Node?<V>;
      if x.right != null {
        child := x.right;
      } else {
        child := x.left;
      }
      CutMirrored(x, p, child, Plug(cx, Remaining(sx)));
    }

    /**
     * The pointer surgery of remove (lines setLeft/setRight/setParent),
     * recorded in the ghost view: x's child takes x's place under x's
     * parent p, or becomes the root when x was the root; x is given up
     * (delete n) and the shape becomes S.
     */
    method CutMirrored(x: Node<V>, p: Node?<V>, child: Node?<V>, ghost S: Shape<V>)
      requires Mirrored() && Stored() && x in Repr
      requires p != null ==> p in Repr && p != x && (links[p].left == x || links[p].right == x)
      requires child != null ==> child in Repr && child != x && child != p
      modifies this`root, this`links, this`Repr, this`shape, NodeSet(p)`left, NodeSet(p)`right, NodeSet(child)`parent
      ensures Mirrored() && Stored() && links == SpliceLinks(old(links), p, x, child)
      ensures Repr == old(Repr) - {x} && shape == S
      ensures root == (if p == null then child else old(root))
      ensures kv == old(kv) && bals == old(bals)
    {
      Repr := Repr - {x};
      shape := S;
      if p == null {
        root := child;
      } else {
        ReplaceChild(p, x, child);
      }
      if child != null {
        Reparent(child, p);
      }
    }

    /** p's link to x now leads to child instead (setLeft or setRight), and the link map says so. */
    method ReplaceChild(p: Node<V>, x: Node<V>, child: Node?<V>)
      requires Mirrored() && p in Repr && (links[p].left == x || links[p].right == x)
      modifies this`links, p`left, p`right
      ensures Mirrored()
      ensures links == old(links)[p := if old(links)[p].left == x then Link(child, old(links)[p].right, old(links)[p].parent)
                                       else Link(old(links)[p].left, child, old(links)[p].parent)]
    {
      if x == p.left {
        p.left := child;
      } else {
        p.right := child;
      }
      links := links[p := Link(p.left, p.right, p.parent)];
    }

    /** child's parent becomes p (setParent), and the link map says so. */
    method Reparent(child: Node<V>, p: Node?<V>)
      requires Mirrored() && child in Repr
      modifies this`links, child`parent
      ensures Mirrored() && links == old(links)[child := Link(old(links)[child].left, old(links)[child].right, p)]
    {
      child.parent := p;
      links := links[child := Link(child.left, child.right, p)];
    }

    /** removeMe with nothing stale, from a tree whose order and contents are in place: the result is valid. */
    method RemoveMeValid(p: Node?<V>, diff: int, ghost c: Ctx<V>, ghost t: Shape<V>, ghost M: map<int, V>)
      requires Shaped() && Mirrored() && Stored() && Increasing(InOrder(shape), kv)
      requires shape == Plug(c, t) && p == Parent(c) && Shrunk(c, t, bals, {})
      requires c.InL? ==> diff == 1
      requires c.InR? ==> diff == -1
      requires ToMap(EntriesOf(InOrder(shape), kv)) == M
      modifies this`root, this`shape, this`links, this`bals, Repr`left, Repr`right, Repr`parent, Repr`balance
      ensures Valid() && Contents() == M
    {
      RemoveMe(p, diff, c, t, {});
    }

    /**
     * removeMe: the subtree t at c, whose parent is n, has lost one level;
     * diff is 1 when t is n's left subtree and -1 when it is the right one
     * (any value when n is null). n's factor is adjusted; the shrinking
     * stops there, moves on up, or is undone by a rotation that may pass it
     * on up. The stale nodes S below keep the factors they have recorded.
     */
    method RemoveMe(n: Node?<V>, diff: int, ghost c: Ctx<V>, ghost t: Shape<V>, ghost S: set<Node<V>>)
      requires Shaped() && Mirrored() && shape == Plug(c, t) && n == Parent(c) && Shrunk(c, t, bals, S)
      requires c.InL? ==> diff == 1
      requires c.InR? ==> diff == -1
      modifies this`root, this`shape, this`links, this`bals, Repr`left, Repr`right, Repr`parent, Repr`balance
      ensures Shaped() && Mirrored() && BalOK(shape, bals, S) && KeepsOn(old(bals), bals, S)
      ensures InOrder(shape) == old(InOrder(shape))
      decreases Depth(c), 2
    {
      if n == null {
        return;
      }
      ghost var s := if c.InL? then Br(t, n, c.r) else Br(c.l, n, t);
      PlugNodes(c, t);
      ChildSide(c.up, s, links);
      var parent := n.parent;
      var nextval := 0;
      if parent != null {
        nextval := if parent.left == n then 1 else -1;
      }
      var balance1 := n.balance;
      var balance2 := balance1 + diff;
      if balance2 == -2 || balance2 == 2 {
        if balance2 == -2 {
          RemoveMeLeftHeavy(n, parent, nextval, c.up, c.l, t, S);
        } else {
          RemoveMeRightHeavy(n, parent, nextval, c.up, t, c.r, S);
        }
      } else if balance2 == 1 {
        RemoveMeLean(n, 1, c, t, S);
        return;
      } else if balance2 == 0 {
        RemoveMeLevel(n, parent, nextval, diff, c, t, S);
      } else if balance2 == -1 {
        RemoveMeLean(n, -1, c, t, S);
        return;
      }
    }

    /** removeMe when n was balanced: n now leans away from the shrunk side (b) and nothing above changes. */
    method RemoveMeLean(n: Node<V>, b: int, ghost c: Ctx<V>, ghost t: Shape<V>, ghost S: set<Node<V>>)
      requires Shaped() && Mirrored() && shape == Plug(c, t) && !c.Top? && n == c.x && Shrunk(c, t, bals, S)
      requires bals[n] == 0 && (c.InL? ==> b == 1) && (c.InR? ==> b == -1)
      modifies n`balance, this`bals
      ensures Shaped() && Mirrored() && BalOK(shape, bals, S) && KeepsOn(old(bals), bals, S)
    {
      PlugNodes(c, t);
      if c.InL? {
        RemovedLeftLeans(c.up, t, n, c.r, bals, S);
      } else {
        RemovedRightLeans(c.up, c.l, n, t, bals, S);
      }
      SetBal(n, b);
    }

    /**
     * removeMe when n leaned toward the shrunk side: n becomes balanced, and
     * its own subtree has shrunk. The shrinking is passed on up first, with
     * n stale, and n's factor is recorded afterwards.
     */
    method RemoveMeLevel(n: Node<V>, parent: Node?<V>, nextval: int, diff: int, ghost c: Ctx<V>, ghost t: Shape<V>,
                         ghost S: set<Node<V>>)
      requires Shaped() && Mirrored() && shape == Plug(c, t) && !c.Top? && n == c.x && Shrunk(c, t, bals, S)
      requires bals[n] + diff == 0 && (c.InL? ==> diff == 1) && (c.InR? ==> diff == -1)
      requires parent == Parent(c.up) && (c.up.InL? ==> nextval == 1) && (c.up.InR? ==> nextval == -1)
      modifies this`root, this`shape, this`links, this`bals, Repr`left, Repr`right, Repr`parent, Repr`balance
      ensures Shaped() && Mirrored() && BalOK(shape, bals, S) && KeepsOn(old(bals), bals, S)
      ensures n in bals && bals[n] == 0
      ensures InOrder(shape) == old(InOrder(shape))
      decreases Depth(c), 1
    {
      RemovedLevels(c, t, bals, S);
      PlugNodes(c, t);
      RemoveMe(parent, nextval, c.up, Up(c, t), S + {n});
      ghost var B1 := bals;
      Refresh(n, diff, S);
      KeepsOnChain(old(bals), B1, bals, S);
    }

    /**
     * Records the factor of the stale node n, which is truly balanced:
     * n->updateBalance(diff) brings its old factor -diff to 0.
     */
    method Refresh(n: Node<V>, diff: int, ghost S: set<Node<V>>)
      requires Shaped() && Mirrored() && n in Repr && n !in S && BalOK(shape, bals, S + {n}) && bals[n] + diff == 0
      modifies n`balance, this`bals
      ensures Shaped() && Mirrored() && BalOK(shape, bals, S) && KeepsOn(old(bals), bals, S)
      ensures bals == old(bals)[n := 0]
    {
      ghost var B := bals;
      UpdBal(n, diff);
      assert bals == B[n := 0];
      BalOKRefresh(shape, B, S, n);
    }

    /** removeMe when the right subtree t of n shrank and n leaned left: rotate at n, as its left child leans. */
    method RemoveMeLeftHeavy(n: Node<V>, parent: Node?<V>, nextval: int, ghost c: Ctx<V>, ghost l: Shape<V>, ghost t: Shape<V>,
                             ghost S: set<Node<V>>)
      requires Shaped() && Mirrored() && shape == Plug(c, Br(l, n, t)) && Shrunk(InR(l, n, c), t, bals, S) && bals[n] - 1 == -2
      requires parent == Parent(c) && (c.InL? ==> nextval == 1) && (c.InR? ==> nextval == -1)
      modifies this`root, this`shape, this`links, this`bals, Repr`left, Repr`right, Repr`parent, Repr`balance
      ensures Shaped() && Mirrored() && BalOK(shape, bals, S) && KeepsOn(old(bals), bals, S)
      ensures InOrder(shape) == old(InOrder(shape))
      decreases Depth(c) + 1, 1
    {
      PlugNodes(c, Br(l, n, t));
      ChildSide(c, Br(l, n, t), links);
      assert Height(l) == Height(t) + 2 && BalOK(l, bals, {});
      var left := n.left;
      var leftBalance := left.balance;
      if leftBalance == -1 {
        RemoveMeRotateRight(n, left, parent, nextval, c, l, t, S);
      } else if leftBalance == 0 {
        RemoveMeRotateRightStop(n, left, c, l, t, S);
      } else if leftBalance == 1 {
        RemoveMeRotateLeftRight(n, left, parent, nextval, c, l, t, S);
      }
    }

    /** removeMe's single rotation that passes the shrinking on: rotate right at n, balance n and left, go on up. */
    method RemoveMeRotateRight(n: Node<V>, left: Node<V>, parent: Node?<V>, nextval: int, ghost c: Ctx<V>, ghost l: Shape<V>,
                               ghost t: Shape<V>, ghost S: set<Node<V>>)
      requires Shaped() && Mirrored() && shape == Plug(c, Br(l, n, t)) && Shrunk(InR(l, n, c), t, bals, S) && bals[n] - 1 == -2
      requires l.Br? && left == l.x && bals[left] == -1
      requires parent == Parent(c) && (c.InL? ==> nextval == 1) && (c.InR? ==> nextval == -1)
      modifies this`root, this`shape, this`links, this`bals, Repr`left, Repr`right, Repr`parent, Repr`balance
      ensures Shaped() && Mirrored() && BalOK(shape, bals, S) && KeepsOn(old(bals), bals, S)
      ensures InOrder(shape) == old(InOrder(shape))
      decreases Depth(c) + 1, 0
    {
      RemovedRightSingle(c, l, n, t, bals, S);
      assert n !in S && left !in S;
      RotateRightSet(n, left, 0, 0, c, Br(l, n, t));
      ghost var B1 := bals;
      assert KeepsOn(old(bals), B1, S);
      RemoveMe(parent, nextval, c, RotR(Br(l, n, t)), S);
      KeepsOnChain(old(bals), B1, bals, S);
    }

    /** removeMe's single rotation that keeps the height: rotate right at n, set n to -1 and left to 1. */
    method RemoveMeRotateRightStop(n: Node<V>, left: Node<V>, ghost c: Ctx<V>, ghost l: Shape<V>, ghost t: Shape<V>,
                                   ghost S: set<Node<V>>)
      requires Shaped() && Mirrored() && shape == Plug(c, Br(l, n, t)) && Shrunk(InR(l, n, c), t, bals, S) && bals[n] - 1 == -2
      requires l.Br? && left == l.x && bals[left] == 0
      modifies this`root, this`shape, this`links, this`bals, Repr`left, Repr`right, Repr`parent, Repr`balance
      ensures Shaped() && Mirrored() && BalOK(shape, bals, S) && KeepsOn(old(bals), bals, S)
      ensures InOrder(shape) == old(InOrder(shape))
      ensures shape == Plug(c, RotR(Br(l, n, t))) && bals == old(bals)[n := -1][left := 1]
      ensures Height(RotR(Br(l, n, t))) == Height(Br(l, n, t))
    {
      RemovedRightSingleStop(c, l, n, t, bals, S);
      assert n !in S && left !in S;
      RotateRightSet(n, left, -1, 1, c, Br(l, n, t));
    }

    /**
     * removeMe's double rotation: rotate left at left and right at n, which
     * lifts left's right child; set the three factors from that child's and
     * go on up.
     */
    method RemoveMeRotateLeftRight(n: Node<V>, left: Node<V>, parent: Node?<V>, nextval: int, ghost c: Ctx<V>, ghost l: Shape<V>,
                                   ghost t: Shape<V>, ghost S: set<Node<V>>)
      requires Shaped() && Mirrored() && shape == Plug(c, Br(l, n, t)) && Shrunk(InR(l, n, c), t, bals, S) && bals[n] - 1 == -2
      requires l.Br? && left == l.x && bals[left] == 1
      requires parent == Parent(c) && (c.InL? ==> nextval == 1) && (c.InR? ==> nextval == -1)
      modifies this`root, this`shape, this`links, this`bals, Repr`left, Repr`right, Repr`parent, Repr`balance
      ensures Shaped() && Mirrored() && BalOK(shape, bals, S) && KeepsOn(old(bals), bals, S)
      ensures InOrder(shape) == old(InOrder(shape))
      decreases Depth(c) + 1, 0
    {
      RemovedRightDouble(c, l, n, t, bals, S);
      assert l.r.x in Nodes(l.r) && n !in S && left !in S && l.r.x !in S;
      RotateLeftRightSet(n, left, c, l, t);
      ghost var B1 := bals;
      assert KeepsOn(old(bals), B1, S);
      RemoveMe(parent, nextval, c, RotR(Br(RotL(l), n, t)), S);
      KeepsOnChain(old(bals), B1, bals, S);
    }

    /** removeMe when the left subtree t of n shrank and n leaned right: the mirror image of RemoveMeLeftHeavy. */
    method RemoveMeRightHeavy(n: Node<V>, parent: Node?<V>, nextval: int, ghost c: Ctx<V>, ghost t: Shape<V>, ghost r: Shape<V>,
                              ghost S: set<Node<V>>)
      requires Shaped() && Mirrored() && shape == Plug(c, Br(t, n, r)) && Shrunk(InL(c, n, r), t, bals, S) && bals[n] + 1 == 2
      requires parent == Parent(c) && (c.InL? ==> nextval == 1) && (c.InR? ==> nextval == -1)
      modifies this`root, this`shape, this`links, this`bals, Repr`left, Repr`right, Repr`parent, Repr`balance
      ensures Shaped() && Mirrored() && BalOK(shape, bals, S) && KeepsOn(old(bals), bals, S)
      ensures InOrder(shape) == old(InOrder(shape))
      decreases Depth(c) + 1, 1
    {
      PlugNodes(c, Br(t, n, r));
      ChildSide(c, Br(t, n, r), links);
      assert Height(r) == Height(t) + 2 && BalOK(r, bals, {});
      var right := n.right;
      var rightBalance := right.balance;
      if rightBalance == 1 {
        RemoveMeRotateLeft(n, right, parent, nextval, c, t, r, S);
      } else if rightBalance == 0 {
        RemoveMeRotateLeftStop(n, right, c, t, r, S);
      } else if rightBalance == -1 {
        RemoveMeRotateRightLeft(n, right, parent, nextval, c, t, r, S);
      }
    }

    /** The mirror image of RemoveMeRotateRight. */
    method RemoveMeRotateLeft(n: Node<V>, right: Node<V>, parent: Node?<V>, nextval: int, ghost c: Ctx<V>, ghost t: Shape<V>,
                              ghost r: Shape<V>, ghost S: set<Node<V>>)
      requires Shaped() && Mirrored() && shape == Plug(c, Br(t, n, r)) && Shrunk(InL(c, n, r), t, bals, S) && bals[n] + 1 == 2
      requires r.Br? && right == r.x && bals[right] == 1
      requires parent == Parent(c) && (c.InL? ==> nextval == 1) && (c.InR? ==> nextval == -1)
      modifies this`root, this`shape, this`links, this`bals, Repr`left, Repr`right, Repr`parent, Repr`balance
      ensures Shaped() && Mirrored() && BalOK(shape, bals, S) && KeepsOn(old(bals), bals, S)
      ensures InOrder(shape) == old(InOrder(shape))
      decreases Depth(c) + 1, 0
    {
      RemovedLeftSingle(c, t, n, r, bals, S);
      assert n !in S && right !in S;
      RotateLeftSet(n, right, 0, 0, c, Br(t, n, r));
      ghost var B1 := bals;
      assert KeepsOn(old(bals), B1, S);
      RemoveMe(parent, nextval, c, RotL(Br(t, n, r)), S);
      KeepsOnChain(old(bals), B1, bals, S);
    }

    /** The mirror image of RemoveMeRotateRightStop: n is set to 1 and right to -1. */
    method RemoveMeRotateLeftStop(n: Node<V>, right: Node<V>, ghost c: Ctx<V>, ghost t: Shape<V>, ghost r: Shape<V>,
                                  ghost S: set<Node<V>>)
      requires Shaped() && Mirrored() && shape == Plug(c, Br(t, n, r)) && Shrunk(InL(c, n, r), t, bals, S) && bals[n] + 1 == 2
      requires r.Br? && right == r.x && bals[right] == 0
      modifies this`root, this`shape, this`links, this`bals, Repr`left, Repr`right, Repr`parent, Repr`balance
      ensures Shaped() && Mirrored() && BalOK(shape, bals, S) && KeepsOn(old(bals), bals, S)
      ensures InOrder(shape) == old(InOrder(shape))
      ensures shape == Plug(c, RotL(Br(t, n, r))) && bals == old(bals)[n := 1][right := -1]
      ensures Height(RotL(Br(t, n, r))) == Height(Br(t, n, r))
    {
      RemovedLeftSingleStop(c, t, n, r, bals, S);
      assert n !in S && right !in S;
      RotateLeftSet(n, right, 1, -1, c, Br(t, n, r));
    }

    /** The mirror image of RemoveMeRotateLeftRight: right's left child rises. */
    method RemoveMeRotateRightLeft(n: Node<V>, right: Node<V>, parent: Node?<V>, nextval: int, ghost c: Ctx<V>, ghost t: Shape<V>,
                                   ghost r: Shape<V>, ghost S: set<Node<V>>)
      requires Shaped() && Mirrored() && shape == Plug(c, Br(t, n, r)) && Shrunk(InL(c, n, r), t, bals, S) && bals[n] + 1 == 2
      requires r.Br? && right == r.x && bals[right] == -1
      requires parent == Parent(c) && (c.InL? ==> nextval == 1) && (c.InR? ==> nextval == -1)
      modifies this`root, this`shape, this`links, this`bals, Repr`left, Repr`right, Repr`parent, Repr`balance
      ensures Shaped() && Mirrored() && BalOK(shape, bals, S) && KeepsOn(old(bals), bals, S)
      ensures InOrder(shape) == old(InOrder(shape))
      decreases Depth(c) + 1, 0
    {
      RemovedLeftDouble(c, t, n, r, bals, S);
      assert r.l.x in Nodes(r.l) && n !in S && right !in S && r.l.x !in S;
      RotateRightLeftSet(n, right, c, t, r);
      ghost var B1 := bals;
      assert KeepsOn(old(bals), B1, S);
      RemoveMe(parent, nextval, c, RotL(Br(t, n, RotR(r))), S);
      KeepsOnChain(old(bals), B1, bals, S);
    }
  }
}
