// The equal-paths check on a plain binary tree: getHeight walks the tree
// in post-order, returning the height and clearing a shared flag whenever a
// node with two children has subtrees of different heights; equalPaths
// starts the flag at true and returns it. The by-reference flag is modelled
// as a value threaded through the recursion (flag in, flag out).
module EqualPaths {

  /** A binary tree node with a key and two possibly absent children. */
  datatype Tree = Nil | Node(key: int, left: Tree, right: Tree)

  function Max(a: nat, b: nat): nat
  {
    if a < b then b else a
  }

  /** The number of nodes on a longest path from the root down. */
  function Height(t: Tree): nat
  {
    match t
    case Nil => 0
    case Node(_, l, r) => 1 + Max(Height(l), Height(r))
  }

  /**
   * The numbers of nodes on the root-to-leaf paths of t, where a leaf is a
   * node without children: a node with one child continues its paths
   * through that child only.
   */
  ghost function PathLengths(t: Tree): set<nat>
  {
    match t
    case Nil => {}
    case Node(_, l, r) =>
      if l.Nil? && r.Nil? then {1}
      else set p | p in PathLengths(l) + PathLengths(r) :: p + 1
  }

  /** Every root-to-leaf path of t has the same number of nodes. */
  ghost predicate AllPathsEqual(t: Tree)
  {
    forall a, b :: a in PathLengths(t) && b in PathLengths(t) ==> a == b
  }

  /** No node with two children has subtrees of different heights: the condition getHeight checks. */
  predicate Even(t: Tree)
  {
    match t
    case Nil => true
    case Node(_, l, r) =>
      Even(l) && Even(r) && (l.Node? && r.Node? ==> Height(l) == Height(r))
  }

  /**
   * getHeight: the height of t, and the flag as the recursion leaves it.
   * The height is t's height whatever the flag, and the flag comes out true
   * exactly when it went in true and t is Even: it is only ever cleared.
   */
  function GetHeight(t: Tree, valid: bool): (r: (nat, bool))
    ensures r.0 == Height(t)
    ensures r.1 == (valid && Even(t))
  {
    match t
    case Nil => (0, valid)
    case Node(_, l, r) =>
      var (leftHeight, valid1) := GetHeight(l, valid);
      var (rightHeight, valid2) := GetHeight(r, valid1);
      if l.Nil? && r.Node? then
        (1 + rightHeight, valid2)
      else if l.Node? && r.Nil? then
        (1 + leftHeight, valid2)
      else if l.Node? && r.Node? && leftHeight != rightHeight then
        (1 + Max(leftHeight, rightHeight), false)
      else
        (1 + Max(leftHeight, rightHeight), valid2)
  }

  /** equalPaths: the flag getHeight leaves when started at true. */
  function EqualPaths(t: Tree): (b: bool)
    ensures b == Even(t)
  {
    GetHeight(t, true).1
  }

  /** The empty tree has height 0 and every path check of it succeeds. */
  lemma EmptyTree(valid: bool)
    ensures GetHeight(Nil, valid) == (0, valid)
    ensures EqualPaths(Nil)
  {
  }

  /** A cleared flag stays cleared, whatever the rest of the tree. */
  lemma FlagMonotone(t: Tree)
    ensures GetHeight(t, false).1 == false
    ensures GetHeight(t, true).1 ==> GetHeight(t, false).0 == GetHeight(t, true).0
  {
  }

  /** A node with exactly one child is one higher than that child and never clears the flag itself. */
  lemma OneChild(k: int, c: Tree, valid: bool)
    requires c.Node?
    ensures GetHeight(Node(k, c, Nil), valid) == (1 + GetHeight(c, valid).0, GetHeight(c, valid).1)
    ensures GetHeight(Node(k, Nil, c), valid) == (1 + GetHeight(c, valid).0, GetHeight(c, valid).1)
  {
  }

  /**
   * A node with two children clears the flag when their heights differ;
   * otherwise it keeps the children's flag, and its height is one more
   * than the higher child.
   */
  lemma TwoChildren(k: int, l: Tree, r: Tree, valid: bool)
    requires l.Node? && r.Node?
    ensures var (hl, hr) := (GetHeight(l, true).0, GetHeight(r, true).0);
      GetHeight(Node(k, l, r), valid).0 == 1 + Max(hl, hr)
      && (hl != hr ==> !GetHeight(Node(k, l, r), valid).1)
      && (hl == hr ==> GetHeight(Node(k, l, r), valid).1 == (valid && GetHeight(l, true).1 && GetHeight(r, true).1))
  {
  }

  /** Every path of a non-empty tree is at most its height, and some path reaches it. */
  lemma {:induction false} PathsBelowHeight(t: Tree)
    requires t.Node?
    ensures Height(t) in PathLengths(t)
    ensures forall p :: p in PathLengths(t) ==> 1 <= p <= Height(t)
  {
    var l, r := t.left, t.right;
    if l.Nil? && r.Nil? {
    } else {
      var S := PathLengths(l) + PathLengths(r);
      if l.Node? { PathsBelowHeight(l); }
      if r.Node? { PathsBelowHeight(r); }
      if Height(l) >= Height(r) {
        assert Height(l) in S;
        assert Height(t) == Height(l) + 1;
      } else {
        assert Height(r) in S;
        assert Height(t) == Height(r) + 1;
      }
      forall p | p in PathLengths(t) ensures 1 <= p <= Height(t) {
        var q :| q in S && p == q + 1;
      }
    }
  }

  /** An Even non-empty tree has all its paths of exactly its height. */
  lemma {:induction false} EvenPaths(t: Tree)
    requires t.Node? && Even(t)
    ensures PathLengths(t) == {Height(t)}
  {
    var l, r := t.left, t.right;
    if l.Nil? && r.Nil? {
    } else {
      if l.Node? { EvenPaths(l); }
      if r.Node? { EvenPaths(r); }
      var S, h := PathLengths(l) + PathLengths(r), Height(t) - 1;
      assert S == {h};
      assert h + 1 in PathLengths(t);
      forall p | p in PathLengths(t) ensures p == h + 1 {
        var q :| q in S && p == q + 1;
      }
    }
  }

  /** A tree whose paths all have the same number of nodes is Even. */
  lemma {:induction false} PathsEven(t: Tree)
    requires AllPathsEqual(t)
    ensures Even(t)
  {
    if t.Node? {
      var l, r := t.left, t.right;
      if !(l.Nil? && r.Nil?) {
        var S := PathLengths(l) + PathLengths(r);
        forall a, b | a in S && b in S ensures a == b {
          assert a + 1 in PathLengths(t) && b + 1 in PathLengths(t);
        }
        forall a, b | a in PathLengths(l) && b in PathLengths(l) ensures a == b {
          assert a in S && b in S;
        }
        forall a, b | a in PathLengths(r) && b in PathLengths(r) ensures a == b {
          assert a in S && b in S;
        }
        PathsEven(l);
        PathsEven(r);
        if l.Node? && r.Node? {
          PathsBelowHeight(l);
          PathsBelowHeight(r);
          assert Height(l) + 1 in PathLengths(t) && Height(r) + 1 in PathLengths(t);
        }
      }
    }
  }

  /**
   * equalPaths is true exactly when all root-to-leaf paths have the same
   * number of nodes; then getHeight returns that number.
   */
  lemma EqualPathsMeaning(t: Tree)
    ensures EqualPaths(t) <==> AllPathsEqual(t)
    ensures EqualPaths(t) && t.Node? ==> PathLengths(t) == {GetHeight(t, true).0}
  {
    if EqualPaths(t) {
      if t.Node? {
        EvenPaths(t);
      }
    } else if AllPathsEqual(t) {
      PathsEven(t);
    }
  }

  /** A chain of n nodes, each the left child of the one above. */
  function LeftChain(n: nat): (t: Tree)
    ensures n == 0 <==> t.Nil?
    ensures Height(t) == n
  {
    if n == 0 then Nil else Node(n, LeftChain(n - 1), Nil)
  }

  /** A left-only chain, however long, passes the check: its nodes have one child each. */
  lemma {:induction false} LeftChainEqual(n: nat)
    ensures EqualPaths(LeftChain(n))
    ensures GetHeight(LeftChain(n), true).0 == n
  {
    if n > 0 {
      LeftChainEqual(n - 1);
    }
  }
}
