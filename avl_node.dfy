// The node of the AVL tree: a key/value pair, its links, and the balance
// factor height(right) - height(left) that the rebalancing code maintains.

module AvlNode {

  class Node<V> {
    var key: int
    var value: V
    // The source stores this in an int8_t; during rebalancing it only ever
    // ranges over -2..2, so an unbounded int with a range invariant suffices.
    var balance: int
    var left: Node?<V>
    var right: Node?<V>
    var parent: Node?<V>

    /** A fresh node has no children and balance 0. */
    constructor (key: int, value: V, parent: Node?<V>)
      ensures this.key == key && this.value == value && this.parent == parent
      ensures left == null && right == null && balance == 0
    {
      this.key := key;
      this.value := value;
      this.parent := parent;
      left := null;
      right := null;
      balance := 0;
    }

    /** Overwrites the value and nothing else. */
    method SetValue(v: V)
      modifies this`value
      ensures value == v
    {
      value := v;
    }

    /** Exchanges key and value with other, and changes nothing else. */
    method SwapEntry(other: Node<V>)
      requires other != this
      modifies this`key, this`value, other`key, other`value
      ensures key == old(other.key) && value == old(other.value)
      ensures other.key == old(key) && other.value == old(value)
    {
      key, other.key := other.key, key;
      value, other.value := other.value, value;
    }

    /** Overwrites the balance factor and nothing else. */
    method SetBalance(b: int)
      modifies this`balance
      ensures balance == b
    {
      balance := b;
    }

    /** Adds diff to the balance factor and touches nothing else. */
    method UpdateBalance(diff: int)
      modifies this`balance
      ensures balance == old(balance) + diff
    {
      balance := balance + diff;
    }
  }

  /** The nodes a possibly-null reference stands for: none, or the one it points to. */
  function NodeSet<V>(x: Node?<V>): (S: set<Node<V>>)
    ensures x == null <==> S == {}
    ensures x != null ==> x in S && |S| == 1
  {
    if x == null then {} else {x}
  }
}
