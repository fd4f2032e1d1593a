/** A node of the binary search tree: a key that never changes, a value that the
    tree overwrites in place, and two child links. Nodes compare by key alone. */
module BstNode {

  class Node<V> {
    // `key` is read-only: a `const` field has no setter, so no code can assign it
    const key: int
    var value: V
    var left: Node?<V>
    var right: Node?<V>

    constructor (key: int, value: V, left: Node?<V>, right: Node?<V>)
      ensures this.key == key && this.value == value
      ensures this.left == left && this.right == right
    {
      this.key := key;
      this.value := value;
      this.left := left;
      this.right := right;
    }

    /** `<`: the base comparison; every other comparison is stated in terms of it. It
        never holds between a node and itself, nor between two nodes with equal keys. */
    predicate Lt(other: Node<V>): (b: bool)
      ensures other == this ==> !b
      ensures b ==> key != other.key
    {
      key < other.key
    }

    /** `>` is `<` with the operands exchanged. */
    predicate Gt(other: Node<V>)
      ensures Gt(other) <==> other.Lt(this)
    {
      key > other.key
    }

    /** `<=` is the negation of the converse `<`. */
    predicate Le(other: Node<V>)
      ensures Le(other) <==> !other.Lt(this)
    {
      key <= other.key
    }

    /** `>=` is the negation of `<`. */
    predicate Ge(other: Node<V>)
      ensures Ge(other) <==> !Lt(other)
    {
      key >= other.key
    }

    /** `==` holds exactly when neither node is below the other. */
    predicate Eq(other: Node<V>)
      ensures Eq(other) <==> !Lt(other) && !other.Lt(this)
      ensures Eq(other) <==> Le(other) && Ge(other)
    {
      key == other.key
    }
  }

  /** The node a nullable reference points at, as a set: empty for `null`. */
  ghost function NodeSet<V>(p: Node?<V>): set<Node<V>>
  {
    if p == null then {} else {p}
  }

  /** `<` on nodes is a strict total order whose equivalence is `==`: exactly one of
      `a < b`, `a == b`, `b < a` holds, and `<` is transitive. */
  lemma LtIsStrictTotalOrder<V>(a: Node<V>, b: Node<V>, c: Node<V>)
    ensures a.Lt(b) || a.Eq(b) || b.Lt(a)
    ensures !(a.Lt(b) && a.Eq(b)) && !(a.Lt(b) && b.Lt(a)) && !(a.Eq(b) && b.Lt(a))
    ensures a.Lt(b) && b.Lt(c) ==> a.Lt(c)
  {
  }

  /** Comparisons look at keys only: two nodes with the same keys compare the same
      way whatever their values and children. */
  lemma ComparisonIgnoresValues<V>(a: Node<V>, b: Node<V>, a': Node<V>, b': Node<V>)
    requires a.key == a'.key && b.key == b'.key
    ensures a.Lt(b) == a'.Lt(b') && a.Eq(b) == a'.Eq(b')
    ensures a.Le(b) == a'.Le(b') && a.Gt(b) == a'.Gt(b') && a.Ge(b) == a'.Ge(b')
  {
  }
}
