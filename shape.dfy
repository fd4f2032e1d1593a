/** The shape of a tree of nodes as a ghost value, and the operations of the tree
    (lookup, leftmost/rightmost descent, insertion, the three-case deletion) stated on
    that value. Keys are `const` fields, so everything here except `Mirrors`,
    `MirrorsCtx` (which read links) and `Holds` (which reads values) is independent of
    the heap. */
module BstShape {
  import opened BstNode

  /** A finite tree whose branches are labelled with nodes. */
  datatype Tree<V> = Leaf | Branch(node: Node<V>, left: Tree<V>, right: Tree<V>)

  /** The node at the top of a tree, `null` for the empty tree. */
  function RootOf<V>(t: Tree<V>): Node?<V>
  {
    if t.Leaf? then null else t.node
  }

  ghost function NodesOf<V>(t: Tree<V>): set<Node<V>>
  {
    match t
    case Leaf => {}
    case Branch(n, l, r) => {n} + NodesOf(l) + NodesOf(r)
  }

  ghost function Keys<V>(t: Tree<V>): set<int>
  {
    match t
    case Leaf => {}
    case Branch(n, l, r) => {n.key} + Keys(l) + Keys(r)
  }

  /** The number of positions of a tree. */
  ghost function Size<V>(t: Tree<V>): nat
  {
    match t
    case Leaf => 0
    case Branch(_, l, r) => 1 + Size(l) + Size(r)
  }

  /** No node occurs twice: the links form a tree, with no sharing and no cycle. */
  ghost predicate Distinct<V>(t: Tree<V>)
  {
    match t
    case Leaf => true
    case Branch(n, l, r) =>
      n !in NodesOf(l) && n !in NodesOf(r) && NodesOf(l) !! NodesOf(r) &&
      Distinct(l) && Distinct(r)
  }

  /** Binary-search-tree ordering: smaller keys to the left, larger to the right. */
  ghost predicate Ordered<V>(t: Tree<V>)
  {
    match t
    case Leaf => true
    case Branch(n, l, r) =>
      (forall k :: k in Keys(l) ==> k < n.key) &&
      (forall k :: k in Keys(r) ==> n.key < k) &&
      Ordered(l) && Ordered(r)
  }

  /** `s` occurs in `t` as the subtree below some position (or is `t` itself). */
  ghost predicate SubtreeOf<V>(s: Tree<V>, t: Tree<V>)
  {
    s == t || (t.Branch? && (SubtreeOf(s, t.left) || SubtreeOf(s, t.right)))
  }

  /** The heap links below `p` are exactly the shape `t`. Only the link fields are
      read, so writing a node's value leaves it intact. */
  ghost predicate Mirrors<V>(t: Tree<V>, p: Node?<V>)
    reads NodesOf(t)`left, NodesOf(t)`right
  {
    match t
    case Leaf => p == null
    case Branch(n, l, r) => p == n && Mirrors(l, n.left) && Mirrors(r, n.right)
  }

  /** The subtree that the search for `k` stops at: the one whose top node holds `k`,
      or a leaf when the descent runs out. */
  ghost function Find<V>(t: Tree<V>, k: int): (r: Tree<V>)
    ensures r.Branch? ==> r.node.key == k && r.node in NodesOf(t) && SubtreeOf(r, t)
  {
    match t
    case Leaf => Leaf
    case Branch(n, l, r) =>
      if k == n.key then t
      else if k < n.key then Find(l, k)
      else Find(r, k)
  }

  /** The subtree at the end of the chain of left links. */
  ghost function Leftmost<V>(t: Tree<V>): (r: Tree<V>)
    ensures r.Leaf? <==> t.Leaf?
    ensures r.Branch? ==> r.left.Leaf? && r.node in NodesOf(t) && SubtreeOf(r, t)
  {
    match t
    case Leaf => Leaf
    case Branch(_, l, _) => if l.Leaf? then t else Leftmost(l)
  }

  /** The subtree at the end of the chain of right links. */
  ghost function Rightmost<V>(t: Tree<V>): (r: Tree<V>)
    ensures r.Leaf? <==> t.Leaf?
    ensures r.Branch? ==> r.right.Leaf? && r.node in NodesOf(t) && SubtreeOf(r, t)
  {
    match t
    case Leaf => Leaf
    case Branch(_, _, r) => if r.Leaf? then t else Rightmost(r)
  }

  /** What takes the place of the subtree `t` when its top node is removed: the left
      subtree when there is no right child, else the right subtree when there is no
      left child, else the subtree of the leftmost node below `t` (found from `t`
      itself), which drops the rest of `t`. */
  ghost function Splice<V>(t: Tree<V>): (r: Tree<V>)
    requires t.Branch?
    ensures r.Leaf? <==> t.left.Leaf? && t.right.Leaf?
    ensures t.left.Branch? && t.right.Branch? ==> r == Leftmost(t.left) && r.left.Leaf?
  {
    if t.right.Leaf? then t.left
    else if t.left.Leaf? then t.right
    else Leftmost(t)
  }

  /** The shape left by removing key `k`: the descent of the search, with the subtree
      it stops at replaced by its `Splice`. */
  ghost function RemoveShape<V>(t: Tree<V>, k: int): (r: Tree<V>)
    ensures t.Leaf? ==> r.Leaf?
    ensures t.Branch? && k != t.node.key ==> r.Branch? && r.node == t.node
  {
    match t
    case Leaf => Leaf
    case Branch(n, l, r) =>
      if k == n.key then Splice(t)
      else if k < n.key then Branch(n, RemoveShape(l, k), r)
      else Branch(n, l, RemoveShape(r, k))
  }

  /** The shape after inserting node `m`: a new leaf at the empty slot the search for
      its key reaches; the shape is unchanged when the key is already present. */
  ghost function InsertShape<V>(t: Tree<V>, m: Node<V>): (r: Tree<V>)
    ensures r.Branch?
    ensures r.node == if t.Leaf? then m else t.node
  {
    match t
    case Leaf => Branch(m, Leaf, Leaf)
    case Branch(n, l, r) =>
      if m.key == n.key then t
      else if m.key < n.key then Branch(n, InsertShape(l, m), r)
      else Branch(n, l, InsertShape(r, m))
  }

  // ---------------------------------------------------------------------------
  // Subtrees

  /** A subtree has fewer nodes and keys than the tree, and keeps its invariants. */
  lemma {:induction false} SubtreeFacts<V>(s: Tree<V>, t: Tree<V>)
    requires SubtreeOf(s, t)
    ensures NodesOf(s) <= NodesOf(t) && Keys(s) <= Keys(t) && Size(s) <= Size(t)
    ensures Ordered(t) ==> Ordered(s)
    ensures Distinct(t) ==> Distinct(s)
  {
    if s != t {
      if SubtreeOf(s, t.left) {
        SubtreeFacts(s, t.left);
      } else {
        SubtreeFacts(s, t.right);
      }
    }
  }

  /** The heap below the top node of a subtree mirrors that subtree. */
  lemma {:induction false} SubtreeMirrors<V>(s: Tree<V>, t: Tree<V>, p: Node?<V>)
    requires SubtreeOf(s, t) && Mirrors(t, p)
    ensures Mirrors(s, RootOf(s))
  {
    if s != t {
      if SubtreeOf(s, t.left) {
        SubtreeMirrors(s, t.left, t.node.left);
      } else {
        SubtreeMirrors(s, t.right, t.node.right);
      }
    }
  }

  // ---------------------------------------------------------------------------
  // Lookup

  /** On an ordered tree the search for `k` fails exactly when `k` is not a key. */
  lemma {:induction false} FindComplete<V>(t: Tree<V>, k: int)
    requires Ordered(t)
    ensures Find(t, k).Leaf? <==> k !in Keys(t)
  {
    match t
    case Leaf =>
    case Branch(n, l, r) =>
      if k < n.key {
        FindComplete(l, k);
      } else if k > n.key {
        FindComplete(r, k);
      }
  }

  /** On an ordered tree the search for the key of any of its nodes finds that very
      node: keys identify nodes. */
  lemma {:induction false} FindMember<V>(t: Tree<V>, m: Node<V>)
    requires Ordered(t) && m in NodesOf(t)
    ensures Find(t, m.key).Branch? && Find(t, m.key).node == m
  {
    match t
    case Branch(n, l, r) =>
      if m in NodesOf(l) {
        KeysOfNodes(l, m);
        FindMember(l, m);
      } else if m in NodesOf(r) {
        KeysOfNodes(r, m);
        FindMember(r, m);
      }
  }

  /** The key of a node of `t` is a key of `t`. */
  lemma {:induction false} KeysOfNodes<V>(t: Tree<V>, m: Node<V>)
    requires m in NodesOf(t)
    ensures m.key in Keys(t)
  {
    match t
    case Branch(n, l, r) =>
      if m in NodesOf(l) {
        KeysOfNodes(l, m);
      } else if m in NodesOf(r) {
        KeysOfNodes(r, m);
      }
  }

  /** Keys identify nodes, so an ordered tree never holds a node twice. */
  lemma {:induction false} OrderedDistinct<V>(t: Tree<V>)
    requires Ordered(t)
    ensures Distinct(t)
  {
    match t
    case Leaf =>
    case Branch(n, l, r) =>
      OrderedDistinct(l);
      OrderedDistinct(r);
      forall m | m in NodesOf(l) ensures m != n && m !in NodesOf(r) {
        KeysOfNodes(l, m);
        if m in NodesOf(r) {
          KeysOfNodes(r, m);
        }
      }
      if n in NodesOf(r) {
        KeysOfNodes(r, n);
      }
  }

  /** Node comparison is the order of the tree: nodes on the left are `<` the top node,
      nodes on the right are `>` it, and two nodes of the tree are `==` only when they
      are the same node. */
  lemma OrderedAgreesWithLt<V>(t: Tree<V>)
    requires Ordered(t) && t.Branch?
    ensures forall m :: m in NodesOf(t.left) ==> m.Lt(t.node)
    ensures forall m :: m in NodesOf(t.right) ==> t.node.Lt(m)
    ensures forall m, m' :: m in NodesOf(t) && m' in NodesOf(t) ==> (m.Eq(m') <==> m == m')
  {
    forall m | m in NodesOf(t.left) ensures m.Lt(t.node) {
      KeysOfNodes(t.left, m);
    }
    forall m | m in NodesOf(t.right) ensures t.node.Lt(m) {
      KeysOfNodes(t.right, m);
    }
    forall m, m' | m in NodesOf(t) && m' in NodesOf(t) ensures m.Eq(m') <==> m == m' {
      FindMember(t, m);
      FindMember(t, m');
    }
  }

  /** An ordered tree holds as many keys as it has positions. */
  lemma {:induction false} OrderedKeysCount<V>(t: Tree<V>)
    requires Ordered(t)
    ensures |Keys(t)| == Size(t)
  {
    match t
    case Leaf =>
    case Branch(n, l, r) =>
      OrderedKeysCount(l);
      OrderedKeysCount(r);
      OrderedSides(t);
      assert |Keys(l) + Keys(r)| == |Keys(l)| + |Keys(r)|;
  }

  // ---------------------------------------------------------------------------
  // Minimum and maximum

  /** On an ordered tree the leftmost node holds the smallest key. */
  lemma {:induction false} LeftmostIsMin<V>(t: Tree<V>)
    requires Ordered(t) && t.Branch?
    ensures Leftmost(t).node.key in Keys(t)
    ensures forall k :: k in Keys(t) ==> Leftmost(t).node.key <= k
  {
    var l := t.left;
    if l.Branch? {
      LeftmostIsMin(l);
    }
  }

  /** On an ordered tree the rightmost node holds the largest key. */
  lemma {:induction false} RightmostIsMax<V>(t: Tree<V>)
    requires Ordered(t) && t.Branch?
    ensures Rightmost(t).node.key in Keys(t)
    ensures forall k :: k in Keys(t) ==> k <= Rightmost(t).node.key
  {
    var r := t.right;
    if r.Branch? {
      RightmostIsMax(r);
    }
  }

  // ---------------------------------------------------------------------------
  // Insertion

  /** Inserting adds exactly the new key, and adds the new node when its key was
      absent. */
  lemma {:induction false} InsertKeys<V>(t: Tree<V>, m: Node<V>)
    ensures Keys(InsertShape(t, m)) == Keys(t) + {m.key}
    ensures m.key !in Keys(t) ==> NodesOf(InsertShape(t, m)) == NodesOf(t) + {m}
    ensures m.key !in Keys(t) ==> Size(InsertShape(t, m)) == Size(t) + 1
    ensures m.key in Keys(t) && Ordered(t) ==> InsertShape(t, m) == t
  {
    match t
    case Leaf =>
    case Branch(n, l, r) =>
      if m.key < n.key {
        InsertKeys(l, m);
      } else if m.key > n.key {
        InsertKeys(r, m);
      }
  }

  /** Insertion keeps the tree ordered. */
  lemma {:induction false} InsertOrdered<V>(t: Tree<V>, m: Node<V>)
    requires Ordered(t)
    ensures Ordered(InsertShape(t, m))
  {
    match t
    case Leaf =>
    case Branch(n, l, r) =>
      if m.key < n.key {
        InsertOrdered(l, m);
        InsertKeys(l, m);
      } else if m.key > n.key {
        InsertOrdered(r, m);
        InsertKeys(r, m);
      }
  }

  /** Inserting a node that is not yet in the tree keeps it free of sharing. */
  lemma {:induction false} InsertDistinct<V>(t: Tree<V>, m: Node<V>)
    requires Distinct(t) && m !in NodesOf(t) && m.key !in Keys(t)
    ensures Distinct(InsertShape(t, m))
  {
    match t
    case Leaf =>
    case Branch(n, l, r) =>
      if m.key < n.key {
        InsertDistinct(l, m);
        InsertKeys(l, m);
      } else if m.key > n.key {
        InsertDistinct(r, m);
        InsertKeys(r, m);
      }
  }

  // ---------------------------------------------------------------------------
  // Deletion

  /** Removal keeps only nodes and keys of the tree, keeps it ordered and free of
      sharing, and changes nothing when the key is absent. */
  lemma {:induction false} RemoveShrinks<V>(t: Tree<V>, k: int)
    ensures NodesOf(RemoveShape(t, k)) <= NodesOf(t)
    ensures Keys(RemoveShape(t, k)) <= Keys(t)
    ensures Ordered(t) ==> Ordered(RemoveShape(t, k))
    ensures Distinct(t) ==> Distinct(RemoveShape(t, k))
    ensures k !in Keys(t) ==> RemoveShape(t, k) == t
    ensures Find(t, k).Branch? ==> Size(RemoveShape(t, k)) < Size(t)
  {
    match t
    case Leaf =>
    case Branch(n, l, r) =>
      if k == n.key {
        if r.Branch? && l.Branch? {
          SubtreeFacts(Leftmost(t), t);
          assert SubtreeOf(Leftmost(t), l);
          SubtreeFacts(Leftmost(t), l);
        }
      } else if k < n.key {
        RemoveShrinks(l, k);
      } else {
        RemoveShrinks(r, k);
      }
  }

  /** The keys of a `Splice` are keys of the subtree, and never its top key. */
  lemma SpliceKeys<V>(s: Tree<V>)
    requires Ordered(s) && s.Branch?
    ensures Keys(Splice(s)) <= Keys(s) - {s.node.key}
  {
    if s.left.Branch? && s.right.Branch? {
      assert SubtreeOf(Leftmost(s), s.left);
      SubtreeFacts(Leftmost(s), s.left);
    }
  }

  /** After removal from an ordered tree the key is gone, and exactly the keys of the
      subtree the search stopped at are replaced by those of its `Splice`. */
  lemma {:induction false} RemoveKeys<V>(t: Tree<V>, k: int)
    requires Ordered(t) && Find(t, k).Branch?
    ensures k !in Keys(RemoveShape(t, k))
    ensures Keys(RemoveShape(t, k)) == (Keys(t) - Keys(Find(t, k))) + Keys(Splice(Find(t, k)))
  {
    match t
    case Branch(n, l, r) =>
      if k == n.key {
        SpliceKeys(t);
      } else if k < n.key {
        OrderedSides(t);
        RemoveKeys(l, k);
        SubtreeFacts(Find(l, k), l);
        SpliceKeys(Find(l, k));
        RemoveKeysStep(n.key, Keys(l), Keys(r), Keys(Find(l, k)), Keys(Splice(Find(l, k))), Keys(RemoveShape(l, k)));
      } else {
        OrderedSides(t);
        RemoveKeys(r, k);
        SubtreeFacts(Find(r, k), r);
        SpliceKeys(Find(r, k));
        RemoveKeysStep(n.key, Keys(r), Keys(l), Keys(Find(r, k)), Keys(Splice(Find(r, k))), Keys(RemoveShape(r, k)));
      }
  }

  /** In an ordered tree the top key and the keys of the two subtrees are apart. */
  lemma OrderedSides<V>(t: Tree<V>)
    requires Ordered(t) && t.Branch?
    ensures t.node.key !in Keys(t.left) && t.node.key !in Keys(t.right)
    ensures Keys(t.left) !! Keys(t.right)
  {
    forall j | j in Keys(t.left) ensures j !in Keys(t.right) {
      assert j < t.node.key;
    }
  }

  /** The set algebra of one step of `RemoveKeys`: replacing `f` by `g` inside `a`
      does not touch the keys `x` and `b` that lie outside `a`. */
  lemma RemoveKeysStep(x: int, a: set<int>, b: set<int>, f: set<int>, g: set<int>, a': set<int>)
    requires f <= a && g <= f && x !in a && a !! b
    requires a' == (a - f) + g
    ensures {x} + a' + b == (({x} + a + b) - f) + g
  {
  }

  /** When the removed node has at most one child, exactly its key disappears. */
  lemma RemoveOneChildKeys<V>(t: Tree<V>, k: int)
    requires Ordered(t) && Find(t, k).Branch?
    requires Find(t, k).left.Leaf? || Find(t, k).right.Leaf?
    ensures Keys(RemoveShape(t, k)) == Keys(t) - {k}
  {
    RemoveKeys(t, k);
    SubtreeFacts(Find(t, k), t);
  }

  /** When the removed node has two children, every key of its right subtree
      disappears with it. */
  lemma RemoveTwoChildrenDropsRight<V>(t: Tree<V>, k: int)
    requires Ordered(t) && Find(t, k).Branch?
    requires Find(t, k).left.Branch? && Find(t, k).right.Branch?
    ensures Keys(RemoveShape(t, k)) !! Keys(Find(t, k).right)
    ensures Keys(RemoveShape(t, k)) < Keys(t) - {k}
  {
    var s := Find(t, k);
    RemoveKeys(t, k);
    SubtreeFacts(s, t);
    assert SubtreeOf(Leftmost(s), s.left);
    SubtreeFacts(Leftmost(s), s.left);
    var kept := Keys(RemoveShape(t, k));
    assert kept == (Keys(t) - Keys(s)) + Keys(Leftmost(s));
    assert Keys(s.right) <= Keys(s);
    assert Keys(Leftmost(s)) !! Keys(s.right) by {
      forall j | j in Keys(Leftmost(s)) ensures j !in Keys(s.right) {
        assert j in Keys(s.left);
      }
    }
    var j := s.right.node.key;
    assert j in Keys(t) - {k} && j !in kept;
  }

  // ---------------------------------------------------------------------------
  // What a tree holds

  /** The map `c` is what `t` holds: its keys are the keys of `t`, and the node the
      search for each key stops at carries that key's value. Only the value fields
      are read, so relinking nodes leaves it intact. */
  ghost predicate Holds<V>(t: Tree<V>, c: map<int, V>)
    reads NodesOf(t)`value
  {
    c.Keys == Keys(t) &&
    forall k :: k in c ==> Find(t, k).Branch? && Find(t, k).node.value == c[k]
  }

  /** The part of `c` whose keys are in `s`. */
  function Restrict<V>(c: map<int, V>, s: set<int>): (r: map<int, V>)
    ensures r.Keys == c.Keys * s
    ensures forall k :: k in r ==> r[k] == c[k]
  {
    map k | k in c && k in s :: c[k]
  }

  /** Inserting a node with a new key adds that key, with the node's value, to what
      the tree holds. */
  lemma HoldsInsert<V>(t: Tree<V>, c: map<int, V>, m: Node<V>)
    requires Ordered(t) && Holds(t, c) && m.key !in Keys(t)
    ensures Holds(InsertShape(t, m), c[m.key := m.value]) && Ordered(InsertShape(t, m))
    ensures NodesOf(InsertShape(t, m)) == NodesOf(t) + {m} && Size(InsertShape(t, m)) == Size(t) + 1
  {
    InsertKeys(t, m);
    InsertOrdered(t, m);
    var t' := InsertShape(t, m);
    var c' := c[m.key := m.value];
    forall k | k in c'
      ensures Find(t', k).Branch? && Find(t', k).node.value == c'[k]
    {
      if k == m.key {
        FindMember(t', m);
      } else {
        FindMember(t', Find(t, k).node);
      }
    }
  }

  /** After a removal the tree holds what it held, restricted to the keys left. */
  lemma HoldsRemove<V>(t: Tree<V>, c: map<int, V>, k: int)
    requires Ordered(t) && Holds(t, c)
    ensures Holds(RemoveShape(t, k), Restrict(c, Keys(RemoveShape(t, k))))
  {
    RemoveShrinks(t, k);
    var t' := RemoveShape(t, k);
    var c' := Restrict(c, Keys(t'));
    forall j | j in c'
      ensures Find(t', j).Branch? && Find(t', j).node.value == c'[j]
    {
      FindComplete(t', j);
      FindMember(t, Find(t', j).node);
    }
  }

  // ---------------------------------------------------------------------------
  // Contexts: the part of a tree above a position, innermost step first

  /** One step of a descent: the node left behind and the subtree not taken. */
  datatype Crumb<V> = WentLeft(node: Node<V>, sibling: Tree<V>) | WentRight(node: Node<V>, sibling: Tree<V>)

  function Wrap<V>(c: Crumb<V>, s: Tree<V>): Tree<V>
  {
    match c
    case WentLeft(n, sib) => Branch(n, s, sib)
    case WentRight(n, sib) => Branch(n, sib, s)
  }

  /** The tree obtained by putting `s` back at the position the context describes. */
  ghost function Plug<V>(ctx: seq<Crumb<V>>, s: Tree<V>): Tree<V>
    decreases |ctx|
  {
    if ctx == [] then s else Plug(ctx[1..], Wrap(ctx[0], s))
  }

  ghost function CtxNodes<V>(ctx: seq<Crumb<V>>): set<Node<V>>
    decreases |ctx|
  {
    if ctx == [] then {} else {ctx[0].node} + NodesOf(ctx[0].sibling) + CtxNodes(ctx[1..])
  }

  ghost predicate DistinctCtx<V>(ctx: seq<Crumb<V>>)
    decreases |ctx|
  {
    ctx != [] ==>
      ctx[0].node !in NodesOf(ctx[0].sibling) && ctx[0].node !in CtxNodes(ctx[1..]) &&
      NodesOf(ctx[0].sibling) !! CtxNodes(ctx[1..]) &&
      Distinct(ctx[0].sibling) && DistinctCtx(ctx[1..])
  }

  /** Key `k` lies on the side of every step of the context that the step took. */
  ghost predicate Bounded<V>(ctx: seq<Crumb<V>>, k: int)
  {
    forall i :: 0 <= i < |ctx| ==>
      (ctx[i].WentLeft? ==> k < ctx[i].node.key) && (ctx[i].WentRight? ==> ctx[i].node.key < k)
  }

  /** The heap links above the position match the context, the innermost node
      pointing at `hole` and the outermost one being `root`. */
  ghost predicate MirrorsCtx<V>(ctx: seq<Crumb<V>>, root: Node?<V>, hole: Node?<V>)
    reads CtxNodes(ctx)`left, CtxNodes(ctx)`right
    decreases |ctx|
  {
    if ctx == [] then root == hole
    else
      var n := ctx[0].node;
      (match ctx[0]
       case WentLeft(_, sib) => n.left == hole && Mirrors(sib, n.right)
       case WentRight(_, sib) => n.right == hole && Mirrors(sib, n.left)) &&
      MirrorsCtx(ctx[1..], root, n)
  }

  /** Above a position that is not the top, the root is one of the context's nodes. */
  lemma {:induction false} MirrorsCtxRoot<V>(ctx: seq<Crumb<V>>, root: Node?<V>, hole: Node?<V>)
    requires ctx != [] && MirrorsCtx(ctx, root, hole)
    ensures root in CtxNodes(ctx)
    decreases |ctx|
  {
    if ctx[1..] != [] {
      MirrorsCtxRoot(ctx[1..], root, ctx[0].node);
    }
  }

  /** A context and a subtree that both match the heap make the whole tree match. */
  lemma {:induction false} MirrorsPlug<V>(ctx: seq<Crumb<V>>, s: Tree<V>, root: Node?<V>)
    requires MirrorsCtx(ctx, root, RootOf(s)) && Mirrors(s, RootOf(s))
    ensures Mirrors(Plug(ctx, s), root)
    decreases |ctx|
  {
    if ctx != [] {
      MirrorsPlug(ctx[1..], Wrap(ctx[0], s), root);
    }
  }

  /** The parts of a tree free of sharing, taken apart at a position, are free of
      sharing and apart from each other. */
  lemma {:induction false} DistinctPlug<V>(ctx: seq<Crumb<V>>, s: Tree<V>)
    requires Distinct(Plug(ctx, s))
    ensures DistinctCtx(ctx) && Distinct(s) && CtxNodes(ctx) !! NodesOf(s)
    ensures NodesOf(Plug(ctx, s)) == CtxNodes(ctx) + NodesOf(s)
    decreases |ctx|
  {
    if ctx != [] {
      DistinctPlug(ctx[1..], Wrap(ctx[0], s));
    }
  }

  /** Inserting below a position whose context the key respects is inserting into
      the subtree at that position. */
  lemma {:induction false} InsertPlug<V>(ctx: seq<Crumb<V>>, s: Tree<V>, m: Node<V>)
    requires Bounded(ctx, m.key)
    ensures InsertShape(Plug(ctx, s), m) == Plug(ctx, InsertShape(s, m))
    decreases |ctx|
  {
    if ctx != [] {
      assert Bounded(ctx[1..], m.key) by {
        forall i | 0 <= i < |ctx| - 1 ensures ctx[1..][i] == ctx[i + 1] { }
      }
      InsertPlug(ctx[1..], Wrap(ctx[0], s), m);
    }
  }

  /** Removing below a position whose context the key respects is removing from the
      subtree at that position. */
  lemma {:induction false} RemovePlug<V>(ctx: seq<Crumb<V>>, s: Tree<V>, k: int)
    requires Bounded(ctx, k)
    ensures RemoveShape(Plug(ctx, s), k) == Plug(ctx, RemoveShape(s, k))
    decreases |ctx|
  {
    if ctx != [] {
      assert Bounded(ctx[1..], k) by {
        forall i | 0 <= i < |ctx| - 1 ensures ctx[1..][i] == ctx[i + 1] { }
      }
      RemovePlug(ctx[1..], Wrap(ctx[0], s), k);
    }
  }

  /** The nodes of the context stay in the tree whatever is put at the position. */
  lemma {:induction false} CtxInPlug<V>(ctx: seq<Crumb<V>>, s: Tree<V>)
    ensures CtxNodes(ctx) + NodesOf(s) <= NodesOf(Plug(ctx, s))
    decreases |ctx|
  {
    if ctx != [] {
      assert NodesOf(Wrap(ctx[0], s)) == {ctx[0].node} + NodesOf(ctx[0].sibling) + NodesOf(s);
      CtxInPlug(ctx[1..], Wrap(ctx[0], s));
    }
  }

  /** Removing a key below a position keeps the node just above that position. */
  lemma ParentSurvives<V>(ctx: seq<Crumb<V>>, s: Tree<V>, k: int)
    requires ctx != [] && Bounded(ctx, k)
    ensures ctx[0].node in NodesOf(RemoveShape(Plug(ctx, s), k))
  {
    RemovePlug(ctx, s, k);
    CtxInPlug(ctx, RemoveShape(s, k));
  }

  // ---------------------------------------------------------------------------
  // A worked example

  /** Inserting keys 5, 2, 8, 1, 9 in that order builds 5 with children 2 and 8,
      1 below 2 on the left and 9 below 8 on the right. */
  lemma {:induction false} InsertScenario<V>(n5: Node<V>, n2: Node<V>, n8: Node<V>, n1: Node<V>, n9: Node<V>)
    requires n5.key == 5 && n2.key == 2 && n8.key == 8 && n1.key == 1 && n9.key == 9
    ensures InsertShape(InsertShape(InsertShape(InsertShape(InsertShape(Leaf, n5), n2), n8), n1), n9)
         == Branch(n5, Branch(n2, Branch(n1, Leaf, Leaf), Leaf), Branch(n8, Leaf, Branch(n9, Leaf, Leaf)))
  {
    var a := InsertShape(Leaf, n5);
    assert a == Branch(n5, Leaf, Leaf);
    assert InsertShape(Leaf, n2) == Branch(n2, Leaf, Leaf);
    var b := InsertShape(a, n2);
    assert b == Branch(n5, Branch(n2, Leaf, Leaf), Leaf);
    assert InsertShape(Leaf, n8) == Branch(n8, Leaf, Leaf);
    var c := InsertShape(b, n8);
    assert c == Branch(n5, Branch(n2, Leaf, Leaf), Branch(n8, Leaf, Leaf));
    var d := InsertShape(c, n1);
    assert InsertShape(Branch(n2, Leaf, Leaf), n1) == Branch(n2, Branch(n1, Leaf, Leaf), Leaf);
    assert d == Branch(n5, Branch(n2, Branch(n1, Leaf, Leaf), Leaf), Branch(n8, Leaf, Leaf));
    assert InsertShape(Branch(n8, Leaf, Leaf), n9) == Branch(n8, Leaf, Branch(n9, Leaf, Leaf));
  }

  /** Removing 5 from that tree, whose node has two children, leaves the single key 1:
      the leftmost node below 5 replaces it, and keys 2, 8 and 9 go with it. */
  lemma RemoveScenario<V>(n5: Node<V>, n2: Node<V>, n8: Node<V>, n1: Node<V>, n9: Node<V>)
    requires n5.key == 5 && n2.key == 2 && n8.key == 8 && n1.key == 1 && n9.key == 9
    ensures
      var t := Branch(n5, Branch(n2, Branch(n1, Leaf, Leaf), Leaf), Branch(n8, Leaf, Branch(n9, Leaf, Leaf)));
      Keys(t) == {1, 2, 5, 8, 9} && Ordered(t) &&
      RemoveShape(t, 5) == Branch(n1, Leaf, Leaf) && Keys(RemoveShape(t, 5)) == {1}
  {
    var t1 := Branch(n1, Leaf, Leaf);
    var t9 := Branch(n9, Leaf, Leaf);
    var t2 := Branch(n2, t1, Leaf);
    var t8 := Branch(n8, Leaf, t9);
    var t := Branch(n5, t2, t8);
    assert Keys(t1) == {1};
    assert Keys(t9) == {9};
    assert Keys(t2) == {1, 2};
    assert Keys(t8) == {8, 9};
    assert Ordered(t1) && Ordered(t9);
    assert Ordered(t2) && Ordered(t8);
    assert Leftmost(t2) == t1;
  }
}
