/** The unbalanced binary-search-tree map: a root link and a running node count,
    with lookup, insert-or-update, three-case deletion, leftmost and rightmost descent,
    and the container protocol (`len`, `in`, `bool`, `[]`, `[]=`). */
module BstTree {
  import opened Wrappers
  import opened BstNode
  import opened BstShape

  /** The argument of `in`: a key, or a node whose key is looked up. */
  datatype Item<V> = KeyItem(key: int) | NodeItem(node: Node<V>)
  {
    function Key(): (k: int)
      ensures KeyItem? ==> k == key
      ensures NodeItem? ==> k == node.key
    {
      match this
      case KeyItem(k) => k
      case NodeItem(n) => n.key
    }
  }

  class BSTree<V> {
    var root: Node?<V>
    var count: nat

    // public view: the shape of the linked nodes and the key-to-value map they hold
    ghost var shape: Tree<V>
    ghost var Contents: map<int, V>
    ghost var Repr: set<object>

    /** The object invariant. The links from `root` are the finite, unshared, ordered
        tree `shape`; `Contents` maps each of its keys to the value of the node that
        holds it. `count` is never below the number of nodes (it can be above it once a
        removal has dropped a subtree), and it is zero exactly when there is no root. */
    ghost predicate Valid()
      reads this, Repr
      ensures Valid() ==> this in Repr
    {
      this in Repr && Repr == {this} + NodesOf(shape) &&
      Mirrors(shape, root) && Ordered(shape) && Holds(shape, Contents) &&
      Size(shape) <= count && (root == null <==> count == 0)
    }

    constructor ()
      ensures Valid() && fresh(Repr)
      ensures Contents == map[] && count == 0 && root == null
    {
      root := null;
      count := 0;
      shape := Leaf;
      Contents := map[];
      Repr := {this};
    }

    /** The `root` setter: it refuses anything that is not a node, `None` included. */
    method SetRoot(node: Node?<V>) returns (r: Outcome)
      modifies this`root
      ensures r == if node == null then Fail(TypeError) else Pass
      ensures root == if node == null then old(root) else node
    {
      if node == null {
        return Fail(TypeError);
      }
      root := node;
      return Pass;
    }

    /** Iterative lookup: the node holding `key`, or `null` when no node does. */
    method Get(key: int) returns (r: Node?<V>)
      requires Valid()
      ensures r == null <==> key !in Contents
      ensures r != null ==> r in Repr && r.key == key && r.value == Contents[key]
    {
      var current := root;
      ghost var sub := shape;
      while current != null
        invariant Mirrors(sub, current)
        invariant Find(shape, key) == Find(sub, key)
        decreases sub
      {
        if key == current.key {
          FindComplete(shape, key);
          return current;
        } else if key < current.key {
          current := current.left;
          sub := sub.left;
        } else {
          current := current.right;
          sub := sub.right;
        }
      }
      FindComplete(shape, key);
      return null;
    }

    /** Insert-or-update. A present key gets the new value in its node and nothing else
        changes; an absent key gets a new leaf at the empty slot the search reaches (or
        becomes the root of an empty tree), and the count goes up by one. */
    method Add(key: int, value: V)
      requires Valid()
      modifies Repr
      ensures Valid() && fresh(Repr - old(Repr))
      ensures Contents == old(Contents)[key := value]
      ensures key in old(Contents) ==> shape == old(shape) && count == old(count) && Repr == old(Repr)
      ensures key !in old(Contents) ==>
        count == old(count) + 1 && Find(shape, key).Branch? && fresh(Find(shape, key).node) &&
        shape == InsertShape(old(shape), Find(shape, key).node)
    {
      if root == null {
        var m := new Node(key, value, null, null);
        var _ := SetRoot(m);
        count := count + 1;
        shape := Branch(m, Leaf, Leaf);
        Contents := map[key := value];
        Repr := Repr + {m};
        FindComplete(old(shape), key);
        return;
      }

      var current: Node<V>;
      ghost var ctx: seq<Crumb<V>>, sub: Tree<V>;
      current, ctx, sub := Descend(key);
      FindComplete(shape, key);
      if key == current.key {
        Overwrite(current, value);
        return;
      }

      Hang(current, key, value, ctx, sub);
    }

    /** The insertion proper: a new leaf holding `key` and `value` on the empty link
        of `current` that the descent for the absent `key` stopped at. */
    method Hang(current: Node<V>, key: int, value: V, ghost ctx: seq<Crumb<V>>, ghost sub: Tree<V>)
      requires Valid() && key !in Contents
      requires sub.Branch? && sub.node == current && shape == Plug(ctx, sub) && current in NodesOf(shape)
      requires Mirrors(sub, current) && MirrorsCtx(ctx, root, current) && Bounded(ctx, key)
      requires (key < current.key && current.left == null) || (current.key < key && current.right == null)
      modifies Repr
      ensures Valid() && fresh(Repr - old(Repr)) && Contents == old(Contents)[key := value]
      ensures count == old(count) + 1 && Find(shape, key).Branch? && fresh(Find(shape, key).node) &&
        shape == InsertShape(old(shape), Find(shape, key).node)
    {
      OrderedDistinct(shape);
      DistinctPlug(ctx, sub);
      var m := new Node(key, value, null, null);
      Attach(current, m, ctx, sub, root, NodesOf(shape));
      count := count + 1;
      CommitInsert(shape, Contents, m);
    }

    /** The ghost bookkeeping after an insertion: the tree becomes `t` with the leaf
        `m` inserted, and the contents gain `m`'s key and value. */
    ghost method CommitInsert(t: Tree<V>, c: map<int, V>, m: Node<V>)
      requires Mirrors(InsertShape(t, m), root) && Ordered(t) && Holds(t, c) && m.key !in Keys(t)
      requires Size(t) < count
      modifies this`shape, this`Contents, this`Repr
      ensures Valid() && shape == InsertShape(t, m) && Contents == c[m.key := m.value]
      ensures Repr == {this} + NodesOf(t) + {m}
      ensures Find(shape, m.key).Branch? && Find(shape, m.key).node == m
    {
      HoldsInsert(t, c, m);
      FindMember(InsertShape(t, m), m);
      Commit(InsertShape(t, m), c[m.key := m.value]);
    }

    /** Make `t` and `c` the shape and the contents, once the links already match `t`
        and its nodes already hold `c`. */
    ghost method Commit(t: Tree<V>, c: map<int, V>)
      requires Mirrors(t, root) && Ordered(t) && Holds(t, c)
      requires Size(t) <= count && (root == null <==> count == 0)
      modifies this`shape, this`Contents, this`Repr
      ensures Valid() && shape == t && Contents == c && Repr == {this} + NodesOf(t)
    {
      shape := t;
      Contents := c;
      Repr := {this} + NodesOf(t);
    }

    /** `_new_node` and the link write of `add`: a new leaf holding `key` and `value`
        on the empty link of `current` on the side of `key`; the links then match the
        tree with that leaf inserted below `current`. */
    static method Attach(current: Node<V>, m: Node<V>, ghost ctx: seq<Crumb<V>>, ghost sub: Tree<V>,
                         ghost root: Node?<V>, ghost nodes: set<Node<V>>)
      requires sub.Branch? && sub.node == current && Distinct(Plug(ctx, sub)) && Bounded(ctx, m.key)
      requires nodes == NodesOf(Plug(ctx, sub)) && m !in nodes && m.left == null && m.right == null
      requires Mirrors(sub, current) && MirrorsCtx(ctx, root, current)
      requires (m.key < current.key && current.left == null) || (current.key < m.key && current.right == null)
      modifies current`left, current`right
      ensures Mirrors(InsertShape(Plug(ctx, sub), m), root)
    {
      DistinctPlug(ctx, sub);
      assert current !in CtxNodes(ctx);
      if m.key < current.key {
        current.left := m;
        assert Mirrors(sub.right, current.right);
      } else {
        current.right := m;
        assert Mirrors(sub.left, current.left);
      }
      assert Mirrors(InsertShape(sub, m), current);
      assert MirrorsCtx(ctx, root, current);
      MirrorsPlug(ctx, InsertShape(sub, m), root);
      InsertPlug(ctx, sub, m);
    }

    /** The descent of `add`: from the root, go left or right by key until reaching
        the node that holds `key` or a node whose link on the side of `key` is empty. */
    method Descend(key: int) returns (current: Node<V>, ghost ctx: seq<Crumb<V>>, ghost sub: Tree<V>)
      requires Valid() && root != null
      ensures sub.Branch? && sub.node == current && NodesOf(sub) <= NodesOf(shape)
      ensures shape == Plug(ctx, sub) && Mirrors(sub, current) && MirrorsCtx(ctx, root, current)
      ensures Bounded(ctx, key) && Find(shape, key) == Find(sub, key)
      ensures key == current.key || (key < current.key && current.left == null) ||
              (current.key < key && current.right == null)
    {
      current := root;
      ctx := [];
      sub := shape;
      while true
        invariant sub.Branch? && sub.node == current && NodesOf(sub) <= NodesOf(shape)
        invariant shape == Plug(ctx, sub) && Mirrors(sub, current) && MirrorsCtx(ctx, root, current)
        invariant Bounded(ctx, key) && Find(shape, key) == Find(sub, key)
        decreases sub
      {
        if key == current.key {
          return;
        } else if key < current.key {
          if current.left == null {
            return;
          }
          ctx := [WentLeft(current, sub.right)] + ctx;
          current := current.left;
          sub := sub.left;
        } else {
          if current.right == null {
            return;
          }
          ctx := [WentRight(current, sub.left)] + ctx;
          current := current.right;
          sub := sub.right;
        }
      }
    }

    /** Write a new value into the node of the tree that holds `node.key`: what the
        tree holds changes at that key only, and no link changes. */
    method Overwrite(node: Node<V>, value: V)
      requires Valid() && node in NodesOf(shape)
      modifies node`value, this`Contents
      ensures Valid() && Contents == old(Contents)[node.key := value] && node.value == value
    {
      FindMember(shape, node);
      KeysOfNodes(shape, node);
      node.value := value;
      Contents := Contents[node.key := value];
      forall k | k in Contents
        ensures Find(shape, k).Branch? && Find(shape, k).node.value == Contents[k]
      {
        if k != node.key {
          FindComplete(shape, k);
        }
      }
    }

    /** `_swap_node`: point the link that leads to `currentChild` at `newChild`; the
        root when there is no parent (through the `root` setter, which can refuse),
        else the parent's left link if that is `currentChild`, else its right link. */
    method SwapNode(parent: Node?<V>, currentChild: Node?<V>, newChild: Node?<V>) returns (r: Outcome)
      modifies this`root, NodeSet(parent)`left, NodeSet(parent)`right
      ensures parent == null ==>
        r == (if newChild == null then Fail(TypeError) else Pass) &&
        root == (if newChild == null then old(root) else newChild)
      ensures parent != null ==> r == Pass && root == old(root)
      ensures parent != null && old(parent.left) == currentChild ==>
        parent.left == newChild && parent.right == old(parent.right)
      ensures parent != null && old(parent.left) != currentChild ==>
        parent.right == newChild && parent.left == old(parent.left)
    {
      if parent == null {
        r := SetRoot(newChild);
      } else if currentChild == parent.left {
        parent.left := newChild;
        r := Pass;
      } else {
        parent.right := newChild;
        r := Pass;
      }
    }

    /** Three-case deletion. An absent key changes nothing. Otherwise the link to the
        node holding `key` is pointed at its left subtree (no right child), its right
        subtree (no left child) or the leftmost node below it (two children), and the
        count drops by one. When that node is a childless root the `root` setter
        refuses `null` and nothing changes. */
    method Remove(key: int) returns (r: Outcome)
      requires Valid()
      modifies Repr
      ensures Valid() && Repr <= old(Repr)
      ensures r.Fail? <==>
        old(root != null && root.key == key && root.left == null && root.right == null)
      ensures r.Fail? ==> r.error == TypeError
      ensures key !in old(Contents) || r.Fail? ==> unchanged(Repr)
      ensures key in old(Contents) && r.Pass? ==>
        shape == RemoveShape(old(shape), key) && count == old(count) - 1 && key !in Contents
      ensures forall k :: k in Contents ==> k in old(Contents) && Contents[k] == old(Contents)[k]
      ensures (key in old(Contents) && r.Pass? &&
                (Find(old(shape), key).left.Leaf? || Find(old(shape), key).right.Leaf?)) ==>
        Contents.Keys == old(Contents).Keys - {key}
      ensures (key in old(Contents) && r.Pass? &&
                Find(old(shape), key).left.Branch? && Find(old(shape), key).right.Branch?) ==>
        Contents.Keys < old(Contents).Keys - {key}
      ensures forall n: Node<V> :: n in old(Repr) ==> n.value == old(n.value)
      ensures forall n: Node<V> :: n in old(NodesOf(shape)) && n !in NodesOf(shape) ==>
        n.left == old(n.left) && n.right == old(n.right)
    {
      var parent: Node?<V>, current: Node?<V>;
      ghost var ctx: seq<Crumb<V>>, sub: Tree<V>;
      parent, current, ctx, sub := Locate(key);
      FindComplete(shape, key);
      if current == null {
        return Pass;
      }
      ghost var t0 := shape;
      r := Delete(parent, current, ctx, sub);
      if r.Pass? {
        if Find(t0, key).left.Leaf? || Find(t0, key).right.Leaf? {
          RemoveOneChildKeys(t0, key);
        } else {
          RemoveTwoChildrenDropsRight(t0, key);
        }
      }
    }

    /** The descent of `remove`: from the root, go left or right by key, remembering
        the node left behind, until reaching the node that holds `key` or running off
        the tree. */
    method Locate(key: int) returns (parent: Node?<V>, current: Node?<V>, ghost ctx: seq<Crumb<V>>,
                                     ghost sub: Tree<V>)
      requires Valid()
      ensures shape == Plug(ctx, sub) && Mirrors(sub, current) && MirrorsCtx(ctx, root, current)
      ensures Bounded(ctx, key) && Find(shape, key) == Find(sub, key)
      ensures parent == if ctx == [] then null else ctx[0].node
      ensures current == null || current.key == key
    {
      parent := null;
      current := root;
      ctx := [];
      sub := shape;
      while current != null
        invariant shape == Plug(ctx, sub) && Mirrors(sub, current) && MirrorsCtx(ctx, root, current)
        invariant Bounded(ctx, key) && Find(shape, key) == Find(sub, key)
        invariant parent == if ctx == [] then null else ctx[0].node
        decreases sub
      {
        if key == current.key {
          break;
        }
        parent := current;
        if key < current.key {
          ctx := [WentLeft(current, sub.right)] + ctx;
          current := current.left;
          sub := sub.left;
        } else {
          ctx := [WentRight(current, sub.left)] + ctx;
          current := current.right;
          sub := sub.right;
        }
      }
    }

    /** The deletion proper, once the descent has found the node `current` holding
        `key` below `parent`. */
    method Delete(parent: Node?<V>, current: Node<V>, ghost ctx: seq<Crumb<V>>, ghost sub: Tree<V>)
      returns (r: Outcome)
      requires Valid() && sub.Branch? && sub.node == current
      requires shape == Plug(ctx, sub) && Mirrors(sub, current) && MirrorsCtx(ctx, root, current)
      requires Bounded(ctx, current.key) && Find(shape, current.key) == sub
      requires parent == if ctx == [] then null else ctx[0].node
      modifies Repr
      ensures Valid() && Repr <= old(Repr)
      ensures r.Fail? <==> old(root) == current && old(current.left) == null && old(current.right) == null
      ensures r.Fail? ==> r.error == TypeError && unchanged(Repr)
      ensures r.Pass? ==> shape == RemoveShape(old(shape), current.key) && count == old(count) - 1
      ensures r.Pass? ==> Contents == Restrict(old(Contents), Keys(shape))
      ensures r.Pass? && parent != null ==> parent in NodesOf(shape)
      ensures forall n: Node<V> :: n in old(Repr) && n != parent ==>
        n.left == old(n.left) && n.right == old(n.right)
      ensures forall n: Node<V> :: n in old(Repr) ==> n.value == old(n.value)
    {
      ghost var t0 := shape;
      ghost var key := current.key;
      if ctx != [] {
        ParentSurvives(ctx, sub, key);
      }
      OrderedDistinct(t0);
      DistinctPlug(ctx, sub);
      r := Unlink(parent, current, ctx, sub, NodesOf(t0));
      if r.Fail? {
        return;
      }
      CommitRemove(t0, Contents, key);
    }

    /** The count and the ghost bookkeeping after a removal: the count drops by one, the
        tree becomes `t` without `key`, and the contents keep the keys that tree still
        holds. */
    method CommitRemove(ghost t: Tree<V>, ghost c: map<int, V>, ghost key: int)
      requires Mirrors(RemoveShape(t, key), root) && root != null
      requires Ordered(t) && Holds(t, c) && Find(t, key).Branch? && Size(t) <= count && 0 < count
      modifies this`count, this`shape, this`Contents, this`Repr
      ensures Valid() && shape == RemoveShape(t, key) && Contents == Restrict(c, Keys(shape))
      ensures Repr <= {this} + NodesOf(t) && count == old(count) - 1
    {
      count := count - 1;
      RemoveShrinks(t, key);
      HoldsRemove(t, c, key);
      Commit(RemoveShape(t, key), Restrict(c, Keys(RemoveShape(t, key))));
    }

    /** The link write of `remove`: `_swap_node` points the link that leads to `current`
        at what takes its place. Afterwards the links match the tree with `current`'s
        key removed, unless the root setter refused `null`, which changes nothing. */
    method Unlink(parent: Node?<V>, current: Node<V>, ghost ctx: seq<Crumb<V>>, ghost sub: Tree<V>,
                  ghost nodes: set<Node<V>>) returns (r: Outcome)
      requires sub.Branch? && sub.node == current && Distinct(Plug(ctx, sub))
      requires nodes == NodesOf(Plug(ctx, sub))
      requires Mirrors(sub, current) && MirrorsCtx(ctx, root, current) && Bounded(ctx, current.key)
      requires parent == if ctx == [] then null else ctx[0].node
      modifies this`root, NodeSet(parent)`left, NodeSet(parent)`right
      ensures r.Fail? <==> old(root) == current && old(current.left) == null && old(current.right) == null
      ensures r.Fail? ==> r == Fail(TypeError) && parent == null && root == old(root)
      ensures r.Pass? ==> Mirrors(RemoveShape(Plug(ctx, sub), current.key), root) && root != null
      ensures forall n :: n in nodes && n != parent ==> n.left == old(n.left) && n.right == old(n.right)
      ensures forall n :: n in nodes ==> n.value == old(n.value)
    {
      DistinctPlug(ctx, sub);
      if ctx != [] {
        MirrorsCtxRoot(ctx, root, current);
      }
      var newChild: Node?<V>;
      ghost var newSub: Tree<V>;
      newChild, newSub := Replacement(current, sub);
      if ctx != [] {
        assert parent.left == current <==> ctx[0].WentLeft?;
      }
      r := SwapNode(parent, current, newChild);
      if r.Pass? {
        assert MirrorsCtx(ctx, root, newChild);
        MirrorsPlug(ctx, newSub, root);
        RemovePlug(ctx, sub, current.key);
      }
    }

    /** What takes the place of `current` in `remove`: its left child when it has no
        right child, else its right child when it has no left child, else the leftmost
        node below it. */
    static method Replacement(current: Node<V>, ghost sub: Tree<V>) returns (newChild: Node?<V>, ghost newSub: Tree<V>)
      requires sub.Branch? && sub.node == current && Mirrors(sub, current) && Distinct(sub)
      ensures newSub == Splice(sub) && Mirrors(newSub, newChild)
      ensures NodesOf(newSub) <= NodesOf(sub) - {current}
      ensures newChild == null <==> current.left == null && current.right == null
    {
      if current.right == null {
        newChild, newSub := current.left, sub.left;
      } else if current.left == null {
        newChild, newSub := current.right, sub.right;
      } else {
        newChild := FindMinNode(current, sub);
        newSub := Leftmost(sub);
        assert newSub == Leftmost(sub.left);
        SubtreeFacts(newSub, sub.left);
      }
    }

    /** `_find_min_node`: follow left links from `node` to a node without a left child;
        `null` for `null`. */
    static method FindMinNode(node: Node?<V>, ghost t: Tree<V>) returns (r: Node?<V>)
      requires Mirrors(t, node)
      ensures r == RootOf(Leftmost(t)) && Mirrors(Leftmost(t), r)
      ensures r == null <==> node == null
      ensures r != null ==> r.left == null
    {
      if node == null {
        return null;
      }
      r := node;
      ghost var sub := t;
      while true
        invariant r != null && Mirrors(sub, r) && Leftmost(sub) == Leftmost(t)
        decreases sub
      {
        if r.left == null {
          SubtreeMirrors(Leftmost(t), t, node);
          return r;
        }
        r := r.left;
        sub := sub.left;
      }
    }

    /** `_find_max_node`: follow right links from `node` to a node without a right
        child; `null` for `null`. */
    static method FindMaxNode(node: Node?<V>, ghost t: Tree<V>) returns (r: Node?<V>)
      requires Mirrors(t, node)
      ensures r == RootOf(Rightmost(t)) && Mirrors(Rightmost(t), r)
      ensures r == null <==> node == null
      ensures r != null ==> r.right == null
    {
      if node == null {
        return null;
      }
      r := node;
      ghost var sub := t;
      while true
        invariant r != null && Mirrors(sub, r) && Rightmost(sub) == Rightmost(t)
        decreases sub
      {
        if r.right == null {
          SubtreeMirrors(Rightmost(t), t, node);
          return r;
        }
        r := r.right;
        sub := sub.right;
      }
    }

    /** The smallest key with its value; reading them from the missing node of an empty
        tree raises `AttributeError`. */
    method FindMin() returns (r: Result<(int, V)>)
      requires Valid()
      ensures r.Err? <==> Contents == map[]
      ensures r.Err? ==> r.error == AttributeError
      ensures r.Ok? ==> r.value.0 in Contents && Contents[r.value.0] == r.value.1
      ensures r.Ok? ==> forall k :: k in Contents ==> r.value.0 <= k
    {
      var node := FindMinNode(root, shape);
      if node == null {
        return Err(AttributeError);
      }
      LeftmostIsMin(shape);
      FindMember(shape, node);
      return Ok((node.key, node.value));
    }

    /** The largest key with its value; reading them from the missing node of an empty
        tree raises `AttributeError`. */
    method FindMax() returns (r: Result<(int, V)>)
      requires Valid()
      ensures r.Err? <==> Contents == map[]
      ensures r.Err? ==> r.error == AttributeError
      ensures r.Ok? ==> r.value.0 in Contents && Contents[r.value.0] == r.value.1
      ensures r.Ok? ==> forall k :: k in Contents ==> k <= r.value.0
    {
      var node := FindMaxNode(root, shape);
      if node == null {
        return Err(AttributeError);
      }
      RightmostIsMax(shape);
      FindMember(shape, node);
      return Ok((node.key, node.value));
    }

    /** `len`: the running count, which is never below the number of keys and is zero
        exactly when the tree holds nothing. */
    method Len() returns (n: nat)
      requires Valid()
      ensures n == count
      ensures |Contents| <= n
      ensures n == 0 <==> Contents == map[]
    {
      n := count;
      OrderedKeysCount(shape);
    }

    /** `in`: whether the key (or the key of the given node) is found. */
    method Contains(item: Item<V>) returns (b: bool)
      requires Valid()
      ensures b <==> item.Key() in Contents
    {
      var node := Get(item.Key());
      b := node != null;
    }

    /** `bool`: whether there is a root, that is whether the tree holds anything. */
    method IsTruthy() returns (b: bool)
      requires Valid()
      ensures b <==> Contents != map[]
      ensures b <==> count != 0
    {
      b := root != null;
    }

    /** `tree[key]`: the value of `key`; reading it from the missing node of an absent
        key raises `AttributeError`. */
    method GetItem(key: int) returns (r: Result<V>)
      requires Valid()
      ensures r.Err? <==> key !in Contents
      ensures r.Err? ==> r.error == AttributeError
      ensures r.Ok? ==> r.value == Contents[key]
    {
      var node := Get(key);
      if node == null {
        return Err(AttributeError);
      }
      return Ok(node.value);
    }

    /** `tree[key] = value`: overwrite the value of a present key in place; writing it
        to the missing node of an absent key raises `AttributeError`. The links and the
        count never change. */
    method SetItem(key: int, value: V) returns (r: Outcome)
      requires Valid()
      modifies Repr
      ensures Valid() && Repr == old(Repr)
      ensures r == if key in old(Contents) then Pass else Fail(AttributeError)
      ensures Contents == if r.Pass? then old(Contents)[key := value] else old(Contents)
      ensures shape == old(shape) && count == old(count) && root == old(root)
      ensures forall n :: n in old(NodesOf(shape)) ==>
        n.left == old(n.left) && n.right == old(n.right) && (n.key != key ==> n.value == old(n.value))
    {
      var node := Get(key);
      if node == null {
        return Fail(AttributeError);
      }
      Overwrite(node, value);
      return Pass;
    }
  }
}
