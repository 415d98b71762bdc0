/** The functions of src/bst_redblack.c: adding to a tree, traversing and destroying it. */
module BinarySearchTree {
  import opened Memory
  import opened Trees
  import opened TreeInsertion
  import TreeTraversal
  import TreeLevels

  /** The links among `all` nodes make `t` hang from `n` below `p`, parent links included. */
  ghost predicate Linked(t: Tree, n: Node?, p: Node?, all: set<Node>)
    reads all
  {
    match t
    case Leaf => n == null
    case Fork(l, m, v, r) =>
      n == m && m in all && m.value == v && m.parent == p && Linked(l, m.left, m, all) && Linked(r, m.right, m, all)
  }

  lemma {:induction false} LinkedHangs(t: Tree, n: Node?, p: Node?, all: set<Node>)
    requires Linked(t, n, p, all)
    ensures Hangs(t, n, all) && Nodes(t) <= all
  {
    match t
    case Leaf =>
    case Fork(l, m, _, r) =>
      LinkedHangs(l, m.left, m, all);
      LinkedHangs(r, m.right, m, all);
  }

  /** What an in-order traversal shows of the values. */
  lemma {:induction false} ValuesShown(t: Tree, n: Node?, all: set<Node>)
    requires Hangs(t, n, all)
    ensures forall k :: 0 <= k < |In(t)| ==> In(t)[k] in all && In(t)[k].value == Values(t)[k]
  {
    match t
    case Leaf =>
    case Fork(l, m, _, r) =>
      ValuesShown(l, m.left, all);
      ValuesShown(r, m.right, all);
  }

  ghost function ValuesOf(nodes: seq<Node>, all: set<Node>): seq<int>
    requires forall n :: n in nodes ==> n in all
    reads all
  {
    seq(|nodes|, k requires 0 <= k < |nodes| reads all => nodes[k].value)
  }

  /** After any additions from one root, the in-order traversal shows the values added: sorted, with every duplicate. */
  lemma {:induction false} InOrderSorts(adds: seq<Addition>, root: Node?, all: set<Node>)
    requires Hangs(Grown(adds), root, all)
    ensures forall n :: n in Ordered(Grown(adds), InOrder) ==> n in all
    ensures var shown := ValuesOf(Ordered(Grown(adds), InOrder), all);
            Sorted(shown) && multiset(shown) == multiset(Added(adds))
  {
    ValuesShown(Grown(adds), root, all);
    GrownExact(adds);
    hide Grown, Sorted, Values, In;
    assert ValuesOf(In(Grown(adds)), all) == Values(Grown(adds));
  }

  /** `sub` is where the search for `v` passes. */
  ghost predicate Passes(t: Tree, sub: Tree, v: int) {
    t == sub || (t.Fork? && Passes(if v <= t.value then t.left else t.right, sub, v))
  }

  lemma {:induction false} PassesOn(t: Tree, sub: Tree, v: int)
    requires Passes(t, sub, v) && sub.Fork?
    ensures Passes(t, if v <= sub.value then sub.left else sub.right, v)
    ensures sub.node in Nodes(t)
  {
    if t != sub {
      PassesOn(if v <= t.value then t.left else t.right, sub, v);
    }
  }

  /** A tree, the node it hangs from, and the node above. */
  datatype Place = Place(tree: Tree, node: Node?, parent: Node?, all: set<Node>)

  /** Only the links of `at` change, to `node` below it on the side of `v`. */
  twostate predicate Attaches(all: set<Node>, new at: Node, new v: int, new node: Node)
    reads all, node
  {
    && (forall m :: m in all ==> m.value == old(m.value) && m.parent == old(m.parent))
    && (forall m :: m in all ==> m.left == if m == at && v <= m.value then node else old(m.left))
    && (forall m :: m in all ==> m.right == if m == at && v > m.value then node else old(m.right))
    && node.value == v && node.parent == at && node.left == null && node.right == null && node !in all
  }

  twostate lemma {:induction false} Unmoved(p: Place, new at: Node, new v: int, new node: Node)
    requires old(Linked(p.tree, p.node, p.parent, p.all)) && at !in Nodes(p.tree)
    requires Attaches(p.all, at, v, node)
    ensures Linked(p.tree, p.node, p.parent, p.all + {node})
    decreases p.tree
  {
    match p.tree
    case Leaf =>
    case Fork(l, m, _, r) =>
      Unmoved(Place(l, old(m.left), m, p.all), at, v, node);
      Unmoved(Place(r, old(m.right), m, p.all), at, v, node);
  }

  /** Attaching a node where the search for its value ends makes the tree the one Insert says. */
  twostate lemma {:induction false} Attached(p: Place, new sub: Tree, new v: int, new node: Node)
    requires old(Linked(p.tree, p.node, p.parent, p.all)) && Distinct(p.tree)
    requires sub.Fork? && Passes(p.tree, sub, v) && (if v <= sub.value then sub.left else sub.right) == Leaf
    requires Attaches(p.all, sub.node, v, node)
    ensures Linked(Insert(p.tree, v, node), p.node, p.parent, p.all + {node})
    decreases p.tree
  {
    var t := p.tree;
    PassesOn(t, sub, v);
    var left, right := Place(t.left, old(t.node.left), t.node, p.all), Place(t.right, old(t.node.right), t.node, p.all);
    if t == sub {
      if v <= t.value {
        Unmoved(right, sub.node, v, node);
      } else {
        Unmoved(left, sub.node, v, node);
      }
    } else if v <= t.value {
      PassesOn(t.left, sub, v);
      Attached(left, sub, v, node);
      Unmoved(right, sub.node, v, node);
    } else {
      PassesOn(t.right, sub, v);
      Attached(right, sub, v, node);
      Unmoved(left, sub.node, v, node);
    }
  }

  lemma {:induction false} LinkedRoot(t: Tree, n: Node?, p: Node?, all: set<Node>)
    requires Linked(t, n, p, all)
    ensures n != null <==> t.Fork?
    ensures t.Fork? ==> n == t.node && n in all && n.value == t.value
    ensures t.Fork? ==> Linked(t.left, n.left, n, all) && Linked(t.right, n.right, n, all)
    ensures t.Fork? ==> (n.left == null <==> t.left == Leaf) && (n.right == null <==> t.right == Leaf)
  {
  }

  lemma {:induction false} FirstLinked(n: Node, v: int)
    requires n.value == v && n.parent == null && n.left == null && n.right == null
    ensures Linked(Insert(Leaf, v, n), n, null, {n}) && Nodes(Leaf) == {}
  {
  }

  /** bst_rb_add */
  method Add(root: Node?, value: int, memory: Allocator, ghost t: Tree, ghost parent: Node?, ghost all: set<Node>)
    returns (node: Node)
    requires Linked(t, root, parent, all) && Distinct(t) && all == Nodes(t) && all !! memory.freed
    modifies all`left, all`right
    ensures fresh(node) && node.value == value && node.isRed == (root != null)
    ensures Distinct(Insert(t, value, node)) && Nodes(Insert(t, value, node)) == all + {node}
    ensures if root == null then Linked(Insert(t, value, node), node, null, {node})
            else Linked(Insert(t, value, node), root, parent, all + {node})
  {
    hide Linked, Distinct, Nodes;
    LinkedRoot(t, root, parent, all);
    node := new Node(value);
    InsertNodes(t, value, node);
    if root == null {
      FirstLinked(node, value);
    } else {
      var current := root;
      ghost var sub := t;
      ghost var above := parent;
      while true
        invariant sub.Fork? && Linked(sub, current, above, all) && Passes(t, sub, value)
        invariant unchanged(all) && node.value == value && node.left == null && node.right == null
        decreases sub
      {
        PassesOn(t, sub, value);
        LinkedRoot(sub, current, above, all);
        if value <= current.At(memory).value {
          if current.At(memory).left != null {
            sub, above := sub.left, current;
            current := current.At(memory).left;
          } else {
            node.At(memory).parent := current;
            current.At(memory).left := node;
            node.At(memory).isRed := true;
            Attached(Place(t, root, parent, all), sub, value, node);
            break;
          }
        } else {
          if current.At(memory).right != null {
            sub, above := sub.right, current;
            current := current.At(memory).right;
          } else {
            node.At(memory).parent := current;
            current.At(memory).right := node;
            node.At(memory).isRed := true;
            Attached(Place(t, root, parent, all), sub, value, node);
            break;
          }
        }
      }
    }
  }

  /** bst_rb_traverse */
  method Traverse(root: Node?, order: Order, memory: Allocator, ghost t: Tree, ghost all: set<Node>)
    returns (visited: seq<Node>)
    requires Hangs(t, root, all) && Distinct(t) && all !! memory.freed
    modifies memory
    ensures visited == Ordered(t, order)
    ensures forall o :: o in memory.freed ==> o in old(memory.freed) || fresh(o)
  {
    hide Hangs, Distinct, Pre, In, Post, LevelOrder;
    RootOf(t, root, all);
    if root == null {
      LeafOrders();
      return [];
    }
    match order
    case PreOrder => visited := TreeTraversal.VisitPreOrder(root, memory, t, all);
    case InOrder => visited := TreeTraversal.VisitInOrder(root, memory, t, all);
    case PostOrder => visited := TreeTraversal.VisitPostOrder(root, memory, false, t, all);
    case BreadthFirst => visited := TreeLevels.VisitBreadthFirst(root, memory, t, all);
  }

  lemma {:induction false} LeafOrders()
    ensures forall order :: Ordered(Leaf, order) == []
  {
  }

  /** Any sequence of bst_rb_add calls from one root. */
  method AddAll(values: seq<int>, memory: Allocator)
    returns (root: Node?, ghost adds: seq<Addition>, ghost all: set<Node>)
    ensures Added(adds) == values && Linked(Grown(adds), root, null, all) && Distinct(Grown(adds))
    ensures all == Nodes(Grown(adds)) && all !! memory.freed && fresh(all)
  {
    hide Linked, Distinct, Nodes, Insert, Grown, Added;
    root, adds, all := null, [], {};
    NothingLinked();
    for k := 0 to |values|
      invariant Added(adds) == values[..k]
      invariant Linked(Grown(adds), root, null, all) && Distinct(Grown(adds)) && all == Nodes(Grown(adds))
      invariant all !! memory.freed && fresh(all) && (root == null ==> all == {})
    {
      var node := Add(root, values[k], memory, Grown(adds), null, all);
      ghost var now := adds + [Addition(values[k], node)];
      OneMoreAdded(adds, values[k], node);
      assert root == null ==> all + {node} == {node};
      if root == null {
        root := node;
      }
      adds, all := now, all + {node};
    }
  }

  lemma {:induction false} OneMoreAdded(adds: seq<Addition>, value: int, node: Node)
    ensures var now := adds + [Addition(value, node)];
            Grown(now) == Insert(Grown(adds), value, node) && Added(now) == Added(adds) + [value]
  {
    var now := adds + [Addition(value, node)];
    assert now[..|now| - 1] == adds;
  }

  lemma {:induction false} NothingLinked()
    ensures Linked(Grown([]), null, null, {}) && Distinct(Grown([])) && Nodes(Grown([])) == {} && Added([]) == []
  {
  }

  /** A callback that reads the values of the nodes it is given. */
  method ReadValues(nodes: seq<Node>, memory: Allocator, ghost all: set<Node>) returns (values: seq<int>)
    requires (forall n :: n in nodes ==> n in all) && all !! memory.freed
    ensures values == ValuesOf(nodes, all)
  {
    hide ValuesOf;
    values := [];
    ShownNext(nodes, all, 0);
    for k := 0 to |nodes|
      invariant values == ValuesOf(nodes, all)[..k]
    {
      ShownNext(nodes, all, k);
      values := values + [nodes[k].At(memory).value];
    }
    ShownNext(nodes, all, |nodes|);
  }

  /** Adding values one after the other and showing them in in-order sorts them. */
  method AddAndShow(values: seq<int>, memory: Allocator) returns (shown: seq<int>)
    modifies memory
    ensures Sorted(shown) && multiset(shown) == multiset(values)
  {
    hide Linked, Distinct, Nodes, Grown, Ordered, Hangs, ValuesOf, Added;
    var root;
    ghost var adds, all;
    root, adds, all := AddAll(values, memory);
    LinkedHangs(Grown(adds), root, null, all);
    var visited := Traverse(root, InOrder, memory, Grown(adds), all);
    InOrderSorts(adds, root, all);
    shown := ReadValues(visited, memory, all);
  }

  lemma {:induction false} ShownNext(nodes: seq<Node>, all: set<Node>, k: nat)
    requires k <= |nodes| && forall n :: n in nodes ==> n in all
    ensures |ValuesOf(nodes, all)| == |nodes|
    ensures ValuesOf(nodes, all)[..0] == []
    ensures k < |nodes| ==>
              nodes[k] in all && ValuesOf(nodes, all)[..k + 1] == ValuesOf(nodes, all)[..k] + [nodes[k].value]
    ensures ValuesOf(nodes, all)[..|nodes|] == ValuesOf(nodes, all)
  {
  }

  /** bst_rb_destroy: every node is freed, once, and none is read after it was freed. */
  method Destroy(root: Node?, memory: Allocator, ghost t: Tree, ghost all: set<Node>)
    requires Hangs(t, root, all) && Distinct(t) && all !! memory.freed
    modifies memory
    ensures memory.freed == old(memory.freed) + Nodes(t)
  {
    if root != null {
      var _ := TreeTraversal.VisitPostOrder(root, memory, true, t, all);
    }
  }
}
