/** Binary trees of heap nodes, the orders in which they are traversed, and what it means to be sorted. */
module Trees {
  import opened Common
  import opened Memory

  /** bst_rb_node_t. The fields are read and written only through `At`, which no freed node admits. */
  class Node {
    var value: int
    var parent: Node?
    var left: Node?
    var right: Node?
    var isRed: bool

    constructor (value: int)
      ensures this.value == value && parent == null && left == null && right == null && !isRed
    {
      this.value := value;
      parent, left, right, isRed := null, null, null, false;
    }

    function At(memory: Allocator): (node: Node)
      requires this !in memory.freed
      reads memory
      ensures node == this
    {
      this
    }
  }

  /** The finite tree that hangs from a node, as a value. */
  datatype Tree = Leaf | Fork(left: Tree, node: Node, value: int, right: Tree)

  ghost function Nodes(t: Tree): set<Node> {
    match t
    case Leaf => {}
    case Fork(l, n, _, r) => Nodes(l) + {n} + Nodes(r)
  }

  /** No node stands at two places. */
  ghost predicate Distinct(t: Tree) {
    match t
    case Leaf => true
    case Fork(l, n, _, r) =>
      Distinct(l) && Distinct(r) && n !in Nodes(l) && n !in Nodes(r) && Nodes(l) !! Nodes(r)
  }

  /** The links among `all` nodes make `t` hang from `n`. */
  ghost predicate Hangs(t: Tree, n: Node?, all: set<Node>)
    reads all
  {
    match t
    case Leaf => n == null
    case Fork(l, m, v, r) => n == m && m in all && m.value == v && Hangs(l, m.left, all) && Hangs(r, m.right, all)
  }

  lemma {:induction false} RootOf(t: Tree, n: Node?, all: set<Node>)
    requires Hangs(t, n, all)
    ensures n != null <==> t.Fork?
    ensures t.Fork? ==> n == t.node && n in all && Hangs(t.left, n.left, all) && Hangs(t.right, n.right, all)
  {
  }

  // ---------------------------------------------------------------- orders

  ghost function Pre(t: Tree): seq<Node> {
    match t
    case Leaf => []
    case Fork(l, n, _, r) => [n] + Pre(l) + Pre(r)
  }

  ghost function In(t: Tree): seq<Node> {
    match t
    case Leaf => []
    case Fork(l, n, _, r) => In(l) + [n] + In(r)
  }

  ghost function Post(t: Tree): seq<Node> {
    match t
    case Leaf => []
    case Fork(l, n, _, r) => Post(l) + Post(r) + [n]
  }

  function Height(t: Tree): nat {
    match t
    case Leaf => 0
    case Fork(l, _, _, r) => 1 + Max(Height(l), Height(r))
  }

  /** The subtrees at depth `d`, from left to right. */
  ghost function SubtreesAt(t: Tree, d: nat): seq<Tree> {
    match t
    case Leaf => []
    case Fork(l, _, _, r) => if d == 0 then [t] else SubtreesAt(l, d - 1) + SubtreesAt(r, d - 1)
  }

  ghost function Roots(s: seq<Tree>): seq<Node>
    decreases |s|
  {
    if s == [] then []
    else
      var last := s[|s| - 1];
      Roots(s[..|s| - 1]) + if last.Fork? then [last.node] else []
  }

  /** The nodes of the first `d` levels, level by level and each from left to right. */
  ghost function Levels(t: Tree, d: nat): seq<Node> {
    if d == 0 then [] else Levels(t, d - 1) + Roots(SubtreesAt(t, d - 1))
  }

  ghost function LevelOrder(t: Tree): seq<Node> {
    Levels(t, Height(t))
  }

  /** The orders of bst_search_order_t. */
  datatype Order = PreOrder | InOrder | PostOrder | BreadthFirst

  ghost function Ordered(t: Tree, order: Order): seq<Node> {
    match order
    case PreOrder => Pre(t)
    case InOrder => In(t)
    case PostOrder => Post(t)
    case BreadthFirst => LevelOrder(t)
  }

  // ---------------------------------------------------------------- levels

  lemma {:induction false} LevelForks(t: Tree, d: nat, k: nat)
    requires k < |SubtreesAt(t, d)|
    ensures SubtreesAt(t, d)[k].Fork?
  {
    if t.Fork? && d > 0 {
      var l := |SubtreesAt(t.left, d - 1)|;
      if k < l {
        LevelForks(t.left, d - 1, k);
      } else {
        LevelForks(t.right, d - 1, k - l);
      }
    }
  }

  /** The subtrees just below those of a level. */
  ghost function Kids(s: seq<Tree>): seq<Tree>
    decreases |s|
  {
    if s == [] then [] else Kids(s[..|s| - 1]) + KidsOf(s[|s| - 1])
  }

  ghost function KidsOf(t: Tree): seq<Tree> {
    if t.Fork? then Below(t.left) + Below(t.right) else []
  }

  ghost function Below(t: Tree): seq<Tree> {
    if t.Fork? then [t] else []
  }

  lemma {:induction false} LastOfLevel(s: seq<Tree>, t: Tree)
    ensures Kids(s + [t]) == Kids(s) + KidsOf(t)
    ensures Roots(s + [t]) == Roots(s) + if t.Fork? then [t.node] else []
  {
    hide KidsOf;
    assert (s + [t])[..|s|] == s;
  }

  lemma {:induction false} RootsGrow(a: seq<Tree>, b: seq<Tree>)
    ensures |Roots(a + b)| >= |Roots(a)|
    decreases |b|
  {
    hide Roots, Kids;
    if b == [] {
      NoLevel(a);
    } else {
      var c, x := b[..|b| - 1], b[|b| - 1];
      RootsGrow(a, c);
      assert a + b == (a + c) + [x];
      LastOfLevel(a + c, x);
    }
  }

  lemma {:induction false} KidsConcat(a: seq<Tree>, b: seq<Tree>)
    ensures Kids(a + b) == Kids(a) + Kids(b)
    decreases |b|
  {
    hide Kids, KidsOf;
    if b == [] {
      NoLevel(a);
    } else {
      var c, x := b[..|b| - 1], b[|b| - 1];
      KidsConcat(a, c);
      calc {
        Kids(a + b);
        { assert b == c + [x]; Assoc(a, c, [x]); }
        Kids((a + c) + [x]);
        { LastOfLevel(a + c, x); }
        (Kids(a) + Kids(c)) + KidsOf(x);
        { Assoc(Kids(a), Kids(c), KidsOf(x)); }
        Kids(a) + (Kids(c) + KidsOf(x));
        { LastOfLevel(c, x); assert b == c + [x]; }
        Kids(a) + Kids(b);
      }
    }
  }

  lemma {:induction false} NoLevel(a: seq<Tree>)
    ensures a + [] == a && Kids(a) + Kids([]) == Kids(a) && Roots([]) == [] && Kids([]) == []
  {
    hide KidsOf;
  }

  lemma {:induction false} NextLevel(t: Tree, d: nat)
    ensures SubtreesAt(t, d + 1) == Kids(SubtreesAt(t, d))
  {
    hide Kids;
    if t == Leaf {
      NoLevel([]);
    } else if d == 0 {
      OneLevel(t);
    } else {
      NextLevel(t.left, d - 1);
      NextLevel(t.right, d - 1);
      KidsConcat(SubtreesAt(t.left, d - 1), SubtreesAt(t.right, d - 1));
    }
  }

  lemma {:induction false} OneLevel(t: Tree)
    requires t.Fork?
    ensures SubtreesAt(t, 1) == Kids(SubtreesAt(t, 0))
  {
    assert [t][..0] == [];
    assert [] + KidsOf(t) == KidsOf(t);
  }

  lemma {:induction false} BelowHeight(t: Tree, d: nat)
    ensures SubtreesAt(t, d) == [] <==> Height(t) <= d
  {
    match t
    case Leaf =>
    case Fork(l, _, _, r) =>
      if d > 0 {
        BelowHeight(l, d - 1);
        BelowHeight(r, d - 1);
      }
  }

  /** Below the height there are no more levels. */
  lemma {:induction false} AllLevels(t: Tree, d: nat)
    requires Height(t) <= d
    ensures Levels(t, d) == LevelOrder(t)
    decreases d
  {
    hide Roots, Kids, SubtreesAt, Height;
    if Height(t) < d {
      BelowHeight(t, d - 1);
      AllLevels(t, d - 1);
      NoLevel([]);
      EmptyRight(Levels(t, d - 1));
    }
  }

  lemma {:induction false} LevelsGrow(t: Tree, d: nat, e: nat)
    requires d <= e
    ensures |Levels(t, d)| <= |Levels(t, e)|
    decreases e
  {
    hide Roots, SubtreesAt;
    if d < e {
      LevelsGrow(t, d, e - 1);
    }
  }

  // ---------------------------------------------------------------- every node once

  ghost function Times(s: seq<Node>, n: Node): nat {
    multiset(s)[n]
  }

  lemma {:induction false} TimesOf(a: seq<Node>, b: seq<Node>, m: Node, n: Node)
    ensures Times(a + b, n) == Times(a, n) + Times(b, n)
    ensures Times([m], n) == if m == n then 1 else 0
    ensures Times([], n) == 0
  {
  }

  /** At how many places of the tree a node stands. */
  ghost function Places(t: Tree, n: Node): nat {
    match t
    case Leaf => 0
    case Fork(l, m, _, r) => Places(l, n) + (if m == n then 1 else 0) + Places(r, n)
  }

  lemma {:induction false} DepthFirstTimes(t: Tree, n: Node)
    ensures Times(Pre(t), n) == Times(In(t), n) == Times(Post(t), n) == Places(t, n)
  {
    hide Times;
    match t
    case Leaf => TimesOf([], [], n, n);
    case Fork(l, m, _, r) =>
      DepthFirstTimes(l, n);
      DepthFirstTimes(r, n);
      TimesOf([m], Pre(l), m, n);
      TimesOf([m] + Pre(l), Pre(r), m, n);
      TimesOf(In(l), [m], m, n);
      TimesOf(In(l) + [m], In(r), m, n);
      TimesOf(Post(l), Post(r), m, n);
      TimesOf(Post(l) + Post(r), [m], m, n);
  }

  ghost function PlacesIn(s: seq<Tree>, n: Node): nat
    decreases |s|
  {
    if s == [] then 0 else PlacesIn(s[..|s| - 1], n) + Places(s[|s| - 1], n)
  }

  lemma {:induction false} PlacesConcat(a: seq<Tree>, b: seq<Tree>, n: Node)
    ensures PlacesIn(a + b, n) == PlacesIn(a, n) + PlacesIn(b, n)
    decreases |b|
  {
    hide Places;
    if b == [] {
      assert a + b == a;
    } else {
      PlacesConcat(a, b[..|b| - 1], n);
      assert (a + b)[..|a + b| - 1] == a + b[..|b| - 1] && (a + b)[|a + b| - 1] == b[|b| - 1];
    }
  }

  lemma {:induction false} PlacesOfKids(t: Tree, n: Node)
    ensures Places(t, n) == (if t.Fork? && t.node == n then 1 else 0) + PlacesIn(KidsOf(t), n)
  {
    if t.Fork? {
      assert PlacesIn([t.left], n) == PlacesIn([], n) + Places(t.left, n);
      assert PlacesIn([t.right], n) == PlacesIn([], n) + Places(t.right, n);
      PlacesConcat(Below(t.left), Below(t.right), n);
    }
  }

  /** What stands in a level or below is the level's roots and what stands below. */
  lemma {:induction false} PlacesBelow(s: seq<Tree>, n: Node)
    ensures PlacesIn(s, n) == Times(Roots(s), n) + PlacesIn(Kids(s), n)
    decreases |s|
  {
    hide Places, KidsOf, Times;
    if s == [] {
      TimesOf([], [], n, n);
    } else {
      var front, last := s[..|s| - 1], s[|s| - 1];
      PlacesBelow(front, n);
      PlacesOfKids(last, n);
      PlacesConcat(Kids(front), KidsOf(last), n);
      if last.Fork? {
        TimesOf(Roots(front), [last.node], last.node, n);
      } else {
        TimesOf(Roots(front), [], n, n);
      }
    }
  }

  lemma {:induction false} LevelsTimes(t: Tree, d: nat, n: Node)
    ensures Times(Levels(t, d), n) + PlacesIn(SubtreesAt(t, d), n) == Places(t, n)
    decreases d
  {
    hide Times, Places, Roots, Kids;
    if d == 0 {
      TimesOf([], [], n, n);
      OneTree(t, n);
    } else {
      LevelsTimes(t, d - 1, n);
      PlacesBelow(SubtreesAt(t, d - 1), n);
      NextLevel(t, d - 1);
      TimesOf(Levels(t, d - 1), Roots(SubtreesAt(t, d - 1)), n, n);
    }
  }

  lemma {:induction false} OneTree(t: Tree, n: Node)
    ensures PlacesIn(SubtreesAt(t, 0), n) == Places(t, n)
  {
    assert PlacesIn([t], n) == PlacesIn([], n) + Places(t, n);
  }

  lemma {:induction false} PlacesDistinct(t: Tree, n: Node)
    ensures n in Nodes(t) <==> Places(t, n) > 0
    ensures Distinct(t) ==> Places(t, n) <= 1
  {
    match t
    case Leaf =>
    case Fork(l, _, _, r) =>
      PlacesDistinct(l, n);
      PlacesDistinct(r, n);
  }

  /** Whatever the order, a traversal shows a node as often as it stands in the tree: once, if nodes are distinct. */
  lemma {:induction false} EachOnce(t: Tree, order: Order, n: Node)
    ensures Times(Ordered(t, order), n) == Places(t, n)
    ensures n in Ordered(t, order) <==> n in Nodes(t)
    ensures Distinct(t) && n in Nodes(t) ==> Times(Ordered(t, order), n) == 1
  {
    DepthFirstTimes(t, n);
    LevelsTimes(t, Height(t), n);
    BelowHeight(t, Height(t));
    PlacesDistinct(t, n);
    assert n in multiset(Ordered(t, order)) <==> n in Ordered(t, order);
  }

  /** What a split of the post-order shows first it does not show again. */
  lemma {:induction false} PostSplit(t: Tree, seen: seq<Node>, rest: seq<Node>, n: Node)
    requires Distinct(t) && Post(t) == seen + rest && n in rest
    ensures n !in seen && n in Nodes(t)
  {
    EachOnce(t, PostOrder, n);
    TimesOf(seen, rest, n, n);
    assert n in multiset(rest);
    assert n in seen <==> n in multiset(seen);
  }

  // ---------------------------------------------------------------- the orders by the places of nodes

  /** The way from the root to a node: false goes left, true right. */
  type Way = seq<bool>

  predicate Leads(t: Tree, p: Way)
    decreases |p|
  {
    t.Fork? && (p == [] || Leads(if p[0] then t.right else t.left, p[1..]))
  }

  ghost function NodeAt(t: Tree, p: Way): Node
    requires Leads(t, p)
    decreases |p|
  {
    if p == [] then t.node else NodeAt(if p[0] then t.right else t.left, p[1..])
  }

  /** Which of two different places of a tree comes first. */
  predicate Earlier(order: Order, p: Way, q: Way)
    decreases |p|
  {
    if order == BreadthFirst && |p| != |q| then |p| < |q|
    else if p == [] then q != [] && (order == PreOrder || (order == InOrder && q[0]))
    else if q == [] then order == PostOrder || (order == InOrder && !p[0])
    else if p[0] == q[0] then Earlier(order, p[1..], q[1..])
    else !p[0]
  }

  /** `a` is shown before `b`. */
  ghost predicate Shown(s: seq<Node>, a: Node, b: Node) {
    exists i, j :: 0 <= i < j < |s| && s[i] == a && s[j] == b
  }

  lemma {:induction false} ShownIn(x: seq<Node>, s: seq<Node>, y: seq<Node>, a: Node, b: Node)
    requires Shown(s, a, b)
    ensures Shown(x + s + y, a, b)
  {
    var i, j :| 0 <= i < j < |s| && s[i] == a && s[j] == b;
    var all := x + s + y;
    assert all[|x| + i] == a && all[|x| + j] == b;
  }

  lemma {:induction false} ShownAcross(x: seq<Node>, y: seq<Node>, a: Node, b: Node)
    requires a in x && b in y
    ensures Shown(x + y, a, b)
  {
    var i :| 0 <= i < |x| && x[i] == a;
    var j :| 0 <= j < |y| && y[j] == b;
    assert (x + y)[i] == a && (x + y)[|x| + j] == b;
  }

  lemma {:induction false} NodeInOrders(t: Tree, p: Way)
    requires Leads(t, p)
    ensures NodeAt(t, p) in Pre(t) && NodeAt(t, p) in In(t) && NodeAt(t, p) in Post(t)
    decreases |p|
  {
    if p != [] {
      NodeInOrders(if p[0] then t.right else t.left, p[1..]);
    }
  }

  /** The depth-first orders show the node of the earlier place first. */
  lemma {:induction false} DepthFirstExact(t: Tree, order: Order, p: Way, q: Way)
    requires order != BreadthFirst && Leads(t, p) && Leads(t, q) && Earlier(order, p, q)
    ensures Shown(Ordered(t, order), NodeAt(t, p), NodeAt(t, q))
    decreases |p|
  {
    hide Shown;
    var a, b := NodeAt(t, p), NodeAt(t, q);
    if p != [] && q != [] && p[0] == q[0] {
      var sub := if p[0] then t.right else t.left;
      DepthFirstExact(sub, order, p[1..], q[1..]);
      SubtreeShown(t, order, p[0], a, b);
    } else {
      if p != [] {
        NodeInOrders(if p[0] then t.right else t.left, p[1..]);
      }
      if q != [] {
        NodeInOrders(if q[0] then t.right else t.left, q[1..]);
      }
      RootShown(t, order, p == [], p != [] && !p[0], q == [], a, b);
    }
  }

  lemma {:induction false} SubtreeShown(t: Tree, order: Order, right: bool, a: Node, b: Node)
    requires order != BreadthFirst && t.Fork?
    requires Shown(Ordered(if right then t.right else t.left, order), a, b)
    ensures Shown(Ordered(t, order), a, b)
  {
    hide Shown;
    match order
    case PreOrder =>
      ShownIn(if right then [t.node] + Pre(t.left) else [t.node], Pre(if right then t.right else t.left),
              if right then [] else Pre(t.right), a, b);
      EmptyRight([t.node] + Pre(t.left) + Pre(t.right));
    case InOrder =>
      ShownIn(if right then In(t.left) + [t.node] else [], In(if right then t.right else t.left),
              if right then [] else [t.node] + In(t.right), a, b);
      EmptyRight(In(t));
      EmptyLeft(In(t.left));
      Assoc(In(t.left), [t.node], In(t.right));
    case PostOrder =>
      ShownIn(if right then Post(t.left) else [], Post(if right then t.right else t.left),
              if right then [t.node] else Post(t.right) + [t.node], a, b);
      EmptyLeft(Post(t.left));
      Assoc(Post(t.left), Post(t.right), [t.node]);
  }

  /** The root against its subtrees, and the left one against the right. */
  lemma {:induction false} RootShown(t: Tree, order: Order, aRoot: bool, aLeft: bool, bRoot: bool, a: Node, b: Node)
    requires order != BreadthFirst && t.Fork?
    requires if aRoot then a == t.node else a in Ordered(if aLeft then t.left else t.right, order)
    requires if bRoot then b == t.node
             else b in if aRoot && order == PreOrder then Pre(t.left) + Pre(t.right) else Ordered(t.right, order)
    requires if aRoot then order != PostOrder && !bRoot
             else if bRoot then order == PostOrder || (order == InOrder && aLeft) else aLeft
    ensures Shown(Ordered(t, order), a, b)
  {
    hide Shown;
    match order
    case PreOrder =>
      ShownAcross(if aRoot then [t.node] else [t.node] + Pre(t.left),
                  if aRoot then Pre(t.left) + Pre(t.right) else Pre(t.right), a, b);
      Assoc([t.node], Pre(t.left), Pre(t.right));
    case InOrder =>
      ShownAcross(if aRoot then In(t.left) + [t.node] else In(t.left),
                  if aRoot then In(t.right) else [t.node] + In(t.right), a, b);
      Assoc(In(t.left), [t.node], In(t.right));
    case PostOrder =>
      ShownAcross(if bRoot then Post(t.left) + Post(t.right) else Post(t.left),
                  if bRoot then [t.node] else Post(t.right) + [t.node], a, b);
      Assoc(Post(t.left), Post(t.right), [t.node]);
  }

  lemma {:induction false} RootsConcat(a: seq<Tree>, b: seq<Tree>)
    ensures Roots(a + b) == Roots(a) + Roots(b)
    decreases |b|
  {
    hide Roots;
    if b == [] {
      NoLevel(a);
      EmptyRight(Roots(a));
    } else {
      var c, x := b[..|b| - 1], b[|b| - 1];
      RootsConcat(a, c);
      assert b == c + [x];
      Assoc(a, c, [x]);
      LastOfLevel(a + c, x);
      LastOfLevel(c, x);
    }
  }

  /** One level, from left to right. */
  ghost function Row(t: Tree, d: nat): seq<Node> {
    Roots(SubtreesAt(t, d))
  }

  lemma {:induction false} RowParts(t: Tree, d: nat)
    requires t.Fork?
    ensures Row(t, 0) == [t.node]
    ensures Row(t, d + 1) == Row(t.left, d) + Row(t.right, d)
  {
    RootsConcat(SubtreesAt(t.left, d), SubtreesAt(t.right, d));
    NoLevel([]);
    LastOfLevel([], t);
    assert SubtreesAt(t, 0) == [] + [t];
  }

  lemma {:induction false} NodeInRow(t: Tree, p: Way)
    requires Leads(t, p)
    ensures NodeAt(t, p) in Row(t, |p|) && |p| < Height(t)
    decreases |p|
  {
    hide Row;
    RowParts(t, if p == [] then 0 else |p| - 1);
    if p != [] {
      NodeInRow(if p[0] then t.right else t.left, p[1..]);
    }
  }

  lemma {:induction false} RowShown(t: Tree, p: Way, q: Way)
    requires |p| == |q| && Leads(t, p) && Leads(t, q) && Earlier(BreadthFirst, p, q)
    ensures Shown(Row(t, |p|), NodeAt(t, p), NodeAt(t, q))
    decreases |p|
  {
    hide Row, Shown;
    var a, b := NodeAt(t, p), NodeAt(t, q);
    RowParts(t, |p| - 1);
    var l, r := Row(t.left, |p| - 1), Row(t.right, |p| - 1);
    if p[0] == q[0] {
      RowShown(if p[0] then t.right else t.left, p[1..], q[1..]);
      ShownIn(if p[0] then l else [], if p[0] then r else l, if p[0] then [] else r, a, b);
      EmptyLeft(l);
      EmptyRight(l + r);
    } else {
      NodeInRow(t.left, p[1..]);
      NodeInRow(t.right, q[1..]);
      ShownAcross(l, r, a, b);
    }
  }

  /** The levels up to level `d` are the beginning of the levels up to a later one. */
  lemma {:induction false} LevelsBegin(t: Tree, d: nat, e: nat)
    requires d <= e
    ensures Levels(t, d) <= Levels(t, e)
    decreases e
  {
    hide Roots, SubtreesAt;
    if d < e {
      LevelsBegin(t, d, e - 1);
    }
  }

  lemma {:induction false} ShownBefore(s: seq<Node>, all: seq<Node>, a: Node, b: Node)
    requires Shown(s, a, b) && s <= all
    ensures Shown(all, a, b)
  {
    ShownIn([], s, all[|s|..], a, b);
    assert [] + s + all[|s|..] == all;
  }

  lemma {:induction false} LevelsExact(t: Tree, p: Way, q: Way)
    requires Leads(t, p) && Leads(t, q) && Earlier(BreadthFirst, p, q)
    ensures Shown(LevelOrder(t), NodeAt(t, p), NodeAt(t, q))
  {
    hide Shown, Roots, SubtreesAt, Height;
    var a, b := NodeAt(t, p), NodeAt(t, q);
    NodeInRow(t, p);
    NodeInRow(t, q);
    var before, row := Levels(t, |q|), Row(t, |q|);
    if |p| == |q| {
      RowShown(t, p, q);
      ShownIn(before, row, [], a, b);
      EmptyRight(before + row);
    } else {
      LevelsBegin(t, |p| + 1, |q|);
      assert a in Levels(t, |p| + 1);
      ShownAcross(before, row, a, b);
    }
    LevelsBegin(t, |q| + 1, Height(t));
    ShownBefore(before + row, LevelOrder(t), a, b);
  }

  /**
   What each order is, by the places of nodes: of two places the earlier one is shown first. In pre-order a
   place comes before those below it, in post-order behind them, in in-order between those on its
   left and on its right; otherwise left before right; level order goes by depth first.
   */
  lemma {:induction false} OrderExact(t: Tree, order: Order, p: Way, q: Way)
    requires Leads(t, p) && Leads(t, q) && Earlier(order, p, q)
    ensures Shown(Ordered(t, order), NodeAt(t, p), NodeAt(t, q))
  {
    hide Shown, Earlier, LevelOrder;
    if order == BreadthFirst {
      LevelsExact(t, p, q);
    } else {
      DepthFirstExact(t, order, p, q);
    }
  }
}
