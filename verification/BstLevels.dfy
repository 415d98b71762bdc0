/** The breadth-first loop of bst_rb_traverse, its queue the list of Lists, against the levels of the tree. */
module TreeLevels {
  import opened Common
  import opened Memory
  import opened Lists
  import opened Trees

  /** The queue holds the roots of `forest`. */
  ghost predicate Queued(forest: seq<Tree>, nodes: seq<ListNode<Node>>, all: set<Node>)
    reads all, nodes`data
  {
    |forest| == |nodes| && forall k :: 0 <= k < |nodes| ==> forest[k].Fork? && Hangs(forest[k], nodes[k].data, all)
  }

  lemma {:induction false} QueuedAdd(forest: seq<Tree>, nodes: seq<ListNode<Node>>, all: set<Node>, t: Tree,
                                     n: ListNode<Node>)
    requires Queued(forest, nodes, all) && t.Fork? && Hangs(t, n.data, all)
    ensures Queued(forest + [t], nodes + [n], all)
  {
  }

  lemma {:induction false} QueuedHead(forest: seq<Tree>, nodes: seq<ListNode<Node>>, all: set<Node>)
    requires Queued(forest, nodes, all)
    ensures |forest| == |nodes|
    ensures nodes != [] ==>
              forest[0].Fork? && Hangs(forest[0], nodes[0].data, all) && Queued(forest[1..], Without(nodes, 0), all)
  {
  }

  /** The loop has visited the first `d` levels and the roots of `done`; `rest` is what remains of the level. */
  ghost predicate LevelState(t: Tree, visited: seq<Node>, d: nat, done: seq<Tree>, rest: seq<Tree>) {
    && done + rest == SubtreesAt(t, d)
    && visited == Levels(t, d) + Roots(done)
  }

  /** The subtrees whose roots are in the queue: the rest of the level, and what hangs below its beginning. */
  ghost function Waiting(done: seq<Tree>, rest: seq<Tree>): seq<Tree> {
    rest + Kids(done)
  }

  lemma {:induction false} LevelBegins(t: Tree)
    requires t.Fork?
    ensures LevelState(t, [], 0, [], [t]) && Waiting([], [t]) == [t]
  {
    hide Kids, Roots;
    NoLevel([]);
  }

  /** At the end of a level the queue holds the next one. */
  lemma {:induction false} LevelTurns(t: Tree, visited: seq<Node>, d: nat, done: seq<Tree>)
    requires LevelState(t, visited, d, done, [])
    ensures LevelState(t, visited, d + 1, [], Kids(done))
    ensures Waiting([], Kids(done)) == Waiting(done, [])
  {
    hide Kids, Roots, SubtreesAt;
    NoLevel(done);
    NoLevel(Kids(done));
    NextLevel(t, d);
    assert [] + Kids(done) == Kids(done);
    EmptyRight(visited);
  }

  lemma {:induction false} LevelVisits(t: Tree, visited: seq<Node>, d: nat, done: seq<Tree>, rest: seq<Tree>)
    requires LevelState(t, visited, d, done, rest) && rest != []
    ensures rest[0].Fork? && LevelState(t, visited + [rest[0].node], d, done + [rest[0]], rest[1..])
    ensures |visited| < |LevelOrder(t)|
  {
    hide Kids, KidsOf, LevelOrder, Roots, SubtreesAt;
    var h := rest[0];
    assert h == SubtreesAt(t, d)[|done|];
    LevelForks(t, d, |done|);
    assert (done + [h]) + rest[1..] == done + rest;
    LastOfLevel(done, h);
    RootsGrow(done + [h], rest[1..]);
    assert Levels(t, d) + (Roots(done) + [h.node]) == visited + [h.node];
    LevelsGrow(t, d + 1, Max(d + 1, Height(t)));
    AllLevels(t, Max(d + 1, Height(t)));
  }

  lemma {:induction false} WaitingNext(done: seq<Tree>, rest: seq<Tree>)
    requires rest != []
    ensures Waiting(done, rest) != [] && Waiting(done, rest)[0] == rest[0]
    ensures Waiting(done + [rest[0]], rest[1..]) == (Waiting(done, rest) + KidsOf(rest[0]))[1..]
  {
    hide KidsOf, Kids;
    var h := rest[0];
    LastOfLevel(done, h);
    assert rest[1..] + (Kids(done) + KidsOf(h)) == (rest + Kids(done) + KidsOf(h))[1..];
  }

  lemma {:induction false} LevelsEnd(t: Tree, visited: seq<Node>, d: nat, done: seq<Tree>, rest: seq<Tree>)
    requires LevelState(t, visited, d, done, rest) && Waiting(done, rest) == []
    ensures visited == LevelOrder(t)
  {
    hide Kids, Roots, SubtreesAt, Levels, LevelOrder;
    assert rest == [] && Kids(done) == [];
    LevelTurns(t, visited, d, done);
    NoLevel([]);
    EmptyRight(Levels(t, d + 1));
    BelowHeight(t, d + 1);
    AllLevels(t, d + 1);
  }

  // ---- the loop and the heap

  ghost predicate LevelAt(t: Tree, all: set<Node>, visited: seq<Node>, d: nat, done: seq<Tree>, rest: seq<Tree>,
                          nodes: seq<ListNode<Node>>)
    reads all, nodes`data
  {
    LevelState(t, visited, d, done, rest) && Queued(Waiting(done, rest), nodes, all)
  }

  lemma {:induction false} AtFirst(t: Tree, all: set<Node>, n: ListNode<Node>)
    requires t.Fork? && Hangs(t, n.data, all)
    ensures LevelAt(t, all, [], 0, [], [t], [n])
  {
    LevelBegins(t);
  }

  /** `forest` is in the queue, and at its head the next subtree of the level. */
  ghost predicate HeadAt(t: Tree, visited: seq<Node>, d: nat, done: seq<Tree>, rest: seq<Tree>, forest: seq<Tree>) {
    LevelState(t, visited, d, done, rest) && rest != [] && rest[0].Fork? && forest == Waiting(done, rest)
  }

  /** A queue that is not empty: a new level is begun if need be. */
  lemma {:induction false} AtHead(t: Tree, all: set<Node>, visited: seq<Node>, d: nat, done: seq<Tree>, rest: seq<Tree>,
                                  nodes: seq<ListNode<Node>>)
    returns (e: nat, before: seq<Tree>, here: seq<Tree>, forest: seq<Tree>)
    requires LevelAt(t, all, visited, d, done, rest, nodes) && nodes != []
    ensures HeadAt(t, visited, e, before, here, forest) && Queued(forest, nodes, all)
    ensures here != [] && here[0].Fork? && Hangs(here[0], nodes[0].data, all)
    ensures |visited| < |LevelOrder(t)|
  {
    hide Queued, Kids, Levels, LevelOrder, SubtreesAt;
    e, before, here := d, done, rest;
    QueuedHead(Waiting(done, rest), nodes, all);
    if rest == [] {
      LevelTurns(t, visited, d, done);
      e, before, here := d + 1, [], Kids(done);
    }
    LevelVisits(t, visited, e, before, here);
    WaitingNext(before, here);
    forest := Waiting(before, here);
  }

  /** After the head's children have been queued; the head is about to be removed. */
  lemma {:induction false} AtNext(t: Tree, all: set<Node>, visited: seq<Node>, d: nat, done: seq<Tree>, rest: seq<Tree>,
                                  forest: seq<Tree>, nodes: seq<ListNode<Node>>)
    requires HeadAt(t, visited, d, done, rest, forest) && rest != [] && rest[0].Fork? && nodes != []
    requires Queued(forest + Below(rest[0].left) + Below(rest[0].right), nodes, all)
    ensures LevelAt(t, all, visited + [rest[0].node], d, done + [rest[0]], rest[1..], Without(nodes, 0))
  {
    hide Queued, Kids, Levels, LevelOrder, SubtreesAt;
    LevelVisits(t, visited, d, done, rest);
    WaitingNext(done, rest);
    var l, r := Below(rest[0].left), Below(rest[0].right);
    assert forest + l + r == forest + (l + r);
    QueuedHead(forest + KidsOf(rest[0]), nodes, all);
  }

  lemma {:induction false} AtLast(t: Tree, all: set<Node>, visited: seq<Node>, d: nat, done: seq<Tree>, rest: seq<Tree>,
                                  nodes: seq<ListNode<Node>>)
    requires LevelAt(t, all, visited, d, done, rest, nodes) && nodes == []
    ensures visited == LevelOrder(t)
  {
    LevelsEnd(t, visited, d, done, rest);
  }

  /** A child joins the queue, if there is one. */
  method Offer(queue: List<Node>, child: Node?, ghost t: Tree, ghost forest: seq<Tree>, ghost all: set<Node>)
    requires queue.Valid() && Hangs(t, child, all) && Queued(forest, queue.nodes, all) && queue.nodes != []
    modifies queue, Members(queue.nodes)`next, Members(queue.nodes)`previous
    ensures queue.Valid() && Queued(forest + Below(t), queue.nodes, all)
    ensures queue.nodes != [] && queue.nodes[0] == old(queue.nodes[0])
    ensures forall n :: n in Members(queue.nodes) ==> n in old(Members(queue.nodes)) || fresh(n)
  {
    hide Hangs, Queued;
    RootOf(t, child, all);
    if child != null {
      ghost var before := queue.nodes;
      var added := queue.Add(child);
      QueuedAdd(forest, before, all, t, added);
    } else {
      assert forest + [] == forest;
    }
  }

  /** One turn of the breadth-first loop. */
  method Turn(queue: List<Node>, ghost t: Tree, ghost all: set<Node>, ghost visited: seq<Node>, ghost d: nat,
              ghost done: seq<Tree>, ghost rest: seq<Tree>)
    returns (node: Node, ghost e: nat, ghost before: seq<Tree>, ghost here: seq<Tree>)
    requires queue.Valid() && queue.nodes != [] && all !! queue.memory.freed
    requires LevelAt(t, all, visited, d, done, rest, queue.nodes)
    modifies queue, Members(queue.nodes)`next, Members(queue.nodes)`previous, queue.memory
    ensures queue.Valid() && LevelAt(t, all, visited + [node], e, before, here, queue.nodes)
    ensures |visited| < |LevelOrder(t)|
    ensures forall n :: n in Members(queue.nodes) ==> n in old(Members(queue.nodes)) || fresh(n)
    ensures queue.memory.freed == old(queue.memory.freed) + {old(queue.nodes[0])}
  {
    hide Hangs, LevelAt, HeadAt, Queued, LevelOrder, Without, Below, Members, NoRepeats, Ring;
    queue.Head();
    ghost var forest: seq<Tree>;
    e, before, here, forest := AtHead(t, all, visited, d, done, rest, queue.nodes);
    var head := queue.root;
    node := head.At(queue.memory).data;
    RootOf(here[0], node, all);
    Offer(queue, node.At(queue.memory).left, here[0].left, forest, all);
    Offer(queue, node.At(queue.memory).right, here[0].right, forest + Below(here[0].left), all);
    AtNext(t, all, visited, e, before, here, forest, queue.nodes);
    ghost var left := Without(queue.nodes, 0);
    assert LevelAt(t, all, visited + [node], e, before + [here[0]], here[1..], left);
    queue.RemoveNode(head, 0);
    assert queue.nodes == left;
    assert LevelAt(t, all, visited + [node], e, before + [here[0]], here[1..], left);
    before, here := before + [here[0]], here[1..];
  }

  /** The breadth-first loop. Of older memory it frees nothing: only the nodes of its own queue. */
  method VisitBreadthFirst(root: Node, memory: Allocator, ghost t: Tree, ghost all: set<Node>)
    returns (visited: seq<Node>)
    requires Hangs(t, root, all) && all !! memory.freed
    modifies memory
    ensures visited == LevelOrder(t)
    ensures forall o :: o in memory.freed ==> o in old(memory.freed) || fresh(o)
  {
    hide Hangs, LevelAt, HeadAt, Queued, LevelOrder, Without, Below, Members, NoRepeats, Ring;
    visited := [];
    RootOf(t, root, all);
    var queue := new List<Node>(memory);
    MembersOfNone<Node>();
    var first := queue.Add(root);
    assert queue.nodes == [first];
    AtFirst(t, all, first);
    MembersOfOne(first);
    ghost var d, done: seq<Tree>, rest := 0, [], [t];
    while queue.root != null
      invariant fresh(queue) && queue.memory == memory && queue.Valid()
      invariant forall n :: n in Members(queue.nodes) ==> fresh(n)
      invariant LevelAt(t, all, visited, d, done, rest, queue.nodes)
      invariant all !! memory.freed && forall o :: o in memory.freed ==> o in old(memory.freed) || fresh(o)
      decreases |LevelOrder(t)| - |visited|
    {
      queue.Head();
      MembersWithout(queue.nodes, 0);
      var node;
      node, d, done, rest := Turn(queue, t, all, visited, d, done, rest);
      visited := visited + [node];
    }
    queue.Head();
    AtLast(t, all, visited, d, done, rest, queue.nodes);
    queue.Deinit();
  }
}
