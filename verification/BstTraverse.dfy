/**
 The three loops of bst_rb_traverse in src/bst_redblack.c that keep a stack, against the recursive
 orders of Trees. The callback records the node it is given.
 */
module TreeTraversal {
  import opened Memory
  import opened Common
  import opened Stacks
  import opened Trees

  /** The stack holds the roots of `pending`. */
  ghost predicate Stacked(pending: seq<Tree>, s: seq<Node?>, all: set<Node>)
    reads all
  {
    |pending| == |s| && forall k :: 0 <= k < |s| ==> pending[k].Fork? && Hangs(pending[k], s[k], all)
  }

  lemma {:induction false} StackedNone(all: set<Node>)
    ensures Stacked([], [], all)
  {
  }

  lemma {:induction false} StackedSize(pending: seq<Tree>, s: seq<Node?>, all: set<Node>)
    requires Stacked(pending, s, all)
    ensures |pending| == |s|
  {
  }

  lemma {:induction false} StackedPush(pending: seq<Tree>, s: seq<Node?>, all: set<Node>, t: Tree, n: Node?)
    requires Stacked(pending, s, all) && t.Fork? && Hangs(t, n, all)
    ensures Stacked(pending + [t], s + [n], all)
  {
  }

  lemma {:induction false} StackedPop(pending: seq<Tree>, s: seq<Node?>, all: set<Node>)
    requires Stacked(pending, s, all) && s != []
    ensures pending != [] && pending[|pending| - 1].Fork? && Hangs(pending[|pending| - 1], s[|s| - 1], all)
    ensures Stacked(pending[..|pending| - 1], s[..|s| - 1], all)
  {
  }

  // ---------------------------------------------------------------- pre-order

  /** The nodes still to come from the subtrees on the stack. */
  ghost function PreAll(pending: seq<Tree>): seq<Node>
    decreases |pending|
  {
    if pending == [] then [] else Pre(pending[|pending| - 1]) + PreAll(pending[..|pending| - 1])
  }

  ghost predicate PreState(t: Tree, visited: seq<Node>, cur: Tree, pending: seq<Tree>) {
    Pre(t) == visited + (Pre(cur) + PreAll(pending))
  }

  lemma {:induction false} PreBegins(t: Tree)
    ensures PreState(t, [], t, [])
  {
  }

  lemma {:induction false} PreVisits(t: Tree, visited: seq<Node>, cur: Tree, pending: seq<Tree>)
    requires PreState(t, visited, cur, pending) && cur.Fork?
    ensures PreState(t, visited + [cur.node], cur.left, if cur.right.Fork? then pending + [cur.right] else pending)
    ensures |visited| < |Pre(t)|
  {
    var l, r, rest := Pre(cur.left), Pre(cur.right), PreAll(pending);
    if cur.right.Fork? {
      assert (pending + [cur.right])[..|pending|] == pending;
      assert PreAll(pending + [cur.right]) == r + rest;
    } else {
      assert r + rest == rest;
    }
    Assoc([cur.node] + l, r, rest);
    Assoc([cur.node], l, r + rest);
    Assoc(visited, [cur.node], l + (r + rest));
  }

  lemma {:induction false} PrePops(t: Tree, visited: seq<Node>, pending: seq<Tree>)
    requires PreState(t, visited, Leaf, pending) && pending != []
    ensures PreState(t, visited, pending[|pending| - 1], pending[..|pending| - 1])
    ensures |visited| <= |Pre(t)|
  {
  }

  lemma {:induction false} PreEnds(t: Tree, visited: seq<Node>)
    requires PreState(t, visited, Leaf, [])
    ensures visited == Pre(t)
  {
  }

  method VisitPreOrder(root: Node?, memory: Allocator, ghost t: Tree, ghost all: set<Node>) returns (visited: seq<Node>)
    requires Hangs(t, root, all) && all !! memory.freed
    ensures visited == Pre(t)
  {
    hide Pre, PreState, Stacked, Hangs;
    var stack := new Stack<Node?>(1);
    var node := root;
    visited := [];
    ghost var cur, pending: seq<Tree> := t, [];
    StackedNone(all);
    PreBegins(t);
    while true
      invariant fresh(stack) && fresh(stack.values) && stack.Valid()
      invariant Hangs(cur, node, all)
      invariant Stacked(pending, stack.Contents(), all)
      invariant PreState(t, visited, cur, pending)
      decreases |Pre(t)| - |visited|, |pending|
    {
      RootOf(cur, node, all);
      if node != null {
        RootOf(cur.right, node.right, all);
        PreVisits(t, visited, cur, pending);
        visited := visited + [node];
        if node.At(memory).right != null {
          StackedPush(pending, stack.Contents(), all, cur.right, node.right);
          stack.Push(node.At(memory).right);
          pending := pending + [cur.right];
        }
        node := node.At(memory).left;
        cur := cur.left;
      } else if stack.count > 0 {
        StackedPop(pending, stack.Contents(), all);
        PrePops(t, visited, pending);
        var top := stack.Pop();
        node := top.value;
        cur, pending := pending[|pending| - 1], pending[..|pending| - 1];
      } else {
        StackedSize(pending, stack.Contents(), all);
        break;
      }
    }
    PreEnds(t, visited);
  }

  // ---------------------------------------------------------------- in-order

  /** The nodes still to come from those on the stack: each with its right subtree. */
  ghost function InAll(pending: seq<Tree>): seq<Node>
    requires forall k :: 0 <= k < |pending| ==> pending[k].Fork?
    decreases |pending|
  {
    if pending == [] then []
    else
      var last := pending[|pending| - 1];
      [last.node] + (In(last.right) + InAll(pending[..|pending| - 1]))
  }

  ghost predicate InState(t: Tree, visited: seq<Node>, cur: Tree, pending: seq<Tree>) {
    (forall k :: 0 <= k < |pending| ==> pending[k].Fork?)
    && In(t) == visited + (In(cur) + InAll(pending))
  }

  lemma {:induction false} InBegins(t: Tree)
    ensures InState(t, [], t, [])
  {
  }

  lemma {:induction false} InDescends(t: Tree, visited: seq<Node>, cur: Tree, pending: seq<Tree>)
    requires InState(t, visited, cur, pending) && cur.Fork?
    ensures InState(t, visited, cur.left, pending + [cur])
    ensures |visited| < |In(t)| && |In(cur.left)| < |In(cur)|
  {
    var l, r, rest := In(cur.left), In(cur.right), InAll(pending);
    assert (pending + [cur])[..|pending|] == pending;
    assert (l + [cur.node] + r) + rest == l + ([cur.node] + (r + rest));
  }

  lemma {:induction false} InVisits(t: Tree, visited: seq<Node>, pending: seq<Tree>)
    requires InState(t, visited, Leaf, pending) && pending != []
    ensures var last := pending[|pending| - 1];
            last.Fork? && InState(t, visited + [last.node], last.right, pending[..|pending| - 1])
    ensures |visited| < |In(t)|
  {
    var last := pending[|pending| - 1];
    var rest := In(last.right) + InAll(pending[..|pending| - 1]);
    assert [] + ([last.node] + rest) == [last.node] + rest;
    assert visited + ([last.node] + rest) == (visited + [last.node]) + rest;
  }

  lemma {:induction false} InEnds(t: Tree, visited: seq<Node>)
    requires InState(t, visited, Leaf, [])
    ensures visited == In(t)
  {
  }

  method VisitInOrder(root: Node?, memory: Allocator, ghost t: Tree, ghost all: set<Node>) returns (visited: seq<Node>)
    requires Hangs(t, root, all) && all !! memory.freed
    ensures visited == In(t)
  {
    hide In, InState, Stacked, Hangs;
    var stack := new Stack<Node?>(1);
    var node := root;
    visited := [];
    ghost var cur, pending: seq<Tree> := t, [];
    StackedNone(all);
    InBegins(t);
    while true
      invariant fresh(stack) && fresh(stack.values) && stack.Valid()
      invariant Hangs(cur, node, all)
      invariant Stacked(pending, stack.Contents(), all)
      invariant InState(t, visited, cur, pending)
      decreases |In(t)| - |visited|, |In(cur)|
    {
      RootOf(cur, node, all);
      if node != null {
        StackedPush(pending, stack.Contents(), all, cur, node);
        InDescends(t, visited, cur, pending);
        stack.Push(node);
        node := node.At(memory).left;
        cur, pending := cur.left, pending + [cur];
      } else if stack.count > 0 {
        StackedPop(pending, stack.Contents(), all);
        InVisits(t, visited, pending);
        var top := stack.Pop();
        node := top.value;
        ghost var last := pending[|pending| - 1];
        RootOf(last, node, all);
        visited := visited + [node];
        node := node.At(memory).right;
        cur, pending := last.right, pending[..|pending| - 1];
      } else {
        StackedSize(pending, stack.Contents(), all);
        break;
      }
    }
    InEnds(t, visited);
  }

  // ---------------------------------------------------------------- post-order

  /**
   The nodes still to come from those on the stack: each after its right subtree, unless the loop is
   in that subtree already.
   */
  ghost function PostAll(pending: seq<Tree>, inRight: seq<bool>): seq<Node>
    requires |pending| == |inRight| && forall k :: 0 <= k < |pending| ==> pending[k].Fork?
    decreases |pending|
  {
    if pending == [] then []
    else
      var k := |pending| - 1;
      (if inRight[k] then [] else Post(pending[k].right)) + ([pending[k].node] + PostAll(pending[..k], inRight[..k]))
  }

  /** The part of the state that the test on `previous` in the loop relies on. */
  ghost predicate Chained(visited: seq<Node>, cur: Tree, pending: seq<Tree>, inRight: seq<bool>, previous: Node?)
    requires |pending| == |inRight|
  {
    && (forall k :: 0 <= k < |pending| - 1 && inRight[k] ==> pending[k].Fork? && pending[k].right == pending[k + 1])
    && (previous != null ==> previous in visited)
    && (pending != [] && inRight[|pending| - 1] ==>
          var last := pending[|pending| - 1];
          last.Fork? && last.right.Fork? && if cur.Fork? then cur == last.right else previous == last.right.node)
  }

  ghost predicate PostState(t: Tree, visited: seq<Node>, cur: Tree, pending: seq<Tree>, inRight: seq<bool>,
                            previous: Node?) {
    && Distinct(t)
    && |pending| == |inRight| && (forall k :: 0 <= k < |pending| ==> pending[k].Fork?)
    && Post(t) == visited + (Post(cur) + PostAll(pending, inRight))
    && Chained(visited, cur, pending, inRight, previous)
  }

  lemma {:induction false} PostBegins(t: Tree)
    requires Distinct(t)
    ensures PostState(t, [], t, [], [], null)
  {
  }

  lemma {:induction false} PostAllLast(pending: seq<Tree>, inRight: seq<bool>)
    requires |pending| == |inRight| && pending != [] && forall k :: 0 <= k < |pending| ==> pending[k].Fork?
    ensures var k := |pending| - 1;
            |PostAll(pending, inRight)| >= 1 + |PostAll(pending[..k], inRight[..k])|
  {
    hide Post;
  }

  lemma {:induction false} PostAllSize(pending: seq<Tree>, inRight: seq<bool>)
    requires |pending| == |inRight| && forall k :: 0 <= k < |pending| ==> pending[k].Fork?
    ensures |PostAll(pending, inRight)| >= |pending|
    decreases |pending|
  {
    if pending != [] {
      var k := |pending| - 1;
      hide PostAll;
      PostAllSize(pending[..k], inRight[..k]);
      PostAllLast(pending, inRight);
    }
  }

  lemma {:induction false} PostDescends(t: Tree, visited: seq<Node>, cur: Tree, pending: seq<Tree>, inRight: seq<bool>,
                                        previous: Node?)
    requires PostState(t, visited, cur, pending, inRight, previous) && cur.Fork?
    ensures PostState(t, visited, cur.left, pending + [cur], inRight + [false], previous)
    ensures cur.node !in visited
    ensures |visited| + |pending| < |Post(t)|
  {
    var l, r, rest := Post(cur.left), Post(cur.right), PostAll(pending, inRight);
    var now := pending + [cur];
    assert now[..|pending|] == pending && (inRight + [false])[..|pending|] == inRight;
    assert PostAll(now, inRight + [false]) == r + ([cur.node] + rest);
    assert (l + r + [cur.node]) + rest == l + (r + ([cur.node] + rest));
    assert cur.node in Post(cur) + rest by { assert (l + r + [cur.node])[|l + r|] == cur.node; }
    PostSplit(t, visited, Post(cur) + rest, cur.node);
    PostAllSize(pending, inRight);
  }

  /** The last node on the stack is not visited, nor its right child unless the right subtree is done. */
  lemma {:induction false} PostTop(t: Tree, visited: seq<Node>, pending: seq<Tree>, inRight: seq<bool>, previous: Node?)
    requires PostState(t, visited, Leaf, pending, inRight, previous) && pending != []
    ensures var last := pending[|pending| - 1];
            last.Fork? && last.node !in visited
            && (last.right.Fork? ==> (inRight[|pending| - 1] <==> previous == last.right.node))
            && (last.right.Leaf? ==> !inRight[|pending| - 1])
    ensures |visited| + |pending| <= |Post(t)|
  {
    var k := |pending| - 1;
    var last := pending[k];
    var rest := PostAll(pending, inRight);
    assert Post(Leaf) + rest == rest;
    assert rest[if inRight[k] then 0 else |Post(last.right)|] == last.node;
    PostSplit(t, visited, rest, last.node);
    if last.right.Fork? && !inRight[k] {
      var r := Post(last.right);
      assert r[|r| - 1] == last.right.node && rest[|r| - 1] == r[|r| - 1];
      PostSplit(t, visited, rest, last.right.node);
    }
    PostAllSize(pending, inRight);
  }

  lemma {:induction false} PostTurns(t: Tree, visited: seq<Node>, pending: seq<Tree>, inRight: seq<bool>,
                                     previous: Node?)
    requires PostState(t, visited, Leaf, pending, inRight, previous) && pending != []
    requires var last := pending[|pending| - 1]; last.Fork? && last.right.Fork? && previous != last.right.node
    ensures PostState(t, visited, pending[|pending| - 1].right, pending, inRight[|pending| - 1 := true], previous)
  {
    PostTop(t, visited, pending, inRight, previous);
    var k := |pending| - 1;
    var after := inRight[k := true];
    assert after[..k] == inRight[..k];
    var below := [pending[k].node] + PostAll(pending[..k], inRight[..k]);
    assert PostAll(pending, after) == [] + below == below;
    assert Post(Leaf) + PostAll(pending, inRight) == Post(pending[k].right) + below;
  }

  lemma {:induction false} PostVisits(t: Tree, visited: seq<Node>, pending: seq<Tree>, inRight: seq<bool>,
                                      previous: Node?)
    requires PostState(t, visited, Leaf, pending, inRight, previous) && pending != []
    requires var last := pending[|pending| - 1]; last.Fork? && (last.right.Leaf? || previous == last.right.node)
    ensures var k := |pending| - 1;
            PostState(t, visited + [pending[k].node], Leaf, pending[..k], inRight[..k], pending[k].node)
  {
    PostTop(t, visited, pending, inRight, previous);
    var k := |pending| - 1;
    var node, below := pending[k].node, PostAll(pending[..k], inRight[..k]);
    assert Post(Leaf) + PostAll(pending, inRight) == [node] + below;
    assert Post(Leaf) + below == below;
    assert visited + ([node] + below) == (visited + [node]) + below;
  }

  lemma {:induction false} PostEnds(t: Tree, visited: seq<Node>, previous: Node?)
    requires PostState(t, visited, Leaf, [], [], previous)
    ensures visited == Post(t)
    ensures (set n | n in visited) == Nodes(t)
  {
    forall n: Node {
      EachOnce(t, PostOrder, n);
    }
  }

  // ---- the loop and the heap

  /** Where the loop stands: `node` roots `cur`, the stack `s` holds the roots of `pending`. */
  ghost predicate PostAt(t: Tree, all: set<Node>, visited: seq<Node>, cur: Tree, node: Node?, pending: seq<Tree>,
                         inRight: seq<bool>, s: seq<Node?>, previous: Node?)
    reads all
  {
    Hangs(cur, node, all) && Stacked(pending, s, all)
    && |pending| == |inRight| && PostState(t, visited, cur, pending, inRight, previous)
  }

  lemma {:induction false} AtFirst(t: Tree, all: set<Node>, root: Node?)
    requires Hangs(t, root, all) && Distinct(t)
    ensures PostAt(t, all, [], t, root, [], [], [], null)
  {
    PostBegins(t);
  }

  lemma {:induction false} AtNode(t: Tree, all: set<Node>, visited: seq<Node>, cur: Tree, node: Node?,
                                  pending: seq<Tree>, inRight: seq<bool>, s: seq<Node?>, previous: Node?)
    requires PostAt(t, all, visited, cur, node, pending, inRight, s, previous) && node != null
    ensures cur.Fork? && node in all && node !in visited && |visited| + |pending| < |Post(t)|
    ensures PostAt(t, all, visited, cur.left, node.left, pending + [cur], inRight + [false], s + [node], previous)
  {
    hide PostState, Post, Stacked;
    PostDescends(t, visited, cur, pending, inRight, previous);
    StackedPush(pending, s, all, cur, node);
  }

  lemma {:induction false} AtTop(t: Tree, all: set<Node>, visited: seq<Node>, cur: Tree, node: Node?,
                                 pending: seq<Tree>, inRight: seq<bool>, s: seq<Node?>, previous: Node?)
    requires PostAt(t, all, visited, cur, node, pending, inRight, s, previous) && node == null && s != []
    ensures cur == Leaf && |s| == |pending| == |inRight| && |visited| + |pending| <= |Post(t)|
    ensures var k := |s| - 1;
            && s[k] != null && s[k] in all && s[k] !in visited
            && if s[k].right != null && s[k].right != previous then
                 pending[k].Fork? && pending[k].right.Fork? && !inRight[k]
                 && PostAt(t, all, visited, pending[k].right, s[k].right, pending, inRight[k := true], s, previous)
               else PostAt(t, all, visited + [s[k]], Leaf, null, pending[..k], inRight[..k], s[..k], s[k])
  {
    hide PostState, Post, Stacked;
    var k := |s| - 1;
    StackedSize(pending, s, all);
    StackedPop(pending, s, all);
    PostTop(t, visited, pending, inRight, previous);
    if s[k].right != null && s[k].right != previous {
      PostTurns(t, visited, pending, inRight, previous);
    } else {
      PostVisits(t, visited, pending, inRight, previous);
    }
  }

  lemma {:induction false} AtLast(t: Tree, all: set<Node>, visited: seq<Node>, cur: Tree, node: Node?,
                                  pending: seq<Tree>, inRight: seq<bool>, s: seq<Node?>, previous: Node?)
    requires PostAt(t, all, visited, cur, node, pending, inRight, s, previous) && node == null && s == []
    ensures visited == Post(t) && Seen(visited) == Nodes(t)
  {
    PostEnds(t, visited, previous);
  }

  ghost function Seen(visited: seq<Node>): set<Node> {
    set n | n in visited
  }

  lemma {:induction false} SeenNext(visited: seq<Node>, n: Node)
    ensures Seen(visited + [n]) == Seen(visited) + {n}
    ensures n in Seen(visited) <==> n in visited
  {
  }

  lemma {:induction false} SeenNone()
    ensures Seen([]) == {}
  {
  }

  /** traverse_and_destroy_tree, or a callback that leaves the tree alone. */
  method Callback(node: Node, memory: Allocator, frees: bool)
    requires node !in memory.freed
    modifies memory
    ensures memory.freed == old(memory.freed) + if frees then {node} else {}
  {
    if frees {
      memory.Free(node);
    }
  }

  /**
   The post-order loop, with a callback that records the node it is given and, for bst_rb_destroy,
   frees it. No node is read after it was given to the callback.
   */
  method VisitPostOrder(root: Node?, memory: Allocator, frees: bool, ghost t: Tree, ghost all: set<Node>)
    returns (visited: seq<Node>)
    requires Hangs(t, root, all) && Distinct(t) && all !! memory.freed
    modifies memory
    ensures visited == Post(t)
    ensures memory.freed == old(memory.freed) + if frees then Nodes(t) else {}
  {
    hide Post, PostAt, Hangs, Seen, Distinct;
    var stack := new Stack<Node?>(1);
    var node := root;
    var previous: Node? := null;
    visited := [];
    ghost var cur, pending: seq<Tree>, inRight: seq<bool> := t, [], [];
    AtFirst(t, all, root);
    SeenNone();
    while true
      invariant fresh(stack) && fresh(stack.values) && stack.Valid()
      invariant PostAt(t, all, visited, cur, node, pending, inRight, stack.Contents(), previous)
      invariant memory.freed == old(memory.freed) + if frees then Seen(visited) else {}
      decreases |Post(t)| - |visited|, |Post(t)| - |visited| - |pending|,
                pending != [] && |inRight| == |pending| && !inRight[|pending| - 1] && cur.Leaf?
    {
      if node != null {
        AtNode(t, all, visited, cur, node, pending, inRight, stack.Contents(), previous);
        SeenNext(visited, node);
        stack.Push(node);
        node := node.At(memory).left;
        cur, pending, inRight := cur.left, pending + [cur], inRight + [false];
      } else if stack.count > 0 {
        AtTop(t, all, visited, cur, node, pending, inRight, stack.Contents(), previous);
        var current: Node := stack.Top().value;
        SeenNext(visited, current);
        if current.At(memory).right != null && current.At(memory).right != previous {
          node := current.At(memory).right;
          cur, inRight := pending[|pending| - 1].right, inRight[|pending| - 1 := true];
        } else {
          Callback(current, memory, frees);
          visited := visited + [current];
          previous := current;
          var _ := stack.Pop();
          pending, inRight := pending[..|pending| - 1], inRight[..|pending| - 1];
        }
      } else {
        AtLast(t, all, visited, cur, node, pending, inRight, stack.Contents(), previous);
        break;
      }
    }
  }
}
