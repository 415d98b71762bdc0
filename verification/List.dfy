/**
 The circular doubly linked list of src/list.c. The fields of a node are read and written only
 through `At`, which no freed node admits.
 */
module Lists {
  import opened Memory

  class ListNode<T> {
    var data: T
    var previous: ListNode?<T>
    var next: ListNode?<T>

    constructor (data: T)
      ensures this.data == data
    {
      this.data := data;
      previous, next := null, null;
    }

    /** The node, to read or write its fields: no freed node admits that. */
    function At(memory: Allocator): (node: ListNode<T>)
      requires this !in memory.freed
      reads memory
      ensures node == this
    {
      this
    }
  }

  // ---------------------------------------------------------------- callbacks

  /** A list_remove_if callback's answer: whether to go on, and whether to remove the node just seen. */
  datatype Verdict = Verdict(goOn: bool, remove: bool)

  /** How many of the data a traversal visits that has seen `seen`; a callback answers from the data seen so far. */
  function Visited<T>(data: seq<T>, seen: nat, goOn: seq<T> -> bool): (n: nat)
    requires seen < |data|
    ensures seen < n <= |data|
    ensures forall k :: seen < k < n ==> goOn(data[..k])
    ensures n == |data| || !goOn(data[..n])
    decreases |data| - seen
  {
    if goOn(data[..seen + 1]) && seen + 1 < |data| then Visited(data, seen + 1, goOn) else seen + 1
  }

  /** The indices below `end` that the callback does not mark for removal. */
  function Kept<T>(data: seq<T>, callback: seq<T> -> Verdict, end: nat): (k: seq<nat>)
    requires end <= |data|
    ensures forall i :: 0 <= i < |k| ==> k[i] < end
  {
    if end == 0 then []
    else
      var before := Kept(data, callback, end - 1);
      if callback(data[..end]).remove then before else before + [end - 1]
  }

  /** Kept lists exactly the unmarked indices, each once and in order. */
  lemma {:induction false} KeptExact<T>(data: seq<T>, callback: seq<T> -> Verdict, end: nat)
    requires end <= |data|
    ensures forall i, j :: 0 <= i < j < |Kept(data, callback, end)| ==>
              Kept(data, callback, end)[i] < Kept(data, callback, end)[j]
    ensures forall i :: 0 <= i < end ==> (i in Kept(data, callback, end) <==> !callback(data[..i + 1]).remove)
    decreases end
  {
    if end > 0 {
      KeptExact(data, callback, end - 1);
      assert data[..end - 1 + 1] == data[..end];
      var before, k := Kept(data, callback, end - 1), Kept(data, callback, end);
      forall i | 0 <= i < end ensures i in k <==> !callback(data[..i + 1]).remove {
        if i == end - 1 && k != before {
          assert k[|before|] == i;
        } else if i < end - 1 && k != before {
          assert i in k <==> i in before;
        }
      }
    }
  }

  /** The elements of `s` at the given indices. */
  function Pick<A>(s: seq<A>, indices: seq<nat>): (p: seq<A>)
    requires forall i :: 0 <= i < |indices| ==> indices[i] < |s|
    ensures |p| == |indices| && forall i :: 0 <= i < |p| ==> p[i] == s[indices[i]]
  {
    seq(|indices|, i requires 0 <= i < |indices| => s[indices[i]])
  }

  function GoesOn<T>(callback: seq<T> -> Verdict): seq<T> -> bool {
    seen => callback(seen).goOn
  }

  // ---------------------------------------------------------------- the list

  function After(n: nat, i: nat): nat {
    if i + 1 == n then 0 else i + 1
  }

  function Before(n: nat, i: nat): int {
    if i == 0 then n - 1 else i - 1
  }

  ghost function Members<T>(nodes: seq<ListNode<T>>): set<ListNode<T>> {
    set n | n in nodes
  }

  ghost predicate NoRepeats<T>(nodes: seq<ListNode<T>>) {
    nodes == [] || (nodes[0] !in nodes[1..] && NoRepeats(nodes[1..]))
  }

  lemma {:induction false} NoRepeatsExact<T>(nodes: seq<ListNode<T>>)
    ensures NoRepeats(nodes) <==> forall i, j :: 0 <= i < j < |nodes| ==> nodes[i] != nodes[j]
  {
    if nodes != [] {
      var rest := nodes[1..];
      NoRepeatsExact(rest);
      if NoRepeats(nodes) {
        forall i, j | 0 <= i < j < |nodes| ensures nodes[i] != nodes[j] {
          assert nodes[j] == rest[j - 1];
          if i > 0 {
            assert nodes[i] == rest[i - 1];
          }
        }
      }
      if forall i, j :: 0 <= i < j < |nodes| ==> nodes[i] != nodes[j] {
        forall i, j | 0 <= i < j < |rest| ensures rest[i] != rest[j] {
          assert rest[i] == nodes[i + 1] && rest[j] == nodes[j + 1];
        }
      }
    }
  }

  /** Every node is linked with the one after it and the one before it, the last with the first. */
  ghost predicate Ring<T>(nodes: seq<ListNode<T>>)
    reads nodes
  {
    (forall i {:trigger nodes[i].next} :: 0 <= i < |nodes| ==> nodes[i].next == nodes[After(|nodes|, i)])
    && (forall i {:trigger nodes[i].previous} :: 0 <= i < |nodes| ==> nodes[i].previous == nodes[Before(|nodes|, i)])
  }

  ghost function DataOf<T>(nodes: seq<ListNode<T>>): (d: seq<T>)
    reads nodes
    ensures |d| == |nodes|
  {
    seq(|nodes|, i requires 0 <= i < |nodes| reads nodes => nodes[i].data)
  }

  lemma {:induction false} DataAt<T>(nodes: seq<ListNode<T>>, i: nat)
    requires i < |nodes|
    ensures DataOf(nodes)[i] == nodes[i].data
  {
  }

  /** Linking a new node between the last and the first keeps the ring. */
  twostate lemma {:induction false} RingPlus<T>(nodes: seq<ListNode<T>>, new node: ListNode<T>)
    requires nodes != [] && old(Ring(nodes)) && NoRepeats(nodes) && node !in nodes
    requires node.next == nodes[0] && node.previous == nodes[|nodes| - 1]
    requires forall k {:trigger nodes[k].next} :: 0 <= k < |nodes| ==>
               nodes[k].next == if k == |nodes| - 1 then node else old(nodes[k].next)
    requires forall k {:trigger nodes[k].previous} :: 0 <= k < |nodes| ==>
               nodes[k].previous == if k == 0 then node else old(nodes[k].previous)
    ensures Ring(nodes + [node])
  {
    var all := nodes + [node];
    NoRepeatsExact(nodes);
    forall k | 0 <= k < |all| ensures all[k].next == all[After(|all|, k)] && all[k].previous == all[Before(|all|, k)] {
      if k < |nodes| {
        assert all[k] == nodes[k];
      }
    }
  }

  /** Linking the neighbours of a node with each other keeps the ring without it. */
  twostate lemma {:induction false} RingWithout<T>(nodes: seq<ListNode<T>>, new i: nat)
    requires |nodes| > 1 && i < |nodes| && old(Ring(nodes)) && NoRepeats(nodes)
    requires forall n :: n in nodes && n != nodes[i] ==>
               n.next == if old(n.next) == nodes[i] then old(nodes[i].next) else old(n.next)
    requires forall n :: n in nodes && n != nodes[i] ==>
               n.previous == if old(n.previous) == nodes[i] then old(nodes[i].previous) else old(n.previous)
    ensures Ring(Without(nodes, i))
  {
    var rest := Without(nodes, i);
    NoRepeatsExact(nodes);
    forall k | 0 <= k < |rest|
      ensures rest[k].next == rest[After(|rest|, k)] && rest[k].previous == rest[Before(|rest|, k)]
    {
      assert rest[k] == nodes[if k < i then k else k + 1];
    }
  }

  function Without<A>(s: seq<A>, i: nat): seq<A>
    requires i < |s|
  {
    s[..i] + s[i + 1..]
  }

  lemma {:induction false} NoRepeatsWithout<T>(nodes: seq<ListNode<T>>, i: nat)
    requires i < |nodes| && NoRepeats(nodes)
    ensures NoRepeats(Without(nodes, i))
    ensures forall n :: n in Without(nodes, i) ==> n in nodes && n != nodes[i]
    ensures Without(nodes, i) == [] <==> |nodes| == 1
    ensures Without(nodes, i) != [] ==> Without(nodes, i)[0] == if i == 0 then nodes[1] else nodes[0]
  {
    var rest := Without(nodes, i);
    NoRepeatsExact(nodes);
    NoRepeatsExact(rest);
    assert forall k :: 0 <= k < |rest| ==> rest[k] == nodes[if k < i then k else k + 1];
  }

  lemma {:induction false} Neighbours<T>(nodes: seq<ListNode<T>>, i: nat)
    requires i < |nodes| && NoRepeats(nodes) && Ring(nodes)
    ensures nodes[i].next == nodes[After(|nodes|, i)] && nodes[i].previous == nodes[Before(|nodes|, i)]
    ensures nodes[i].next == nodes[i] <==> |nodes| == 1
    ensures forall n :: n in nodes ==> (n.next == nodes[i] <==> n == nodes[i].previous)
    ensures forall n :: n in nodes ==> (n.previous == nodes[i] <==> n == nodes[i].next)
    ensures Ring<T>([])
  {
    NoRepeatsExact(nodes);
  }

  lemma {:induction false} TakeNext<A>(s: seq<A>, i: nat)
    requires i < |s|
    ensures s[..i + 1] == s[..i] + [s[i]]
  {
  }

  lemma {:induction false} TakeFirst<A>(kept: seq<A>, was: seq<A>, i: nat)
    requires i < |was|
    ensures var now := kept + was[i..];
            && |now| == |kept| + |was| - i
            && now[|kept|] == was[i]
            && (i + 1 < |was| ==> now[|kept| + 1] == was[i + 1])
            && Without(now, |kept|) == kept + was[i + 1..]
            && now == (kept + [was[i]]) + was[i + 1..]
  {
    assert was[i..] == [was[i]] + was[i + 1..];
  }

  /** What a list_remove_if traversal leaves that visits the first `i` nodes: the unmarked of them, and the rest. */
  ghost function LeftBy<T>(was: seq<ListNode<T>>, data: seq<T>, callback: seq<T> -> Verdict, i: nat): seq<ListNode<T>>
    requires |data| == |was| && i <= |was|
  {
    Pick(was, Kept(data, callback, i)) + was[i..]
  }

  /** Where a list_remove_if traversal stands that has seen the first `i` nodes. */
  ghost predicate Midway<T>(was: seq<ListNode<T>>, data: seq<T>, callback: seq<T> -> Verdict, i: nat,
                            now: seq<ListNode<T>>, seen: seq<T>) {
    && |data| == |was| && i <= |was|
    && now == LeftBy(was, data, callback, i)
    && seen == data[..i]
  }

  lemma {:induction false} MidwayFirst<T>(was: seq<ListNode<T>>, data: seq<T>, callback: seq<T> -> Verdict)
    requires |data| == |was|
    ensures Midway(was, data, callback, 0, was, [])
    ensures Gone(was, was) == {}
  {
  }

  /** What one visit does to the list: nothing, or the node seen goes. */
  lemma {:induction false} MidwayNext<T>(was: seq<ListNode<T>>, data: seq<T>, callback: seq<T> -> Verdict, i: nat,
                                         now: seq<ListNode<T>>, seen: seq<T>)
    requires i < |was| && Midway(was, data, callback, i, now, seen)
    ensures var k := |Kept(data, callback, i)|;
            var after := seen + [data[i]];
            && Members(now) <= Members(was)
            && k < |now| && now[k] == was[i] && (k + 1 == |now| <==> i + 1 == |was|)
            && (i + 1 < |was| ==> now[k + 1] == was[i + 1])
            && Midway(was, data, callback, i + 1, if callback(after).remove then Without(now, k) else now, after)
            && Visited(data, i, GoesOn(callback))
               == if callback(after).goOn && i + 1 < |was| then Visited(data, i + 1, GoesOn(callback)) else i + 1
  {
    var kept := Pick(was, Kept(data, callback, i));
    TakeFirst(kept, was, i);
    TakeNext(data, i);
    if !callback(data[..i + 1]).remove {
      assert Pick(was, Kept(data, callback, i + 1)) == kept + [was[i]];
    }
  }

  lemma {:induction false} MidwayLast<T>(was: seq<ListNode<T>>, data: seq<T>, callback: seq<T> -> Verdict, i: nat,
                                         now: seq<ListNode<T>>, seen: seq<T>)
    requires Midway(was, data, callback, i, now, seen)
    ensures |data| == |was| && i <= |was| && now == LeftBy(was, data, callback, i)
  {
  }

  lemma {:induction false} MembersOfPrefix<T>(nodes: seq<ListNode<T>>, i: nat)
    requires i <= |nodes|
    ensures Members(nodes[..0]) == {} && Members(nodes[..|nodes|]) == Members(nodes)
    ensures i < |nodes| ==> Members(nodes[..i + 1]) == Members(nodes[..i]) + {nodes[i]}
  {
    assert nodes[..|nodes|] == nodes;
    if i < |nodes| {
      TakeNext(nodes, i);
    }
  }

  lemma {:induction false} IsMember<T>(nodes: seq<ListNode<T>>, i: nat)
    requires i < |nodes|
    ensures nodes[i] in Members(nodes)
  {
  }

  lemma {:induction false} MembersOfOne<T>(node: ListNode<T>)
    ensures Members([node]) == {node}
  {
  }

  lemma {:induction false} MembersOfNone<T>()
    ensures Members<T>([]) == {}
  {
  }

  lemma {:induction false} MembersWithout<T>(nodes: seq<ListNode<T>>, i: nat)
    requires i < |nodes|
    ensures Members(Without(nodes, i)) <= Members(nodes) && nodes[i] in Members(nodes)
  {
  }

  /** The nodes of `was` no longer in `now`. */
  ghost function Gone<T>(was: seq<ListNode<T>>, now: seq<ListNode<T>>): set<ListNode<T>> {
    Members(was) - Members(now)
  }

  lemma {:induction false} GoneWithout<T>(was: seq<ListNode<T>>, now: seq<ListNode<T>>, k: nat)
    requires k < |now| && NoRepeats(now) && now[k] in was
    ensures Gone(was, Without(now, k)) == Gone(was, now) + {now[k]}
  {
    NoRepeatsWithout(now, k);
    var rest := Without(now, k);
    forall n | n in now && n != now[k] ensures n in rest {
      var j :| 0 <= j < |now| && now[j] == n;
      assert rest[if j < k then j else j - 1] == n;
    }
  }

  class List<T> {
    const memory: Allocator
    var root: ListNode?<T>
    ghost var nodes: seq<ListNode<T>>

    /** A well-formed circular list of distinct live nodes. */
    ghost predicate Valid()
      reads this, memory, nodes
    {
      && root == (if nodes == [] then null else nodes[0])
      && NoRepeats(nodes)
      && Ring(nodes)
      && (forall n :: n in nodes ==> n !in memory.freed)
    }

    constructor (memory: Allocator)
      ensures this.memory == memory && nodes == [] && Valid()
    {
      this.memory := memory;
      root := null;
      nodes := [];
    }

    /** list_add: the new node is the last. */
    method Add(data: T) returns (node: ListNode<T>)
      requires Valid()
      modifies this, Members(nodes)`next, Members(nodes)`previous
      ensures Valid() && nodes == old(nodes) + [node]
      ensures fresh(node) && node.data == data
    {
      node := new ListNode(data);
      assert node !in memory.freed;
      NoRepeatsExact(nodes);
      NoRepeatsExact(nodes + [node]);
      if root == null {
        root := node;
        node.At(memory).next := node;
        node.At(memory).previous := node;
        nodes := [node];
      } else {
        Link(node);
        nodes := nodes + [node];
      }
    }

    /** The part of remove_node that links the neighbours of a node with each other. */
    method Unlink(node: ListNode<T>, ghost i: nat)
      requires |nodes| > 1 && NoRepeats(nodes) && Ring(nodes) && i < |nodes| && nodes[i] == node
      requires forall n :: n in nodes ==> n !in memory.freed
      modifies Members(nodes)`next, Members(nodes)`previous
      ensures Ring(Without(nodes, i))
    {
      hide Ring, Without;
      Neighbours(nodes, i);
      node.At(memory).previous.At(memory).next := node.At(memory).next;
      node.At(memory).next.At(memory).previous := node.At(memory).previous;
      RingWithout(nodes, i);
    }

    /** The part of list_add that links a new node between the last and the first. */
    method Link(node: ListNode<T>)
      requires nodes != [] && NoRepeats(nodes) && Ring(nodes) && root == nodes[0] && node !in nodes
      requires node !in memory.freed && forall n :: n in nodes ==> n !in memory.freed
      modifies node, Members(nodes)`next, Members(nodes)`previous
      ensures Ring(nodes + [node]) && node.data == old(node.data)
    {
      hide Ring;
      Neighbours(nodes, 0);
      node.At(memory).previous := root.At(memory).previous;
      node.At(memory).next := root;
      root.At(memory).previous.At(memory).next := node;
      root.At(memory).previous := node;
      NoRepeatsExact(nodes);
      RingPlus(nodes, node);
    }

    /** remove_node: the node at `i`, wherever it stands, and no other. */
    method RemoveNode(node: ListNode<T>, ghost i: nat)
      requires Valid() && i < |nodes| && nodes[i] == node
      modifies this, Members(nodes)`next, Members(nodes)`previous, memory
      ensures Valid() && nodes == Without(old(nodes), i)
      ensures Members(nodes) <= old(Members(nodes))
      ensures memory.freed == old(memory.freed) + {node}
    {
      hide Ring, Without;
      ghost var rest := Without(nodes, i);
      NoRepeatsWithout(nodes, i);
      Neighbours(nodes, i);
      if node.At(memory).next == node {
        root := null;
      } else {
        if root == node {
          root := node.At(memory).next;
        }
        Unlink(node, i);
      }
      MembersWithout(nodes, i);
      nodes := rest;
      memory.Free(node);
    }

    /** list_foreach: the nodes from the head, each once, until the callback stops or they are all seen. */
    method ForEach(callback: seq<T> -> bool) returns (visited: seq<ListNode<T>>)
      requires Valid()
      ensures nodes == [] ==> visited == []
      ensures nodes != [] ==> visited == nodes[..Visited(DataOf(nodes), 0, callback)]
    {
      visited := [];
      if root == null {
        return;
      }
      var current := root;
      var seen: seq<T> := [];
      ghost var data := DataOf(nodes);
      while true
        invariant |visited| < |nodes| && current == nodes[|visited|] && visited == nodes[..|visited|]
        invariant seen == data[..|visited|]
        invariant Visited(data, |visited|, callback) == Visited(data, 0, callback)
        decreases |nodes| - |visited|
      {
        assert data[..|visited| + 1] == data[..|visited|] + [current.At(memory).data];
        visited, seen := visited + [current], seen + [current.At(memory).data];
        if !callback(seen) {
          break;
        }
        current := current.At(memory).next;
        if current == root {
          break;
        }
      }
    }

    lemma {:induction false} Head()
      requires Valid()
      ensures root == if nodes == [] then null else nodes[0]
    {
    }

    lemma {:induction false} Place(i: nat)
      requires Valid() && i < |nodes|
      ensures root == nodes[0] && NoRepeats(nodes) && nodes[i] !in memory.freed
      ensures nodes[i].next == nodes[After(|nodes|, i)]
      ensures nodes[i].next == root <==> i + 1 == |nodes|
    {
      Neighbours(nodes, i);
      NoRepeatsExact(nodes);
    }

    /**
     list_remove_if: visits the nodes from the head, each once, until the callback stops or they
     are all seen; what is left is the visited nodes that were not marked and those never visited.
     */
    method RemoveIf(callback: seq<T> -> Verdict)
      requires Valid()
      modifies this, Members(nodes)`next, Members(nodes)`previous, memory
      ensures Valid()
      ensures old(nodes) == [] ==> nodes == []
      ensures old(nodes) != [] ==>
                var data := old(DataOf(nodes));
                nodes == LeftBy(old(nodes), data, callback, Visited(data, 0, GoesOn(callback)))
      ensures memory.freed == old(memory.freed) + Gone(old(nodes), nodes)
    {
      hide Ring, Visited, Kept, LeftBy, Gone, Members, Without, NoRepeats, Valid, Midway;
      Head();
      if root == null {
        MidwayFirst(nodes, DataOf(nodes), callback);
        return;
      }
      var current: ListNode?<T> := root;
      var next: ListNode?<T> := null;
      var goOn := true;
      ghost var was, data := nodes, DataOf(nodes);
      var seen: seq<T> := [];
      ghost var i := 0;
      MidwayFirst(was, data, callback);
      while goOn
        invariant Valid() && 0 <= i <= |was|
        invariant goOn ==> i < |was| && current == was[i]
        invariant Midway(was, data, callback, i, nodes, seen)
        invariant memory.freed == old(memory.freed) + Gone(was, nodes)
        invariant Visited(data, 0, GoesOn(callback)) == if goOn then Visited(data, i, GoesOn(callback)) else i
        decreases |was| - i, goOn
      {
        ghost var k := |Kept(data, callback, i)|;
        MidwayNext(was, data, callback, i, nodes, seen);
        Place(k);
        DataAt(was, i);
        seen := seen + [current.At(memory).data];
        var verdict := callback(seen);
        goOn := verdict.goOn;
        if current.At(memory).next == root {
          goOn := false;
        } else {
          next := current.At(memory).next;
          assert next == nodes[k + 1] == was[i + 1];
        }
        assert goOn ==> i + 1 < |was| && next == was[i + 1];
        GoneWithout(was, nodes, k);
        if verdict.remove {
          RemoveNode(current, k);
        }
        current := next;
        i := i + 1;
      }
      MidwayLast(was, data, callback, i, nodes, seen);
    }

    lemma {:induction false} FirstUnlinked()
      requires Valid() && nodes != []
      ensures root == nodes[0] && root.previous == nodes[|nodes| - 1] && root.previous in Members(nodes)
      ensures forall k :: 0 <= k < |nodes| ==> nodes[k] !in memory.freed
      ensures forall k :: 0 <= k < |nodes| - 1 ==> nodes[k].next == nodes[k + 1] && nodes[k] != nodes[|nodes| - 1]
      ensures forall i, j :: 0 <= i < j < |nodes| ==> nodes[i] != nodes[j]
    {
      hide NoRepeats, Members;
      NoRepeatsExact(nodes);
      Neighbours(nodes, 0);
      IsMember(nodes, |nodes| - 1);
    }

    /** The loop of list_deinit, over nodes whose links lead from the first to the last. */
    method FreeFrom(first: ListNode<T>, ghost chain: seq<ListNode<T>>)
      requires chain != [] && first == chain[0]
      requires forall i, j :: 0 <= i < j < |chain| ==> chain[i] != chain[j]
      requires forall k :: 0 <= k < |chain| ==> chain[k] !in memory.freed
      requires forall k {:trigger chain[k].next} :: 0 <= k < |chain| ==>
                 chain[k].next == if k == |chain| - 1 then null else chain[k + 1]
      modifies memory
      ensures memory.freed == old(memory.freed) + Members(chain)
    {
      hide Members;
      var current: ListNode?<T> := first;
      ghost var i := 0;
      MembersOfPrefix(chain, 0);
      while current != null
        invariant 0 <= i <= |chain| && current == if i < |chain| then chain[i] else null
        invariant memory.freed == old(memory.freed) + Members(chain[..i])
        invariant forall k :: i <= k < |chain| ==> chain[k] !in memory.freed
        decreases |chain| - i
      {
        var next := current.At(memory).next;
        memory.Free(current);
        current := next;
        MembersOfPrefix(chain, i);
        i := i + 1;
      }
      MembersOfPrefix(chain, i);
    }

    /** list_deinit: every node is freed, once, and none is read afterwards. */
    method Deinit()
      requires Valid()
      modifies Members(nodes)`next, Members(nodes)`previous, memory
      ensures memory.freed == old(memory.freed) + Members(nodes)
    {
      if root == null {
        return;
      }
      hide Members, NoRepeats, Ring;
      FirstUnlinked();
      root.At(memory).previous.At(memory).next := null;
      FreeFrom(root, nodes);
    }
  }
}
