/** What bst_rb_add does to the tree as a value, and what any sequence of additions builds. */
module TreeInsertion {
  import opened Trees

  /** The tree with a new leaf for `v`: left of equal values, right of smaller ones. */
  ghost function Insert(t: Tree, v: int, n: Node): Tree {
    match t
    case Leaf => Fork(Leaf, n, v, Leaf)
    case Fork(l, m, w, r) => if v <= w then Fork(Insert(l, v, n), m, w, r) else Fork(l, m, w, Insert(r, v, n))
  }

  lemma {:induction false} InsertNodes(t: Tree, v: int, n: Node)
    ensures Nodes(Insert(t, v, n)) == Nodes(t) + {n}
    ensures Distinct(t) && n !in Nodes(t) ==> Distinct(Insert(t, v, n))
  {
    match t
    case Leaf =>
    case Fork(l, _, w, r) =>
      if v <= w {
        InsertNodes(l, v, n);
      } else {
        InsertNodes(r, v, n);
      }
  }

  /** The values in in-order. */
  ghost function Values(t: Tree): (s: seq<int>)
    ensures |s| == |In(t)|
  {
    match t
    case Leaf => []
    case Fork(l, _, v, r) => Values(l) + [v] + Values(r)
  }

  ghost predicate AtMost(s: seq<int>, v: int) {
    forall k :: 0 <= k < |s| ==> s[k] <= v
  }

  ghost predicate Above(s: seq<int>, v: int) {
    forall k :: 0 <= k < |s| ==> v < s[k]
  }

  /** Every left subtree is at most, every right subtree greater than its node. */
  ghost predicate Searchable(t: Tree) {
    match t
    case Leaf => true
    case Fork(l, _, v, r) => AtMost(Values(l), v) && Above(Values(r), v) && Searchable(l) && Searchable(r)
  }

  ghost predicate Sorted(s: seq<int>) {
    forall i, j :: 0 <= i < j < |s| ==> s[i] <= s[j]
  }

  lemma {:induction false} SearchableIsSorted(t: Tree)
    requires Searchable(t)
    ensures Sorted(Values(t))
  {
    match t
    case Leaf =>
    case Fork(l, _, v, r) =>
      SearchableIsSorted(l);
      SearchableIsSorted(r);
  }

  // ---------------------------------------------------------------- where a value goes

  /** How many of the values are smaller. */
  ghost function Smaller(s: seq<int>, v: int): (k: nat)
    ensures k <= |s|
    decreases |s|
  {
    if s == [] then 0 else Smaller(s[..|s| - 1], v) + if s[|s| - 1] < v then 1 else 0
  }

  ghost function PutAt<A>(s: seq<A>, k: nat, x: A): seq<A>
    requires k <= |s|
  {
    s[..k] + [x] + s[k..]
  }

  lemma {:induction false} SmallerConcat(a: seq<int>, b: seq<int>, v: int)
    ensures Smaller(a + b, v) == Smaller(a, v) + Smaller(b, v)
    decreases |b|
  {
    if b == [] {
      assert a + b == a;
    } else {
      SmallerConcat(a, b[..|b| - 1], v);
      assert (a + b)[..|a + b| - 1] == a + b[..|b| - 1];
    }
  }

  lemma {:induction false} SmallerOfAll(s: seq<int>, v: int)
    ensures AtMost(s, v - 1) ==> Smaller(s, v) == |s|
    ensures Above(s, v - 1) ==> Smaller(s, v) == 0
    decreases |s|
  {
    if s != [] {
      SmallerOfAll(s[..|s| - 1], v);
    }
  }

  lemma {:induction false} PutLeft<A>(a: seq<A>, b: seq<A>, k: nat, x: A)
    requires k <= |a|
    ensures PutAt(a, k, x) + b == PutAt(a + b, k, x)
  {
  }

  lemma {:induction false} PutRight<A>(a: seq<A>, b: seq<A>, k: nat, x: A)
    requires k <= |b|
    ensures a + PutAt(b, k, x) == PutAt(a + b, |a| + k, x)
  {
  }

  lemma {:induction false} PutBounds(s: seq<int>, k: nat, v: int, w: int)
    requires k <= |s|
    ensures AtMost(s, w) && v <= w ==> AtMost(PutAt(s, k, v), w)
    ensures Above(s, w) && w < v ==> Above(PutAt(s, k, v), w)
  {
  }

  /** Where the value goes among the values of a searchable tree with `v` at its root. */
  lemma {:induction false} SmallerThan(l: seq<int>, w: int, r: seq<int>, v: int)
    requires AtMost(l, w) && Above(r, w)
    ensures Smaller(l + [w] + r, v) == if v <= w then Smaller(l, v) else |l| + 1 + Smaller(r, v)
  {
    SmallerConcat(l + [w], r, v);
    SmallerConcat(l, [w], v);
    assert [w][..0] == [];
    assert Smaller([w], v) == if w < v then 1 else 0;
    SmallerOfAll(l, v);
    SmallerOfAll(r, v);
  }

  /**
   The new node takes the place before all values that are not smaller, in in-order; the other nodes
   keep theirs, and the tree stays searchable.
   */
  lemma {:induction false} InsertPlace(t: Tree, v: int, n: Node)
    requires Searchable(t)
    ensures Searchable(Insert(t, v, n))
    ensures Values(Insert(t, v, n)) == PutAt(Values(t), Smaller(Values(t), v), v)
    ensures In(Insert(t, v, n)) == PutAt(In(t), Smaller(Values(t), v), n)
  {
    hide PutAt, Smaller, AtMost, Above;
    match t
    case Leaf => EmptyPlace(v, n);
    case Fork(l, m, w, r) =>
      SmallerThan(Values(l), w, Values(r), v);
      if v <= w {
        InsertPlace(l, v, n);
        PutBounds(Values(l), Smaller(Values(l), v), v, w);
        PutInLeft(Values(l), w, Values(r), Smaller(Values(l), v), v);
        PutInLeft(In(l), m, In(r), Smaller(Values(l), v), n);
      } else {
        InsertPlace(r, v, n);
        PutBounds(Values(r), Smaller(Values(r), v), v, w);
        PutRight(Values(l) + [w], Values(r), Smaller(Values(r), v), v);
        PutRight(In(l) + [m], In(r), Smaller(Values(r), v), n);
      }
  }

  lemma {:induction false} PutInLeft<A>(a: seq<A>, m: A, b: seq<A>, k: nat, x: A)
    requires k <= |a|
    ensures PutAt(a, k, x) + [m] + b == PutAt(a + [m] + b, k, x)
  {
    hide PutAt;
    PutLeft(a, [m], k, x);
    PutLeft(a + [m], b, k, x);
  }

  lemma {:induction false} EmptyPlace(v: int, n: Node)
    ensures Smaller([], v) == 0 && PutAt([], 0, v) == [v] && PutAt([], 0, n) == [n]
    ensures AtMost([], v) && Above([], v)
  {
  }

  // ---------------------------------------------------------------- any sequence of additions

  datatype Addition = Addition(value: int, node: Node)

  ghost function Grown(adds: seq<Addition>): Tree
    decreases |adds|
  {
    if adds == [] then Leaf
    else
      var last := adds[|adds| - 1];
      Insert(Grown(adds[..|adds| - 1]), last.value, last.node)
  }

  ghost function Added(adds: seq<Addition>): seq<int> {
    seq(|adds|, k requires 0 <= k < |adds| => adds[k].value)
  }

  lemma {:induction false} LastAdded(adds: seq<Addition>)
    requires adds != []
    ensures var front, last := adds[..|adds| - 1], adds[|adds| - 1];
            multiset(Added(adds)) == multiset(Added(front)) + multiset{last.value}
            && (set a | a in adds :: a.node) == (set a | a in front :: a.node) + {last.node}
  {
    var front, last := adds[..|adds| - 1], adds[|adds| - 1];
    assert Added(adds) == Added(front) + [last.value];
    assert adds == front + [last];
  }

  /**
   Whatever is added, from an empty tree on: the tree is searchable, its in-order values are those
   added, sorted and with every duplicate, and its nodes those added.
   */
  lemma {:induction false} GrownExact(adds: seq<Addition>)
    ensures Searchable(Grown(adds)) && Sorted(Values(Grown(adds)))
    ensures multiset(Values(Grown(adds))) == multiset(Added(adds))
    ensures Nodes(Grown(adds)) == set a | a in adds :: a.node
    decreases |adds|
  {
    if adds != [] {
      var front, last := adds[..|adds| - 1], adds[|adds| - 1];
      var t := Grown(front);
      assert Grown(adds) == Insert(t, last.value, last.node);
      hide *;
      GrownExact(front);
      InsertPlace(t, last.value, last.node);
      InsertNodes(t, last.value, last.node);
      PutBag(Values(t), Smaller(Values(t), last.value), last.value);
      LastAdded(adds);
      SearchableIsSorted(Grown(adds));
    }
  }

  lemma {:induction false} GrownDistinct(adds: seq<Addition>)
    requires forall i, j :: 0 <= i < j < |adds| ==> adds[i].node != adds[j].node
    ensures Distinct(Grown(adds))
    decreases |adds|
  {
    hide Distinct, Nodes, Insert;
    if adds == [] {
      LeafDistinct();
    } else {
      var front, last := adds[..|adds| - 1], adds[|adds| - 1];
      GrownDistinct(front);
      GrownExact(front);
      InsertNodes(Grown(front), last.value, last.node);
    }
  }

  lemma {:induction false} LeafDistinct()
    ensures Distinct(Leaf)
  {
  }

  lemma {:induction false} PutBag(s: seq<int>, k: nat, v: int)
    requires k <= |s|
    ensures multiset(PutAt(s, k, v)) == multiset(s) + multiset{v}
  {
    assert s == s[..k] + s[k..];
  }
}
