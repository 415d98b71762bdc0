/** The searches of src/span.c and what splitting a span with span_iterate yields. */
module Spans {
  import opened Common

  /** A span that a 32-bit signed index reaches everywhere. */
  type span = s: bytes | |s| < 0x8000_0000

  predicate Occurs(s: bytes, t: bytes, p: int) {
    0 <= p && p + |t| <= |s| && s[p..p + |t|] == t
  }

  /** `p` is the first occurrence at `start` or later. */
  ghost predicate First(s: bytes, t: bytes, start: int, p: int) {
    start <= p && Occurs(s, t, p) && forall q :: start <= q < p ==> !Occurs(s, t, q)
  }

  ghost predicate Nowhere(s: bytes, t: bytes, start: int) {
    forall q :: start <= q ==> !Occurs(s, t, q)
  }

  lemma {:induction false} OccursAt(s: bytes, t: bytes, p: nat)
    requires p + |t| <= |s|
    ensures Occurs(s, t, p) <==> forall k :: 0 <= k < |t| ==> s[p + k] == t[k]
  {
    if Occurs(s, t, p) {
      assert forall k {:trigger t[k]} :: 0 <= k < |t| ==> s[p + k] == s[p..p + |t|][k];
    }
  }

  /** span_find, its remainder what follows the occurrence. */
  method Find(s: span, start: int, t: span) returns (position: int, remainder: bytes)
    requires -0x8000_0000 <= start < 0x8000_0000
    ensures if start < 0 || t == [] || Nowhere(s, t, start) then position == -1
            else First(s, t, start, position) && remainder == s[position + |t|..]
  {
    position, remainder := -1, [];
    if start >= 0 && |t| > 0 && (|s| - start) % TWO_TO_THE_32 >= |t| {
      var h := start;
      while h <= |s| - |t|
        invariant start <= h
        invariant forall q :: start <= q < h ==> !Occurs(s, t, q)
        decreases |s| - |t| - h
      {
        OccursAt(s, t, h);
        if s[h] == t[0] {
          var i := 1;
          while i < |t|
            invariant 0 <= i <= |t|
            invariant i > 0 ==> forall k :: 0 <= k < i ==> s[h + k] == t[k]
            decreases |t| - i
          {
            if s[h + i] != t[i] {
              i := 0;
              break;
            }
            i := i + 1;
          }
          if i > 0 {
            return h, s[h + |t|..];
          }
        }
        h := h + 1;
      }
    }
  }

  /** The inner loop of span_find_reverse: how much of the end of `t` stands at `h` and before. */
  method MatchBack(s: span, h: nat, t: span) returns (i: nat)
    requires |t| - 1 <= h < |s|
    ensures i <= |t| && (i == |t| <==> Occurs(s, t, h - |t| + 1))
  {
    hide Occurs;
    i := 0;
    ghost var base := h - (|t| - 1);
    while i < |t| && s[h - i] == t[|t| - 1 - i]
      invariant 0 <= i <= |t|
      invariant forall k {:trigger t[k]} :: |t| - i <= k < |t| ==> s[base + k] == t[k]
    {
      i := i + 1;
    }
    OccursAt(s, t, base);
    if i < |t| {
      ghost var k := |t| - 1 - i;
      assert s[base + k] != t[k];
    }
  }

  /** span_find_reverse: the last occurrence that ends at `start` or before; a start of -1 is the end of the span. */
  method FindReverse(s: span, start: int, t: span) returns (position: int)
    requires -0x8000_0000 <= start < 0x8000_0000
    ensures var end := if start == -1 then |s| - 1 else start;
            if t == [] || end < |t| - 1 || end >= |s| then position == -1
            else
              (position == -1 ==> forall q :: q + |t| - 1 <= end ==> !Occurs(s, t, q))
              && (position != -1 ==>
                    Occurs(s, t, position) && position + |t| - 1 <= end
                    && forall q :: position < q && q + |t| - 1 <= end ==> !Occurs(s, t, q))
  {
    position := -1;
    if |t| > 0 && |t| <= |s| && (start == -1 || (start >= |t| - 1 && start < |s|)) {
      var h := if start == -1 then |s| - 1 else start;
      ghost var end := h;
      while h >= |t| - 1
        invariant |t| - 2 <= h <= end < |s|
        invariant forall q :: h < q + |t| - 1 <= end ==> !Occurs(s, t, q)
      {
        var i := MatchBack(s, h, t);
        if i == |t| {
          return h - i + 1;
        }
        h := h - 1;
      }
    }
  }

  // ---------------------------------------------------------------- splitting

  function Position(s: bytes, t: bytes, from: nat): (p: Option<nat>)
    ensures p.Some? ==> First(s, t, from, p.value)
    ensures p.None? ==> Nowhere(s, t, from)
    decreases |s| - from
  {
    if from + |t| > |s| then None
    else if Occurs(s, t, from) then Some(from)
    else Position(s, t, from + 1)
  }

  /** What repeated calls of span_iterate yield. */
  function Items(s: bytes, d: bytes): seq<bytes>
    requires d != []
    decreases |s|
  {
    if s == [] then []
    else
      match Position(s, d, 0)
      case None => [s]
      case Some(p) => [s[..p]] + Items(s[p + |d|..], d)
  }

  /** Whether the split ends with a delimiter that has nothing after it. */
  predicate Trailing(s: bytes, d: bytes)
    requires d != []
    decreases |s|
  {
    s != []
    && match Position(s, d, 0)
       case None => false
       case Some(p) => p + |d| == |s| || Trailing(s[p + |d|..], d)
  }

  function Joined(items: seq<bytes>, d: bytes): bytes {
    if items == [] then []
    else if |items| == 1 then items[0]
    else items[0] + d + Joined(items[1..], d)
  }

  lemma {:induction false} SomeItems(s: bytes, d: bytes)
    requires d != []
    ensures Items(s, d) == [] <==> s == []
  {
  }

  lemma {:induction false} NotWithin(s: bytes, d: bytes, p: nat)
    requires d != [] && First(s, d, 0, p)
    ensures Nowhere(s[..p], d, 0)
  {
    forall q | 0 <= q && q + |d| <= p ensures !Occurs(s[..p], d, q) {
      assert !Occurs(s, d, q);
      assert s[..p][q..q + |d|] == s[q..q + |d|];
    }
  }

  /**
   Splitting loses nothing but a delimiter that ends the span: joined again the items are the span, and
   no item contains the delimiter.
   */
  lemma {:induction false} SplitJoins(s: bytes, d: bytes)
    requires d != []
    ensures Joined(Items(s, d), d) + (if Trailing(s, d) then d else []) == s
    ensures forall k :: 0 <= k < |Items(s, d)| ==> Nowhere(Items(s, d)[k], d, 0)
    decreases |s|
  {
    hide Items, Trailing, Joined, Nowhere, First, Occurs;
    ItemsAt(s, d);
    if s == [] {
      JoinedFew([], d);
    } else if Position(s, d, 0).None? {
      JoinedFew(s, d);
    } else {
      var p := Position(s, d, 0).value;
      var item, rest := s[..p], s[p + |d|..];
      var end := if Trailing(rest, d) then d else [];
      NotWithin(s, d, p);
      SplitJoins(rest, d);
      SomeItems(rest, d);
      JoinedMore(item, Items(rest, d), d);
      Assoc(item + d, Joined(Items(rest, d), d), end);
      EmptyRight(item + d);
    }
  }

  lemma {:induction false} ItemsAt(s: bytes, d: bytes)
    requires d != []
    ensures s == [] ==> Items(s, d) == [] && !Trailing(s, d)
    ensures s != [] && Position(s, d, 0).None? ==> Items(s, d) == [s] && !Trailing(s, d) && Nowhere(s, d, 0)
    ensures s != [] && Position(s, d, 0).Some? ==>
              var p := Position(s, d, 0).value;
              First(s, d, 0, p) && p + |d| <= |s| && s == s[..p] + d + s[p + |d|..]
              && Items(s, d) == [s[..p]] + Items(s[p + |d|..], d)
              && (Trailing(s, d) <==> s[p + |d|..] == [] || Trailing(s[p + |d|..], d))
  {
  }

  lemma {:induction false} JoinedFew(item: bytes, d: bytes)
    ensures Joined([], d) == [] && Joined([item], d) == item
    ensures Joined([], d) + [] == [] && Joined([item], d) + [] == item
  {
  }

  lemma {:induction false} JoinedMore(item: bytes, items: seq<bytes>, d: bytes)
    ensures Joined([item] + items, d) == if items == [] then item else item + d + Joined(items, d)
    ensures items == [] ==> Joined(items, d) == []
  {
    assert ([item] + items)[1..] == items;
  }

  datatype Step = Invalid | EndOfData | Item(item: bytes, remainder: bytes)

  /** span_iterate: the next item and what is left; the items of the whole are that one and those of the rest. */
  method Iterate(s: span, delimiter: span) returns (r: Step)
    ensures r == Invalid <==> delimiter == []
    ensures delimiter != [] && s == [] ==> r == EndOfData
    ensures delimiter != [] && s != [] ==>
              r.Item? && |r.remainder| < |s| && Items(s, delimiter) == [r.item] + Items(r.remainder, delimiter)
  {
    if delimiter == [] {
      return Invalid;
    }
    if s == [] {
      return EndOfData;
    }
    var position, remainder := Find(s, 0, delimiter);
    if position == -1 {
      return Item(s, []);
    }
    return Item(s[..position], remainder);
  }
}
