/** The 64-level container stack of src/json_private.h, one bit a level in a 64-bit word. */
module BitStacks {
  import opened Common
  import opened JsonAutomaton

  type uint64 = x: int | 0 <= x < TWO_TO_THE_64

  function Pow2(n: nat): nat {
    if n == 0 then 1 else 2 * Pow2(n - 1)
  }

  function Bit(item: Container): nat {
    if item == InObject then 1 else 0
  }

  /** The containers in the low `depth` bits of the word; the top of the stack is bit 0. */
  function Unpack(word: nat, depth: nat): (s: Stack)
    ensures |s| == depth
  {
    if depth == 0 then []
    else Unpack(word / 2, depth - 1) + [if word % 2 == 1 then InObject else InArray]
  }

  lemma {:induction false} Pow2Grows(a: nat, b: nat)
    requires a <= b
    ensures Pow2(a) <= Pow2(b)
    decreases b - a
  {
    if a < b {
      Pow2Grows(a + 1, b);
    }
  }

  lemma Pow2Is64()
    ensures Pow2(64) == TWO_TO_THE_64
  {
    assert Pow2(4) == 0x10;
    Pow2Adds(4, 4);
    Pow2Adds(8, 8);
    Pow2Adds(16, 16);
    Pow2Adds(32, 32);
  }

  lemma {:induction false} Pow2Adds(a: nat, b: nat)
    ensures Pow2(a + b) == Pow2(a) * Pow2(b)
  {
    if a != 0 {
      Pow2Adds(a - 1, b);
    }
  }

  /** Below 64 levels the shift loses no bit. */
  lemma {:induction false} RoomForOne(word: nat, depth: nat)
    requires depth < 64 && word < Pow2(depth)
    ensures word * 2 + 1 < Pow2(depth + 1) <= TWO_TO_THE_64 && word * 2 % TWO_TO_THE_64 == word * 2
  {
    Pow2Grows(depth + 1, 64);
    Pow2Is64();
  }

  lemma {:induction false} UnpackPush(word: nat, depth: nat, item: Container)
    ensures Unpack(word * 2 + Bit(item), depth + 1) == Unpack(word, depth) + [item]
  {
    var w := word * 2 + Bit(item);
    assert w / 2 == word && w % 2 == Bit(item);
  }

  class BitStack {
    var stack: uint64
    var currentDepth: nat

    /** No bit is set above the current depth, so nothing is lost up to 64 levels. */
    ghost predicate Valid()
      reads this
    {
      currentDepth <= MAX_DEPTH && stack < Pow2(currentDepth)
    }

    ghost function Contents(): (s: Stack)
      reads this
      ensures |s| == currentDepth
    {
      Unpack(stack, currentDepth)
    }

    constructor ()
      ensures Valid() && Contents() == []
    {
      stack, currentDepth := 0, 0;
    }

    method Reset()
      modifies this
      ensures Valid() && Contents() == []
    {
      stack, currentDepth := 0, 0;
    }

    /** The shift drops the word's top bit; below 64 levels that bit is clear. */
    method Push(item: Container)
      requires Valid() && currentDepth < MAX_DEPTH
      modifies this
      ensures Valid() && Contents() == old(Contents()) + [item]
    {
      hide Unpack, Pow2;
      RoomForOne(stack, currentDepth);
      UnpackPush(stack, currentDepth, item);
      currentDepth := currentDepth + 1;
      stack := (stack * 2) % TWO_TO_THE_64;
      stack := stack + Bit(item);
    }

    method Pop() returns (top: Container)
      requires Valid()
      modifies this
      ensures Valid()
      ensures old(currentDepth) == 0 ==> Contents() == []
      ensures old(currentDepth) > 0 ==>
                Contents() == old(Contents())[..old(currentDepth) - 1] && top == old(Contents())[old(currentDepth) - 1]
    {
      top := if stack % 2 == 1 then InObject else InArray;
      if currentDepth != 0 {
        stack := stack / 2;
        currentDepth := currentDepth - 1;
      }
    }

    /** Below the bottom of the stack the word reads as an array. */
    function Peek(): (top: Container)
      requires Valid()
      reads this
      ensures currentDepth > 0 ==> top == Contents()[currentDepth - 1]
      ensures currentDepth == 0 ==> top == InArray
    {
      if stack % 2 == 1 then InObject else InArray
    }
  }
}
