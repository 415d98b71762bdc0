/** The growing stack of src/stackx.c; NULL arguments and failed reallocations are left out. */
module Stacks {
  import opened Common

  class Stack<T(0)> {
    var values: array<T>
    var count: nat

    ghost predicate Valid()
      reads this
    {
      count <= values.Length
    }

    /** The values pushed and not popped, the top last. */
    ghost function Contents(): seq<T>
      requires Valid()
      reads this, values
    {
      values[..count]
    }

    constructor (initialSize: nat)
      ensures Valid() && fresh(values) && values.Length == initialSize && Contents() == []
    {
      values := new T[initialSize];
      count := 0;
    }

    /** stackx_push: a full stack grows by one place, and keeps what it holds. */
    method Push(value: T)
      requires Valid()
      modifies this, values
      ensures Valid() && Contents() == old(Contents()) + [value]
      ensures values == old(values) || fresh(values)
      ensures values.Length == if old(count < values.Length) then old(values.Length) else old(values.Length) + 1
    {
      if count >= values.Length {
        var grown := new T[values.Length + 1];
        forall i | 0 <= i < values.Length {
          grown[i] := values[i];
        }
        values := grown;
      }
      values[count] := value;
      count := count + 1;
    }

    /** stackx_pop */
    method Pop() returns (value: Option<T>)
      requires Valid()
      modifies this
      ensures Valid() && values == old(values)
      ensures old(Contents()) == [] ==> value == None && Contents() == []
      ensures old(Contents()) != [] ==>
                var n := |old(Contents())| - 1;
                value == Some(old(Contents())[n]) && Contents() == old(Contents())[..n]
    {
      if count == 0 {
        return None;
      }
      value := Some(values[count - 1]);
      count := count - 1;
    }

    /** stackx_top */
    function Top(): (value: Option<T>)
      requires Valid()
      reads this, values
      ensures value == if Contents() == [] then None else Some(Contents()[|Contents()| - 1])
    {
      if count == 0 then None else Some(values[count - 1])
    }
  }
}
