/** malloc and free as far as the pointer structures rely on them: what is freed stays freed, and only once. */
module Memory {

  class Allocator {
    ghost var freed: set<object>

    constructor ()
      ensures freed == {}
    {
      freed := {};
    }

    method Free(o: object)
      requires o !in freed
      modifies this
      ensures freed == old(freed) + {o}
    {
      freed := freed + {o};
    }
  }
}
