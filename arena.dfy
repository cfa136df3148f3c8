/** The append-only arena of `src/arena.rs`: values are pushed and named by
    their index, which stays valid for ever. */
module Arenas {
  import opened Options

  class Arena<T> {
    var data: seq<T>

    /** `Arena::default()`: nothing allocated yet. */
    constructor ()
      ensures data == []
    {
      data := [];
    }

    /** `Arena::allocate`: pushes `value` and returns its index, the former
        length; every earlier value stays where it was. */
    method Allocate(value: T) returns (index: nat)
      modifies this
      ensures data == old(data) + [value]
      ensures index == |old(data)| && |data| == |old(data)| + 1
      ensures Get(index) == Some(value)
      ensures forall i :: 0 <= i < |old(data)| ==> Get(i) == old(Get(i))
    {
      data := data + [value];
      index := |data| - 1;
    }

    /** `Arena::get`: the value at `index`, or `None` past the end. */
    function Get(index: nat): (r: Option<T>)
      reads this
      ensures r.None? <==> index >= |data|
      ensures r.Some? ==> r.value == data[index]
    {
      if index < |data| then Some(data[index]) else None
    }
  }

  /** Two allocations in a fresh arena get indices 0 and 1, and both values
      can be read back; the next index is still free. */
  method AllocateTwo<T>(first: T, second: T) returns (i: nat, j: nat, arena: Arena<T>)
    ensures i == 0 && j == 1
    ensures arena.Get(i) == Some(first) && arena.Get(j) == Some(second) && arena.Get(2) == None
  {
    arena := new Arena();
    i := arena.Allocate(first);
    j := arena.Allocate(second);
  }
}
