/** `std::vector<uint8_t, ResizeReserveAllocator<uint8_t>>`: an allocation of `data.Length` bytes of
which the first `size` are live.  The allocator's two `construct` overloads decide what `reserve`
and `resize` do to the bytes (IoServices/IoCircularBuffer.h:46-57). */
module RawVector {
  import opened Bytes

  /** The argument a container passes to `construct`: an element to move from, or none. */
  datatype ConstructArg = MoveFrom(rhs: byte) | NoArgument

  class Vector {
    var data: array<byte>
    var size: nat

    ghost predicate Valid()
      reads this
    {
      size <= data.Length
    }

    ghost function Live(): seq<byte>
      requires Valid()
      reads this, data
    {
      data[..size]
    }

    constructor ()
      ensures Valid() && fresh(data) && data.Length == 0 && size == 0
    {
      data := new byte[0];
      size := 0;
    }

    /** Moving constructs write the slot; constructs without an argument deliberately do not. */
    static method Construct(slots: array<byte>, k: nat, arg: ConstructArg)
      requires k < slots.Length
      modifies slots
      ensures slots[..] == if arg.MoveFrom? then old(slots[..])[k := arg.rhs] else old(slots[..])
    {
      match arg
      case MoveFrom(rhs) => slots[k] := rhs;
      case NoArgument =>
    }

    /** `reserve(n)`: `granted` is the capacity the library decides to allocate. */
    method Reserve(n: nat, granted: nat)
      requires Valid() && n <= granted
      modifies this
      ensures Valid() && size == old(size) && Live() == old(Live())
      ensures n <= old(data.Length) ==> data == old(data)
      ensures n > old(data.Length) ==> fresh(data) && data.Length == granted
    {
      if n > data.Length {
        var allocation := new byte[granted];
        for k := 0 to size
          invariant data == old(data) && size == old(size)
          invariant data[..] == old(data[..])
          invariant allocation[..k] == data[..k]
        {
          ghost var done := allocation[..];
          Construct(allocation, k, MoveFrom(data[k]));
          assert allocation[..] == done[k := data[k]];
          assert allocation[..k + 1] == data[..k + 1];
        }
        data := allocation;
      }
    }

    /** `resize(n)`: bytes already lying in the spare capacity become live as they are. */
    method Resize(n: nat, granted: nat)
      requires Valid() && n <= granted
      modifies this, data
      ensures Valid() && size == n
      ensures n <= old(data.Length) ==> data == old(data) && data[..] == old(data[..])
      ensures n > old(data.Length) ==> fresh(data) && data.Length == granted && data[..old(size)] == old(Live())
    {
      Reserve(n, granted);
      if size < n {
        label reserved:
        for k := size to n
          invariant data == old@reserved(data) && size == old(size)
          invariant data[..] == old@reserved(data[..])
        {
          Construct(data, k, NoArgument);
        }
      }
      size := n;
    }

    /** `erase(begin, begin + len)`: the remaining live bytes move down inside the same allocation,
    and the bytes past them stay what they were. */
    method EraseFront(len: nat)
      requires Valid() && len <= size
      modifies this`size, data
      ensures Valid() && data == old(data) && size == old(size) - len
      ensures data[..] == old(data[len..size]) + old(data[size - len..])
    {
      var remaining := size - len;
      for k := 0 to remaining
        invariant data == old(data) && size == old(size)
        invariant forall i | 0 <= i < k :: data[i] == old(data[len + i])
        invariant forall i | k <= i < data.Length :: data[i] == old(data[i])
      {
        data[k] := data[len + k];
      }
      size := remaining;
    }
  }
}
