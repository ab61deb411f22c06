/**
 * `leveldb.ByteBuffer`: a byte array of which a prefix is in use, grown on
 * demand to the larger of the requested size and twice its capacity.
 */
module ByteBuffers {
  import opened Ints

  /**
   * The new capacity chosen when `size` exceeds the capacity `cap`:
   * `size > cap * 2 ? size : cap * 2`, where `cap * 2` is C# `int`
   * arithmetic and wraps to a negative value once cap >= 2^30.
   */
  function GrownCapacity(cap: nat, size: int32): (r: nat)
    requires cap < size
    ensures size <= r <= MaxInt32
    ensures 2 * cap <= MaxInt32 ==> r == if size > 2 * cap then size else 2 * cap
    ensures 2 * cap > MaxInt32 ==> r == size
  {
    var doubled := WrapInt32(cap * 2);
    if size > doubled then size else doubled
  }

  class ByteBuffer {
    /** `data_`: the backing array; its length is the capacity. */
    var data: array<byte>
    /** `used_`: how many leading bytes of `data` are in use. */
    var used: nat

    ghost predicate Valid()
      reads this
    {
      used <= data.Length <= MaxInt32
    }

    /** The bytes in use. */
    ghost function Contents(): seq<byte>
      reads this, data
      requires Valid()
    {
      data[..used]
    }

    /** An empty buffer over a fresh zeroed array of the given capacity. */
    constructor (capacity: nat)
      requires capacity <= MaxInt32
      ensures Valid() && fresh(data)
      ensures data.Length == capacity && used == 0
    {
      data := new byte[capacity](_ => 0);
      used := 0;
    }

    /**
     * `Extend(size)`: makes `size` bytes in use. If they do not fit, moves the
     * used bytes into a fresh zeroed array of capacity `GrownCapacity`.
     */
    method Extend(size: int32)
      requires Valid()
      requires 0 <= size
      modifies this
      ensures Valid()
      ensures used == size
      ensures data.Length >= size && data.Length >= old(data.Length)
      ensures size <= old(data.Length) ==> data == old(data) && data[..] == old(data[..])
      ensures size > old(data.Length) ==>
        && fresh(data)
        && data.Length == GrownCapacity(old(data.Length), size)
        && data[..old(used)] == old(Contents())
        && forall i :: old(used) <= i < data.Length ==> data[i] == 0
      ensures var n := if size < old(used) then size else old(used);
        Contents()[..n] == old(Contents())[..n]
    {
      if size > data.Length {
        var newLen := GrownCapacity(data.Length, size);
        var newArr := new byte[newLen](_ => 0);
        // Array.Copy(data_, 0, newArr, 0, used_)
        forall i | 0 <= i < used {
          newArr[i] := data[i];
        }
        data := newArr;
      }
      used := size;
    }
  }
}
