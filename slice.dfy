/**
 * `leveldb.Slice`: a window (offset, size) over a byte array it shares with
 * its creator. Dropping a prefix moves the window and never touches the bytes.
 */
module Slices {
  import opened Ints

  class Slice {
    /** `data_`: the shared array; null in a default-constructed slice. */
    var data: array?<byte>
    /** `off_`: where the window starts in `data`. */
    var off: int32
    /** `size_`: how many bytes the window covers. */
    var size: int32

    /** The window lies inside the array (a .NET array has an `int` length); a slice without an array is empty. */
    ghost predicate Valid()
      reads this
    {
      && 0 <= off
      && 0 <= size
      && (data == null ==> off == 0 && size == 0)
      && (data != null ==> off + size <= data.Length <= MaxInt32)
    }

    /** The bytes the slice stands for. */
    ghost function Bytes(): seq<byte>
      reads this, data
      requires Valid()
    {
      if data == null then [] else data[off..off + size]
    }

    /** `Slice()`: the empty slice over no array. */
    constructor ()
      ensures Valid() && data == null && off == 0 && size == 0
      ensures Bytes() == []
    {
      data := null;
      off, size := 0, 0;
    }

    /** `Slice(data, size)`: the first `size` bytes of `d`, shared, not copied; no bytes when `d` is null. */
    constructor Of(d: array?<byte>, n: int32)
      requires 0 <= n
      requires d == null ==> n == 0
      requires d != null ==> n <= d.Length <= MaxInt32
      ensures Valid() && data == d && off == 0 && size == n
      ensures Bytes() == if d == null then [] else d[..n]
      ensures d != null ==> forall i :: 0 <= i < n ==> Bytes()[i] == d[i]
    {
      data := d;
      off, size := 0, n;
    }

    /** `Size()`: the number of bytes in the window. */
    function Size(): (r: int32)
      reads this, data
      requires Valid()
      ensures r == |Bytes()|
    {
      size
    }

    /** `IsEmpty()`: whether the window covers no byte. */
    function IsEmpty(): (r: bool)
      reads this, data
      requires Valid()
      ensures r <==> Bytes() == []
    {
      size == 0
    }

    /** The indexer `this[i]`: the i-th byte of the window. */
    function At(i: int): (r: byte)
      reads this, data
      requires Valid()
      requires 0 <= i < Size()
      ensures r == Bytes()[i]
    {
      data[off + i]
    }

    /** `RemovePrefix(n)`: drops the first n bytes by moving the window. */
    method RemovePrefix(n: int32)
      requires Valid()
      requires 0 <= n <= Size()
      modifies this
      ensures Valid()
      ensures data == old(data) && off == old(off) + n && size == old(size) - n
      ensures data != null ==> data[..] == old(data[..])
      ensures Size() == old(Size()) - n
      ensures Bytes() == old(Bytes())[n..]
      ensures forall i :: 0 <= i < Size() ==> At(i) == old(At(i + n))
    {
      off := off + n;
      size := size - n;
    }
  }

  /** Dropping a then b bytes is dropping a + b bytes. */
  method RemovePrefixTwice(s: Slice, a: int32, b: int32)
    requires s.Valid()
    requires 0 <= a && 0 <= b && a + b <= s.Size()
    modifies s
    ensures s.Valid() && s.data == old(s.data)
    ensures s.off == old(s.off) + a + b && s.size == old(s.size) - (a + b)
    ensures s.Bytes() == old(s.Bytes())[a + b..]
  {
    s.RemovePrefix(a);
    s.RemovePrefix(b);
  }

  /** Dropping every byte leaves an empty slice. */
  method RemoveAll(s: Slice)
    requires s.Valid()
    modifies s
    ensures s.Valid() && s.data == old(s.data)
    ensures s.IsEmpty() && s.Bytes() == []
  {
    s.RemovePrefix(s.Size());
  }
}
