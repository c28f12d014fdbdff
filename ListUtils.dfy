/** ListUtils.java: copying a list of boxed numbers into a primitive array. */
module ListUtils {

  /** Java's 32-bit int and 64-bit long. */
  newtype Int32 = x: int | -0x8000_0000 <= x < 0x8000_0000
  newtype Int64 = x: int | -0x8000_0000_0000_0000 <= x < 0x8000_0000_0000_0000

  /** toIntArray: a fresh array holding the list's elements in order. */
  method ToIntArray(list: seq<Int32>) returns (ret: array<Int32>)
    ensures fresh(ret)
    ensures ret[..] == list
  {
    ret := new Int32[|list|];
    for i := 0 to ret.Length
      invariant ret[..i] == list[..i]
    {
      ret[i] := list[i];
    }
  }

  /** toLongArray: a fresh array holding the list's elements in order. */
  method ToLongArray(list: seq<Int64>) returns (ret: array<Int64>)
    ensures fresh(ret)
    ensures ret[..] == list
  {
    ret := new Int64[|list|];
    for i := 0 to ret.Length
      invariant ret[..i] == list[..i]
    {
      ret[i] := list[i];
    }
  }

  /** toDoubleArray(List<Double>): an elementwise copy with no arithmetic on
      the elements, so their type is left abstract. */
  method ToDoubleArray<D(0)>(list: seq<D>) returns (ret: array<D>)
    ensures fresh(ret)
    ensures ret[..] == list
  {
    ret := new D[|list|];
    for i := 0 to ret.Length
      invariant ret[..i] == list[..i]
    {
      ret[i] := list[i];
    }
  }
}
