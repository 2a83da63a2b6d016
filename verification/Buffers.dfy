/** Bytes and buffers of bytes. */
module Buffers {

  type Byte = x: int | 0 <= x < 0x100

  /** memset with zero. */
  method Clear(a: array<Byte>)
    modifies a
    ensures forall i :: 0 <= i < a.Length ==> a[i] == 0
  {
    for i := 0 to a.Length
      invariant forall j :: 0 <= j < i ==> a[j] == 0
    {
      a[i] := 0;
    }
  }
}
