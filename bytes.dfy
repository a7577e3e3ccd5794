/** Octets of tag memory, optional values, results, and slice assignment over byte sequences. */
module Bytes {

  /** One octet of tag memory. */
  type byte = b: int | 0 <= b < 0x100

  datatype Option<+T> = None | Some(value: T)

  datatype Result<+T, +E> = Ok(value: T) | Err(error: E)

  /** A fresh zero-filled buffer of `n` bytes, as `bytearray(n)` gives. */
  function Zeros(n: nat): (z: seq<byte>)
    ensures |z| == n
    ensures forall i :: 0 <= i < n ==> z[i] == 0
  {
    seq(n, _ => 0)
  }

  /** Slice assignment `buf[offset : offset + len(data)] = data` for a window that lies
      inside `buf`: the window now holds `data` and every other byte is kept. */
  function Overwrite(buf: seq<byte>, offset: nat, data: seq<byte>): (r: seq<byte>)
    requires offset + |data| <= |buf|
    ensures |r| == |buf|
    ensures r[offset..offset + |data|] == data
    ensures forall i :: 0 <= i < |data| ==> r[offset + i] == data[i]
    ensures forall i {:trigger r[i]} :: 0 <= i < |buf| && (i < offset || offset + |data| <= i) ==> r[i] == buf[i]
  {
    buf[..offset] + data + buf[offset + |data|..]
  }

  /** Overwriting a window leaves every window disjoint from it as it was. */
  lemma OverwriteKeepsWindow(buf: seq<byte>, offset: nat, data: seq<byte>, start: nat, len: nat)
    requires offset + |data| <= |buf| && start + len <= |buf|
    requires start + len <= offset || offset + |data| <= start
    ensures Overwrite(buf, offset, data)[start..start + len] == buf[start..start + len]
  {
    var r := Overwrite(buf, offset, data);
    forall i | start <= i < start + len
      ensures r[i] == buf[i]
    {
    }
    assert r[start..start + len] == buf[start..start + len];
  }
}
