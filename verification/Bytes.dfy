/** Little-endian fields in byte buffers. */
module Bytes {
  import opened Outcomes

  function R16(b: seq<byte>, o: nat): (v: nat)
    requires o + 2 <= |b|
    ensures v < 65536
  {
    b[o] as nat + 256 * (b[o + 1] as nat)
  }

  function R32(b: seq<byte>, o: nat): (v: nat)
    requires o + 4 <= |b|
    ensures v < 0x1_0000_0000
  {
    R16(b, o) + 65536 * R16(b, o + 2)
  }

  function R64(b: seq<byte>, o: nat): nat
    requires o + 8 <= |b|
  {
    R32(b, o) + 0x1_0000_0000 * R32(b, o + 4)
  }

  function W16(b: seq<byte>, o: nat, v: nat): (c: seq<byte>)
    requires o + 2 <= |b| && v < 65536
    ensures |c| == |b| && R16(c, o) == v
    ensures forall i :: 0 <= i < |b| && !(o <= i < o + 2) ==> c[i] == b[i]
  {
    b[o := v % 256][o + 1 := v / 256]
  }

  function W32(b: seq<byte>, o: nat, v: nat): (c: seq<byte>)
    requires o + 4 <= |b| && v < 0x1_0000_0000
    ensures |c| == |b| && R32(c, o) == v
    ensures forall i :: 0 <= i < |b| && !(o <= i < o + 4) ==> c[i] == b[i]
  {
    W16(W16(b, o, v % 65536), o + 2, v / 65536)
  }

  function W64(b: seq<byte>, o: nat, v: nat): (c: seq<byte>)
    requires o + 8 <= |b| && v < 0x1_0000_0000_0000_0000
    ensures |c| == |b| && R64(c, o) == v
    ensures forall i :: 0 <= i < |b| && !(o <= i < o + 8) ==> c[i] == b[i]
  {
    W32(W32(b, o, v % 0x1_0000_0000), o + 4, v / 0x1_0000_0000)
  }
}
