/** Writing into byte buffers. */
module Buffers {
  import opened MachineInts

  /** `memcpy` of `bytes` to offset `at`. */
  method CopyInto(mem: array<byte>, at: nat, bytes: seq<byte>)
    requires at + |bytes| <= mem.Length
    modifies mem
    ensures mem[at..at + |bytes|] == bytes
    ensures mem[..at] == old(mem[..at]) && mem[at + |bytes|..] == old(mem[at + |bytes|..])
  {
    for i := 0 to |bytes|
      invariant mem[at..at + i] == bytes[..i]
      invariant mem[..at] == old(mem[..at])
      invariant forall k | at + i <= k < mem.Length :: mem[k] == old(mem[k])
    {
      mem[at + i] := bytes[i];
    }
  }
}
