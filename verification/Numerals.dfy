/** Big-endian byte strings as numbers. */
module Numerals {
  import opened MachineInts

  function BigEndian(s: seq<byte>): nat {
    if s == [] then 0 else BigEndian(s[..|s| - 1]) * 0x100 + s[|s| - 1]
  }

  /** The n low digits of `v`. */
  function ToBigEndian(v: nat, n: nat): (s: seq<byte>)
    ensures |s| == n
  {
    if n == 0 then [] else ToBigEndian(v / 0x100, n - 1) + [v % 0x100]
  }

  function Pow256(n: nat): (r: nat)
    ensures r > 0
  {
    if n == 0 then 1 else 0x100 * Pow256(n - 1)
  }

  lemma {:induction false} FromTo(v: nat, n: nat)
    requires v < Pow256(n)
    ensures BigEndian(ToBigEndian(v, n)) == v
  {
    if n > 0 {
      FromTo(v / 0x100, n - 1);
      assert ToBigEndian(v, n)[..n - 1] == ToBigEndian(v / 0x100, n - 1);
    }
  }

  lemma {:induction false} ToFrom(s: seq<byte>)
    ensures BigEndian(s) < Pow256(|s|)
    ensures ToBigEndian(BigEndian(s), |s|) == s
  {
    if s != [] { ToFrom(s[..|s| - 1]); }
  }
}
