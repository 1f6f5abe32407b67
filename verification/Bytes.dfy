/** Little-endian byte views of words. */
module Bytes {
  import opened Words

  function LE(bytes: seq<byte>): nat {
    if bytes == [] then 0 else bytes[0] + 256 * LE(bytes[1..])
  }

  function ToLE(v: nat, w: nat): (r: seq<byte>)
    ensures |r| == w
    decreases w
  {
    if w == 0 then [] else [v % 256] + ToLE(v / 256, w - 1)
  }

  function Pow256(w: nat): (p: nat)
    ensures p > 0
  {
    if w == 0 then 1 else 256 * Pow256(w - 1)
  }

  lemma {:induction false} LoadStored(v: nat, w: nat)
    requires v < Pow256(w)
    ensures LE(ToLE(v, w)) == v
    decreases w
  {
    if w > 0 {
      LoadStored(v / 256, w - 1);
      assert ToLE(v, w)[1..] == ToLE(v / 256, w - 1);
    }
  }

  lemma Pow256Known()
    ensures Pow256(1) == 256 && Pow256(2) == 0x1_0000 && Pow256(4) == 0x1_0000_0000
  {
    assert Pow256(2) == 256 * Pow256(1);
    assert Pow256(3) == 256 * Pow256(2);
  }
}
