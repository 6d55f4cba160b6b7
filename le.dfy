/**
 * Little-endian integers as the engines' save files hold them: what
 * `fwrite(&x, n, 1, f)` writes for an n-byte unsigned integer on a
 * little-endian machine, and what `fread` reads back.
 */
module LittleEndian {
  import opened Keys

  function Pow256(n: nat): (r: nat)
    ensures r > 0
  {
    if n == 0 then 1 else 256 * Pow256(n - 1)
  }

  /** The n low-order bytes of x, least significant first; higher bytes of x are dropped. */
  function Le(x: nat, n: nat): (r: seq<byte>)
    ensures |r| == n
  {
    if n == 0 then [] else [(x % 256) as byte] + Le(x / 256, n - 1)
  }

  /** The unsigned integer whose little-endian bytes are s. */
  function FromLe(s: seq<byte>): (r: nat)
    ensures r < Pow256(|s|)
  {
    if |s| == 0 then 0 else s[0] as nat + 256 * FromLe(s[1..])
  }

  /** Reading back what was written gives the number, when it fits in n bytes. */
  lemma {:induction false} FromLeLe(x: nat, n: nat)
    requires x < Pow256(n)
    ensures FromLe(Le(x, n)) == x
  {
    if n > 0 {
      assert x / 256 < Pow256(n - 1);
      FromLeLe(x / 256, n - 1);
      assert Le(x, n)[1..] == Le(x / 256, n - 1);
    }
  }

  lemma Pow256Values()
    ensures Pow256(4) == 0x1_0000_0000 && Pow256(8) == 0x1_0000_0000_0000_0000
  {
  }
}
