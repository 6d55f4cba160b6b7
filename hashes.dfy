/**
 * The three 32-bit string hashes shared by every engine (b+tree/kvs.c:63-80,
 * hash_rbtree/kvs.c:56-73, kvs_hybrid.c:76-93, bench_all.cpp:54-64).
 *
 * fnv1a reads each byte as unsigned.  hash2 and hash3 combine a plain `char`,
 * which this model fixes as SIGNED (the x86-64 and most ABIs' choice): a byte
 * b >= 128 enters the uint32 arithmetic as b - 256, i.e. sign-extended.
 * All arithmetic is modulo 2^32, as on uint32_t.
 */
module Hashes {
  import opened Keys

  const FNV_OFFSET_BASIS: bv32 := 2166136261
  const FNV_PRIME: bv32 := 16777619
  const HASH2_SEED: bv32 := 0x5bd1e995
  const HASH3_SEED: bv32 := 0x811c9dc5

  /** A `char` promoted to int and then converted to uint32: sign extension of a signed char. */
  function CharAsUint32(b: byte): bv32
  {
    if b < 128 then b as int as bv32 else (b as int + 0xFFFF_FF00) as bv32
  }

  /** fnv1a: h = (h ^ byte) * 16777619, starting from 2166136261. */
  function Fnv1a(k: seq<byte>): bv32
  {
    if |k| == 0 then FNV_OFFSET_BASIS
    else (Fnv1a(k[..|k| - 1]) ^ (k[|k| - 1] as int as bv32)) * FNV_PRIME
  }

  /** hash2: h = ((h << 5) + h) ^ c, starting from 0x5bd1e995. */
  function Hash2(k: seq<byte>): bv32
  {
    if |k| == 0 then HASH2_SEED
    else
      var h := Hash2(k[..|k| - 1]);
      ((h << 5) + h) ^ CharAsUint32(k[|k| - 1])
  }

  /** hash3: h = h * 31 + c, starting from 0x811c9dc5. */
  function Hash3(k: seq<byte>): bv32
  {
    if |k| == 0 then HASH3_SEED
    else Hash3(k[..|k| - 1]) * 31 + CharAsUint32(k[|k| - 1])
  }
}
