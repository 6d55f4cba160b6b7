/**
 * The bump allocator `pool_alloc` (b+tree/kvs.c:139-145, hash_rbtree/kvs.c:259-265,
 * kvs_hybrid.c:288-294, kvs_rbtree.c:187-193).  The region itself is not
 * modelled byte by byte: an allocation is the offset it returns.
 */
module Arena {
  import opened Wrappers

  /** Every engine reserves 128 MiB (KVS_DEFAULT_POOL_SIZE / POOL_SIZE). */
  const POOL_SIZE: nat := 128 * 1024 * 1024

  /** `(size + 7) & ~7`: the size rounded up to the next multiple of 8. */
  function AlignUp(n: nat): (r: nat)
    ensures r % 8 == 0 && n <= r < n + 8
  {
    (n + 7) / 8 * 8
  }

  lemma AlignUpPositive(n: nat)
    requires n >= 1
    ensures AlignUp(n) >= 8
  {
  }

  /**
   * The three allocations of a put, made one after the other before any
   * result is checked: ok when all three fit, the offset as AllocThree says.
   */
  method AllocPut(p: Pool, a: nat, b: nat, c: nat) returns (ok: bool)
    requires p.Valid()
    modifies p
    ensures p.Valid() && (ok, p.pos) == AllocThree(old(p.pos), p.size, a, b, c)
    ensures ok ==> old(p.pos) + a + b + c <= p.pos <= p.size
  {
    var x := p.Alloc(a);
    var y := p.Alloc(b);
    var z := p.Alloc(c);
    ok := x.Some? && y.Some? && z.Some?;
  }

  class Pool {
    var pos: nat
    const size: nat

    ghost predicate Valid()
      reads this
    {
      pos <= size && pos % 8 == 0
    }

    /** A fresh region: nothing allocated yet. */
    constructor (size: nat)
      ensures Valid() && this.size == size && pos == 0
    {
      this.size := size;
      pos := 0;
    }

    /**
     * pool_alloc: hands out the next 8-aligned slice, or NULL (None) without
     * moving `pos` when the slice would run past the end of the region.
     */
    method Alloc(n: nat) returns (p: Option<nat>)
      requires Valid()
      modifies this
      ensures Valid()
      ensures old(pos) + AlignUp(n) <= size ==> p == Some(old(pos)) && pos == old(pos) + AlignUp(n)
      ensures old(pos) + AlignUp(n) > size ==> p == None && pos == old(pos)
      ensures p.Some? ==> p.value % 8 == 0 && p.value + n <= size
    {
      var sz := AlignUp(n);
      if pos + sz > size {
        return None;
      }
      p := Some(pos);
      pos := pos + sz;
    }
  }

  /**
   * What a put's three calls `pool_alloc(sizeof(Entry))`, `pool_alloc(klen + 1)`,
   * `pool_alloc(vlen + 1)` do to the offset, all three being made before any
   * result is checked: each call that fits consumes its slice, each that does
   * not leaves the offset alone; the put proceeds only if all three fit.
   */
  function AllocThree(pos: nat, size: nat, a: nat, b: nat, c: nat): (r: (bool, nat))
    ensures r.1 >= pos
    ensures r.0 <==> pos + AlignUp(a) + AlignUp(b) + AlignUp(c) <= size
    ensures r.0 ==> r.1 == pos + AlignUp(a) + AlignUp(b) + AlignUp(c)
    ensures pos <= size ==> r.1 <= size
  {
    var (ok1, p1) := Step(pos, size, a);
    var (ok2, p2) := Step(p1, size, b);
    var (ok3, p3) := Step(p2, size, c);
    (ok1 && ok2 && ok3, p3)
  }

  function Step(pos: nat, size: nat, n: nat): (bool, nat)
  {
    if pos + AlignUp(n) <= size then (true, pos + AlignUp(n)) else (false, pos)
  }
}
