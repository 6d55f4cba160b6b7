/** The status codes of kvs.h (b+tree/kvs.h:33-37, the same values in hash_rbtree/kvs.h:41-45). */
module Status {
  const OK: int := 0
  const NOMEM: int := -1
  const NOTFOUND: int := -2
  const IO: int := -3
  const FULL: int := -4
}
