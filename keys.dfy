/**
 * Byte strings and the two key orders of the engines.
 *
 * `KeyCmp` is `keycmp` (b+tree/kvs.c, hash_rbtree/kvs.c): `memcmp` over the
 * common prefix, ties broken by length.  `StrCmp` is C's `strcmp`, used by
 * kvs_hybrid.c and kvs_rbtree.c, which stops at the first NUL byte.  `CStr`
 * is what `strlen` keeps of a buffer.  `memcmp` and `strcmp` may return any
 * negative or positive number; every caller in the source only looks at the
 * sign, so both are modelled as returning -1, 0 or 1.
 */
module Keys {

  newtype byte = x: int | 0 <= x < 256

  type Key = seq<byte>
  type Value = seq<byte>

  /** memcmp(a, b, n): the sign of the first differing unsigned byte among the first n. */
  function Memcmp(a: seq<byte>, b: seq<byte>, n: nat): (r: int)
    requires n <= |a| && n <= |b|
    ensures -1 <= r <= 1
    decreases n
  {
    if n == 0 then 0
    else if a[0] < b[0] then -1
    else if a[0] > b[0] then 1
    else Memcmp(a[1..], b[1..], n - 1)
  }

  /** memcmp returns 0 exactly when the first n bytes agree. */
  lemma {:induction false} MemcmpZero(a: seq<byte>, b: seq<byte>, n: nat)
    requires n <= |a| && n <= |b|
    ensures Memcmp(a, b, n) == 0 <==> a[..n] == b[..n]
    decreases n
  {
    if n > 0 {
      MemcmpZero(a[1..], b[1..], n - 1);
      assert a[..n] == [a[0]] + a[1..][..n - 1];
      assert b[..n] == [b[0]] + b[1..][..n - 1];
    }
  }

  /** keycmp: memcmp over the shorter length, then the shorter string is smaller. */
  function KeyCmp(k1: Key, k2: Key): (r: int)
    ensures -1 <= r <= 1
  {
    var m := if |k1| < |k2| then |k1| else |k2|;
    var c := Memcmp(k1, k2, m);
    if c != 0 then c
    else if |k1| < |k2| then -1
    else if |k1| > |k2| then 1
    else 0
  }

  predicate KeyLess(a: Key, b: Key) { KeyCmp(a, b) < 0 }

  predicate KeyLe(a: Key, b: Key) { KeyCmp(a, b) <= 0 }

  /** Lexicographic order written recursively, the reference that keycmp is proved against. */
  function Lex(a: seq<byte>, b: seq<byte>): int
  {
    if |a| == 0 then (if |b| == 0 then 0 else -1)
    else if |b| == 0 then 1
    else if a[0] < b[0] then -1
    else if a[0] > b[0] then 1
    else Lex(a[1..], b[1..])
  }

  lemma {:induction false} MemcmpIsLex(a: seq<byte>, b: seq<byte>, n: nat)
    requires n <= |a| && n <= |b|
    ensures Memcmp(a, b, n) == Lex(a[..n], b[..n])
    decreases n
  {
    if n > 0 {
      MemcmpIsLex(a[1..], b[1..], n - 1);
      assert a[..n][1..] == a[1..][..n - 1];
      assert b[..n][1..] == b[1..][..n - 1];
    }
  }

  lemma {:induction false} LexEqualPrefix(a: seq<byte>, b: seq<byte>, n: nat)
    requires n <= |a| && n <= |b| && a[..n] == b[..n]
    ensures Lex(a, b) == Lex(a[n..], b[n..])
    decreases n
  {
    if n > 0 {
      assert a[0] == a[..n][0] && b[0] == b[..n][0];
      assert a[1..][..n - 1] == a[..n][1..];
      assert b[1..][..n - 1] == b[..n][1..];
      LexEqualPrefix(a[1..], b[1..], n - 1);
      assert a[1..][n - 1..] == a[n..];
      assert b[1..][n - 1..] == b[n..];
    }
  }

  /** keycmp agrees with the recursive lexicographic order on every pair of byte strings. */
  lemma KeyCmpIsLex(a: Key, b: Key)
    ensures KeyCmp(a, b) == Lex(a, b)
  {
    var m := if |a| < |b| then |a| else |b|;
    MemcmpIsLex(a, b, m);
    MemcmpZero(a, b, m);
    if Memcmp(a, b, m) == 0 {
      LexEqualPrefix(a, b, m);
      assert |a[m..]| == 0 || |b[m..]| == 0;
    } else {
      LexPrefixDecides(a, b, m);
    }
  }

  lemma {:induction false} LexPrefixDecides(a: seq<byte>, b: seq<byte>, n: nat)
    requires n <= |a| && n <= |b| && Lex(a[..n], b[..n]) != 0
    ensures Lex(a, b) == Lex(a[..n], b[..n])
    decreases n
  {
    assert n > 0;
    assert a[..n][0] == a[0] && b[..n][0] == b[0];
    if a[0] == b[0] {
      assert a[..n][1..] == a[1..][..n - 1];
      assert b[..n][1..] == b[1..][..n - 1];
      LexPrefixDecides(a[1..], b[1..], n - 1);
    }
  }

  lemma {:induction false} LexZero(a: seq<byte>, b: seq<byte>)
    ensures Lex(a, b) == 0 <==> a == b
  {
    if |a| > 0 && |b| > 0 && a[0] == b[0] {
      LexZero(a[1..], b[1..]);
      if a[1..] == b[1..] { assert a == [a[0]] + a[1..]; assert b == [b[0]] + b[1..]; }
    }
  }

  lemma {:induction false} LexAntisym(a: seq<byte>, b: seq<byte>)
    ensures Lex(a, b) == -Lex(b, a)
  {
    if |a| > 0 && |b| > 0 && a[0] == b[0] {
      LexAntisym(a[1..], b[1..]);
    }
  }

  lemma {:induction false} LexTrans(a: seq<byte>, b: seq<byte>, c: seq<byte>)
    requires Lex(a, b) < 0 && Lex(b, c) < 0
    ensures Lex(a, c) < 0
  {
    if |a| > 0 && |b| > 0 && |c| > 0 && a[0] == b[0] && b[0] == c[0] {
      LexTrans(a[1..], b[1..], c[1..]);
    }
  }

  /** keycmp returns 0 exactly for identical strings. */
  lemma KeyCmpZero(a: Key, b: Key)
    ensures KeyCmp(a, b) == 0 <==> a == b
  {
    KeyCmpIsLex(a, b);
    LexZero(a, b);
  }

  /** Swapping the arguments of keycmp negates the result. */
  lemma KeyCmpAntisym(a: Key, b: Key)
    ensures KeyCmp(a, b) == -KeyCmp(b, a)
  {
    KeyCmpIsLex(a, b);
    KeyCmpIsLex(b, a);
    LexAntisym(a, b);
  }

  /** The strict order of keycmp is transitive. */
  lemma KeyLessTrans(a: Key, b: Key, c: Key)
    requires KeyLess(a, b) && KeyLess(b, c)
    ensures KeyLess(a, c)
  {
    KeyCmpIsLex(a, b);
    KeyCmpIsLex(b, c);
    KeyCmpIsLex(a, c);
    LexTrans(a, b, c);
  }

  lemma KeyLeLessTrans(a: Key, b: Key, c: Key)
    requires KeyLe(a, b) && KeyLess(b, c)
    ensures KeyLess(a, c)
  {
    KeyCmpZero(a, b);
    if a != b { KeyLessTrans(a, b, c); }
  }

  lemma KeyLessLeTrans(a: Key, b: Key, c: Key)
    requires KeyLess(a, b) && KeyLe(b, c)
    ensures KeyLess(a, c)
  {
    KeyCmpZero(b, c);
    if b != c { KeyLessTrans(a, b, c); }
  }

  lemma KeyLeTrans(a: Key, b: Key, c: Key)
    requires KeyLe(a, b) && KeyLe(b, c)
    ensures KeyLe(a, c)
  {
    KeyCmpZero(a, b);
    KeyCmpZero(b, c);
    if a != b && b != c { KeyLessTrans(a, b, c); }
  }

  /** Any two keys are comparable: exactly one of a < b, a == b, b < a. */
  lemma KeyTotal(a: Key, b: Key)
    ensures KeyLess(a, b) || a == b || KeyLess(b, a)
    ensures !(KeyLess(a, b) && KeyLess(b, a))
    ensures KeyLess(a, b) ==> a != b
  {
    KeyCmpZero(a, b);
    KeyCmpAntisym(a, b);
  }

  lemma KeyNotLess(a: Key, b: Key)
    ensures !KeyLess(a, b) <==> KeyLe(b, a)
  {
    KeyCmpAntisym(a, b);
  }

  /** A proper prefix is smaller than the string it prefixes. */
  lemma {:induction false} PrefixIsLess(a: Key, b: Key)
    requires |a| < |b| && a == b[..|a|]
    ensures KeyLess(a, b)
  {
    KeyCmpIsLex(a, b);
    LexPrefixLess(a, b);
  }

  lemma {:induction false} LexPrefixLess(a: seq<byte>, b: seq<byte>)
    requires |a| < |b| && a == b[..|a|]
    ensures Lex(a, b) < 0
  {
    if |a| > 0 {
      assert a[0] == b[0];
      assert a[1..] == b[1..][..|a| - 1];
      LexPrefixLess(a[1..], b[1..]);
    }
  }

  /** The first differing byte decides keycmp, whatever follows it. */
  lemma {:induction false} FirstDifferenceDecides(a: Key, b: Key, i: nat)
    requires i < |a| && i < |b| && a[..i] == b[..i] && a[i] < b[i]
    ensures KeyLess(a, b)
  {
    KeyCmpIsLex(a, b);
    LexFirstDifference(a, b, i);
  }

  lemma {:induction false} LexFirstDifference(a: seq<byte>, b: seq<byte>, i: nat)
    requires i < |a| && i < |b| && a[..i] == b[..i] && a[i] < b[i]
    ensures Lex(a, b) < 0
  {
    if i > 0 {
      assert a[0] == a[..i][0] && b[0] == b[..i][0];
      assert a[1..][..i - 1] == a[..i][1..];
      assert b[1..][..i - 1] == b[..i][1..];
      LexFirstDifference(a[1..], b[1..], i - 1);
    }
  }

  /** `e->klen == klen && memcmp(e->key, key, klen) == 0`: the key test of the hash chain walks. */
  predicate SameBytes(a: seq<byte>, b: seq<byte>)
  {
    |a| == |b| && Memcmp(a, b, |b|) == 0
  }

  lemma SameBytesIsEqual(a: seq<byte>, b: seq<byte>)
    ensures SameBytes(a, b) <==> a == b
  {
    if |a| == |b| {
      MemcmpZero(a, b, |b|);
      assert a[..|b|] == a && b[..|b|] == b;
    }
  }

  // ----- C strings -----

  /** What strlen keeps of a buffer: the bytes before the first NUL (all of it if there is none). */
  function CStr(s: seq<byte>): (r: seq<byte>)
    ensures |r| <= |s| && r == s[..|r|]
    ensures forall i :: 0 <= i < |r| ==> r[i] != 0
    ensures |r| < |s| ==> s[|r|] == 0
  {
    if |s| == 0 || s[0] == 0 then []
    else
      var t := CStr(s[1..]);
      assert s[..|t| + 1] == [s[0]] + t;
      [s[0]] + t
  }

  predicate NulFree(s: seq<byte>) { forall i :: 0 <= i < |s| ==> s[i] != 0 }

  /** strcmp: compare unsigned bytes until they differ or both strings end; a buffer's end counts as its NUL. */
  function StrCmp(a: seq<byte>, b: seq<byte>): (r: int)
    ensures r == -1 || r == 0 || r == 1
  {
    var ca := if |a| == 0 then 0 as byte else a[0];
    var cb := if |b| == 0 then 0 as byte else b[0];
    if ca < cb then -1
    else if ca > cb then 1
    else if ca == 0 then 0
    else StrCmp(a[1..], b[1..])
  }

  /** strcmp orders two buffers exactly as keycmp orders their C-string prefixes. */
  lemma {:induction false} StrCmpIsKeyCmpOfCStr(a: seq<byte>, b: seq<byte>)
    ensures StrCmp(a, b) == KeyCmp(CStr(a), CStr(b))
  {
    KeyCmpIsLex(CStr(a), CStr(b));
    if |a| > 0 && |b| > 0 && a[0] == b[0] && a[0] != 0 {
      StrCmpIsKeyCmpOfCStr(a[1..], b[1..]);
      KeyCmpIsLex(CStr(a[1..]), CStr(b[1..]));
    }
  }

  /** On NUL-free strings (what strlen-measured keys are) strcmp and keycmp coincide. */
  lemma StrCmpIsKeyCmp(a: Key, b: Key)
    requires NulFree(a) && NulFree(b)
    ensures StrCmp(a, b) == KeyCmp(a, b)
  {
    CStrOfNulFree(a);
    CStrOfNulFree(b);
    StrCmpIsKeyCmpOfCStr(a, b);
  }

  lemma CStrOfNulFree(s: seq<byte>)
    requires NulFree(s)
    ensures CStr(s) == s
  {
  }

  lemma CStrIsNulFree(s: seq<byte>)
    ensures NulFree(CStr(s))
  {
  }
}
