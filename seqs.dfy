/** Small facts about sequence slicing and map union, proved once for every element type. */
module Seqs {
  lemma Split3<T>(s: seq<T>, i: nat)
    requires i < |s|
    ensures s == s[..i] + [s[i]] + s[i + 1..]
    ensures s == s[..i] + ([s[i]] + s[i + 1..])
    ensures s[i..] == [s[i]] + s[i + 1..]
  {
    assert s[i..] == [s[i]] + s[i + 1..];
    assert s == s[..i] + s[i..];
  }

  lemma TakeDrop<T>(s: seq<T>, i: nat)
    requires i <= |s|
    ensures s[..i] + s[i..] == s
  {
  }

  lemma Update<T>(s: seq<T>, i: nat, x: T)
    requires i < |s|
    ensures s[i := x] == s[..i] + [x] + s[i + 1..]
    ensures s[i := x][..i] == s[..i] && s[i := x][i + 1..] == s[i + 1..]
  {
    assert s[i := x] == s[..i] + [x] + s[i + 1..];
  }

  lemma WithoutLast<T>(a: seq<T>, b: seq<T>)
    requires |b| > 0
    ensures (a + b)[..|a + b| - 1] == a + b[..|b| - 1]
  {
  }

  lemma Cons<T>(s: seq<T>)
    requires |s| > 0
    ensures s == [s[0]] + s[1..]
  {
  }

  lemma Snoc<T>(s: seq<T>)
    requires |s| > 0
    ensures s == s[..|s| - 1] + [s[|s| - 1]]
  {
  }

  lemma AppendNothing<T>(a: seq<T>)
    ensures a + [] == a && [] + a == a
  {
  }

  lemma Pair<T>(x: T, y: T)
    ensures [x, y] == [x] + [y]
  {
  }

  lemma TakeOne<T>(x: T)
    ensures [x][..0] == []
  {
  }

  /** Slicing a three-part concatenation inside its middle part. */
  lemma Around<T>(P: seq<T>, C: seq<T>, S: seq<T>, j: nat)
    requires j < |C|
    ensures (P + C + S)[..|P| + j] == P + C[..j]
    ensures (P + C + S)[|P| + j] == C[j]
    ensures (P + C + S)[|P| + j + 1..] == C[j + 1..] + S
  {
    var L := P + C + S;
    assert L[..|P| + j] == P + C[..j];
    var M := L[|P| + j + 1..];
    forall i | 0 <= i < |M| ensures M[i] == (C[j + 1..] + S)[i] {
      assert M[i] == L[|P| + j + 1 + i];
    }
    assert M == C[j + 1..] + S;
  }

  lemma Associative<T>(a: seq<T>, b: seq<T>, c: seq<T>)
    ensures a + b + c == a + (b + c)
  {
  }

  lemma Regroup<T>(P: seq<T>, A: seq<T>, C: seq<T>, B: seq<T>, S: seq<T>)
    ensures P + (A + C + B) + S == (P + A) + C + (B + S)
  {
  }

  lemma RemoveAbsent<K, V>(m: map<K, V>, k: K)
    requires k !in m
    ensures m - {k} == m
  {
  }

  /** A middle map whose only possible key is k is hidden by binding k afterwards. */
  lemma UpdateHides<K, V>(m1: map<K, V>, mx: map<K, V>, m2: map<K, V>, k: K, v: V)
    requires mx.Keys <= {k} && k !in m2
    ensures (m1 + mx + m2)[k := v] == (m1 + m2)[k := v]
  {
  }
}
