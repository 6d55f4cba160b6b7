/**
 * The walks the cursor and the range query make over the leaf chain, as
 * functions on the flattened chain F, and what they deliver.
 */
module BPlusTreeScan {
  import opened Keys
  import opened BPlusTree

  /** The first live slot at or after g, or |F|: where the skipping loop of kvs_cursor_next stops. */
  function NextLive(F: seq<Entry>, g: nat): (r: nat)
    requires g <= |F|
    ensures g <= r <= |F|
    ensures r < |F| ==> !F[r].deleted
    ensures forall i :: g <= i < r ==> F[i].deleted
    decreases |F| - g
  {
    if g == |F| || !F[g].deleted then g else NextLive(F, g + 1)
  }

  /** The last live slot at or before g, or -1: where the skipping loop of kvs_cursor_prev stops. */
  function PrevLive(F: seq<Entry>, g: int): (r: int)
    requires -1 <= g < |F|
    ensures -1 <= r <= g
    ensures r >= 0 ==> !F[r].deleted
    ensures forall i :: r < i <= g ==> F[i].deleted
    decreases g + 1
  {
    if g == -1 || !F[g].deleted then g else PrevLive(F, g - 1)
  }

  /**
   * kvs_range's loop from slot g: report the entry while its key is not above
   * `to`, then step as kvs_cursor_next does.  The slot it starts from is not
   * checked for a tombstone.
   */
  function RangeFrom(F: seq<Entry>, g: nat, to: Key): seq<(Key, Value)>
    requires g <= |F|
    decreases |F| - g
  {
    if g == |F| || KeyCmp(F[g].key, to) > 0 then []
    else [(F[g].key, F[g].value)] + RangeFrom(F, NextLive(F, g + 1), to)
  }

  /** The live entries of F whose keys lie in [lo, hi], in chain order: what a range query is for. */
  function LiveBetween(F: seq<Entry>, lo: Key, hi: Key): seq<(Key, Value)>
    decreases |F|
  {
    if |F| == 0 then []
    else
      (if !F[0].deleted && KeyLe(lo, F[0].key) && KeyLe(F[0].key, hi) then [(F[0].key, F[0].value)] else []) +
      LiveBetween(F[1..], lo, hi)
  }

  /** Entries all above hi contribute nothing to a range. */
  lemma {:induction false} AboveEmpty(S: seq<Entry>, lo: Key, hi: Key)
    requires forall i :: 0 <= i < |S| ==> KeyLess(hi, S[i].key)
    ensures LiveBetween(S, lo, hi) == []
    decreases |S|
  {
    if |S| > 0 {
      KeyNotLess(hi, S[0].key);
      KeyTotal(hi, S[0].key);
      AboveEmpty(S[1..], lo, hi);
    }
  }

  /** Entries all below lo contribute nothing either: a range may start at the lower bound of lo. */
  lemma {:induction false} BelowSkipped(F: seq<Entry>, p: nat, lo: Key, hi: Key)
    requires p <= |F| && forall i :: 0 <= i < p ==> KeyLess(F[i].key, lo)
    ensures LiveBetween(F, lo, hi) == LiveBetween(F[p..], lo, hi)
    decreases p
  {
    if p > 0 {
      KeyTotal(F[0].key, lo);
      KeyNotLess(F[0].key, lo);
      assert forall i :: 0 <= i < p - 1 ==> F[1..][i] == F[i + 1];
      BelowSkipped(F[1..], p - 1, lo, hi);
      assert F[1..][p - 1..] == F[p..];
    }
  }

  /**
   * Walking from the first live slot at or after g, where every key from g on
   * is at least lo, reports exactly the live entries of F[g..] inside [lo, hi].
   */
  lemma {:induction false} WalkIsBetween(F: seq<Entry>, g: nat, lo: Key, hi: Key)
    requires EntriesSorted(F) && g <= |F|
    requires forall i :: g <= i < |F| ==> KeyLe(lo, F[i].key)
    ensures RangeFrom(F, NextLive(F, g), hi) == LiveBetween(F[g..], lo, hi)
    decreases |F| - g
  {
    if g < |F| {
      assert F[g..][1..] == F[g + 1..];
      WalkIsBetween(F, g + 1, lo, hi);
      if !F[g].deleted && KeyCmp(F[g].key, hi) > 0 {
        KeyCmpAntisym(F[g].key, hi);
        forall i | 0 <= i < |F[g..]| ensures KeyLess(hi, F[g..][i].key) {
          if i > 0 { KeyLessTrans(hi, F[g].key, F[g + i].key); }
        }
        AboveEmpty(F[g..], lo, hi);
      }
    }
  }

  /** The range walk started at the first LIVE slot at or after the lower bound of lo reports exactly the live entries in [lo, hi]. */
  lemma RangeLiveIsBetween(F: seq<Entry>, lo: Key, hi: Key)
    requires EntriesSorted(F)
    ensures RangeFrom(F, NextLive(F, LowerBound(F, lo)), hi) == LiveBetween(F, lo, hi)
  {
    var p := LowerBound(F, lo);
    forall i | p <= i < |F| ensures KeyLe(lo, F[i].key) {
      KeyNotLess(F[p].key, lo);
      if i > p {
        KeyLeLessTrans(lo, F[p].key, F[i].key);
        KeyTotal(lo, F[i].key);
      }
    }
    WalkIsBetween(F, p, lo, hi);
    BelowSkipped(F, p, lo, hi);
  }

  /**
   * A chain whose first entry is a tombstone: kvs_range as written reports the
   * deleted pair ("a", "1") for the range ["a", "z"].
   */
  lemma RangeReportsTombstone()
    ensures var F := [Entry([97], [49], true), Entry([98], [50], false)];
      EntriesSorted(F) &&
      RangeFrom(F, LowerBound(F, [97]), [122]) == [([97], [49]), ([98], [50])] &&
      LiveBetween(F, [97], [122]) == [([98], [50])]
  {
    var F := [Entry([97], [49], true), Entry([98], [50], false)];
    FirstDifferenceDecides([97], [98], 0);
    FirstDifferenceDecides([97], [122], 0);
    FirstDifferenceDecides([98], [122], 0);
    KeyCmpZero([97], [97]);
    KeyCmpAntisym([97], [122]);
    KeyCmpAntisym([98], [122]);
    assert LowerBound(F, [97]) == 0;
    assert NextLive(F, 1) == 1;
    assert F[1..][1..] == [];
  }

  // ===== whole walks =====

  /** The pairs a walk by kvs_cursor_next reports from slot g to the end. */
  function Forward(F: seq<Entry>, g: nat): seq<(Key, Value)>
    requires g <= |F|
    decreases |F| - g
  {
    if g == |F| then [] else [(F[g].key, F[g].value)] + Forward(F, NextLive(F, g + 1))
  }

  /** The pairs a walk by kvs_cursor_prev reports from slot g back to the front. */
  function Backward(F: seq<Entry>, g: int): seq<(Key, Value)>
    requires -1 <= g < |F|
    decreases g + 1
  {
    if g == -1 then [] else [(F[g].key, F[g].value)] + Backward(F, PrevLive(F, g - 1))
  }

  function Reverse<T>(s: seq<T>): seq<T>
    decreases |s|
  {
    if |s| == 0 then [] else [s[|s| - 1]] + Reverse(s[..|s| - 1])
  }

  lemma {:induction false} LivePairsAppend(A: seq<Entry>, B: seq<Entry>)
    ensures LivePairs(A + B) == LivePairs(A) + LivePairs(B)
    decreases |B|
  {
    if |B| > 0 {
      assert (A + B)[..|A + B| - 1] == A + B[..|B| - 1];
      assert (A + B)[|A + B| - 1] == B[|B| - 1];
      LivePairsAppend(A, B[..|B| - 1]);
    } else {
      assert A + B == A;
    }
  }

  /** From the first live slot at or after g, next reports the live pairs of F[g..] in order. */
  lemma {:induction false} ForwardFrom(F: seq<Entry>, g: nat)
    requires g <= |F|
    ensures Forward(F, NextLive(F, g)) == LivePairs(F[g..])
    decreases |F| - g
  {
    if g < |F| {
      ForwardFrom(F, g + 1);
      assert F[g..] == [F[g]] + F[g + 1..];
      LivePairsAppend([F[g]], F[g + 1..]);
      assert LivePairs([F[g]]) == LivePairs([F[g]][..0]) + (if F[g].deleted then [] else [(F[g].key, F[g].value)]);
    }
  }

  /** kvs_cursor_first then kvs_cursor_next until invalid: every live pair, in chain (ascending key) order. */
  lemma ForwardLive(F: seq<Entry>)
    ensures Forward(F, NextLive(F, 0)) == LivePairs(F)
  {
    ForwardFrom(F, 0);
    assert F[0..] == F;
  }

  /** From the last live slot at or before g, prev reports the live pairs of F[..g + 1] backwards. */
  lemma {:induction false} BackwardFrom(F: seq<Entry>, g: int)
    requires -1 <= g < |F|
    ensures Backward(F, PrevLive(F, g)) == Reverse(LivePairs(F[..g + 1]))
    decreases g + 1
  {
    if g >= 0 {
      BackwardFrom(F, g - 1);
      assert F[..g + 1][..g] == F[..g];
    }
  }

  /** kvs_cursor_last then kvs_cursor_prev until invalid: every live pair, in reverse chain order. */
  lemma BackwardLive(F: seq<Entry>)
    ensures Backward(F, PrevLive(F, |F| - 1)) == Reverse(LivePairs(F))
  {
    BackwardFrom(F, |F| - 1);
    assert F[..|F|] == F;
  }
}
