/**
 * The save file of b+tree/kvs.c (kvs_save, kvs_load at lines 553-616): a
 * 4-byte magic, the entry count and the bloom size as 8-byte size_t, the
 * bloom bitmap, then one record per live entry in chain order: key length
 * and value length as 4-byte integers, then the key and value bytes.
 */
module BPlusTreeFile {
  import opened Keys
  import opened Wrappers
  import opened LittleEndian
  import opened Bloom
  import Seqs

  /** KVS_MAGIC, "SBPT" read as a little-endian integer. */
  const MAGIC: nat := 0x54504253

  /** What kvs_load takes from a file: the bloom size and bitmap and the records it replays. */
  datatype Snapshot = Snapshot(bits: nat, bitmap: seq<bv8>, records: seq<(Key, Value)>)

  function Record(p: (Key, Value)): seq<byte>
  {
    Le(|p.0|, 4) + Le(|p.1|, 4) + p.0 + p.1
  }

  function Records(P: seq<(Key, Value)>): seq<byte>
    decreases |P|
  {
    if |P| == 0 then [] else Record(P[0]) + Records(P[1..])
  }

  function BitmapBytes(m: seq<bv8>): (r: seq<byte>)
    ensures |r| == |m|
  {
    seq(|m|, i requires 0 <= i < |m| => m[i] as byte)
  }

  function BytesBitmap(s: seq<byte>): (r: seq<bv8>)
    ensures |r| == |s|
  {
    seq(|s|, i requires 0 <= i < |s| => s[i] as bv8)
  }

  /** The bytes kvs_save writes for a count, a bloom filter and the live pairs in chain order. */
  function Image(count: nat, bits: nat, m: seq<bv8>, P: seq<(Key, Value)>): seq<byte>
  {
    Le(MAGIC, 4) + Le(count, 8) + Le(bits, 8) + BitmapBytes(m) + Records(P)
  }

  /** The n records kvs_load reads one after the other; bytes after them are ignored. */
  function DecodeRecords(data: seq<byte>, n: nat): (r: Option<seq<(Key, Value)>>)
    ensures r.Some? ==> |r.value| == n
    decreases n
  {
    if n == 0 then Some([])
    else if |data| < 8 then None
    else
      var kl, vl := FromLe(data[..4]), FromLe(data[4..8]);
      if |data| < 8 + kl + vl then None
      else
        match DecodeRecords(data[8 + kl + vl..], n - 1)
        case None => None
        case Some(rest) => Some([(data[8..8 + kl], data[8 + kl..8 + kl + vl])] + rest)
  }

  /**
   * kvs_load's reading of a file: no file (None) unless the magic matches, as
   * in the C code; a short file or a bloom size that is zero or not a multiple
   * of 8 is rejected too (the C code reads on regardless).
   */
  function Decode(data: seq<byte>): (r: Option<Snapshot>)
    ensures r.Some? ==> WellSized(r.value.bitmap, r.value.bits) && r.value.bits < Pow256(8)
  {
    if |data| < 4 || FromLe(data[..4]) != MAGIC || |data| < 20 then None
    else
      var count, bits := FromLe(data[4..12]), FromLe(data[12..20]);
      if bits == 0 || bits % 8 != 0 || |data| < 20 + bits / 8 then None
      else
        match DecodeRecords(data[20 + bits / 8..], count)
        case None => None
        case Some(P) => Some(Snapshot(bits, BytesBitmap(data[20..20 + bits / 8]), P))
  }

  /** Every key and value fits the 4-byte length fields. */
  ghost predicate Fits32(P: seq<(Key, Value)>)
  {
    forall i :: 0 <= i < |P| ==> |P[i].0| < Pow256(4) && |P[i].1| < Pow256(4)
  }

  /** Records are read back as written, whatever follows them. */
  lemma {:induction false} DecodeRecordsRoundTrip(P: seq<(Key, Value)>, rest: seq<byte>)
    requires Fits32(P)
    ensures DecodeRecords(Records(P) + rest, |P|) == Some(P)
    decreases |P|
  {
    if |P| > 0 {
      var k, v := P[0].0, P[0].1;
      var tail := Records(P[1..]) + rest;
      Seqs.Associative(Record(P[0]), Records(P[1..]), rest);
      RecordParts(k, v, tail);
      FromLeLe(|k|, 4);
      FromLeLe(|v|, 4);
      assert Fits32(P[1..]) by {
        forall i | 0 <= i < |P[1..]| ensures |P[1..][i].0| < Pow256(4) && |P[1..][i].1| < Pow256(4) {
          assert P[1..][i] == P[i + 1];
        }
      }
      DecodeRecordsRoundTrip(P[1..], rest);
      assert [(k, v)] + P[1..] == P;
    }
  }

  /** Where the length fields, the key and the value of one record sit, whatever follows it. */
  lemma RecordParts(k: Key, v: Value, tail: seq<byte>)
    ensures var d := Record((k, v)) + tail;
      d[..4] == Le(|k|, 4) && d[4..8] == Le(|v|, 4) && d[8..8 + |k|] == k &&
      d[8 + |k|..8 + |k| + |v|] == v && d[8 + |k| + |v|..] == tail
  {
    var d := Record((k, v)) + tail;
    assert d == Le(|k|, 4) + Le(|v|, 4) + k + v + tail;
  }

  lemma BitmapRoundTrip(m: seq<bv8>)
    ensures BytesBitmap(BitmapBytes(m)) == m
  {
  }

  /** kvs_load reads back what kvs_save wrote: the bloom filter and the records, in order. */
  lemma ImageRoundTrip(bits: nat, m: seq<bv8>, P: seq<(Key, Value)>)
    requires WellSized(m, bits) && bits < Pow256(8) && |P| < Pow256(8) && Fits32(P)
    ensures Decode(Image(|P|, bits, m, P)) == Some(Snapshot(bits, m, P))
  {
    var data := Image(|P|, bits, m, P);
    var body := Records(P);
    assert data == Le(MAGIC, 4) + Le(|P|, 8) + Le(bits, 8) + BitmapBytes(m) + body;
    assert data[..4] == Le(MAGIC, 4);
    assert data[4..12] == Le(|P|, 8);
    assert data[12..20] == Le(bits, 8);
    Pow256Values();
    FromLeLe(MAGIC, 4);
    FromLeLe(|P|, 8);
    FromLeLe(bits, 8);
    assert data[20..20 + bits / 8] == BitmapBytes(m);
    assert data[20 + bits / 8..] == body + [];
    DecodeRecordsRoundTrip(P, []);
    BitmapRoundTrip(m);
  }

  /** Saving the record of one more pair appends it: the save loop's step. */
  lemma {:induction false} RecordsSnoc(P: seq<(Key, Value)>, x: (Key, Value))
    ensures Records(P + [x]) == Records(P) + Record(x)
    decreases |P|
  {
    if |P| == 0 {
      assert Records([x][1..]) == [];
    } else {
      assert (P + [x])[1..] == P[1..] + [x];
      RecordsSnoc(P[1..], x);
      Seqs.Associative(Record(P[0]), Records(P[1..]), Record(x));
    }
  }
}
