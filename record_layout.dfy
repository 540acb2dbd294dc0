/**
 * How records are laid out in an enumeration buffer, and that the walk of
 * RecordStream reads back exactly the records so laid out. Each record is
 * its 64-byte structure followed by a tail of arbitrary bytes (the rest of
 * FileName and the padding) up to its RecordLength; the walk never looks
 * at the tails. So WellFormed holds of every buffer of this shape, whatever
 * its file names.
 */
module RecordLayout {
  import opened Bytes
  import opened UsnRecord
  import opened RecordStream

  /** Each record has a RecordLength of at least its structure, and a tail that fills the rest. */
  predicate Fits(rs: seq<Record>, tails: seq<seq<u8>>)
  {
    && |tails| == |rs|
    && forall i | 0 <= i < |rs| ::
         RECORD_SIZE <= rs[i].RecordLength() && |tails[i]| == rs[i].RecordLength() - RECORD_SIZE
  }

  /** The bytes of one record: its structure, then its tail up to RecordLength. */
  function Encoded(r: Record, tail: seq<u8>): (e: seq<u8>)
    requires RECORD_SIZE <= r.RecordLength() && |tail| == r.RecordLength() - RECORD_SIZE
    ensures |e| == r.RecordLength()
  {
    r.raw + tail
  }

  /** Records laid out back to back, each with its tail. */
  function EncodedAll(rs: seq<Record>, tails: seq<seq<u8>>): (e: seq<u8>)
    requires Fits(rs, tails)
    ensures |e| == SumLengths(rs)
  {
    if rs == [] then [] else Encoded(rs[0], tails[0]) + EncodedAll(rs[1..], tails[1..])
  }

  /**
   * Wherever records are laid out back to back in a buffer, whatever their
   * tails, the walk from the first of them to the end of the last is well
   * formed and meets exactly those records.
   */
  lemma {:induction false} DecodeLaidOut(buf: seq<u8>, returned: nat, off: nat, rs: seq<Record>, tails: seq<seq<u8>>)
    requires Fits(rs, tails)
    requires returned == off + SumLengths(rs) <= |buf|
    requires buf[off..returned] == EncodedAll(rs, tails)
    ensures WellFormedFrom(buf, returned, off)
    ensures RecordsFrom(buf, returned, off) == rs
    decreases |rs|
  {
    if rs != [] {
      var r := rs[0];
      FitsRest(rs, tails);
      HeadLaidOut(buf, off, r, tails[0], EncodedAll(rs[1..], tails[1..]));
      DecodeLaidOut(buf, returned, off + r.RecordLength(), rs[1..], tails[1..]);
      assert [r] + rs[1..] == rs;
    }
  }

  /** The records after the first still fit their tails. */
  lemma FitsRest(rs: seq<Record>, tails: seq<seq<u8>>)
    requires Fits(rs, tails) && rs != []
    ensures Fits(rs[1..], tails[1..])
  {
    forall i | 0 <= i < |rs| - 1
      ensures RECORD_SIZE <= rs[1..][i].RecordLength() && |tails[1..][i]| == rs[1..][i].RecordLength() - RECORD_SIZE
    {
      assert rs[1..][i] == rs[i + 1] && tails[1..][i] == tails[i + 1];
    }
  }

  /** The record laid out first at `off` is the one read there, and the rest follows it. */
  lemma HeadLaidOut(buf: seq<u8>, off: nat, r: Record, tail: seq<u8>, rest: seq<u8>)
    requires RECORD_SIZE <= r.RecordLength() && |tail| == r.RecordLength() - RECORD_SIZE
    requires off + r.RecordLength() + |rest| <= |buf|
    requires buf[off..off + r.RecordLength() + |rest|] == Encoded(r, tail) + rest
    ensures off + RECORD_SIZE <= |buf|
    ensures DecodeRecord(buf, off) == r
    ensures buf[off + r.RecordLength()..off + r.RecordLength() + |rest|] == rest
  {
    var len := r.RecordLength();
    Peel(buf, off, Encoded(r, tail), rest);
    SliceOfSlice(buf, off, off + len, 0, RECORD_SIZE);
    assert Encoded(r, tail)[0..RECORD_SIZE] == r.raw;
  }

  /**
   * A buffer that holds N records back to back just past its continuation
   * token, with any tails and whatever follows them, is well formed up to
   * the end of the last record and yields exactly those N records in order.
   */
  lemma RecordsOfLaidOut(buf: seq<u8>, returned: nat, rs: seq<Record>, tails: seq<seq<u8>>)
    requires Fits(rs, tails)
    requires returned == TOKEN_SIZE + SumLengths(rs) <= |buf|
    requires buf[TOKEN_SIZE..returned] == EncodedAll(rs, tails)
    ensures WellFormed(buf, returned)
    ensures Records(buf, returned) == rs
  {
    DecodeLaidOut(buf, returned, TOKEN_SIZE, rs, tails);
  }
}
