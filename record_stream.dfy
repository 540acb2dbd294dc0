/**
 * The layout of one `FSCTL_ENUM_USN_DATA` output buffer: an 8-byte
 * continuation token, then USN_RECORD_V2 records back to back up to
 * `returned`. Bytes past `returned` were never written (the buffer is a
 * `Vec::with_capacity` whose contents stay uninitialised).
 *
 * The resolver walks the records with raw pointer arithmetic and checks
 * nothing but `offset < returned`; the assumptions it makes about the bytes
 * are collected here as WellFormed.
 */
module RecordStream {
  import opened Bytes
  import opened UsnRecord

  /** Capacity of every enumeration output buffer (`BUF_SIZE`). */
  const BUF_SIZE: nat := 0x8000
  /** An enumeration output buffer: `Vec::with_capacity(BUF_SIZE)`, seen through its capacity. */
  type Buffer = b: seq<u8> | |b| == BUF_SIZE witness seq(BUF_SIZE, _ => 0)

  /** `size_of::<i64>()`: the continuation token in front of the records. */
  const TOKEN_SIZE: nat := 8

  /** The continuation token: the u64 held by the first 8 bytes of a buffer. */
  function Token(buf: seq<u8>): u64
    requires TOKEN_SIZE <= |buf|
  {
    LEBound(buf[..TOKEN_SIZE]);
    Pow256Widths();
    LE(buf[..TOKEN_SIZE])
  }

  /** The token is the `u64` that `*(buf.as_ptr() as *const u64)` reads. */
  lemma TokenIsReadU64(buf: seq<u8>)
    requires TOKEN_SIZE <= |buf|
    ensures Token(buf) == ReadU64(buf, 0)
  {
    ReadU64IsLE(buf, 0);
    assert buf[0..8] == buf[..TOKEN_SIZE];
  }

  /** A buffer that starts with the 8 bytes of x carries x as its token. */
  lemma TokenOfEncoded(x: u64, rest: seq<u8>)
    ensures Token(EncodeU64(x) + rest) == x
  {
    var buf := EncodeU64(x) + rest;
    TokenIsReadU64(buf);
    assert buf[0..8] == EncodeU64(x)[0..8];
    ReadU64IsLE(buf, 0);
    ReadU64IsLE(EncodeU64(x), 0);
  }

  /**
   * Walking the records from `off` never reads past `returned` and never
   * stalls: every record that starts below `returned` has a RecordLength of
   * at least the structure's size and ends at or before `returned`.
   */
  predicate WellFormedFrom(buf: seq<u8>, returned: nat, off: nat)
    decreases returned - off
  {
    && returned <= |buf|
    && (off < returned ==>
          && off + RECORD_SIZE <= returned
          && var len := DecodeRecord(buf, off).RecordLength();
          && RECORD_SIZE <= len
          && off + len <= returned
          && WellFormedFrom(buf, returned, off + len))
  }

  /** The records of a buffer whose first `returned` bytes are valid. */
  predicate WellFormed(buf: seq<u8>, returned: nat)
  {
    WellFormedFrom(buf, returned, TOKEN_SIZE)
  }

  /** The records met by the walk from `off` until it reaches `returned`, in buffer order. */
  function RecordsFrom(buf: seq<u8>, returned: nat, off: nat): (rs: seq<Record>)
    requires WellFormedFrom(buf, returned, off)
    ensures forall i | 0 <= i < |rs| :: RECORD_SIZE <= rs[i].RecordLength()
    ensures off <= returned ==> |rs| * RECORD_SIZE <= returned - off
    ensures returned <= off ==> rs == []
    decreases returned - off
  {
    if off >= returned then []
    else
      var r := DecodeRecord(buf, off);
      [r] + RecordsFrom(buf, returned, off + r.RecordLength())
  }

  /** The offset of the record after the one at `off`: `usn_record.byte_add(RecordLength)`. */
  function Advance(buf: seq<u8>, returned: nat, off: nat): (next: nat)
    requires WellFormedFrom(buf, returned, off) && off < returned
    ensures next == off + DecodeRecord(buf, off).RecordLength()
    ensures off + RECORD_SIZE <= next <= returned
    ensures WellFormedFrom(buf, returned, next)
    ensures RecordsFrom(buf, returned, off) != []
    ensures RecordsFrom(buf, returned, off)[0] == DecodeRecord(buf, off)
    ensures RecordsFrom(buf, returned, off)[1..] == RecordsFrom(buf, returned, next)
  {
    var r := DecodeRecord(buf, off);
    assert ([r] + RecordsFrom(buf, returned, off + r.RecordLength()))[1..] == RecordsFrom(buf, returned, off + r.RecordLength());
    off + r.RecordLength()
  }

  /**
   * The records of a buffer: the walk starts just past the continuation
   * token, so a buffer with `returned <= TOKEN_SIZE` holds none, and a full
   * buffer holds at most (BUF_SIZE - TOKEN_SIZE) / RECORD_SIZE of them.
   */
  function Records(buf: seq<u8>, returned: nat): (rs: seq<Record>)
    requires WellFormed(buf, returned)
    ensures returned <= TOKEN_SIZE ==> rs == []
    ensures returned <= BUF_SIZE ==> |rs| <= (BUF_SIZE - TOKEN_SIZE) / RECORD_SIZE
  {
    RecordsFrom(buf, returned, TOKEN_SIZE)
  }

  /** The bytes the records occupy, each RecordLength long. */
  function SumLengths(rs: seq<Record>): nat
  {
    if rs == [] then 0 else rs[0].RecordLength() + SumLengths(rs[1..])
  }

  /**
   * The walk ends exactly at `returned`: the records tile the valid region
   * from `off` with no gap and no overrun.
   */
  lemma {:induction false} RecordsTile(buf: seq<u8>, returned: nat, off: nat)
    requires WellFormedFrom(buf, returned, off) && off <= returned
    ensures off + SumLengths(RecordsFrom(buf, returned, off)) == returned
    decreases returned - off
  {
    if off < returned {
      var r := DecodeRecord(buf, off);
      RecordsTile(buf, returned, off + r.RecordLength());
    }
  }

  /**
   * The i-th record is the structure at the offset reached by advancing
   * from `off` by exactly the RecordLength of each record before it, and
   * it lies wholly inside the valid region.
   */
  lemma {:induction false} RecordAt(buf: seq<u8>, returned: nat, off: nat, i: nat)
    requires WellFormedFrom(buf, returned, off)
    requires i < |RecordsFrom(buf, returned, off)|
    ensures var rs := RecordsFrom(buf, returned, off);
            && off + SumLengths(rs[..i]) + rs[i].RecordLength() <= returned
            && rs[i] == DecodeRecord(buf, off + SumLengths(rs[..i]))
    decreases i
  {
    var rs := RecordsFrom(buf, returned, off);
    var next := Advance(buf, returned, off);
    if i == 0 {
      assert rs[..0] == [];
    } else {
      RecordAt(buf, returned, next, i - 1);
      SumLengthsPrefix(rs, i);
      assert rs[i] == rs[1..][i - 1];
    }
  }

  /** The length of a prefix is that of its first record plus the rest of the prefix. */
  lemma SumLengthsPrefix(rs: seq<Record>, i: nat)
    requires 0 < i <= |rs|
    ensures SumLengths(rs[..i]) == rs[0].RecordLength() + SumLengths(rs[1..][..i - 1])
  {
    assert rs[..i][1..] == rs[1..][..i - 1];
  }

  /**
   * Bytes past `returned` are never interpreted: two buffers that agree on
   * their valid prefix decode to the same records.
   */
  lemma {:induction false} RecordsIgnoreUninitialised(buf: seq<u8>, other: seq<u8>, returned: nat, off: nat)
    requires WellFormedFrom(buf, returned, off)
    requires returned <= |other| && buf[..returned] == other[..returned]
    ensures WellFormedFrom(other, returned, off)
    ensures RecordsFrom(other, returned, off) == RecordsFrom(buf, returned, off)
    decreases returned - off
  {
    if off < returned {
      forall k | 0 <= k < returned
        ensures buf[k] == other[k]
      {
        assert buf[..returned][k] == other[..returned][k];
      }
      assert buf[off..off + RECORD_SIZE] == other[off..off + RECORD_SIZE];
      var len := DecodeRecord(buf, off).RecordLength();
      RecordsIgnoreUninitialised(buf, other, returned, off + len);
    }
  }
}
