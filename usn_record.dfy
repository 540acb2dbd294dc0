/**
 * The `USN_RECORD_V2` structure that `FSCTL_ENUM_USN_DATA` returns, one per
 * file, and how its fixed fields sit in a record's bytes (little-endian):
 *
 *   offset  0  RecordLength               u32
 *   offset  4  MajorVersion               u16
 *   offset  6  MinorVersion               u16
 *   offset  8  FileReferenceNumber        u64
 *   offset 16  ParentFileReferenceNumber  u64
 *   offset 24  Usn                        i64
 *   offset 32  TimeStamp                  i64
 *   offset 40  Reason                     u32
 *   offset 44  SourceInfo                 u32
 *   offset 48  SecurityId                 u32
 *   offset 52  FileAttributes             u32
 *   offset 56  FileNameLength             u16
 *   offset 58  FileNameOffset             u16
 *   offset 60  FileName                   UTF-16, FileNameLength bytes
 */
module UsnRecord {
  import opened Bytes

  /** `size_of::<USN_RECORD_V2>()`: the bytes a `(*usn_record).clone()` copies. */
  const RECORD_SIZE: nat := 64
  /** The bytes of the fixed fields, up to the start of FileName. */
  const FIXED_SIZE: nat := 60

  /** The bytes of one cloned structure. */
  type Raw = s: seq<u8> | |s| == RECORD_SIZE witness seq(RECORD_SIZE, _ => 0)

  /**
   * One USN_RECORD_V2 as the index stores it: the RECORD_SIZE bytes that
   * `(*usn_record).clone()` copies, read through the field accessors.
   */
  datatype Record = Record(raw: Raw) {
    /** Bytes 0..4: the size of the record, name and padding included. */
    function RecordLength(): u32
    {
      Field(raw, 0, 4)
    }

    /** Bytes 8..16: the file's own reference number. */
    function FileReferenceNumber(): u64
    {
      Field(raw, 8, 8)
    }

    /** Bytes 16..24: the reference number of the directory that holds the file. */
    function ParentFileReferenceNumber(): u64
    {
      Field(raw, 16, 8)
    }
  }

  /** The n-byte little-endian field at `off` of a record's bytes. */
  function Field(raw: Raw, off: nat, n: nat): (v: nat)
    requires off + n <= RECORD_SIZE
    ensures v < Pow256(n)
  {
    LEBound(raw[off..off + n]);
    LE(raw[off..off + n])
  }

  /** The values of all the fixed fields of a USN_RECORD_V2. */
  datatype Header = Header(
    recordLength: u32,
    majorVersion: u16,
    minorVersion: u16,
    fileReferenceNumber: u64,
    parentFileReferenceNumber: u64,
    usn: i64,
    timeStamp: i64,
    reason: u32,
    sourceInfo: u32,
    securityId: u32,
    fileAttributes: u32,
    fileNameLength: u16,
    fileNameOffset: u16)

  /** The FIXED_SIZE bytes that hold the fields of r, at the offsets above. */
  function EncodeHeader(r: Header): (h: seq<u8>)
    ensures |h| == FIXED_SIZE
  {
    EncodeLead(r) + EncodeIdentity(r) + EncodeAttributes(r)
  }

  /** Bytes 0..8: RecordLength and the version numbers. */
  function EncodeLead(r: Header): (h: seq<u8>)
    ensures |h| == 8
  {
    Pow256Widths();
    ToLE(r.recordLength, 4) + ToLE(r.majorVersion, 2) + ToLE(r.minorVersion, 2)
  }

  /** Bytes 8..40: the two file references, the USN and the time stamp. */
  function EncodeIdentity(r: Header): (h: seq<u8>)
    ensures |h| == 32
  {
    Pow256Widths();
    ToLE(r.fileReferenceNumber, 8) + ToLE(r.parentFileReferenceNumber, 8)
    + ToLE(AsUnsigned(r.usn), 8) + ToLE(AsUnsigned(r.timeStamp), 8)
  }

  /** Bytes 40..60: the reason, source, security and attribute words and the name's place. */
  function EncodeAttributes(r: Header): (h: seq<u8>)
    ensures |h| == 20
  {
    Pow256Widths();
    ToLE(r.reason, 4) + ToLE(r.sourceInfo, 4) + ToLE(r.securityId, 4) + ToLE(r.fileAttributes, 4)
    + ToLE(r.fileNameLength, 2) + ToLE(r.fileNameOffset, 2)
  }

  /** The fields held by the bytes of a cloned structure, at the offsets above. */
  function DecodeHeader(h: Raw): Header
  {
    Header(
      ReadU32(h, 0), ReadU16(h, 4), ReadU16(h, 6),
      ReadU64(h, 8), ReadU64(h, 16),
      AsSigned(ReadU64(h, 24)), AsSigned(ReadU64(h, 32)),
      ReadU32(h, 40), ReadU32(h, 44), ReadU32(h, 48), ReadU32(h, 52),
      ReadU16(h, 56), ReadU16(h, 58))
  }

  /**
   * The record that starts at byte `off` of `buf`: the bytes that
   * `(*usn_record).clone()` copies when `usn_record` points there.
   */
  function DecodeRecord(buf: seq<u8>, off: nat): Record
    requires off + RECORD_SIZE <= |buf|
  {
    Record(buf[off..off + RECORD_SIZE])
  }

  /**
   * The two fields the walk reads (RecordLength, ParentFileReferenceNumber)
   * and FileReferenceNumber are the little-endian values at offsets 0, 16
   * and 8 of the record in the buffer.
   */
  lemma DecodeRecordFields(buf: seq<u8>, off: nat)
    requires off + RECORD_SIZE <= |buf|
    ensures DecodeRecord(buf, off).RecordLength() == ReadU32(buf, off)
    ensures DecodeRecord(buf, off).FileReferenceNumber() == ReadU64(buf, off + 8)
    ensures DecodeRecord(buf, off).ParentFileReferenceNumber() == ReadU64(buf, off + 16)
  {
    var raw := buf[off..off + RECORD_SIZE];
    SliceOfSlice(buf, off, off + RECORD_SIZE, 0, 4);
    SliceOfSlice(buf, off, off + RECORD_SIZE, 8, 16);
    SliceOfSlice(buf, off, off + RECORD_SIZE, 16, 24);
    ReadU32IsLE(buf, off);
    ReadU64IsLE(buf, off + 8);
    ReadU64IsLE(buf, off + 16);
  }

  /** The header of a stored record agrees with its field accessors. */
  lemma HeaderOfRecord(r: Record)
    ensures DecodeHeader(r.raw).recordLength == r.RecordLength()
    ensures DecodeHeader(r.raw).fileReferenceNumber == r.FileReferenceNumber()
    ensures DecodeHeader(r.raw).parentFileReferenceNumber == r.ParentFileReferenceNumber()
  {
    DecodeRecordFields(r.raw, 0);
    assert r.raw[0..RECORD_SIZE] == r.raw;
  }

  /** Decoding the bytes of an encoded header gives the fields back. */
  lemma DecodeEncodeHeader(r: Header, h: Raw)
    requires h[..FIXED_SIZE] == EncodeHeader(r)
    ensures DecodeHeader(h) == r
  {
    assert h[0..FIXED_SIZE] == h[..FIXED_SIZE];
    Peel(h, 0, EncodeLead(r) + EncodeIdentity(r), EncodeAttributes(r));
    Peel(h, 0, EncodeLead(r), EncodeIdentity(r));
    DecodeLead(r, h);
    DecodeIdentity(r, h);
    DecodeAttributes(r, h);
  }

  lemma DecodeLead(r: Header, h: Raw)
    requires h[0..8] == EncodeLead(r)
    ensures ReadU32(h, 0) == r.recordLength
    ensures ReadU16(h, 4) == r.majorVersion && ReadU16(h, 6) == r.minorVersion
  {
    Pow256Widths();
    var f1, f2, f3 := ToLE(r.recordLength, 4), ToLE(r.majorVersion, 2), ToLE(r.minorVersion, 2);
    Peel(h, 0, f1 + f2, f3);
    Peel(h, 0, f1, f2);
    ReadU32OfToLE(h, 0, r.recordLength);
    ReadU16OfToLE(h, 4, r.majorVersion);
    ReadU16OfToLE(h, 6, r.minorVersion);
  }

  lemma DecodeIdentity(r: Header, h: Raw)
    requires h[8..40] == EncodeIdentity(r)
    ensures ReadU64(h, 8) == r.fileReferenceNumber
    ensures ReadU64(h, 16) == r.parentFileReferenceNumber
    ensures AsSigned(ReadU64(h, 24)) == r.usn && AsSigned(ReadU64(h, 32)) == r.timeStamp
  {
    Pow256Widths();
    var f1, f2 := ToLE(r.fileReferenceNumber, 8), ToLE(r.parentFileReferenceNumber, 8);
    var f3, f4 := ToLE(AsUnsigned(r.usn), 8), ToLE(AsUnsigned(r.timeStamp), 8);
    Peel(h, 8, f1 + f2 + f3, f4);
    Peel(h, 8, f1 + f2, f3);
    Peel(h, 8, f1, f2);
    ReadU64OfToLE(h, 8, r.fileReferenceNumber);
    ReadU64OfToLE(h, 16, r.parentFileReferenceNumber);
    ReadU64OfToLE(h, 24, AsUnsigned(r.usn));
    ReadU64OfToLE(h, 32, AsUnsigned(r.timeStamp));
  }

  lemma DecodeAttributes(r: Header, h: Raw)
    requires h[40..60] == EncodeAttributes(r)
    ensures ReadU32(h, 40) == r.reason && ReadU32(h, 44) == r.sourceInfo
    ensures ReadU32(h, 48) == r.securityId && ReadU32(h, 52) == r.fileAttributes
    ensures ReadU16(h, 56) == r.fileNameLength && ReadU16(h, 58) == r.fileNameOffset
  {
    Pow256Widths();
    var f1, f2, f3 := ToLE(r.reason, 4), ToLE(r.sourceInfo, 4), ToLE(r.securityId, 4);
    var f4, f5, f6 := ToLE(r.fileAttributes, 4), ToLE(r.fileNameLength, 2), ToLE(r.fileNameOffset, 2);
    Peel(h, 40, f1 + f2 + f3 + f4 + f5, f6);
    Peel(h, 40, f1 + f2 + f3 + f4, f5);
    Peel(h, 40, f1 + f2 + f3, f4);
    Peel(h, 40, f1 + f2, f3);
    Peel(h, 40, f1, f2);
    ReadU32OfToLE(h, 40, r.reason);
    ReadU32OfToLE(h, 44, r.sourceInfo);
    ReadU32OfToLE(h, 48, r.securityId);
    ReadU32OfToLE(h, 52, r.fileAttributes);
    ReadU16OfToLE(h, 56, r.fileNameLength);
    ReadU16OfToLE(h, 58, r.fileNameOffset);
  }

  /** Re-encoding the fields read from a structure reproduces every byte of its fixed part. */
  lemma EncodeDecodeHeader(h: Raw)
    ensures EncodeHeader(DecodeHeader(h)) == h[..FIXED_SIZE]
  {
    var r := DecodeHeader(h);
    EncodeLeadOfRead(h);
    EncodeIdentityOfRead(h);
    EncodeAttributesOfRead(h);
    Glue(h, 0, 8, 40);
    Glue(h, 0, 40, 60);
    assert h[0..60] == h[..FIXED_SIZE];
  }

  lemma EncodeLeadOfRead(h: Raw)
    ensures EncodeLead(DecodeHeader(h)) == h[0..8]
  {
    ToLEOfReadU32(h, 0);
    ToLEOfReadU16(h, 4);
    ToLEOfReadU16(h, 6);
    Glue(h, 0, 4, 6);
    Glue(h, 0, 6, 8);
  }

  lemma EncodeIdentityOfRead(h: Raw)
    ensures EncodeIdentity(DecodeHeader(h)) == h[8..40]
  {
    ToLEOfReadU64(h, 8);
    ToLEOfReadU64(h, 16);
    ToLEOfReadU64(h, 24);
    ToLEOfReadU64(h, 32);
    Glue(h, 8, 16, 24);
    Glue(h, 8, 24, 32);
    Glue(h, 8, 32, 40);
  }

  lemma EncodeAttributesOfRead(h: Raw)
    ensures EncodeAttributes(DecodeHeader(h)) == h[40..60]
  {
    ToLEOfReadU32(h, 40);
    ToLEOfReadU32(h, 44);
    ToLEOfReadU32(h, 48);
    ToLEOfReadU32(h, 52);
    ToLEOfReadU16(h, 56);
    ToLEOfReadU16(h, 58);
    Glue(h, 40, 44, 48);
    Glue(h, 40, 48, 52);
    Glue(h, 40, 52, 56);
    Glue(h, 40, 56, 58);
    Glue(h, 40, 58, 60);
  }
}
