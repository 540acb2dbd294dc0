/**
 * The resolving thread, `usn_record_resolver`: it takes messages off the
 * channel until the first `None` (or until the channel runs dry), walks the
 * records of every buffer from just past the continuation token to
 * `returned`, and files each record under its parent in `fs_map`. It
 * counts the messages it received (`times`) and the records it filed
 * (`idx`).
 */
module Resolver {
  import opened Bytes
  import opened UsnRecord
  import opened RecordStream
  import opened FsIndex
  import opened Channel

  /**
   * `usn_record_resolver`: every record of the buffers before the first
   * `None` is appended to its parent's list, buffer by buffer and each
   * buffer in order; `times` counts the received messages, the `None`
   * included, and `idx` the filed records, by which the index grows.
   */
  method Resolve(messages: seq<Message>, fsMap: FsMap) returns (times: nat, idx: nat)
    requires Decodable(messages)
    modifies fsMap
    ensures times == Received(messages)
    ensures idx == |Consumed(messages)|
    ensures fsMap.children == InsertAll(old(fsMap.children), Consumed(messages))
    ensures Total(fsMap.children) == Total(old(fsMap.children)) + idx
  {
    times, idx := 0, 0;
    ghost var start := fsMap.children;
    var pending := messages;
    while pending != []
      invariant Decodable(pending)
      invariant Received(messages) == times + Received(pending)
      invariant |Consumed(messages)| == idx + |Consumed(pending)|
      invariant InsertAll(start, Consumed(messages)) == InsertAll(fsMap.children, Consumed(pending))
      decreases |pending|
    {
      var message, later := pending[0], pending[1..];
      times := times + 1;
      match message
      case None =>
        break;
      case Some(chunk) =>
        ghost var before := fsMap.children;
        idx := FileRecords(chunk.buf, chunk.returned, fsMap, idx);
        InsertAllAppend(before, Records(chunk.buf, chunk.returned), Consumed(later));
        pending := later;
    }
    TotalInsertAll(start, Consumed(messages));
  }

  /**
   * The inner loop of `usn_record_resolver` over one buffer: from just past
   * the continuation token, file the record at the cursor under its parent
   * and advance by its RecordLength, while the cursor is below `returned`.
   */
  method FileRecords(buf: seq<u8>, returned: u32, fsMap: FsMap, idx0: nat) returns (idx: nat)
    requires WellFormed(buf, returned)
    modifies fsMap
    ensures idx == idx0 + |Records(buf, returned)|
    ensures fsMap.children == InsertAll(old(fsMap.children), Records(buf, returned))
  {
    idx := idx0;
    ghost var before := fsMap.children;
    ghost var all := Records(buf, returned);
    ghost var rest := all;
    var off := TOKEN_SIZE;
    while off < returned
      invariant WellFormedFrom(buf, returned, off)
      invariant rest == RecordsFrom(buf, returned, off)
      invariant InsertAll(before, all) == InsertAll(fsMap.children, rest)
      invariant idx0 + |all| == idx + |rest|
      decreases returned - off
    {
      var r := DecodeRecord(buf, off);
      var next := Advance(buf, returned, off);
      fsMap.Push(r);
      off := next;
      rest := rest[1..];
      idx := idx + 1;
    }
  }
}
