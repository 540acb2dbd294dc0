/**
 * `main`: the enumerating thread and the resolving thread joined by the
 * channel. The channel is the sequence of messages the producer sent; the
 * resolver reads it front to back (when the producer fails, it sends no
 * `None` and drops its sender, and the resolver's loop ends when the
 * channel runs dry).
 */
module Pipeline {
  import opened Bytes
  import opened UsnRecord
  import opened RecordStream
  import opened FsIndex
  import opened Channel
  import opened Producer
  import opened Resolver

  /** The buffers the producer sends are those of the calls before the first failure, and the EOF buffer. */
  function SentCount(rs: seq<Response>): (k: nat)
    requires Ends(rs)
    ensures k <= |rs|
  {
    var n := FirstFailure(rs);
    if rs[n].lastError == ERROR_HANDLE_EOF then n + 1 else n
  }

  /** The resolver's walk is well formed on every buffer the producer sends. */
  predicate DecodableResponses(rs: seq<Response>)
    requires Ends(rs)
  {
    forall i | 0 <= i < SentCount(rs) :: WellFormed(rs[i].buf, rs[i].returned)
  }

  /** The records of the buffers of rs, buffer after buffer, each in buffer order. */
  function RecordsOf(rs: seq<Response>): seq<Record>
    requires forall i | 0 <= i < |rs| :: WellFormed(rs[i].buf, rs[i].returned)
  {
    if rs == [] then [] else Records(rs[0].buf, rs[0].returned) + RecordsOf(rs[1..])
  }

  /** The records of every buffer the file system handed to the producer and the producer sent on. */
  function Fetched(rs: seq<Response>): seq<Record>
    requires Ends(rs) && DecodableResponses(rs)
  {
    RecordsOf(rs[..SentCount(rs)])
  }

  /**
   * A run of buffer messages made from rs, possibly closed by one `None`,
   * is walked, received and consumed in full, and carries the records of rs.
   */
  lemma {:induction false} ConsumedChunks(rs: seq<Response>, sent: seq<Message>)
    requires forall i | 0 <= i < |rs| :: WellFormed(rs[i].buf, rs[i].returned)
    requires |sent| == |rs| || (|sent| == |rs| + 1 && sent[|rs|] == None)
    requires forall i | 0 <= i < |rs| :: sent[i] == ChunkOf(rs[i])
    ensures Decodable(sent)
    ensures Received(sent) == |sent|
    ensures Consumed(sent) == RecordsOf(rs)
    decreases |rs|
  {
    if rs != [] {
      ConsumedChunks(rs[1..], sent[1..]);
    }
  }

  /**
   * Whatever the producer sends, the resolver can walk it, takes every
   * message off the channel and files exactly the fetched records.
   */
  lemma SentIsConsumed(rs: seq<Response>, sent: seq<Message>)
    requires Ends(rs) && DecodableResponses(rs) && Sends(rs, sent)
    ensures Decodable(sent)
    ensures Received(sent) == |sent|
    ensures Consumed(sent) == Fetched(rs)
  {
    ConsumedChunks(rs[..SentCount(rs)], sent);
  }

  /**
   * `main`: a fresh `fs_map`, the producer's messages, then the resolver
   * over them. After a successful start every fetched record sits in the
   * index under its parent, in fetch order, and `times` counts every
   * message sent; when opening the volume or querying the journal fails,
   * nothing is sent and the index stays empty. `result` is the producer's
   * result, which `main` prints to standard error when it is an `Err`.
   */
  method Run(volume: Result<()>, journal: Result<JournalData>, responses: seq<Response>, closed: Result<()>)
    returns (fsMap: FsMap, times: nat, idx: nat, result: Result<()>)
    requires volume.Ok? && journal.Ok? ==> Ends(responses) && DecodableResponses(responses)
    ensures fresh(fsMap)
    ensures volume.Err? ==> result == Err(volume.code)
    ensures volume.Ok? && journal.Err? ==> result == Err(journal.code)
    ensures !(volume.Ok? && journal.Ok?) ==> fsMap.children == map[] && times == 0 && idx == 0
    ensures volume.Ok? && journal.Ok? ==>
              var last := responses[FirstFailure(responses)];
              && fsMap.children == InsertAll(map[], Fetched(responses))
              && idx == |Fetched(responses)| == Total(fsMap.children)
              && times == SentCount(responses) + (if last.lastError == ERROR_HANDLE_EOF then 1 else 0)
              && result == (if last.lastError == ERROR_HANDLE_EOF then closed else Err(last.lastError))
  {
    fsMap := new FsMap();
    var sent, requests;
    sent, requests, result := Produce(volume, journal, responses, closed);
    if volume.Ok? && journal.Ok? {
      SentIsConsumed(responses, sent);
    }
    assert Total(map[]) == 0;
    times, idx := Resolve(sent, fsMap);
  }
}
