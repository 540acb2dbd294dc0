/**
 * The enumerating thread, `usn_record_iterator`: it opens the volume,
 * queries its change journal for MaxUsn, then asks `FSCTL_ENUM_USN_DATA`
 * for buffer after buffer, moving its cursor on to the continuation token
 * of each buffer, and sends every buffer down the channel. The Win32 calls
 * are not modelled; what they return is given to the producer: whether the
 * volume opened, the journal query's result, the successive enumeration
 * responses and the result of closing the handle.
 */
module Producer {
  import opened Bytes
  import opened RecordStream
  import opened Channel

  /** `windows::core::Result`: a value, or the error code of the failed call. */
  datatype Result<T> = Ok(value: T) | Err(code: int)

  /** `ERROR_HANDLE_EOF`: the enumeration has passed the last file. */
  const ERROR_HANDLE_EOF: u32 := 38

  /** The field of `USN_JOURNAL_DATA_V0` the enumeration reads: the journal's largest USN. */
  datatype JournalData = JournalData(maxUsn: i64)

  /** `MFT_ENUM_DATA_V0`: the request cursor of one enumeration call. */
  datatype MftEnumData = MftEnumData(startFileReferenceNumber: u64, lowUsn: i64, highUsn: i64)

  /**
   * What one `FSCTL_ENUM_USN_DATA` call hands back: on success the buffer
   * and the count of bytes written to it; on failure the code
   * `GetLastError` reports, with the buffer and count as the call left them.
   */
  datatype Response =
    | Filled(buf: Buffer, returned: u32)
    | Failed(lastError: u32, buf: Buffer, returned: u32)

  /** Some call eventually fails (at the latest with ERROR_HANDLE_EOF), which ends the loop. */
  predicate Ends(rs: seq<Response>)
  {
    rs != [] && (rs[0].Failed? || Ends(rs[1..]))
  }

  /** The index of the first failing call. */
  function FirstFailure(rs: seq<Response>): (n: nat)
    requires Ends(rs)
    ensures n < |rs| && rs[n].Failed?
    ensures forall j | 0 <= j < n :: rs[j].Filled?
  {
    if rs[0].Failed? then 0 else 1 + FirstFailure(rs[1..])
  }

  /** The message sent for the buffer of a response. */
  function ChunkOf(r: Response): Message
  {
    Some(Chunk(r.buf, r.returned))
  }

  /**
   * The messages sent for the calls answered by rs. The buffer of every
   * call before the first failure is sent, in call order. After
   * ERROR_HANDLE_EOF the final buffer and then exactly one `None` are sent;
   * after any other failure nothing more, and in particular no `None`.
   */
  predicate Sends(rs: seq<Response>, sent: seq<Message>)
    requires Ends(rs)
  {
    var n := FirstFailure(rs);
    var eof := rs[n].lastError == ERROR_HANDLE_EOF;
    && |sent| == (if eof then n + 2 else n)
    && (forall i | 0 <= i < n :: sent[i] == ChunkOf(rs[i]))
    && (eof ==> sent[n] == ChunkOf(rs[n]) && sent[n + 1] == None)
  }

  /**
   * The cursors of the calls answered by rs, one per call up to the failing
   * one: the first starts at file reference 0 and covers USNs 0 to MaxUsn;
   * each next one keeps LowUsn and HighUsn and starts at the continuation
   * token of the buffer just returned.
   */
  predicate Requests(journal: JournalData, rs: seq<Response>, requests: seq<MftEnumData>)
    requires Ends(rs)
  {
    && |requests| == FirstFailure(rs) + 1
    && requests[0] == MftEnumData(0, 0, journal.maxUsn)
    && forall i | 0 <= i < FirstFailure(rs) ::
         requests[i + 1] == MftEnumData(Token(rs[i].buf), 0, journal.maxUsn)
  }

  /**
   * `usn_record_iterator`: returns the messages sent on the channel, the
   * cursors of the enumeration calls in the order they were made, and the
   * function's result: that of closing the handle after EOF, and the
   * failing call's error otherwise. Opening the volume or querying the
   * journal can fail before anything is sent.
   */
  method Produce(volume: Result<()>, journal: Result<JournalData>, responses: seq<Response>, closed: Result<()>)
    returns (sent: seq<Message>, requests: seq<MftEnumData>, result: Result<()>)
    requires volume.Ok? && journal.Ok? ==> Ends(responses)
    ensures volume.Err? ==> sent == [] && requests == [] && result == Err(volume.code)
    ensures volume.Ok? && journal.Err? ==> sent == [] && requests == [] && result == Err(journal.code)
    ensures volume.Ok? && journal.Ok? ==>
              var last := responses[FirstFailure(responses)];
              && Sends(responses, sent)
              && Requests(journal.value, responses, requests)
              && result == (if last.lastError == ERROR_HANDLE_EOF then closed else Err(last.lastError))
  {
    sent, requests := [], [];
    if volume.Err? {
      return sent, requests, Err(volume.code);
    }
    if journal.Err? {
      return sent, requests, Err(journal.code);
    }
    var maxUsn := journal.value.maxUsn;
    var cursor := MftEnumData(0, 0, maxUsn);
    var n := FirstFailure(responses);
    var k := 0;
    while true
      invariant 0 <= k <= n
      invariant |sent| == k && forall i | 0 <= i < k :: sent[i] == ChunkOf(responses[i])
      invariant |requests| == k && (k > 0 ==> requests[0] == MftEnumData(0, 0, maxUsn))
      invariant forall i | 0 <= i < k - 1 :: requests[i + 1] == MftEnumData(Token(responses[i].buf), 0, maxUsn)
      invariant cursor == if k == 0 then MftEnumData(0, 0, maxUsn) else MftEnumData(Token(responses[k - 1].buf), 0, maxUsn)
      decreases n - k
    {
      var response := responses[k];
      requests := requests + [cursor];
      if response.Failed? {
        if response.lastError != ERROR_HANDLE_EOF {
          return sent, requests, Err(response.lastError);
        }
        sent := sent + [ChunkOf(response)];
        break;
      }
      cursor := cursor.(startFileReferenceNumber := Token(response.buf));
      sent := sent + [ChunkOf(response)];
      k := k + 1;
    }
    sent := sent + [None];
    result := closed;
  }
}
