/**
 * The `mpsc` channel between the enumerating thread and the resolving
 * thread, as the sequence of messages in the order they were sent. A
 * message is `Some((buf, returned))` for one enumeration buffer, or `None`
 * for the end of the enumeration.
 */
module Channel {
  import opened Bytes
  import opened UsnRecord
  import opened RecordStream

  datatype Option<T> = None | Some(value: T)

  /** One enumeration buffer and the number of its bytes the call filled. */
  datatype Chunk = Chunk(buf: seq<u8>, returned: u32)

  type Message = Option<Chunk>

  /**
   * The resolver can walk every buffer it will read: those before the
   * first `None`. Buffers after it are never looked at.
   */
  predicate Decodable(msgs: seq<Message>)
    decreases |msgs|
  {
    || msgs == []
    || msgs[0].None?
    || (WellFormed(msgs[0].value.buf, msgs[0].value.returned) && Decodable(msgs[1..]))
  }

  /**
   * The messages the resolver takes off the channel: all of them up to and
   * including the first `None`, or all of them when none is `None`.
   */
  function Received(msgs: seq<Message>): (n: nat)
    ensures n <= |msgs|
    ensures msgs != [] ==> 1 <= n
  {
    if msgs == [] then 0
    else if msgs[0].None? then 1
    else 1 + Received(msgs[1..])
  }

  /** The records of the buffers before the first `None`, buffer by buffer, each in buffer order. */
  function Consumed(msgs: seq<Message>): seq<Record>
    requires Decodable(msgs)
    decreases |msgs|
  {
    if msgs == [] || msgs[0].None? then []
    else Records(msgs[0].value.buf, msgs[0].value.returned) + Consumed(msgs[1..])
  }

  /** No message of msgs is the end marker. */
  predicate AllBuffers(msgs: seq<Message>)
  {
    forall i | 0 <= i < |msgs| :: msgs[i].Some?
  }

  /**
   * The count of received messages stops at the first `None` and includes
   * it; without a `None` every message is received.
   */
  lemma {:induction false} ReceivedStopsAtNone(a: seq<Message>, b: seq<Message>)
    requires AllBuffers(a)
    ensures Received(a + [None] + b) == |a| + 1
    ensures Received(a) == |a|
    decreases |a|
  {
    if a != [] {
      assert (a + [None] + b)[1..] == a[1..] + [None] + b;
      ReceivedStopsAtNone(a[1..], b);
    } else {
      assert (a + [None] + b)[0] == None;
    }
  }

  /**
   * Records are consumed buffer by buffer: consuming a run of buffers and
   * then more messages yields the records of the run followed by the rest.
   */
  lemma {:induction false} ConsumedAppend(a: seq<Message>, b: seq<Message>)
    requires AllBuffers(a) && Decodable(a + b)
    ensures Decodable(a) && Decodable(b)
    ensures Consumed(a + b) == Consumed(a) + Consumed(b)
    decreases |a|
  {
    if a == [] {
      assert a + b == b;
    } else {
      assert (a + b)[0] == a[0] && (a + b)[1..] == a[1..] + b;
      ConsumedAppend(a[1..], b);
    }
  }

  /** Nothing after the first `None` reaches the index. */
  lemma IgnoredAfterNone(a: seq<Message>, b: seq<Message>)
    requires AllBuffers(a) && Decodable(a + [None] + b)
    ensures Decodable(a)
    ensures Consumed(a + [None] + b) == Consumed(a)
  {
    assert a + [None] + b == a + ([None] + b);
    ConsumedAppend(a, [None] + b);
  }
}
