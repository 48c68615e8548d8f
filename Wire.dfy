/**
 * The duplex channel every session runs over, and the values it carries.
 *
 * A message is a marker string, a structured (JSON-like) value or a binary
 * buffer.  The channel is an inbound FIFO queue plus a trace that records,
 * in order, every message sent and every message received, so that the
 * relative order of sends and receives is observable.
 */
module Wire {

  /** A message on the channel: the JSON-like values plus raw binary buffers. */
  datatype Msg =
    | Null
    | Bool(b: bool)
    | Num(n: int)
    | Str(s: string)
    | Arr(items: seq<Msg>)
    | Obj(fields: map<string, Msg>)
    | Bin(bytes: seq<bv8>)

  /** One observable channel action. */
  datatype Event = Sent(m: Msg) | Received(m: Msg)

  /** The failures a session can raise; the source throws an Error for each. */
  datatype Error =
    | ChannelClosed      // receive on a closed (or exhausted) channel
    | BadMagic           // a marker other than the expected one
    | InvalidHello       // hello is not an object with a numeric version
    | VersionMismatch
    | InvalidNonce       // nonce is not a 64-byte binary buffer
    | InvalidName        // remote name missing, not a string or not valid
    | InvalidAuthParams  // challenge reply malformed
    | AuthFailed         // signature mismatch
    | NotAuthenticated   // transfer step before the authentication step
    | BadChunkType       // a chunk that is not a binary buffer
    | ChunkSizeMismatch  // more bytes than the header announced
    | BadHeaders         // header list is not a list of {publicName, size}
    | EncodeFailed       // `btoa` refused a character above U+00FF
    | DecodeFailed       // bootstrap token could not be decoded
    | InvalidNameSet     // a state manager refused a name

  datatype Result<T> = Ok(value: T) | Err(error: Error) {
    predicate IsFailure() { Err? }
    function PropagateFailure<U>(): Result<U> requires Err? { Err(error) }
    function Extract(): T requires Ok? { value }
  }

  /** What a protocol step does to the channel: its result, the inbound
      messages left unread, and the channel events it produced. */
  datatype Run<T> = Run(result: Result<T>, rest: seq<Msg>, events: seq<Event>)

  /** The property `key` of a received value, as `value.key` reads it. */
  function Field(m: Msg, key: string): (r: Option<Msg>)
    ensures r.Some? <==> m.Obj? && key in m.fields
    ensures r.Some? ==> r.value == m.fields[key]
  {
    if m.Obj? && key in m.fields then Some(m.fields[key]) else None
  }

  datatype Option<T> = None | Some(value: T)

  /** Receiving one message: the head of the queue, or failure once it is empty. */
  function Recv(inb: seq<Msg>): (r: Run<Msg>)
    ensures r.result.Ok? <==> inb != []
    ensures r.result.Ok? ==> r.result.value == inb[0] && r.rest == inb[1..] && r.events == [Received(inb[0])]
    ensures r.result.Err? ==> r.result.error == ChannelClosed && r.rest == inb && r.events == []
  {
    if inb == [] then Run(Err(ChannelClosed), inb, [])
    else Run(Ok(inb[0]), inb[1..], [Received(inb[0])])
  }

  /** Prepends channel events to a run. */
  function Prefix<T>(ev: seq<Event>, r: Run<T>): (q: Run<T>)
    ensures q.result == r.result && q.rest == r.rest
  {
    Run(r.result, r.rest, ev + r.events)
  }

  /** A method call did exactly what `run` (computed from the channel's input
      before the call) describes, and left the channel open or closed as it was. */
  twostate predicate Performed<T>(conn: Conn, new r: Result<T>, new run: Run<T>)
    reads conn
  {
    r == run.result && conn.Input() == run.rest && conn.trace == old(conn.trace) + run.events
    && conn.closed == old(conn.closed)
  }

  /** The messages a run sent, in order. */
  function SentMsgs(ev: seq<Event>): seq<Msg>
  {
    if ev == [] then [] else (if ev[0].Sent? then [ev[0].m] else []) + SentMsgs(ev[1..])
  }

  lemma AppendAssoc<T>(a: seq<T>, b: seq<T>, c: seq<T>)
    ensures (a + b) + c == a + (b + c)
  {
  }

  lemma {:induction false} SentMsgsAppend(a: seq<Event>, b: seq<Event>)
    ensures SentMsgs(a + b) == SentMsgs(a) + SentMsgs(b)
  {
    if a == [] {
      assert a + b == b;
    } else {
      assert (a + b)[1..] == a[1..] + b;
      SentMsgsAppend(a[1..], b);
      AppendAssoc(if a[0].Sent? then [a[0].m] else [], SentMsgs(a[1..]), SentMsgs(b));
    }
  }

  /** Concatenation of a list of byte buffers. */
  function Flatten(chunks: seq<seq<bv8>>): seq<bv8>
  {
    if chunks == [] then [] else chunks[0] + Flatten(chunks[1..])
  }

  lemma {:induction false} FlattenAppend(chunks: seq<seq<bv8>>, c: seq<bv8>)
    ensures Flatten(chunks + [c]) == Flatten(chunks) + c
  {
    if chunks == [] {
      assert chunks + [c] == [c];
    } else {
      assert (chunks + [c])[1..] == chunks[1..] + [c];
      FlattenAppend(chunks[1..], c);
    }
  }

  /** The channel of one session (a peer data connection). */
  class Conn {
    var inbound: seq<Msg>
    var trace: seq<Event>
    var closed: bool

    constructor (inbound: seq<Msg>)
      ensures this.inbound == inbound && trace == [] && !closed
    {
      this.inbound := inbound;
      trace := [];
      closed := false;
    }

    /** What receives will still deliver: nothing once the channel is closed. */
    function Input(): seq<Msg>
      reads this
    {
      if closed then [] else inbound
    }

    method Send(m: Msg)
      modifies this
      ensures trace == old(trace) + [Sent(m)]
      ensures inbound == old(inbound) && closed == old(closed)
    {
      trace := trace + [Sent(m)];
    }

    method Receive() returns (r: Result<Msg>)
      modifies this
      ensures var run := Recv(old(Input()));
              r == run.result && Input() == run.rest && trace == old(trace) + run.events
      ensures closed == old(closed)
      ensures closed ==> inbound == old(inbound)
    {
      if closed || inbound == [] {
        r := Err(ChannelClosed);
      } else {
        r := Ok(inbound[0]);
        trace := trace + [Received(inbound[0])];
        inbound := inbound[1..];
      }
    }

    method Close()
      modifies this
      ensures closed && inbound == old(inbound) && trace == old(trace)
    {
      closed := true;
    }
  }
}
