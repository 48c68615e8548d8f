/**
 * The sender adapter: one `handle` invocation drives a connection through
 * authentication, the header list and then every entry's bytes in 32 KiB
 * stop-and-wait chunks, as the stages read from the config bus ask.
 *
 * `Session` is a value-level snapshot of everything `handle` works on (the
 * channel, the config reader, the published state and the flags shared by
 * its closures); the functions `DoAuthSpec`, `DoSendSpec`, `DispatchSpec`
 * and `HandleSpec` say what each step does to it, and the methods of
 * `SenderSession` are proved to do exactly that.
 */
module Sender {
  import opened Wire
  import opened Defines
  import opened Handshake

  datatype Status = CONNECTED | AUTHENTICATED_HEADERS_SENT | SENDING_FILES | DONE

  /** The numeric value of the status enum. */
  function Code(s: Status): (c: int)
    ensures 1 <= c <= 4
  {
    match s
    case CONNECTED => 1
    case AUTHENTICATED_HEADERS_SENT => 2
    case SENDING_FILES => 3
    case DONE => 4
  }

  datatype Stage = WAIT | AUTHENTICATE_SEND_HEADERS | SEND_ENTRIES | CLOSE

  datatype Config = Config(stage: Stage)

  /** The published connection state, without the progress fractions. */
  datatype SenderState = SenderState(status: Status, authResult: Option<AuthResult>, doneCount: int, currentEntryIndex: int)

  datatype InitData = InitData(auth: Auth, entries: seq<TransferEntry>, untypedHeader: Option<Msg>)

  function ModifyConfigOnRemove(config: Config): (r: Config)
    ensures r.stage == CLOSE
  {
    config.(stage := CLOSE)
  }

  function MakeInitialConfig(): (r: Config)
    ensures r.stage == WAIT
  {
    Config(WAIT)
  }

  function MakeInitialState(): (r: SenderState)
    ensures r.status == CONNECTED && r.authResult == None
    ensures r.doneCount == 0 && r.currentEntryIndex == -1
  {
    SenderState(CONNECTED, None, 0, -1)
  }

  const CHUNK_SIZE: nat := 32 * 1024

  // ------------------------------------------------------------ sessions

  /** What `handle` works on: the channel (`input` is what receives will still
      deliver), the configs the reader will deliver, the published states
      (oldest first, the registry's initial state included), the closure
      flags and the byte counter of `doSend`. */
  datatype Session = Session(
    input: seq<Msg>, trace: seq<Event>, closed: bool,
    configs: seq<Config>, readerClosed: bool,
    state: SenderState, published: seq<SenderState>,
    isAuthenticated: bool, isSentFiles: bool, sentSize: int)

  /** A fresh `handle` invocation. */
  function Start(inbound: seq<Msg>, configs: seq<Config>): (s: Session)
    ensures s.state == MakeInitialState() && s.published == [s.state]
  {
    Session(inbound, [], false, configs, false, MakeInitialState(), [MakeInitialState()], false, false, 0)
  }

  /** A channel step performed on the session. */
  function Apply<T>(s: Session, run: Run<T>): Session
  {
    s.(input := run.rest, trace := s.trace + run.events)
  }

  function Emit(s: Session, m: Msg): Session
  {
    s.(trace := s.trace + [Sent(m)])
  }

  /** `updateState`: the new state becomes current and is published. */
  function Publish(s: Session, st: SenderState): Session
  {
    s.(state := st, published := s.published + [st])
  }

  // ------------------------------------------------------- specifications

  /** `doAuth`. */
  function DoAuthSpec(s: Session, init: InitData, crypto: Crypto): (q: (Session, Result<()>))
    ensures q.0.configs == s.configs && q.0.isAuthenticated && q.0.isSentFiles == s.isSentFiles
    ensures q.0.closed == s.closed && q.0.readerClosed == s.readerClosed && q.0.sentSize == s.sentSize
    ensures s.published <= q.0.published
  {
    var s1 := s.(isAuthenticated := true);
    var hello := ExchangeHelloRun(s1.input);
    var s2 := Apply(s1, hello);
    if hello.result.Err? then (s2, Err(hello.result.error))
    else
      var auth := AuthRun(s2.input, init.auth, crypto.hmac, Nonce(crypto));
      var s3 := Apply(s2, auth);
      if auth.result.Err? then (s3, Err(auth.result.error))
      else
        var s4 := Emit(Emit(s3, EncodeHeaders(HeadersOf(init.entries))), OrEmpty(init.untypedHeader));
        (Publish(s4, s4.state.(status := AUTHENTICATED_HEADERS_SENT, authResult := Some(auth.result.value))), Ok(()))
  }

  /** `file.slice(ptr, ptr + CHUNK_SIZE)`. */
  function ChunkAt(file: seq<bv8>, ptr: nat): (c: seq<bv8>)
    requires ptr <= |file|
    ensures |c| <= CHUNK_SIZE && (|c| == 0 <==> ptr == |file|)
    ensures ptr + |c| <= |file| && c == file[ptr..ptr + |c|]
  {
    file[ptr..if ptr + CHUNK_SIZE < |file| then ptr + CHUNK_SIZE else |file|]
  }

  /** The chunk loop of one entry, from offset `ptr`. */
  function SendChunksSpec(s: Session, file: seq<bv8>, ptr: nat): (q: (Session, Result<()>))
    requires ptr <= |file|
    ensures q.0.configs == s.configs && q.0.closed == s.closed && q.0.readerClosed == s.readerClosed
    ensures q.0.state == s.state && q.0.published == s.published
    ensures q.0.isAuthenticated == s.isAuthenticated && q.0.isSentFiles == s.isSentFiles
    decreases |file| - ptr
  {
    var chunk := ChunkAt(file, ptr);
    if |chunk| == 0 then (s, Ok(()))
    else
      var s1 := Emit(s.(sentSize := s.sentSize + |chunk|), Bin(chunk));
      var ack := ReceiveMagicRun(s1.input, MAGIC_DID_RECEIVE);
      var s2 := Apply(s1, ack);
      if ack.result.Err? then (s2, Err(ack.result.error))
      else SendChunksSpec(s2, file, ptr + |chunk|)
  }

  /** The bookkeeping after an entry is sent. */
  function EntryDone(st: SenderState, n: int): SenderState
  {
    if st.currentEntryIndex + 1 >= n then st.(currentEntryIndex := -1)
    else st.(currentEntryIndex := st.currentEntryIndex + 1, doneCount := st.doneCount + 1)
  }

  /** The loop over the entries, from entry `i`. */
  function SendEntriesSpec(s: Session, entries: seq<TransferEntry>, i: nat): (q: (Session, Result<()>))
    requires i <= |entries|
    ensures q.0.configs == s.configs && q.0.closed == s.closed && q.0.readerClosed == s.readerClosed
    ensures s.published <= q.0.published
    decreases |entries| - i
  {
    if i == |entries| then (s, Ok(()))
    else
      var sent := SendChunksSpec(Emit(s, OrEmpty(entries[i].untypedHeader)), entries[i].file, 0);
      if sent.1.Err? then sent
      else SendEntriesSpec(Publish(sent.0, EntryDone(sent.0.state, |entries|)), entries, i + 1)
  }

  /** `doSend` up to the accept marker: the flag set and SENDING_FILES published. */
  function Sending(s: Session): (r: Session)
    ensures r.input == s.input && r.trace == s.trace && r.configs == s.configs && r.isAuthenticated == s.isAuthenticated
    ensures r.closed == s.closed && r.readerClosed == s.readerClosed && r.isSentFiles
    ensures r.state == s.state.(status := SENDING_FILES) && r.published == s.published + [r.state]
  {
    Publish(s.(isSentFiles := true), s.state.(status := SENDING_FILES))
  }

  /** The end of `doSend`: the done exchange (its errors ignored), then DONE published. */
  function Finish(s: Session): (r: Session)
    ensures r.trace == s.trace + ExchangeDoneRun(s.input).events && r.input == ExchangeDoneRun(s.input).rest
    ensures r.configs == s.configs && r.closed == s.closed && r.readerClosed == s.readerClosed
    ensures r.sentSize == s.sentSize
    ensures r.state == s.state.(status := DONE) && r.published == s.published + [r.state]
  {
    var s3 := Apply(s, ExchangeDoneRun(s.input));
    Publish(s3, s3.state.(status := DONE))
  }

  /** `doSend`. */
  function DoSendSpec(s: Session, init: InitData): (q: (Session, Result<()>))
    ensures q.0.configs == s.configs && q.0.closed == s.closed && q.0.readerClosed == s.readerClosed
    ensures s.published <= q.0.published
  {
    if !s.isAuthenticated then (s, Err(NotAuthenticated))
    else
      var s1 := Sending(s);
      var accept := ReceiveMagicRun(s1.input, MAGIC_ACCEPT_FILES);
      var s2 := Apply(s1, accept);
      if accept.result.Err? then (s2, Err(accept.result.error))
      else
        var sent := SendEntriesSpec(s2.(sentSize := 0), init.entries, 0);
        if sent.1.Err? then sent else (Finish(sent.0), Ok(()))
  }

  /** The `for (;;)` loop of `handle`: reads configs until one makes it exit.
      Running out of configs (the reader closed) also ends the loop. */
  function DispatchSpec(s: Session, init: InitData, crypto: Crypto): (q: (Session, Result<()>))
    ensures s.published <= q.0.published
    decreases |s.configs|
  {
    if s.configs == [] then (s, Ok(()))
    else
      var config := s.configs[0];
      var s1 := s.(configs := s.configs[1..]);
      match config.stage
      case WAIT => DispatchSpec(s1, init, crypto)
      case AUTHENTICATE_SEND_HEADERS =>
        if s1.isAuthenticated then DispatchSpec(s1, init, crypto)
        else
          var auth := DoAuthSpec(s1, init, crypto);
          if auth.1.Err? then auth else DispatchSpec(auth.0, init, crypto)
      case SEND_ENTRIES =>
        if s1.isSentFiles then DispatchSpec(s1, init, crypto)
        else
          var auth := if s1.isAuthenticated then (s1, Ok(())) else DoAuthSpec(s1, init, crypto);
          if auth.1.Err? then auth else DoSendSpec(auth.0, init)
      case CLOSE => (s1, Ok(()))
  }

  /** `handle`: the loop, DONE published on any error, then both the reader
      and the connection closed. */
  function HandleSpec(s: Session, init: InitData, crypto: Crypto): (q: (Session, Result<()>))
  {
    var loop := DispatchSpec(s, init, crypto);
    var s1 := if loop.1.Err? then Publish(loop.0, loop.0.state.(status := DONE)) else loop.0;
    (s1.(readerClosed := true, closed := true, input := []), loop.1)
  }

  // ---------------------------------------------------------- properties

  /** The chunks the loop cuts from offset `ptr` on. */
  function Chunks(file: seq<bv8>, ptr: nat): seq<seq<bv8>>
    requires ptr <= |file|
    decreases |file| - ptr
  {
    var c := ChunkAt(file, ptr);
    if |c| == 0 then [] else [c] + Chunks(file, ptr + |c|)
  }

  /** Every chunk holds between 1 and 32768 bytes, and together, in order,
      they are exactly the rest of the file. */
  lemma {:induction false} ChunksCover(file: seq<bv8>, ptr: nat)
    requires ptr <= |file|
    ensures Flatten(Chunks(file, ptr)) == file[ptr..]
    ensures forall k :: 0 <= k < |Chunks(file, ptr)| ==> 0 < |Chunks(file, ptr)[k]| <= CHUNK_SIZE
    decreases |file| - ptr
  {
    var c := ChunkAt(file, ptr);
    if |c| > 0 {
      var cs := Chunks(file, ptr);
      ChunksCover(file, ptr + |c|);
      assert cs[1..] == Chunks(file, ptr + |c|);
      assert file[ptr..] == c + file[ptr + |c|..];
      forall k | 0 <= k < |cs| ensures 0 < |cs[k]| <= CHUNK_SIZE {
        if k > 0 { assert cs[k] == Chunks(file, ptr + |c|)[k - 1]; }
      }
    }
  }

  /** Stop-and-wait: each chunk is sent and then its acknowledgement received. */
  function StopAndWait(cs: seq<seq<bv8>>): seq<Event>
  {
    if cs == [] then [] else [Sent(Bin(cs[0])), Received(Str(MAGIC_DID_RECEIVE))] + StopAndWait(cs[1..])
  }

  /** The session after one acknowledged chunk. */
  function AfterChunk(s: Session, c: seq<bv8>): Session
    requires s.input != []
  {
    s.(sentSize := s.sentSize + |c|, trace := s.trace + [Sent(Bin(c)), Received(Str(MAGIC_DID_RECEIVE))],
       input := s.input[1..])
  }

  /** One round of the chunk loop: a non-empty chunk, then either a failed
      acknowledgement or the rest of the loop. */
  lemma SendChunksStep(s: Session, file: seq<bv8>, ptr: nat)
    requires ptr < |file|
    ensures var c, q := ChunkAt(file, ptr), SendChunksSpec(s, file, ptr);
      && Chunks(file, ptr) == [c] + Chunks(file, ptr + |c|)
      && (s.input != [] && s.input[0] == Str(MAGIC_DID_RECEIVE) ==> q == SendChunksSpec(AfterChunk(s, c), file, ptr + |c|))
      && (s.input == [] ==> q.1 == Err(ChannelClosed))
      && (s.input != [] && s.input[0] != Str(MAGIC_DID_RECEIVE) ==> q.1 == Err(BadMagic))
  {
    var c := ChunkAt(file, ptr);
    var s1 := Emit(s.(sentSize := s.sentSize + |c|), Bin(c));
    var ack := ReceiveMagicRun(s1.input, MAGIC_DID_RECEIVE);
    assert s1.input == s.input;
    assert SendChunksSpec(s, file, ptr) ==
      if ack.result.Err? then (Apply(s1, ack), Err(ack.result.error))
      else SendChunksSpec(Apply(s1, ack), file, ptr + |c|);
    if s.input != [] && s.input[0] == Str(MAGIC_DID_RECEIVE) {
      assert ack.result.Ok? && ack.rest == s.input[1..] && ack.events == [Received(Str(MAGIC_DID_RECEIVE))];
      assert Apply(s1, ack) == AfterChunk(s, c);
    }
  }

  /** The next `n` inbound messages are all acknowledgements. */
  predicate AcksWaiting(inb: seq<Msg>, n: nat)
  {
    n <= |inb| && forall k :: 0 <= k < n ==> inb[k] == Str(MAGIC_DID_RECEIVE)
  }

  lemma AcksWaitingStep(inb: seq<Msg>, n: nat)
    requires n > 0
    ensures AcksWaiting(inb, n) <==> inb != [] && inb[0] == Str(MAGIC_DID_RECEIVE) && AcksWaiting(inb[1..], n - 1)
  {
    if inb != [] && inb[0] == Str(MAGIC_DID_RECEIVE) && AcksWaiting(inb[1..], n - 1) {
      forall k | 0 <= k < n ensures inb[k] == Str(MAGIC_DID_RECEIVE) {
        if k > 0 { assert inb[k] == inb[1..][k - 1]; }
      }
    }
  }

  /** The chunk loop succeeds exactly when one acknowledgement is waiting per
      chunk, and otherwise fails with a closed channel or a wrong marker. */
  lemma {:induction false} SendChunksSucceedsIff(s: Session, file: seq<bv8>, ptr: nat)
    requires ptr <= |file|
    ensures var q := SendChunksSpec(s, file, ptr);
      && (q.1.Ok? <==> AcksWaiting(s.input, |Chunks(file, ptr)|))
      && (q.1.Err? ==> q.1.error == ChannelClosed || q.1.error == BadMagic)
    decreases |file| - ptr
  {
    if ptr < |file| {
      var c := ChunkAt(file, ptr);
      SendChunksStep(s, file, ptr);
      var n := |Chunks(file, ptr + |c|)|;
      assert |Chunks(file, ptr)| == n + 1;
      AcksWaitingStep(s.input, n + 1);
      var q := SendChunksSpec(s, file, ptr);
      if s.input != [] && s.input[0] == Str(MAGIC_DID_RECEIVE) {
        var s2 := AfterChunk(s, c);
        assert s2.input == s.input[1..];
        var q2 := SendChunksSpec(s2, file, ptr + |c|);
        assert q.1 == q2.1;
        SendChunksSucceedsIff(s2, file, ptr + |c|);
        assert q.1.Ok? <==> AcksWaiting(s2.input, n);
      } else {
        assert q.1.Err? && !AcksWaiting(s.input, n + 1);
      }
    } else {
      assert Chunks(file, ptr) == [];
    }
  }

  /** A successful chunk loop alternates chunk and acknowledgement, consumes
      exactly those acknowledgements and counts every byte of the rest of the file. */
  lemma {:induction false} SendChunksEffect(s: Session, file: seq<bv8>, ptr: nat)
    requires ptr <= |file|
    ensures var cs, q := Chunks(file, ptr), SendChunksSpec(s, file, ptr);
      q.1.Ok? ==> |cs| <= |s.input| && q.0.trace == s.trace + StopAndWait(cs) && q.0.input == s.input[|cs|..]
                  && q.0.sentSize == s.sentSize + |file| - ptr
    decreases |file| - ptr
  {
    if ptr < |file| {
      var c := ChunkAt(file, ptr);
      SendChunksStep(s, file, ptr);
      var q := SendChunksSpec(s, file, ptr);
      if q.1.Ok? {
        assert s.input != [] && s.input[0] == Str(MAGIC_DID_RECEIVE);
        var s2 := AfterChunk(s, c);
        assert q == SendChunksSpec(s2, file, ptr + |c|);
        SendChunksEffect(s2, file, ptr + |c|);
        var cs, rest := Chunks(file, ptr), Chunks(file, ptr + |c|);
        assert cs[1..] == rest;
        assert StopAndWait(cs) == [Sent(Bin(c)), Received(Str(MAGIC_DID_RECEIVE))] + StopAndWait(rest);
        AppendAssoc(s.trace, [Sent(Bin(c)), Received(Str(MAGIC_DID_RECEIVE))], StopAndWait(rest));
        assert s2.input[|rest|..] == s.input[|cs|..];
      }
    }
  }

  /** The sum of the file sizes (0 for no entries). */
  function TotalSize(entries: seq<TransferEntry>): int
  {
    if entries == [] then 0 else |entries[0].file| + TotalSize(entries[1..])
  }

  /** The events of the entry loop from entry `i`: each entry's header, then its chunks. */
  function EntriesEvents(entries: seq<TransferEntry>, i: nat): seq<Event>
    requires i <= |entries|
    decreases |entries| - i
  {
    if i == |entries| then []
    else [Sent(OrEmpty(entries[i].untypedHeader))] + StopAndWait(Chunks(entries[i].file, 0)) + EntriesEvents(entries, i + 1)
  }

  /** The acknowledgements the entry loop from entry `i` consumes: one per chunk. */
  function AckCount(entries: seq<TransferEntry>, i: nat): nat
    requires i <= |entries|
    decreases |entries| - i
  {
    if i == |entries| then 0 else |Chunks(entries[i].file, 0)| + AckCount(entries, i + 1)
  }

  /** The states published after entries `i+1..n`: after j entries, `doneCount`
      is j and `currentEntryIndex` is j-1. */
  function DoneStates(status: Status, auth: Option<AuthResult>, i: nat, n: nat): seq<SenderState>
    decreases n - i
  {
    if i >= n then [] else [SenderState(status, auth, i + 1, i)] + DoneStates(status, auth, i + 1, n)
  }

  /** The session after entry `i` is sent and recorded. */
  function AfterEntry(s: Session, entries: seq<TransferEntry>, i: nat): Session
    requires i < |entries| && |Chunks(entries[i].file, 0)| <= |s.input|
  {
    var e := entries[i];
    var cs := Chunks(e.file, 0);
    var st := s.state.(doneCount := i + 1, currentEntryIndex := i);
    s.(trace := s.trace + ([Sent(OrEmpty(e.untypedHeader))] + StopAndWait(cs)), input := s.input[|cs|..],
       sentSize := s.sentSize + |e.file|, state := st, published := s.published + [st])
  }

  /** One entry of a successful entry loop. */
  lemma SendEntryStep(s: Session, entries: seq<TransferEntry>, i: nat)
    requires i < |entries| && s.state.doneCount == i && s.state.currentEntryIndex == i - 1
    ensures SendEntriesSpec(s, entries, i).1.Ok? ==>
      && |Chunks(entries[i].file, 0)| <= |s.input|
      && SendEntriesSpec(s, entries, i) == SendEntriesSpec(AfterEntry(s, entries, i), entries, i + 1)
  {
    var e := entries[i];
    var s0 := Emit(s, OrEmpty(e.untypedHeader));
    var sent := SendChunksSpec(s0, e.file, 0);
    SendChunksEffect(s0, e.file, 0);
    if sent.1.Ok? {
      var s1 := Publish(sent.0, EntryDone(sent.0.state, |entries|));
      assert s0.trace + StopAndWait(Chunks(e.file, 0)) == s.trace + ([Sent(OrEmpty(e.untypedHeader))] + StopAndWait(Chunks(e.file, 0)));
      assert s1 == AfterEntry(s, entries, i);
    }
  }

  /** Starting at entry `i` with i entries done, a successful entry loop sends
      every remaining entry's header and chunks, ends with all entries done
      and has counted all their bytes. */
  lemma {:induction false} SendEntriesSpecLemma(s: Session, entries: seq<TransferEntry>, i: nat)
    requires i <= |entries|
    requires s.state.doneCount == i && s.state.currentEntryIndex == i - 1
    ensures var q := SendEntriesSpec(s, entries, i);
      q.1.Ok? ==>
        && q.0.trace == s.trace + EntriesEvents(entries, i)
        && AckCount(entries, i) <= |s.input| && q.0.input == s.input[AckCount(entries, i)..]
        && q.0.state == s.state.(doneCount := |entries|, currentEntryIndex := |entries| - 1)
        && q.0.published == s.published + DoneStates(s.state.status, s.state.authResult, i, |entries|)
        && q.0.sentSize == s.sentSize + TotalSize(entries[i..])
    decreases |entries| - i
  {
    if i < |entries| {
      SendEntryStep(s, entries, i);
      if SendEntriesSpec(s, entries, i).1.Ok? {
        var s1 := AfterEntry(s, entries, i);
        SendEntriesSpecLemma(s1, entries, i + 1);
        var n := |Chunks(entries[i].file, 0)|;
        assert entries[i..][1..] == entries[i + 1..];
        assert s1.input == s.input[n..];
        assert s.input[n..][AckCount(entries, i + 1)..] == s.input[AckCount(entries, i)..];
        AppendAssoc(s.trace, [Sent(OrEmpty(entries[i].untypedHeader))] + StopAndWait(Chunks(entries[i].file, 0)),
                    EntriesEvents(entries, i + 1));
        AppendAssoc(s.published, [s1.state], DoneStates(s.state.status, s.state.authResult, i + 1, |entries|));
        assert s1.state == SenderState(s.state.status, s.state.authResult, i + 1, i);
      }
    }
  }

  /** Once every entry is sent, `doneCount` is the number of entries, the
      index is the last one, and `sentSize` equals `totalSize`. */
  lemma AllEntriesDone(s: Session, entries: seq<TransferEntry>)
    requires s.state.doneCount == 0 && s.state.currentEntryIndex == -1
    ensures var q := SendEntriesSpec(s.(sentSize := 0), entries, 0);
      q.1.Ok? ==> q.0.state.doneCount == |entries| && q.0.state.currentEntryIndex == |entries| - 1
                  && q.0.sentSize == TotalSize(entries)
  {
    SendEntriesSpecLemma(s.(sentSize := 0), entries, 0);
    assert entries[0..] == entries;
  }

  /** `doAuth` succeeds exactly when the hello exchange and the authentication
      do; it then sends the header list of the entries and the untyped header
      (or "") and publishes AUTHENTICATED_HEADERS_SENT with the peer's name.
      On failure nothing is published and no header is sent. */
  lemma DoAuthSpecLemma(s: Session, init: InitData, crypto: Crypto)
    ensures var hello := ExchangeHelloRun(s.input);
            var auth := AuthRun(hello.rest, init.auth, crypto.hmac, Nonce(crypto));
            var q := DoAuthSpec(s, init, crypto);
      && (q.1.Ok? <==> hello.result.Ok? && auth.result.Ok?)
      && (q.1.Ok? ==>
            && q.0.trace == s.trace + hello.events + auth.events
                            + [Sent(EncodeHeaders(HeadersOf(init.entries))), Sent(OrEmpty(init.untypedHeader))]
            && q.0.input == auth.rest
            && q.0.published == s.published + [s.state.(status := AUTHENTICATED_HEADERS_SENT, authResult := Some(auth.result.value))])
      && (q.1.Err? ==> q.0.published == s.published && q.0.state == s.state
                       && q.0.trace == s.trace + hello.events + (if hello.result.Ok? then auth.events else []))
  {
  }

  /** `doSend` refuses to run before authentication and then changes nothing. */
  lemma DoSendNeedsAuth(s: Session, init: InitData)
    requires !s.isAuthenticated
    ensures DoSendSpec(s, init) == (s, Err(NotAuthenticated))
  {
  }

  /** No file data is sent unless the receiver's accept marker comes first. */
  lemma DoSendNeedsAccept(s: Session, init: InitData)
    requires s.isAuthenticated
    requires s.input == [] || s.input[0] != Str(MAGIC_ACCEPT_FILES)
    ensures var q := DoSendSpec(s, init);
      q.1.Err? && q.0.trace == s.trace + (if s.input == [] then [] else [Received(s.input[0])])
  {
  }

  /** A successful `doSend` receives the accept marker, sends every entry's
      header and chunks in order, exchanges the done markers and publishes
      DONE with every entry counted and every byte counted. */
  lemma DoSendSuccess(s: Session, init: InitData)
    requires s.isAuthenticated && s.state.doneCount == 0 && s.state.currentEntryIndex == -1
    ensures var q := DoSendSpec(s, init);
      q.1.Ok? ==>
        && |s.input| > 0 && s.input[0] == Str(MAGIC_ACCEPT_FILES)
        && AckCount(init.entries, 0) < |s.input|
        && q.0.trace == s.trace + [Received(Str(MAGIC_ACCEPT_FILES))] + EntriesEvents(init.entries, 0)
                        + ExchangeDoneRun(s.input[1 + AckCount(init.entries, 0)..]).events
        && q.0.state.status == DONE
        && q.0.state.doneCount == |init.entries| && q.0.state.currentEntryIndex == |init.entries| - 1
        && q.0.sentSize == TotalSize(init.entries)
  {
    if s.input != [] && s.input[0] == Str(MAGIC_ACCEPT_FILES) {
      var s1 := Sending(s);
      var s2 := Apply(s1, ReceiveMagicRun(s1.input, MAGIC_ACCEPT_FILES));
      SendEntriesSpecLemma(s2.(sentSize := 0), init.entries, 0);
      assert init.entries[0..] == init.entries;
      if DoSendSpec(s, init).1.Ok? {
        assert s2.input == s.input[1..];
        assert s.input[1..][AckCount(init.entries, 0)..] == s.input[1 + AckCount(init.entries, 0)..];
      }
    }
  }

  // ----------------------------------------------- published status order

  predicate NeverDecreases(ps: seq<SenderState>)
  {
    forall k :: 0 < k < |ps| ==> Code(ps[k - 1].status) <= Code(ps[k].status)
  }

  /** The current state is the last one published, and the statuses published so far never decrease. */
  predicate Coherent(s: Session)
  {
    s.published != [] && s.state == s.published[|s.published| - 1] && NeverDecreases(s.published)
  }

  lemma PublishKeeps(s: Session, st: SenderState)
    requires Coherent(s) && Code(s.state.status) <= Code(st.status)
    ensures Coherent(Publish(s, st))
  {
  }

  lemma {:induction false} SendEntriesKeeps(s: Session, entries: seq<TransferEntry>, i: nat)
    requires i <= |entries| && Coherent(s)
    ensures Coherent(SendEntriesSpec(s, entries, i).0)
    ensures SendEntriesSpec(s, entries, i).0.state.status == s.state.status
    decreases |entries| - i
  {
    if i < |entries| {
      var sent := SendChunksSpec(Emit(s, OrEmpty(entries[i].untypedHeader)), entries[i].file, 0);
      if sent.1.Ok? {
        PublishKeeps(sent.0, EntryDone(sent.0.state, |entries|));
        SendEntriesKeeps(Publish(sent.0, EntryDone(sent.0.state, |entries|)), entries, i + 1);
      }
    }
  }

  lemma SendingKeeps(s: Session)
    requires Coherent(s) && Code(s.state.status) <= Code(SENDING_FILES)
    ensures Coherent(Sending(s))
  {
    PublishKeeps(s.(isSentFiles := true), s.state.(status := SENDING_FILES));
  }

  lemma FinishKeeps(s: Session)
    requires Coherent(s)
    ensures Coherent(Finish(s))
  {
    PublishKeeps(Apply(s, ExchangeDoneRun(s.input)), s.state.(status := DONE));
  }

  lemma DoSendKeeps(s: Session, init: InitData)
    requires Coherent(s) && Code(s.state.status) <= Code(SENDING_FILES)
    ensures Coherent(DoSendSpec(s, init).0)
  {
    if s.isAuthenticated {
      SendingKeeps(s);
      var s1 := Sending(s);
      var accept := ReceiveMagicRun(s1.input, MAGIC_ACCEPT_FILES);
      var s2 := Apply(s1, accept).(sentSize := 0);
      assert Coherent(s2);
      if accept.result.Ok? {
        SendEntriesKeeps(s2, init.entries, 0);
        var sent := SendEntriesSpec(s2, init.entries, 0);
        if sent.1.Ok? {
          FinishKeeps(sent.0);
        }
      }
    }
  }

  /** What holds whenever the dispatch loop reads a config. */
  predicate AtDispatch(s: Session)
  {
    && Coherent(s) && !s.isSentFiles
    && s.state.status == (if s.isAuthenticated then AUTHENTICATED_HEADERS_SENT else CONNECTED)
  }

  lemma DoAuthKeeps(s: Session, init: InitData, crypto: Crypto)
    requires Coherent(s) && s.state.status == CONNECTED
    ensures var q := DoAuthSpec(s, init, crypto);
      Coherent(q.0) && (q.1.Ok? ==> q.0.state.status == AUTHENTICATED_HEADERS_SENT)
  {
    DoAuthSpecLemma(s, init, crypto);
  }

  /** The SEND_ENTRIES branch of the loop, taken from any loop state. */
  lemma SendBranchKeeps(s: Session, init: InitData, crypto: Crypto)
    requires AtDispatch(s)
    ensures var auth := if s.isAuthenticated then (s, Ok(())) else DoAuthSpec(s, init, crypto);
      Coherent(if auth.1.Err? then auth.0 else DoSendSpec(auth.0, init).0)
  {
    if !s.isAuthenticated {
      DoAuthKeeps(s, init, crypto);
      var auth := DoAuthSpec(s, init, crypto);
      if auth.1.Ok? {
        DoSendKeeps(auth.0, init);
      }
    } else {
      DoSendKeeps(s, init);
    }
  }

  lemma {:induction false} DispatchKeeps(s: Session, init: InitData, crypto: Crypto)
    requires AtDispatch(s)
    ensures Coherent(DispatchSpec(s, init, crypto).0)
    decreases |s.configs|
  {
    if s.configs != [] {
      var s1 := s.(configs := s.configs[1..]);
      assert AtDispatch(s1);
      match s.configs[0].stage
      case WAIT => DispatchKeeps(s1, init, crypto);
      case AUTHENTICATE_SEND_HEADERS =>
        if s1.isAuthenticated {
          DispatchKeeps(s1, init, crypto);
        } else {
          DoAuthKeeps(s1, init, crypto);
          var auth := DoAuthSpec(s1, init, crypto);
          if auth.1.Ok? {
            DispatchKeeps(auth.0, init, crypto);
          }
        }
      case SEND_ENTRIES => SendBranchKeeps(s1, init, crypto);
      case CLOSE =>
    }
  }

  /** Over a whole `handle`, the published status never decreases; an error
      publishes DONE; the reader and the connection end up closed. */
  lemma HandleOutcome(inbound: seq<Msg>, configs: seq<Config>, init: InitData, crypto: Crypto)
    ensures var q := HandleSpec(Start(inbound, configs), init, crypto);
      && q.0.published[0] == MakeInitialState()
      && NeverDecreases(q.0.published)
      && q.0.state == q.0.published[|q.0.published| - 1]
      && (q.1.Err? ==> q.0.state.status == DONE)
      && q.0.closed && q.0.readerClosed
  {
    var s := Start(inbound, configs);
    DispatchKeeps(s, init, crypto);
    var loop := DispatchSpec(s, init, crypto);
    if loop.1.Err? {
      PublishKeeps(loop.0, loop.0.state.(status := DONE));
    }
  }

  // ------------------------------------------------------------- dispatch

  /** The number of leading configs the loop skips without any effect: WAIT,
      and (once authenticated) a repeated AUTHENTICATE_SEND_HEADERS. */
  function Skipped(cs: seq<Config>, authenticated: bool): (k: nat)
    ensures k <= |cs|
    ensures forall j :: 0 <= j < k ==> cs[j].stage == WAIT || (authenticated && cs[j].stage == AUTHENTICATE_SEND_HEADERS)
    ensures k < |cs| ==> cs[k].stage != WAIT && !(authenticated && cs[k].stage == AUTHENTICATE_SEND_HEADERS)
  {
    if cs == [] then 0
    else if cs[0].stage == WAIT || (authenticated && cs[0].stage == AUTHENTICATE_SEND_HEADERS) then 1 + Skipped(cs[1..], authenticated)
    else 0
  }

  lemma {:induction false} SkippedConfigsIgnored(s: Session, init: InitData, crypto: Crypto)
    requires !s.isSentFiles
    ensures DispatchSpec(s, init, crypto) == DispatchSpec(s.(configs := s.configs[Skipped(s.configs, s.isAuthenticated)..]), init, crypto)
    decreases |s.configs|
  {
    var k := Skipped(s.configs, s.isAuthenticated);
    if k > 0 {
      var s1 := s.(configs := s.configs[1..]);
      SkippedConfigsIgnored(s1, init, crypto);
      assert s.configs[1..][k - 1..] == s.configs[k..];
    } else {
      assert s.configs[0..] == s.configs;
      assert s.(configs := s.configs) == s;
    }
  }

  /** Once authenticated, the loop ignores everything up to the first
      SEND_ENTRIES or CLOSE: CLOSE exits, SEND_ENTRIES runs `doSend` once and
      exits, leaving the later configs unread; without either the loop ends
      when the reader is exhausted. */
  lemma AuthenticatedDispatch(s: Session, init: InitData, crypto: Crypto)
    requires s.isAuthenticated && !s.isSentFiles
    ensures var k := Skipped(s.configs, true);
      DispatchSpec(s, init, crypto) ==
        if k == |s.configs| then (s.(configs := []), Ok(()))
        else if s.configs[k].stage == CLOSE then (s.(configs := s.configs[k + 1..]), Ok(()))
        else DoSendSpec(s.(configs := s.configs[k + 1..]), init)
  {
    SkippedConfigsIgnored(s, init, crypto);
    var k := Skipped(s.configs, true);
    var s1 := s.(configs := s.configs[k..]);
    if k < |s.configs| {
      assert s1.configs[0] == s.configs[k] && s1.configs[1..] == s.configs[k + 1..];
    }
  }

  /** Before authentication the first config other than WAIT decides: CLOSE
      exits, AUTHENTICATE_SEND_HEADERS runs `doAuth` and goes on reading,
      SEND_ENTRIES runs `doAuth` then `doSend` and exits. */
  lemma UnauthenticatedDispatch(s: Session, init: InitData, crypto: Crypto)
    requires !s.isAuthenticated && !s.isSentFiles
    ensures var k := Skipped(s.configs, false);
      DispatchSpec(s, init, crypto) ==
        if k == |s.configs| then (s.(configs := []), Ok(()))
        else
          var rest := s.(configs := s.configs[k + 1..]);
          if s.configs[k].stage == CLOSE then (rest, Ok(()))
          else
            var auth := DoAuthSpec(rest, init, crypto);
            if auth.1.Err? then auth
            else if s.configs[k].stage == AUTHENTICATE_SEND_HEADERS then DispatchSpec(auth.0, init, crypto)
            else DoSendSpec(auth.0, init)
  {
    SkippedConfigsIgnored(s, init, crypto);
    var k := Skipped(s.configs, false);
    var s1 := s.(configs := s.configs[k..]);
    if k < |s.configs| {
      assert s1.configs[0] == s.configs[k] && s1.configs[1..] == s.configs[k + 1..];
      var rest := s.(configs := s.configs[k + 1..]);
      assert s1.(configs := s1.configs[1..]) == rest;
    }
  }

  // -------------------------------------------------------------- handle

  /** One `handle` invocation: the variables its closures share are fields. */
  class SenderSession {
    const conn: Conn
    const helper: FileTransferHelper
    const init: InitData
    /** The configs the config reader will still deliver. */
    var configs: seq<Config>
    var readerClosed: bool
    /** The current state and every state `updateState` published, oldest first. */
    var state: SenderState
    var published: seq<SenderState>
    var isAuthenticated: bool
    var isSentFiles: bool
    var sentSize: int

    predicate Valid()
    {
      helper.conn == conn
    }

    function Snap(): Session
      reads this, conn
    {
      Session(conn.Input(), conn.trace, conn.closed, configs, readerClosed, state, published,
              isAuthenticated, isSentFiles, sentSize)
    }

    constructor (conn: Conn, configs: seq<Config>, init: InitData, crypto: Crypto)
      ensures Valid() && this.conn == conn && this.init == init && helper.crypto == crypto
      ensures Snap() == Session(conn.Input(), conn.trace, conn.closed, configs, false,
                                MakeInitialState(), [MakeInitialState()], false, false, 0)
    {
      this.conn := conn;
      this.helper := new FileTransferHelper(conn, crypto);
      this.init := init;
      this.configs := configs;
      readerClosed := false;
      state := MakeInitialState();
      published := [MakeInitialState()];
      isAuthenticated := false;
      isSentFiles := false;
      sentSize := 0;
    }

    /** `updateState`. */
    method UpdateState(st: SenderState)
      modifies this
      ensures Snap() == Publish(old(Snap()), st)
    {
      state := st;
      published := published + [st];
    }

    method DoAuth() returns (r: Result<()>)
      requires Valid()
      modifies this, conn
      ensures (Snap(), r) == DoAuthSpec(old(Snap()), init, helper.crypto)
    {
      isAuthenticated := true;
      var hello := helper.ExchangeHello();
      if hello.Err? {
        return Err(hello.error);
      }
      var res := helper.DoAuthenticate(init.auth);
      if res.Err? {
        return Err(res.error);
      }
      conn.Send(EncodeHeaders(HeadersOf(init.entries)));
      conn.Send(OrEmpty(init.untypedHeader));
      UpdateState(state.(status := AUTHENTICATED_HEADERS_SENT, authResult := Some(res.value)));
      r := Ok(());
    }

    /** The chunk loop of one entry. */
    method SendChunks(file: seq<bv8>) returns (r: Result<()>)
      requires Valid()
      modifies this, conn
      ensures (Snap(), r) == SendChunksSpec(old(Snap()), file, 0)
    {
      var ptr := 0;
      while true
        invariant ptr <= |file|
        invariant SendChunksSpec(Snap(), file, ptr) == SendChunksSpec(old(Snap()), file, 0)
        decreases |file| - ptr
      {
        var chunk := ChunkAt(file, ptr);
        if |chunk| == 0 {
          return Ok(());
        }
        ptr := ptr + |chunk|;
        var ack := SendChunk(chunk);
        if ack.Err? {
          return ack;
        }
      }
    }

    /** One round of the chunk loop: count, send, await the acknowledgement. */
    method SendChunk(chunk: seq<bv8>) returns (r: Result<()>)
      requires Valid()
      modifies this, conn
      ensures var s1 := Emit(old(Snap()).(sentSize := old(sentSize) + |chunk|), Bin(chunk));
              var ack := ReceiveMagicRun(s1.input, MAGIC_DID_RECEIVE);
              Snap() == Apply(s1, ack) && r == ack.result
    {
      sentSize := sentSize + |chunk|;
      conn.Send(Bin(chunk));
      r := helper.ReceiveMagic(MAGIC_DID_RECEIVE);
    }

    /** The loop over the entries. */
    method SendEntries() returns (r: Result<()>)
      requires Valid()
      modifies this, conn
      ensures (Snap(), r) == SendEntriesSpec(old(Snap()), init.entries, 0)
    {
      var entries := init.entries;
      for i := 0 to |entries|
        invariant SendEntriesSpec(Snap(), entries, i) == SendEntriesSpec(old(Snap()), entries, 0)
      {
        ghost var pre := Snap();
        conn.Send(OrEmpty(entries[i].untypedHeader));
        assert Snap() == Emit(pre, OrEmpty(entries[i].untypedHeader));
        var sent := SendChunks(entries[i].file);
        if sent.Err? {
          return sent;
        }
        ghost var mid := Snap();
        UpdateState(EntryDone(state, |entries|));
        assert Snap() == Publish(mid, EntryDone(mid.state, |entries|));
      }
      r := Ok(());
    }

    method DoSend() returns (r: Result<()>)
      requires Valid()
      modifies this, conn
      ensures (Snap(), r) == DoSendSpec(old(Snap()), init)
    {
      if !isAuthenticated {
        return Err(NotAuthenticated);
      }
      isSentFiles := true;
      UpdateState(state.(status := SENDING_FILES));
      var accept := helper.ReceiveMagic(MAGIC_ACCEPT_FILES);
      if accept.Err? {
        return accept;
      }
      sentSize := 0;
      r := SendEntries();
      if r.Err? {
        return;
      }
      var done := helper.ExchangeDone();  // errors of the closing exchange are ignored
      UpdateState(state.(status := DONE));
      r := Ok(());
    }

    /** The body of the `try`: the dispatch loop. */
    method Dispatch() returns (r: Result<()>)
      requires Valid()
      modifies this, conn
      ensures (Snap(), r) == DispatchSpec(old(Snap()), init, helper.crypto)
    {
      while true
        invariant DispatchSpec(Snap(), init, helper.crypto) == DispatchSpec(old(Snap()), init, helper.crypto)
        decreases |configs|
      {
        if configs == [] {
          return Ok(());
        }
        var config := configs[0];
        configs := configs[1..];
        if config.stage == WAIT {
          continue;
        } else if config.stage == AUTHENTICATE_SEND_HEADERS {
          if isAuthenticated {
            continue;
          }
          r := DoAuth();
          if r.Err? {
            return;
          }
        } else if config.stage == SEND_ENTRIES {
          if isSentFiles {
            continue;
          }
          if !isAuthenticated {
            r := DoAuth();
            if r.Err? {
              return;
            }
          }
          r := DoSend();
          return;
        } else {
          return Ok(());
        }
      }
    }

    /** `handle`: the loop, DONE published on an error (which is passed on),
        then the reader and the connection closed. */
    method Handle() returns (r: Result<()>)
      requires Valid()
      modifies this, conn
      ensures (Snap(), r) == HandleSpec(old(Snap()), init, helper.crypto)
    {
      r := Dispatch();
      if r.Err? {
        UpdateState(state.(status := DONE));
      }
      readerClosed := true;
      conn.Close();
    }
  }
}
