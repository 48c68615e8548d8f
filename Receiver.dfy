/**
 * The receiver adapter: one `handle` invocation authenticates, reads the
 * header list and the untyped headers, and then, when asked to, accepts the
 * files and reassembles each one from binary chunks, acknowledging every
 * chunk it accepts.
 *
 * As for the sender, `Session` is a value-level snapshot of everything
 * `handle` works on; the functions below say what each step does to it and
 * the methods of `ReceiverSession` are proved to do exactly that.
 */
module Receiver {
  import opened Wire
  import opened Defines
  import opened Handshake

  datatype Status = CONNECTED | AUTHENTICATED | RECEIVED_HEADERS | RECEIVING_FILES | DONE

  /** The numeric value of the status enum. */
  function Code(s: Status): (c: int)
    ensures 1 <= c <= 5
  {
    match s
    case CONNECTED => 1
    case AUTHENTICATED => 2
    case RECEIVED_HEADERS => 3
    case RECEIVING_FILES => 4
    case DONE => 5
  }

  datatype Stage = WAIT | AUTHENTICATE_RECEIVE_HEADER | RECEIVE_FILES | CLOSE

  datatype Config = Config(stage: Stage)

  /** A received entry: its name, its reassembled content and its untyped header. */
  datatype ReceivedEntry = ReceivedEntry(publicName: string, file: seq<bv8>, untypedHeader: Msg)

  /** The published connection state, without the progress fractions.  The
      header list and the untyped headers are kept as received. */
  datatype ReceiverState = ReceiverState(
    status: Status, authResult: Option<AuthResult>, untypedHeaders: Msg, headers: Msg,
    doneEntries: seq<ReceivedEntry>)

  function ModifyConfigOnRemove(config: Config): (r: Config)
    ensures r.stage == CLOSE
  {
    config.(stage := CLOSE)
  }

  function MakeInitialConfig(): (r: Config)
    ensures r.stage == WAIT
  {
    Config(WAIT)
  }

  function MakeInitialState(): (r: ReceiverState)
    ensures r.status == CONNECTED && r.authResult == None && r.untypedHeaders == Null
    ensures r.headers == Arr([]) && r.doneEntries == []
  {
    ReceiverState(CONNECTED, None, Null, Arr([]), [])
  }

  /** `JSON.parse(JSON.stringify(v))`, which only strips prototypes: the identity on values. */
  function Sanitize(m: Msg): Msg
  {
    m
  }

  // ------------------------------------------------------------ sessions

  /** What `handle` works on: the channel, the configs the reader will
      deliver, the published states (oldest first, the initial one included),
      the closure flags, the closure's `headers` and the byte counter of `doReceive`. */
  datatype Session = Session(
    input: seq<Msg>, trace: seq<Event>, closed: bool,
    configs: seq<Config>, readerClosed: bool,
    state: ReceiverState, published: seq<ReceiverState>,
    isAuthenticatedAndReceivedHeaders: bool, isReceiveFiles: bool,
    headers: Msg, totalReceived: int)

  /** A fresh `handle` invocation. */
  function Start(inbound: seq<Msg>, configs: seq<Config>): (s: Session)
    ensures s.state == MakeInitialState() && s.published == [s.state]
  {
    Session(inbound, [], false, configs, false, MakeInitialState(), [MakeInitialState()], false, false, Arr([]), 0)
  }

  function Apply<T>(s: Session, run: Run<T>): Session
  {
    s.(input := run.rest, trace := s.trace + run.events)
  }

  function Emit(s: Session, m: Msg): Session
  {
    s.(trace := s.trace + [Sent(m)])
  }

  /** `updateState`: the new state becomes current and is published. */
  function Publish(s: Session, st: ReceiverState): Session
  {
    s.(state := st, published := s.published + [st])
  }

  // ------------------------------------------------------- specifications

  /** `doAuthAndReceiveHeaders`. */
  function DoAuthSpec(s: Session, auth: Auth, crypto: Crypto): (q: (Session, Result<()>))
    ensures q.0.configs == s.configs && q.0.isAuthenticatedAndReceivedHeaders && q.0.isReceiveFiles == s.isReceiveFiles
    ensures q.0.closed == s.closed && q.0.readerClosed == s.readerClosed
    ensures s.published <= q.0.published
  {
    var s1 := s.(isAuthenticatedAndReceivedHeaders := true);
    var hello := ExchangeHelloRun(s1.input);
    var s2 := Apply(s1, hello);
    if hello.result.Err? then (s2, Err(hello.result.error))
    else
      var res := AuthRun(s2.input, auth, crypto.hmac, Nonce(crypto));
      var s3 := Apply(s2, res);
      if res.result.Err? then (s3, Err(res.result.error))
      else
        var s4 := Publish(s3, s3.state.(status := AUTHENTICATED, authResult := Some(res.result.value)));
        var hs := Recv(s4.input);
        var s5 := Apply(s4, hs);
        if hs.result.Err? then (s5, Err(ChannelClosed))
        else
          var s6 := s5.(headers := hs.result.value);
          var uh := Recv(s6.input);
          var s7 := Apply(s6, uh);
          if uh.result.Err? then (s7, Err(ChannelClosed))
          else
            (Publish(s7, s7.state.(status := RECEIVED_HEADERS, headers := hs.result.value,
                                   untypedHeaders := Sanitize(uh.result.value))), Ok(()))
  }

  /** The chunk loop of one entry: `bytesLeft` bytes still expected, `acc` the
      content so far; the result is the entry's whole content. */
  function ReceiveChunksSpec(s: Session, bytesLeft: int, acc: seq<bv8>): (q: (Session, Result<seq<bv8>>))
    ensures q.0.configs == s.configs && q.0.closed == s.closed && q.0.readerClosed == s.readerClosed
    ensures q.0.state == s.state && q.0.published == s.published && s.trace <= q.0.trace
    decreases |s.input|
  {
    if bytesLeft == 0 then (s, Ok(acc))
    else
      var r := Recv(s.input);
      var s1 := Apply(s, r);
      if r.result.Err? then (s1, Err(ChannelClosed))
      else if !r.result.value.Bin? then (s1, Err(BadChunkType))
      else
        var chunk := r.result.value.bytes;
        var s2 := s1.(totalReceived := s1.totalReceived + |chunk|);
        if bytesLeft - |chunk| < 0 then (s2, Err(ChunkSizeMismatch))
        else ReceiveChunksSpec(Emit(s2, Str(MAGIC_DID_RECEIVE)), bytesLeft - |chunk|, acc + chunk)
  }

  /** The loop over the headers, from header `i`. */
  function ReceiveEntriesSpec(s: Session, headers: seq<EntryHeader>, i: nat): (q: (Session, Result<()>))
    requires i <= |headers|
    ensures q.0.configs == s.configs && q.0.closed == s.closed && q.0.readerClosed == s.readerClosed
    ensures s.published <= q.0.published && s.trace <= q.0.trace
    decreases |headers| - i
  {
    if i == |headers| then (s, Ok(()))
    else
      var uh := Recv(s.input);
      var s1 := Apply(s, uh);
      if uh.result.Err? then (s1, Err(ChannelClosed))
      else
        var got := ReceiveChunksSpec(s1, headers[i].size, []);
        if got.1.Err? then (got.0, Err(got.1.error))
        else
          var entry := ReceivedEntry(headers[i].publicName, got.1.value, uh.result.value);
          ReceiveEntriesSpec(Publish(got.0, got.0.state.(doneEntries := got.0.state.doneEntries + [entry])), headers, i + 1)
  }

  /** `doReceive` up to the accept marker: the flag set, RECEIVING_FILES published, the marker sent. */
  function Accepting(s: Session): (r: Session)
    ensures r.input == s.input && r.trace == s.trace + [Sent(Str(MAGIC_ACCEPT_FILES))]
    ensures r.configs == s.configs && r.closed == s.closed && r.readerClosed == s.readerClosed
    ensures r.headers == s.headers && r.isAuthenticatedAndReceivedHeaders == s.isAuthenticatedAndReceivedHeaders && r.isReceiveFiles
    ensures r.state == s.state.(status := RECEIVING_FILES) && r.published == s.published + [r.state]
  {
    Emit(Publish(s.(isReceiveFiles := true), s.state.(status := RECEIVING_FILES)), Str(MAGIC_ACCEPT_FILES))
  }

  /** The end of `doReceive`: the done exchange (its errors ignored), then DONE published. */
  function Finish(s: Session): (r: Session)
    ensures r.trace == s.trace + ExchangeDoneRun(s.input).events && r.input == ExchangeDoneRun(s.input).rest
    ensures r.configs == s.configs && r.closed == s.closed && r.readerClosed == s.readerClosed
    ensures r.totalReceived == s.totalReceived
    ensures r.state == s.state.(status := DONE) && r.published == s.published + [r.state]
  {
    var s2 := Apply(s, ExchangeDoneRun(s.input));
    Publish(s2, s2.state.(status := DONE))
  }

  /** `doReceive`. */
  function DoReceiveSpec(s: Session): (q: (Session, Result<()>))
    ensures q.0.configs == s.configs && q.0.closed == s.closed && q.0.readerClosed == s.readerClosed
    ensures s.published <= q.0.published
  {
    if !s.isAuthenticatedAndReceivedHeaders then (s, Err(NotAuthenticated))
    else
      var s1 := Accepting(s);
      match ParseHeaders(s1.headers)
      case None => (s1, Err(BadHeaders))
      case Some(headers) =>
        var got := ReceiveEntriesSpec(s1.(totalReceived := 0), headers, 0);
        if got.1.Err? then got else (Finish(got.0), Ok(()))
  }

  /** The `for (;;)` loop of `handle`; running out of configs also ends it. */
  function DispatchSpec(s: Session, auth: Auth, crypto: Crypto): (q: (Session, Result<()>))
    ensures s.published <= q.0.published
    decreases |s.configs|
  {
    if s.configs == [] then (s, Ok(()))
    else
      var config := s.configs[0];
      var s1 := s.(configs := s.configs[1..]);
      match config.stage
      case WAIT => DispatchSpec(s1, auth, crypto)
      case AUTHENTICATE_RECEIVE_HEADER =>
        if s1.isAuthenticatedAndReceivedHeaders then DispatchSpec(s1, auth, crypto)
        else
          var a := DoAuthSpec(s1, auth, crypto);
          if a.1.Err? then a else DispatchSpec(a.0, auth, crypto)
      case RECEIVE_FILES =>
        if s1.isReceiveFiles then DispatchSpec(s1, auth, crypto)
        else
          var a := if s1.isAuthenticatedAndReceivedHeaders then (s1, Ok(())) else DoAuthSpec(s1, auth, crypto);
          if a.1.Err? then a else DoReceiveSpec(a.0)
      case CLOSE => (s1, Ok(()))
  }

  /** `handle`: the loop, DONE published on any error, then both the reader
      and the connection closed. */
  function HandleSpec(s: Session, auth: Auth, crypto: Crypto): (q: (Session, Result<()>))
  {
    var loop := DispatchSpec(s, auth, crypto);
    var s1 := if loop.1.Err? then Publish(loop.0, loop.0.state.(status := DONE)) else loop.0;
    (s1.(readerClosed := true, closed := true, input := []), loop.1)
  }

  // ---------------------------------------------------------- properties

  /** The chunks as they arrive on the channel. */
  function Bins(cs: seq<seq<bv8>>): (ms: seq<Msg>)
    ensures |ms| == |cs|
  {
    if cs == [] then [] else [Bin(cs[0])] + Bins(cs[1..])
  }

  /** Each chunk received and then acknowledged. */
  function AckedChunks(cs: seq<seq<bv8>>): seq<Event>
  {
    if cs == [] then [] else [Received(Bin(cs[0])), Sent(Str(MAGIC_DID_RECEIVE))] + AckedChunks(cs[1..])
  }

  /** The session after the chunks `cs` were accepted. */
  function AfterChunks(s: Session, cs: seq<seq<bv8>>): Session
    requires |cs| <= |s.input|
  {
    s.(input := s.input[|cs|..], trace := s.trace + AckedChunks(cs), totalReceived := s.totalReceived + |Flatten(cs)|)
  }

  /** One accepted chunk. */
  lemma ReceiveChunkStep(s: Session, c: seq<bv8>, left: int, acc: seq<bv8>)
    requires s.input != [] && s.input[0] == Bin(c) && 0 < left && |c| <= left
    ensures ReceiveChunksSpec(s, left, acc) == ReceiveChunksSpec(AfterChunks(s, [c]), left - |c|, acc + c)
  {
    var s1 := Apply(s, Recv(s.input));
    var s2 := s1.(totalReceived := s1.totalReceived + |c|);
    var s3 := Emit(s2, Str(MAGIC_DID_RECEIVE));
    assert ReceiveChunksSpec(s, left, acc) == ReceiveChunksSpec(s3, left - |c|, acc + c);
    assert AckedChunks([c]) == [Received(Bin(c)), Sent(Str(MAGIC_DID_RECEIVE))];
    assert Flatten([c]) == c;
    assert s3.trace == s.trace + AckedChunks([c]);
    assert s3 == AfterChunks(s, [c]);
  }

  lemma AfterChunksCompose(s: Session, cs: seq<seq<bv8>>)
    requires cs != [] && |cs| <= |s.input|
    ensures AfterChunks(AfterChunks(s, [cs[0]]), cs[1..]) == AfterChunks(s, cs)
  {
    var c := cs[0];
    var s1 := AfterChunks(s, [c]);
    assert Flatten([c]) == c;
    assert AckedChunks([c]) == [Received(Bin(c)), Sent(Str(MAGIC_DID_RECEIVE))];
    assert AckedChunks(cs) == AckedChunks([c]) + AckedChunks(cs[1..]);
    assert |Flatten(cs)| == |c| + |Flatten(cs[1..])|;
    assert s1.input[|cs| - 1..] == s.input[|cs|..];
    AppendAssoc(s.trace, AckedChunks([c]), AckedChunks(cs[1..]));
  }

  /** While fewer bytes than expected have arrived (or every chunk is
      non-empty and the total is not exceeded) each binary chunk is accepted,
      appended and acknowledged: the loop continues from after them with
      `bytesLeft` reduced by their total length. */
  lemma {:induction false} ReceiveChunksPrefix(s: Session, cs: seq<seq<bv8>>, left: int, acc: seq<bv8>)
    requires Bins(cs) <= s.input
    requires |Flatten(cs)| <= left
    requires |Flatten(cs)| < left || forall k :: 0 <= k < |cs| ==> |cs[k]| > 0
    ensures ReceiveChunksSpec(s, left, acc) == ReceiveChunksSpec(AfterChunks(s, cs), left - |Flatten(cs)|, acc + Flatten(cs))
    decreases |cs|
  {
    if cs == [] {
      assert s.input[0..] == s.input && acc + [] == acc;
      assert AfterChunks(s, cs) == s;
    } else {
      var c := cs[0];
      assert |Flatten(cs)| == |c| + |Flatten(cs[1..])|;
      assert left > 0 by {
        if |Flatten(cs)| == left { assert |cs[0]| > 0; }
      }
      assert Bins(cs) == [Bin(c)] + Bins(cs[1..]);
      assert s.input[0] == Bin(c);
      ReceiveChunkStep(s, c, left, acc);
      var s1 := AfterChunks(s, [c]);
      assert Bins(cs[1..]) <= s1.input;
      forall k | 0 <= k < |cs[1..]| && |Flatten(cs)| == left ensures |cs[1..][k]| > 0 {
        assert cs[1..][k] == cs[k + 1];
      }
      ReceiveChunksPrefix(s1, cs[1..], left - |c|, acc + c);
      AppendAssoc(acc, c, Flatten(cs[1..]));
      AfterChunksCompose(s, cs);
    }
  }

  /** Chunks adding up exactly to the announced size are all accepted and
      acknowledged, and the content is their concatenation. */
  lemma ReceiveExact(s: Session, cs: seq<seq<bv8>>)
    requires Bins(cs) <= s.input
    requires forall k :: 0 <= k < |cs| ==> |cs[k]| > 0
    ensures ReceiveChunksSpec(s, |Flatten(cs)|, []) == (AfterChunks(s, cs), Ok(Flatten(cs)))
  {
    ReceiveChunksPrefix(s, cs, |Flatten(cs)|, []);
    assert [] + Flatten(cs) == Flatten(cs);
  }

  /** A header of size 0 consumes nothing from the channel. */
  lemma ZeroSizeConsumesNothing(s: Session, acc: seq<bv8>)
    ensures ReceiveChunksSpec(s, 0, acc) == (s, Ok(acc))
  {
  }

  /** A chunk that runs past the announced size is rejected after it is
      received and before it is acknowledged: only the earlier chunks are. */
  lemma ReceiveOverflow(s: Session, cs: seq<seq<bv8>>, c: seq<bv8>, size: int)
    requires Bins(cs) + [Bin(c)] <= s.input
    requires |Flatten(cs)| < size < |Flatten(cs)| + |c|
    ensures var q := ReceiveChunksSpec(s, size, []);
      q.1 == Err(ChunkSizeMismatch) && q.0.trace == s.trace + AckedChunks(cs) + [Received(Bin(c))]
  {
    assert Bins(cs) <= s.input;
    ReceiveChunksPrefix(s, cs, size, []);
    assert s.input[|cs|] == Bin(c);
  }

  /** A negative announced size is never 0, so the loop reads one chunk and,
      whatever its length, rejects it as ChunkSizeMismatch without acknowledging it. */
  lemma NegativeSizeRejected(s: Session, c: seq<bv8>, size: int)
    requires size < 0 && s.input != [] && s.input[0] == Bin(c)
    ensures var q := ReceiveChunksSpec(s, size, []);
      q.1 == Err(ChunkSizeMismatch) && q.0.trace == s.trace + [Received(Bin(c))] && q.0.input == s.input[1..]
  {
  }

  /** A message that is not a binary chunk is rejected while bytes are still expected. */
  lemma ReceiveBadChunk(s: Session, cs: seq<seq<bv8>>, m: Msg, size: int)
    requires Bins(cs) + [m] <= s.input && !m.Bin?
    requires |Flatten(cs)| < size
    ensures var q := ReceiveChunksSpec(s, size, []);
      q.1 == Err(BadChunkType) && q.0.trace == s.trace + AckedChunks(cs) + [Received(m)]
  {
    assert Bins(cs) <= s.input;
    ReceiveChunksPrefix(s, cs, size, []);
    assert s.input[|cs|] == m;
  }

  /** A successful chunk loop ends with exactly the announced number of bytes,
      all counted in `totalReceived`; a negative size never succeeds. */
  lemma {:induction false} ReceiveChunksLength(s: Session, left: int, acc: seq<bv8>)
    ensures var q := ReceiveChunksSpec(s, left, acc);
      q.1.Ok? ==> left >= 0 && |q.1.value| == |acc| + left && q.0.totalReceived == s.totalReceived + left
    decreases |s.input|
  {
    if left != 0 && s.input != [] && s.input[0].Bin? && left - |s.input[0].bytes| >= 0 {
      var c := s.input[0].bytes;
      var s1 := Apply(s, Recv(s.input));
      var s3 := Emit(s1.(totalReceived := s1.totalReceived + |c|), Str(MAGIC_DID_RECEIVE));
      ReceiveChunksLength(s3, left - |c|, acc + c);
    }
  }

  /** The sum of the announced sizes. */
  function HeadersTotal(hs: seq<EntryHeader>): int
  {
    if hs == [] then 0 else hs[0].size + HeadersTotal(hs[1..])
  }

  /** The entries were received for these headers, in order: same number,
      same names, contents of the announced sizes. */
  predicate MatchesHeaders(es: seq<ReceivedEntry>, hs: seq<EntryHeader>)
  {
    |es| == |hs| && forall k :: 0 <= k < |hs| ==> es[k].publicName == hs[k].publicName && |es[k].file| == hs[k].size
  }

  lemma MatchesHeadersCons(e: ReceivedEntry, es: seq<ReceivedEntry>, h: EntryHeader, hs: seq<EntryHeader>)
    requires e.publicName == h.publicName && |e.file| == h.size && MatchesHeaders(es, hs)
    ensures MatchesHeaders([e] + es, [h] + hs)
  {
    forall k | 0 <= k < |hs| + 1
      ensures ([e] + es)[k].publicName == ([h] + hs)[k].publicName && |([e] + es)[k].file| == ([h] + hs)[k].size
    {
      if k > 0 {
        assert ([e] + es)[k] == es[k - 1] && ([h] + hs)[k] == hs[k - 1];
      }
    }
  }

  /** One more entry, received for header `h`, extends a matching history. */
  lemma DoneEntriesStep(d: seq<ReceivedEntry>, e: ReceivedEntry, d': seq<ReceivedEntry>, h: EntryHeader, hs: seq<EntryHeader>)
    requires e.publicName == h.publicName && |e.file| == h.size
    requires |d| + 1 <= |d'| && d'[..|d| + 1] == d + [e] && MatchesHeaders(d'[|d| + 1..], hs)
    ensures |d| <= |d'| && d'[..|d|] == d && MatchesHeaders(d'[|d|..], [h] + hs)
  {
    assert d'[..|d|] == (d + [e])[..|d|];
    assert d'[|d|..] == [e] + d'[|d| + 1..];
    MatchesHeadersCons(e, d'[|d| + 1..], h, hs);
  }

  /** One round of a successful entry loop: the untyped file header, then a
      chunk loop that returns exactly the announced number of bytes. */
  lemma ReceiveEntryStep(s: Session, headers: seq<EntryHeader>, i: nat)
    requires i < |headers|
    ensures var q := ReceiveEntriesSpec(s, headers, i);
      var uh := Recv(s.input);
      var got := ReceiveChunksSpec(Apply(s, uh), headers[i].size, []);
      q.1.Ok? ==>
        && uh.result.Ok? && got.1.Ok? && |got.1.value| == headers[i].size
        && got.0.state == s.state && got.0.totalReceived == s.totalReceived + headers[i].size
        && var entry := ReceivedEntry(headers[i].publicName, got.1.value, uh.result.value);
           q == ReceiveEntriesSpec(Publish(got.0, s.state.(doneEntries := s.state.doneEntries + [entry])), headers, i + 1)
  {
    var uh := Recv(s.input);
    ReceiveChunksLength(Apply(s, uh), headers[i].size, []);
  }

  /** A successful entry loop from header `i` appends exactly one entry per
      remaining header, in header order, with the header's name and a content
      of the header's size, and counts all their bytes; nothing else in the
      state changes. */
  lemma {:induction false} ReceiveEntriesSpecLemma(s: Session, headers: seq<EntryHeader>, i: nat)
    requires i <= |headers|
    ensures var q := ReceiveEntriesSpec(s, headers, i);
      var d, d' := s.state.doneEntries, q.0.state.doneEntries;
      q.1.Ok? ==>
        && |d| <= |d'| && d'[..|d|] == d && MatchesHeaders(d'[|d|..], headers[i..])
        && q.0.state == s.state.(doneEntries := d')
        && q.0.totalReceived == s.totalReceived + HeadersTotal(headers[i..])
    decreases |headers| - i
  {
    var d := s.state.doneEntries;
    var q := ReceiveEntriesSpec(s, headers, i);
    if i == |headers| {
      assert d[|d|..] == [] && headers[i..] == [];
    } else if q.1.Ok? {
      ReceiveEntryStep(s, headers, i);
      var uh := Recv(s.input);
      var got := ReceiveChunksSpec(Apply(s, uh), headers[i].size, []);
      var entry := ReceivedEntry(headers[i].publicName, got.1.value, uh.result.value);
      var s2 := Publish(got.0, s.state.(doneEntries := d + [entry]));
      ReceiveEntriesSpecLemma(s2, headers, i + 1);
      assert headers[i..] == [headers[i]] + headers[i + 1..];
      DoneEntriesStep(d, entry, q.0.state.doneEntries, headers[i], headers[i + 1..]);
    }
  }

  /** What the sender puts on the channel for its entries: each entry's untyped
      header, then that entry's binary chunks. */
  function Framed(us: seq<Msg>, css: seq<seq<seq<bv8>>>): seq<Msg>
    requires |us| == |css|
    decreases |us|
  {
    if us == [] then [] else [us[0]] + Bins(css[0]) + Framed(us[1..], css[1..])
  }

  predicate NonEmptyChunks(cs: seq<seq<bv8>>)
  {
    forall j :: 0 <= j < |cs| ==> |cs[j]| > 0
  }

  /** One list of non-empty chunks per header, adding up to the header's size. */
  predicate ChunkedAs(hs: seq<EntryHeader>, css: seq<seq<seq<bv8>>>)
  {
    |hs| == |css| && forall k :: 0 <= k < |hs| ==> |Flatten(css[k])| == hs[k].size && NonEmptyChunks(css[k])
  }

  lemma ChunkedAsTail(hs: seq<EntryHeader>, css: seq<seq<seq<bv8>>>)
    requires hs != [] && ChunkedAs(hs, css)
    ensures ChunkedAs(hs[1..], css[1..])
  {
    forall k | 0 <= k < |hs| - 1
      ensures |Flatten(css[1..][k])| == hs[1..][k].size && NonEmptyChunks(css[1..][k])
    {
      assert css[1..][k] == css[k + 1] && hs[1..][k] == hs[k + 1];
    }
  }

  /** The entries the receiver should record: per header its name, the
      concatenated chunks as content, and the untyped header received before them. */
  function EntriesOf(hs: seq<EntryHeader>, us: seq<Msg>, css: seq<seq<seq<bv8>>>): (es: seq<ReceivedEntry>)
    requires |hs| == |us| == |css|
    ensures |es| == |hs|
    decreases |hs|
  {
    if hs == [] then []
    else [ReceivedEntry(hs[0].publicName, Flatten(css[0]), us[0])] + EntriesOf(hs[1..], us[1..], css[1..])
  }

  /** Fed, for each remaining header, an untyped header followed by non-empty
      chunks totalling the header's size, the entry loop succeeds, consumes
      exactly those messages and appends, in order, one entry per header whose
      content is the concatenation of its chunks and whose untyped header is
      the message received before them. */
  lemma {:induction false} ReceiveEntriesFramed(s: Session, headers: seq<EntryHeader>, i: nat,
                                                us: seq<Msg>, css: seq<seq<seq<bv8>>>, rest: seq<Msg>)
    requires i <= |headers| && |us| == |headers| - i && ChunkedAs(headers[i..], css)
    requires s.input == Framed(us, css) + rest
    ensures var q := ReceiveEntriesSpec(s, headers, i);
      && q.1 == Ok(()) && q.0.input == rest
      && q.0.state == s.state.(doneEntries := s.state.doneEntries + EntriesOf(headers[i..], us, css))
    decreases |headers| - i
  {
    var d := s.state.doneEntries;
    if i == |headers| {
      assert headers[i..] == [];
      assert d + [] == d;
    } else {
      var h, cs := headers[i], css[0];
      assert headers[i..][0] == h;
      assert |Flatten(cs)| == h.size && NonEmptyChunks(cs);
      var tailIn := Framed(us[1..], css[1..]) + rest;
      AppendAssoc([us[0]] + Bins(cs), Framed(us[1..], css[1..]), rest);
      AppendAssoc([us[0]], Bins(cs), tailIn);
      assert s.input == [us[0]] + (Bins(cs) + tailIn);
      var uh := Recv(s.input);
      var s1 := Apply(s, uh);
      assert uh.result == Ok(us[0]) && s1.input == Bins(cs) + tailIn;
      ReceiveExact(s1, cs);
      var got := ReceiveChunksSpec(s1, h.size, []);
      assert got == (AfterChunks(s1, cs), Ok(Flatten(cs)));
      assert got.0.input == tailIn;
      var entry := ReceivedEntry(h.publicName, Flatten(cs), us[0]);
      var s2 := Publish(got.0, s.state.(doneEntries := d + [entry]));
      assert ReceiveEntriesSpec(s, headers, i) == ReceiveEntriesSpec(s2, headers, i + 1);
      assert headers[i..][1..] == headers[i + 1..];
      ChunkedAsTail(headers[i..], css);
      ReceiveEntriesFramed(s2, headers, i + 1, us[1..], css[1..], rest);
      var more := EntriesOf(headers[i + 1..], us[1..], css[1..]);
      assert EntriesOf(headers[i..], us, css) == [entry] + more;
      AppendAssoc(d, [entry], more);
    }
  }

  /** `doAuthAndReceiveHeaders` succeeds exactly when the hello exchange and the
      authentication do and two more messages arrive; it publishes AUTHENTICATED
      with the peer's name and then RECEIVED_HEADERS with those two messages as
      the header list and the untyped headers. */
  lemma DoAuthSpecLemma(s: Session, auth: Auth, crypto: Crypto)
    ensures var hello := ExchangeHelloRun(s.input);
            var res := AuthRun(hello.rest, auth, crypto.hmac, Nonce(crypto));
            DoAuthSpec(s, auth, crypto).1.Ok? <==> hello.result.Ok? && res.result.Ok? && |res.rest| >= 2
    ensures var hello := ExchangeHelloRun(s.input);
            var res := AuthRun(hello.rest, auth, crypto.hmac, Nonce(crypto));
            var q := DoAuthSpec(s, auth, crypto);
            hello.result.Err? || res.result.Err? ==> q.0.published == s.published && q.0.state == s.state
    ensures var hello := ExchangeHelloRun(s.input);
            var res := AuthRun(hello.rest, auth, crypto.hmac, Nonce(crypto));
            var rest := res.rest;
            var q := DoAuthSpec(s, auth, crypto);
            hello.result.Ok? && res.result.Ok? ==>
              var st1 := s.state.(status := AUTHENTICATED, authResult := Some(res.result.value));
              && (|rest| < 2 ==> q.1 == Err(ChannelClosed) && q.0.published == s.published + [st1])
              && (|rest| >= 2 ==>
                    && q.0.headers == rest[0]
                    && q.0.input == rest[2..]
                    && q.0.trace == s.trace + hello.events + res.events + [Received(rest[0]), Received(rest[1])]
                    && q.0.published == s.published + [st1, st1.(status := RECEIVED_HEADERS, headers := rest[0], untypedHeaders := rest[1])])
  {
    var s1 := s.(isAuthenticatedAndReceivedHeaders := true);
    var hello := ExchangeHelloRun(s1.input);
    var s2 := Apply(s1, hello);
    if hello.result.Ok? {
      var res := AuthRun(s2.input, auth, crypto.hmac, Nonce(crypto));
      var s3 := Apply(s2, res);
      if res.result.Ok? {
        var st1 := s.state.(status := AUTHENTICATED, authResult := Some(res.result.value));
        var s4 := Publish(s3, st1);
        assert s4.input == res.rest;
        if |res.rest| >= 2 {
          var rest := res.rest;
          var s7 := s4.(input := rest[2..], trace := s4.trace + [Received(rest[0])] + [Received(rest[1])], headers := rest[0]);
          assert s7.trace == s.trace + hello.events + res.events + [Received(rest[0]), Received(rest[1])];
          assert DoAuthSpec(s, auth, crypto)
              == (Publish(s7, st1.(status := RECEIVED_HEADERS, headers := rest[0], untypedHeaders := rest[1])), Ok(()));
        }
      }
    }
  }

  /** `doReceive` refuses to run before authentication and then changes nothing. */
  lemma DoReceiveNeedsAuth(s: Session)
    requires !s.isAuthenticatedAndReceivedHeaders
    ensures DoReceiveSpec(s) == (s, Err(NotAuthenticated))
  {
  }

  /** The accept marker is sent before anything is read from the channel. */
  lemma DoReceiveAcceptFirst(s: Session)
    requires s.isAuthenticatedAndReceivedHeaders
    ensures s.trace + [Sent(Str(MAGIC_ACCEPT_FILES))] <= DoReceiveSpec(s).0.trace
  {
  }

  /** A successful `doReceive` read a well-formed header list, received one
      entry per header in order (name and size as announced), counted every
      byte and published DONE. */
  lemma DoReceiveSuccess(s: Session)
    requires s.isAuthenticatedAndReceivedHeaders
    ensures var q := DoReceiveSpec(s);
      q.1.Ok? ==>
        && ParseHeaders(s.headers).Some?
        && var hs, d, d' := ParseHeaders(s.headers).value, s.state.doneEntries, q.0.state.doneEntries;
           && |d| <= |d'| && d'[..|d|] == d && MatchesHeaders(d'[|d|..], hs)
           && q.0.state.status == DONE
           && q.0.totalReceived == HeadersTotal(hs)
  {
    var s1 := Accepting(s);
    if ParseHeaders(s.headers).Some? {
      var hs := ParseHeaders(s.headers).value;
      var t := s1.(totalReceived := 0);
      var got := ReceiveEntriesSpec(t, hs, 0);
      ReceiveEntriesSpecLemma(t, hs, 0);
      assert hs[0..] == hs;
      if got.1.Ok? {
        assert DoReceiveSpec(s) == (Finish(got.0), Ok(()));
      }
    }
  }

  /** Fed an untyped header and then non-empty chunks totalling the announced
      size for each parsed header, `doReceive` succeeds, publishes DONE and has
      recorded exactly those entries: name, reassembled content and untyped header. */
  lemma DoReceiveFramed(s: Session, us: seq<Msg>, css: seq<seq<seq<bv8>>>, rest: seq<Msg>)
    requires s.isAuthenticatedAndReceivedHeaders && ParseHeaders(s.headers).Some?
    requires |us| == |ParseHeaders(s.headers).value| && ChunkedAs(ParseHeaders(s.headers).value, css)
    requires s.input == Framed(us, css) + rest
    ensures var q, hs := DoReceiveSpec(s), ParseHeaders(s.headers).value;
      && q.1 == Ok(()) && q.0.state.status == DONE
      && q.0.state.doneEntries == s.state.doneEntries + EntriesOf(hs, us, css)
  {
    var hs := ParseHeaders(s.headers).value;
    var t := Accepting(s).(totalReceived := 0);
    assert hs[0..] == hs;
    ReceiveEntriesFramed(t, hs, 0, us, css, rest);
    var got := ReceiveEntriesSpec(t, hs, 0);
    assert DoReceiveSpec(s) == (Finish(got.0), Ok(()));
  }

  // ----------------------------------------------- published status order

  predicate NeverDecreases(ps: seq<ReceiverState>)
  {
    forall k :: 0 < k < |ps| ==> Code(ps[k - 1].status) <= Code(ps[k].status)
  }

  /** The current state is the last one published, and the statuses published so far never decrease. */
  predicate Coherent(s: Session)
  {
    s.published != [] && s.state == s.published[|s.published| - 1] && NeverDecreases(s.published)
  }

  lemma PublishKeeps(s: Session, st: ReceiverState)
    requires Coherent(s) && Code(s.state.status) <= Code(st.status)
    ensures Coherent(Publish(s, st))
  {
  }

  lemma {:induction false} ReceiveEntriesKeeps(s: Session, headers: seq<EntryHeader>, i: nat)
    requires i <= |headers| && Coherent(s)
    ensures Coherent(ReceiveEntriesSpec(s, headers, i).0)
    ensures ReceiveEntriesSpec(s, headers, i).0.state.status == s.state.status
    decreases |headers| - i
  {
    if i < |headers| {
      var uh := Recv(s.input);
      var s1 := Apply(s, uh);
      if uh.result.Ok? {
        var got := ReceiveChunksSpec(s1, headers[i].size, []);
        assert got.0.state == s.state && got.0.published == s.published;
        if got.1.Ok? {
          var entry := ReceivedEntry(headers[i].publicName, got.1.value, uh.result.value);
          var st := got.0.state.(doneEntries := got.0.state.doneEntries + [entry]);
          PublishKeeps(got.0, st);
          ReceiveEntriesKeeps(Publish(got.0, st), headers, i + 1);
          assert ReceiveEntriesSpec(s, headers, i) == ReceiveEntriesSpec(Publish(got.0, st), headers, i + 1);
        }
      }
    }
  }

  lemma AcceptingKeeps(s: Session)
    requires Coherent(s) && Code(s.state.status) <= Code(RECEIVING_FILES)
    ensures Coherent(Accepting(s)) && Coherent(Accepting(s).(totalReceived := 0))
  {
    PublishKeeps(s.(isReceiveFiles := true), s.state.(status := RECEIVING_FILES));
  }

  lemma FinishKeeps(s: Session)
    requires Coherent(s)
    ensures Coherent(Finish(s))
  {
    PublishKeeps(Apply(s, ExchangeDoneRun(s.input)), s.state.(status := DONE));
  }

  lemma DoReceiveKeeps(s: Session)
    requires Coherent(s) && Code(s.state.status) <= Code(RECEIVING_FILES)
    ensures Coherent(DoReceiveSpec(s).0)
  {
    if s.isAuthenticatedAndReceivedHeaders {
      AcceptingKeeps(s);
      var s1 := Accepting(s);
      if ParseHeaders(s1.headers).Some? {
        var hs := ParseHeaders(s1.headers).value;
        ReceiveEntriesKeeps(s1.(totalReceived := 0), hs, 0);
        var got := ReceiveEntriesSpec(s1.(totalReceived := 0), hs, 0);
        if got.1.Ok? {
          FinishKeeps(got.0);
        }
      }
    }
  }

  lemma DoAuthKeeps(s: Session, auth: Auth, crypto: Crypto)
    requires Coherent(s) && s.state.status == CONNECTED
    ensures var q := DoAuthSpec(s, auth, crypto);
      Coherent(q.0) && (q.1.Ok? ==> q.0.state.status == RECEIVED_HEADERS)
  {
    var s1 := s.(isAuthenticatedAndReceivedHeaders := true);
    var hello := ExchangeHelloRun(s1.input);
    var s2 := Apply(s1, hello);
    if hello.result.Ok? {
      var res := AuthRun(s2.input, auth, crypto.hmac, Nonce(crypto));
      var s3 := Apply(s2, res);
      if res.result.Ok? {
        var st1 := s3.state.(status := AUTHENTICATED, authResult := Some(res.result.value));
        PublishKeeps(s3, st1);
        var s4 := Publish(s3, st1);
        var hs := Recv(s4.input);
        var s5 := Apply(s4, hs);
        if hs.result.Ok? {
          var s6 := s5.(headers := hs.result.value);
          var uh := Recv(s6.input);
          var s7 := Apply(s6, uh);
          assert Coherent(s7);
          if uh.result.Ok? {
            PublishKeeps(s7, s7.state.(status := RECEIVED_HEADERS, headers := hs.result.value,
                                       untypedHeaders := Sanitize(uh.result.value)));
          }
        }
      }
    }
  }

  /** What holds whenever the dispatch loop reads a config. */
  predicate AtDispatch(s: Session)
  {
    && Coherent(s) && !s.isReceiveFiles
    && s.state.status == (if s.isAuthenticatedAndReceivedHeaders then RECEIVED_HEADERS else CONNECTED)
  }

  /** The RECEIVE_FILES branch of the loop, taken from any loop state. */
  lemma ReceiveBranchKeeps(s: Session, auth: Auth, crypto: Crypto)
    requires AtDispatch(s)
    ensures var a := if s.isAuthenticatedAndReceivedHeaders then (s, Ok(())) else DoAuthSpec(s, auth, crypto);
      Coherent(if a.1.Err? then a.0 else DoReceiveSpec(a.0).0)
  {
    if !s.isAuthenticatedAndReceivedHeaders {
      DoAuthKeeps(s, auth, crypto);
      var a := DoAuthSpec(s, auth, crypto);
      if a.1.Ok? {
        DoReceiveKeeps(a.0);
      }
    } else {
      DoReceiveKeeps(s);
    }
  }

  lemma {:induction false} DispatchKeeps(s: Session, auth: Auth, crypto: Crypto)
    requires AtDispatch(s)
    ensures Coherent(DispatchSpec(s, auth, crypto).0)
    decreases |s.configs|
  {
    if s.configs != [] {
      var s1 := s.(configs := s.configs[1..]);
      assert AtDispatch(s1);
      match s.configs[0].stage
      case WAIT => DispatchKeeps(s1, auth, crypto);
      case AUTHENTICATE_RECEIVE_HEADER =>
        if s1.isAuthenticatedAndReceivedHeaders {
          DispatchKeeps(s1, auth, crypto);
        } else {
          DoAuthKeeps(s1, auth, crypto);
          var a := DoAuthSpec(s1, auth, crypto);
          if a.1.Ok? {
            DispatchKeeps(a.0, auth, crypto);
          }
        }
      case RECEIVE_FILES => ReceiveBranchKeeps(s1, auth, crypto);
      case CLOSE =>
    }
  }

  /** Over a whole `handle`, the published status never decreases; an error
      publishes DONE; the reader and the connection end up closed. */
  lemma HandleOutcome(inbound: seq<Msg>, configs: seq<Config>, auth: Auth, crypto: Crypto)
    ensures var q := HandleSpec(Start(inbound, configs), auth, crypto);
      && q.0.published[0] == MakeInitialState()
      && NeverDecreases(q.0.published)
      && q.0.state == q.0.published[|q.0.published| - 1]
      && (q.1.Err? ==> q.0.state.status == DONE)
      && q.0.closed && q.0.readerClosed
  {
    var s := Start(inbound, configs);
    DispatchKeeps(s, auth, crypto);
    var loop := DispatchSpec(s, auth, crypto);
    if loop.1.Err? {
      PublishKeeps(loop.0, loop.0.state.(status := DONE));
    }
  }

  // ------------------------------------------------------------- dispatch

  /** The number of leading configs the loop skips without any effect: WAIT,
      and (once authenticated) a repeated AUTHENTICATE_RECEIVE_HEADER. */
  function Skipped(cs: seq<Config>, authenticated: bool): (k: nat)
    ensures k <= |cs|
    ensures forall j :: 0 <= j < k ==> cs[j].stage == WAIT || (authenticated && cs[j].stage == AUTHENTICATE_RECEIVE_HEADER)
    ensures k < |cs| ==> cs[k].stage != WAIT && !(authenticated && cs[k].stage == AUTHENTICATE_RECEIVE_HEADER)
  {
    if cs == [] then 0
    else if cs[0].stage == WAIT || (authenticated && cs[0].stage == AUTHENTICATE_RECEIVE_HEADER) then 1 + Skipped(cs[1..], authenticated)
    else 0
  }

  lemma {:induction false} SkippedConfigsIgnored(s: Session, auth: Auth, crypto: Crypto)
    requires !s.isReceiveFiles
    ensures DispatchSpec(s, auth, crypto)
         == DispatchSpec(s.(configs := s.configs[Skipped(s.configs, s.isAuthenticatedAndReceivedHeaders)..]), auth, crypto)
    decreases |s.configs|
  {
    var k := Skipped(s.configs, s.isAuthenticatedAndReceivedHeaders);
    if k > 0 {
      var s1 := s.(configs := s.configs[1..]);
      SkippedConfigsIgnored(s1, auth, crypto);
      assert s.configs[1..][k - 1..] == s.configs[k..];
    } else {
      assert s.configs[0..] == s.configs;
      assert s.(configs := s.configs) == s;
    }
  }

  /** Once authenticated, the loop ignores everything up to the first
      RECEIVE_FILES or CLOSE: CLOSE exits, RECEIVE_FILES runs `doReceive` once
      and exits, leaving the later configs unread. */
  lemma AuthenticatedDispatch(s: Session, auth: Auth, crypto: Crypto)
    requires s.isAuthenticatedAndReceivedHeaders && !s.isReceiveFiles
    ensures var k := Skipped(s.configs, true);
      DispatchSpec(s, auth, crypto) ==
        if k == |s.configs| then (s.(configs := []), Ok(()))
        else if s.configs[k].stage == CLOSE then (s.(configs := s.configs[k + 1..]), Ok(()))
        else DoReceiveSpec(s.(configs := s.configs[k + 1..]))
  {
    SkippedConfigsIgnored(s, auth, crypto);
    var k := Skipped(s.configs, true);
    var s1 := s.(configs := s.configs[k..]);
    if k < |s.configs| {
      assert s1.configs[0] == s.configs[k] && s1.configs[1..] == s.configs[k + 1..];
    }
  }

  /** Before authentication the first config other than WAIT decides: CLOSE
      exits, AUTHENTICATE_RECEIVE_HEADER authenticates and goes on reading,
      RECEIVE_FILES authenticates, receives and exits. */
  lemma UnauthenticatedDispatch(s: Session, auth: Auth, crypto: Crypto)
    requires !s.isAuthenticatedAndReceivedHeaders && !s.isReceiveFiles
    ensures var k := Skipped(s.configs, false);
      DispatchSpec(s, auth, crypto) ==
        if k == |s.configs| then (s.(configs := []), Ok(()))
        else
          var rest := s.(configs := s.configs[k + 1..]);
          if s.configs[k].stage == CLOSE then (rest, Ok(()))
          else
            var a := DoAuthSpec(rest, auth, crypto);
            if a.1.Err? then a
            else if s.configs[k].stage == AUTHENTICATE_RECEIVE_HEADER then DispatchSpec(a.0, auth, crypto)
            else DoReceiveSpec(a.0)
  {
    SkippedConfigsIgnored(s, auth, crypto);
    var k := Skipped(s.configs, false);
    var s1 := s.(configs := s.configs[k..]);
    if k < |s.configs| {
      assert s1.configs[0] == s.configs[k] && s1.configs[1..] == s.configs[k + 1..];
      var rest := s.(configs := s.configs[k + 1..]);
      assert s1.(configs := s1.configs[1..]) == rest;
    }
  }

  // -------------------------------------------------------------- adapter

  /** One `handle` invocation of the receiver adapter, over `conn`. */
  class ReceiverSession {
    const conn: Conn
    const helper: FileTransferHelper
    const auth: Auth
    /** The configs the config reader will still deliver. */
    var configs: seq<Config>
    var readerClosed: bool
    /** The current state and every state `updateState` published, oldest first. */
    var state: ReceiverState
    var published: seq<ReceiverState>
    var isAuthenticatedAndReceivedHeaders: bool
    var isReceiveFiles: bool
    /** The header list as received, before it is interpreted. */
    var headers: Msg
    /** The byte counter of `doReceive`. */
    var totalReceived: int

    predicate Valid()
    {
      helper.conn == conn
    }

    function Snap(): Session
      reads this, conn
    {
      Session(conn.Input(), conn.trace, conn.closed, configs, readerClosed, state, published,
              isAuthenticatedAndReceivedHeaders, isReceiveFiles, headers, totalReceived)
    }

    constructor (conn: Conn, configs: seq<Config>, auth: Auth, crypto: Crypto)
      ensures Valid() && this.conn == conn && this.auth == auth && helper.crypto == crypto
      ensures Snap() == Session(conn.Input(), conn.trace, conn.closed, configs, false,
                                MakeInitialState(), [MakeInitialState()], false, false, Arr([]), 0)
    {
      this.conn := conn;
      this.helper := new FileTransferHelper(conn, crypto);
      this.auth := auth;
      this.configs := configs;
      readerClosed := false;
      state := MakeInitialState();
      published := [MakeInitialState()];
      isAuthenticatedAndReceivedHeaders := false;
      isReceiveFiles := false;
      headers := Arr([]);
      totalReceived := 0;
    }

    /** `updateState`. */
    method UpdateState(st: ReceiverState)
      modifies this
      ensures Snap() == Publish(old(Snap()), st)
    {
      state := st;
      published := published + [st];
    }

    method DoAuthAndReceiveHeaders() returns (r: Result<()>)
      requires Valid()
      modifies this, conn
      ensures (Snap(), r) == DoAuthSpec(old(Snap()), auth, helper.crypto)
    {
      isAuthenticatedAndReceivedHeaders := true;
      var hello := helper.ExchangeHello();
      if hello.Err? {
        return Err(hello.error);
      }
      var res := helper.DoAuthenticate(auth);
      if res.Err? {
        return Err(res.error);
      }
      UpdateState(state.(status := AUTHENTICATED, authResult := Some(res.value)));
      var hs := conn.Receive();
      if hs.Err? {
        return Err(ChannelClosed);
      }
      headers := hs.value;
      var uh := conn.Receive();
      if uh.Err? {
        return Err(ChannelClosed);
      }
      UpdateState(state.(status := RECEIVED_HEADERS, headers := hs.value, untypedHeaders := Sanitize(uh.value)));
      r := Ok(());
    }

    /** The chunk loop of one entry announced with `size` bytes. */
    method ReceiveChunks(size: int) returns (r: Result<seq<bv8>>)
      requires Valid()
      modifies this, conn
      ensures (Snap(), r) == ReceiveChunksSpec(old(Snap()), size, [])
    {
      var bytesLeft := size;
      var resultBlob: seq<bv8> := [];
      while true
        invariant ReceiveChunksSpec(Snap(), bytesLeft, resultBlob) == ReceiveChunksSpec(old(Snap()), size, [])
        decreases |conn.Input()|
      {
        if bytesLeft == 0 {
          return Ok(resultBlob);
        }
        var m := conn.Receive();
        if m.Err? {
          return Err(ChannelClosed);
        }
        if !m.value.Bin? {
          return Err(BadChunkType);
        }
        var chunk := m.value.bytes;
        bytesLeft := bytesLeft - |chunk|;
        totalReceived := totalReceived + |chunk|;
        if bytesLeft < 0 {
          return Err(ChunkSizeMismatch);
        }
        resultBlob := resultBlob + chunk;
        conn.Send(Str(MAGIC_DID_RECEIVE));
      }
    }

    /** The loop over the headers. */
    method ReceiveEntries(hs: seq<EntryHeader>) returns (r: Result<()>)
      requires Valid()
      modifies this, conn
      ensures (Snap(), r) == ReceiveEntriesSpec(old(Snap()), hs, 0)
    {
      for i := 0 to |hs|
        invariant ReceiveEntriesSpec(Snap(), hs, i) == ReceiveEntriesSpec(old(Snap()), hs, 0)
      {
        ghost var pre := Snap();
        var untypedFileHeader := conn.Receive();
        assert Snap() == Apply(pre, Recv(pre.input));
        if untypedFileHeader.Err? {
          return Err(ChannelClosed);
        }
        var got := ReceiveChunks(hs[i].size);
        if got.Err? {
          return Err(got.error);
        }
        var entry := ReceivedEntry(hs[i].publicName, got.value, untypedFileHeader.value);
        UpdateState(state.(doneEntries := state.doneEntries + [entry]));
      }
      r := Ok(());
    }

    method DoReceive() returns (r: Result<()>)
      requires Valid()
      modifies this, conn
      ensures (Snap(), r) == DoReceiveSpec(old(Snap()))
    {
      if !isAuthenticatedAndReceivedHeaders {
        return Err(NotAuthenticated);
      }
      isReceiveFiles := true;
      UpdateState(state.(status := RECEIVING_FILES));
      conn.Send(Str(MAGIC_ACCEPT_FILES));
      var parsed := ParseHeaders(headers);
      if parsed.None? {
        return Err(BadHeaders);
      }
      var hs := parsed.value;
      totalReceived := 0;
      r := ReceiveEntries(hs);
      if r.Err? {
        return;
      }
      var done := helper.ExchangeDone();  // errors of the closing exchange are ignored
      UpdateState(state.(status := DONE));
      r := Ok(());
    }

    /** The body of the `try`: the dispatch loop. */
    method Dispatch() returns (r: Result<()>)
      requires Valid()
      modifies this, conn
      ensures (Snap(), r) == DispatchSpec(old(Snap()), auth, helper.crypto)
    {
      while true
        invariant DispatchSpec(Snap(), auth, helper.crypto) == DispatchSpec(old(Snap()), auth, helper.crypto)
        decreases |configs|
      {
        if configs == [] {
          return Ok(());
        }
        var config := configs[0];
        configs := configs[1..];
        if config.stage == WAIT {
          continue;
        } else if config.stage == AUTHENTICATE_RECEIVE_HEADER {
          if isAuthenticatedAndReceivedHeaders {
            continue;
          }
          r := DoAuthAndReceiveHeaders();
          if r.Err? {
            return;
          }
        } else if config.stage == RECEIVE_FILES {
          if isReceiveFiles {
            continue;
          }
          if !isAuthenticatedAndReceivedHeaders {
            r := DoAuthAndReceiveHeaders();
            if r.Err? {
              return;
            }
          }
          r := DoReceive();
          return;
        } else {
          return Ok(());
        }
      }
    }

    /** `handle`: the loop, DONE published on an error (which is passed on),
        then the reader and the connection closed. */
    method Handle() returns (r: Result<()>)
      requires Valid()
      modifies this, conn
      ensures (Snap(), r) == HandleSpec(old(Snap()), auth, helper.crypto)
    {
      r := Dispatch();
      if r.Err? {
        UpdateState(state.(status := DONE));
      }
      readerClosed := true;
      conn.Close();
    }
  }
}
