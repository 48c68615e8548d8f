/**
 * The two adapters against each other: what the sender puts on the channel
 * is what the receiver expects, and the other way round.
 */
module Transfer {
  import opened Wire
  import opened Defines
  import Sender
  import Receiver

  /** The messages the sender's chunk loop sends are the chunks, one binary buffer each. */
  lemma {:induction false} SentChunks(cs: seq<seq<bv8>>)
    ensures SentMsgs(Sender.StopAndWait(cs)) == Receiver.Bins(cs)
  {
    if cs != [] {
      var ev := Sender.StopAndWait(cs);
      SentChunks(cs[1..]);
      assert ev[1..] == [Received(Str(MAGIC_DID_RECEIVE))] + Sender.StopAndWait(cs[1..]);
      assert ev[1..][1..] == Sender.StopAndWait(cs[1..]);
    }
  }

  /** The messages the receiver's chunk loop sends are one acknowledgement per chunk. */
  lemma {:induction false} SentAcks(cs: seq<seq<bv8>>)
    ensures |SentMsgs(Receiver.AckedChunks(cs))| == |cs|
    ensures Sender.AcksWaiting(SentMsgs(Receiver.AckedChunks(cs)), |cs|)
  {
    if cs != [] {
      var ev := Receiver.AckedChunks(cs);
      SentAcks(cs[1..]);
      assert ev[1..][1..] == Receiver.AckedChunks(cs[1..]);
      assert SentMsgs(ev) == [Str(MAGIC_DID_RECEIVE)] + SentMsgs(Receiver.AckedChunks(cs[1..]));
    }
  }

  /** A file survives the chunk protocol: fed the chunks the sender sends, the
      receiver, told the file's size, reassembles exactly the file and
      acknowledges every chunk; fed those acknowledgements (followed by anything),
      the sender's chunk loop succeeds. */
  lemma ChunkLoopsAgree(file: seq<bv8>, s: Sender.Session, r: Receiver.Session, later: seq<Msg>)
    requires SentMsgs(Sender.StopAndWait(Sender.Chunks(file, 0))) <= r.input
    ensures var cs := Sender.Chunks(file, 0);
      var rq := Receiver.ReceiveChunksSpec(r, |file|, []);
      var sq := Sender.SendChunksSpec(s.(input := SentMsgs(Receiver.AckedChunks(cs)) + later), file, 0);
      && rq.1 == Ok(file)
      && rq.0.trace == r.trace + Receiver.AckedChunks(cs)
      && sq.1.Ok?
      && sq.0.trace == s.trace + Sender.StopAndWait(cs)
      && sq.0.input == later
  {
    var cs := Sender.Chunks(file, 0);
    Sender.ChunksCover(file, 0);
    assert file[0..] == file;
    SentChunks(cs);
    Receiver.ReceiveExact(r, cs);
    SentAcks(cs);
    var acks := SentMsgs(Receiver.AckedChunks(cs));
    assert Sender.AcksWaiting(acks + later, |cs|);
    Sender.SendChunksSucceedsIff(s.(input := acks + later), file, 0);
    Sender.SendChunksEffect(s.(input := acks + later), file, 0);
    assert (acks + later)[|cs|..] == later;
  }

  /** The header list the sender sends parses, on the receiver's side, to one
      header per entry with the entry's name and the length of its file. */
  lemma HeadersAgree(entries: seq<TransferEntry>)
    ensures var hs := ParseHeaders(EncodeHeaders(HeadersOf(entries)));
      && hs.Some? && |hs.value| == |entries|
      && forall i :: 0 <= i < |entries| ==>
           hs.value[i].publicName == entries[i].publicName && hs.value[i].size == |entries[i].file|
  {
    HeadersRoundTrip(HeadersOf(entries));
  }
  /** The untyped header the sender sends ahead of each entry. */
  function Untyped(entries: seq<TransferEntry>): (us: seq<Msg>)
    ensures |us| == |entries|
  {
    seq(|entries|, k requires 0 <= k < |entries| => OrEmpty(entries[k].untypedHeader))
  }

  /** The chunks the sender cuts each entry's file into. */
  function FileChunks(entries: seq<TransferEntry>): (css: seq<seq<seq<bv8>>>)
    ensures |css| == |entries|
  {
    seq(|entries|, k requires 0 <= k < |entries| => Sender.Chunks(entries[k].file, 0))
  }

  /** The messages the sender's entry loop sends from entry `i` on are, per
      entry, its untyped header followed by its chunks. */
  lemma {:induction false} EntriesFramed(entries: seq<TransferEntry>, i: nat)
    requires i <= |entries|
    ensures SentMsgs(Sender.EntriesEvents(entries, i))
         == Receiver.Framed(Untyped(entries)[i..], FileChunks(entries)[i..])
    decreases |entries| - i
  {
    if i < |entries| {
      var head := [Sent(OrEmpty(entries[i].untypedHeader))];
      var cs := Sender.Chunks(entries[i].file, 0);
      var tail := Sender.EntriesEvents(entries, i + 1);
      EntriesFramed(entries, i + 1);
      SentChunks(cs);
      SentMsgsAppend(head + Sender.StopAndWait(cs), tail);
      SentMsgsAppend(head, Sender.StopAndWait(cs));
      assert Untyped(entries)[i..][1..] == Untyped(entries)[i + 1..];
      assert FileChunks(entries)[i..][1..] == FileChunks(entries)[i + 1..];
    } else {
      assert Untyped(entries)[i..] == [];
    }
  }

  /** Each entry's chunks are non-empty and add up to the size its header announces. */
  lemma ChunkedFiles(entries: seq<TransferEntry>)
    ensures Receiver.ChunkedAs(HeadersOf(entries), FileChunks(entries))
    ensures forall k :: 0 <= k < |entries| ==> Flatten(FileChunks(entries)[k]) == entries[k].file
  {
    forall k | 0 <= k < |entries|
      ensures Flatten(FileChunks(entries)[k]) == entries[k].file
      ensures Receiver.NonEmptyChunks(FileChunks(entries)[k])
    {
      Sender.ChunksCover(entries[k].file, 0);
      assert entries[k].file[0..] == entries[k].file;
    }
  }

  /** The `k`-th entry the receiver records is made of the `k`-th header's
      name, the `k`-th chunk list and the `k`-th untyped header. */
  lemma {:induction false} EntriesOfAt(hs: seq<EntryHeader>, us: seq<Msg>, css: seq<seq<seq<bv8>>>)
    requires |hs| == |us| == |css|
    ensures forall k :: 0 <= k < |hs| ==>
      Receiver.EntriesOf(hs, us, css)[k] == Receiver.ReceivedEntry(hs[k].publicName, Flatten(css[k]), us[k])
    decreases |hs|
  {
    if hs != [] {
      EntriesOfAt(hs[1..], us[1..], css[1..]);
      var es := Receiver.EntriesOf(hs, us, css);
      forall k | 1 <= k < |hs|
        ensures es[k] == Receiver.ReceivedEntry(hs[k].publicName, Flatten(css[k]), us[k])
      {
        assert es[k] == Receiver.EntriesOf(hs[1..], us[1..], css[1..])[k - 1];
      }
    }
  }

  /** `after` is `before` followed by one entry per transfer entry: its name,
      its whole file and the untyped header sent with it, in order. */
  predicate Recorded(entries: seq<TransferEntry>, before: seq<Receiver.ReceivedEntry>, after: seq<Receiver.ReceivedEntry>)
  {
    && |after| == |before| + |entries|
    && after[..|before|] == before
    && forall k :: 0 <= k < |entries| ==>
         after[|before| + k]
           == Receiver.ReceivedEntry(entries[k].publicName, entries[k].file, OrEmpty(entries[k].untypedHeader))
  }

  /** Every entry survives the transfer: a receiver that has accepted the header
      list the sender announced and is then fed what the sender's entry loop
      sends (followed by anything) finishes with DONE, having recorded every entry. */
  lemma EntriesDelivered(entries: seq<TransferEntry>, r: Receiver.Session, rest: seq<Msg>)
    requires r.isAuthenticatedAndReceivedHeaders && r.headers == EncodeHeaders(HeadersOf(entries))
    requires r.input == SentMsgs(Sender.EntriesEvents(entries, 0)) + rest
    ensures Receiver.DoReceiveSpec(r).1 == Ok(())
    ensures Receiver.DoReceiveSpec(r).0.state.status == Receiver.DONE
    ensures Recorded(entries, r.state.doneEntries, Receiver.DoReceiveSpec(r).0.state.doneEntries)
  {
    var hs, us, css := HeadersOf(entries), Untyped(entries), FileChunks(entries);
    HeadersRoundTrip(hs);
    EntriesFramed(entries, 0);
    assert us[0..] == us && css[0..] == css;
    ChunkedFiles(entries);
    assert ParseHeaders(r.headers).value == hs;
    Receiver.DoReceiveFramed(r, us, css, rest);
    var done := Receiver.DoReceiveSpec(r).0.state.doneEntries;
    var es := Receiver.EntriesOf(hs, us, css);
    assert done == r.state.doneEntries + es;
    EntriesOfAt(hs, us, css);
    forall k | 0 <= k < |entries|
      ensures done[|r.state.doneEntries| + k]
           == Receiver.ReceivedEntry(entries[k].publicName, entries[k].file, OrEmpty(entries[k].untypedHeader))
    {
      assert done[|r.state.doneEntries| + k] == es[k];
    }
  }
}
