/**
 * The handshake helper shared by both adapters: marker checks, the hello
 * exchange, the teardown exchange and the challenge/response authentication.
 *
 * Each step is specified by a function from the channel's pending input to a
 * `Run` (result, input left, events produced); the methods of
 * `FileTransferHelper` perform the step on a `Conn` and are proved to do
 * exactly what their function describes.  HMAC-SHA512 and the random
 * generator are parameters (`Crypto`).
 */
module Handshake {
  import opened Wire
  import opened Defines
  import InternalUtil

  /** AUTH_NONCE_LENGTH: 512 bits. */
  const AUTH_NONCE_LENGTH: nat := 64

  /** An HMAC-SHA512 output. */
  type Mac = s: seq<bv8> | |s| == 64 witness seq(64, _ => 0 as bv8)

  /** The platform primitives: HMAC-SHA512 keyed by (the UTF-8 encoding of)
      a secret, and the random source behind `crypto.getRandomValues`. */
  datatype Crypto = Crypto(hmac: (string, seq<bv8>) -> Mac, random: nat -> bv8)

  /** The nonce the REQUEST side draws (with the random buffer randomised in place). */
  function Nonce(c: Crypto): (n: seq<bv8>)
    ensures |n| == AUTH_NONCE_LENGTH
  {
    seq(64, (i: int) requires 0 <= i => c.random(i))
  }

  /** The nonce REQUEST draws as the source is written: `randomArrayBufferSync`
      returns a fresh zero-filled buffer, so every session uses this one. */
  function WrittenNonce(): (n: seq<bv8>)
    ensures |n| == AUTH_NONCE_LENGTH
  {
    seq(64, _ => 0)
  }

  const HELLO: Msg := Obj(map["version" := Num(VERSION_V1)])

  /** `{secret: signature, name}`, the PROVIDE side's answer to the challenge. */
  function ProofMsg(sig: seq<bv8>, name: string): Msg
  {
    Obj(map["secret" := Bin(sig), "name" := Str(name)])
  }

  function NameMsg(name: string): Msg
  {
    Obj(map["name" := Str(name)])
  }

  // ------------------------------------------------------ specifications

  function ReceiveMagicRun(inb: seq<Msg>, magic: string): Run<()>
  {
    var r := Recv(inb);
    if r.result.Err? then Run(Err(ChannelClosed), r.rest, r.events)
    else if r.result.value == Str(magic) then Run(Ok(()), r.rest, r.events)
    else Run(Err(BadMagic), r.rest, r.events)
  }

  function ExchangeDoneRun(inb: seq<Msg>): Run<()>
  {
    Prefix([Sent(Str(MAGIC_DONE))], ReceiveMagicRun(inb, MAGIC_DONE))
  }

  /** The checks on the remote hello: an object with a numeric version equal to ours. */
  function CheckHello(m: Msg): Result<Msg>
  {
    match Field(m, "version")
    case Some(Num(v)) => if v == VERSION_V1 then Ok(m) else Err(VersionMismatch)
    case _ => Err(InvalidHello)
  }

  function ExchangeHelloRun(inb: seq<Msg>): Run<Msg>
  {
    var r := Recv(inb);
    Prefix([Sent(HELLO)],
      if r.result.Err? then r else Run(CheckHello(r.result.value), r.rest, r.events))
  }

  /** The name the peer announced, if it is a string passing the name rule. */
  function CheckRemoteName(m: Msg): Result<AuthResult>
  {
    match Field(m, "name")
    case Some(Str(n)) => if IsNameValid(n) then Ok(AuthResult(n)) else Err(InvalidName)
    case _ => Err(InvalidName)
  }

  /** The PROVIDE branch, after the init barrier. */
  function ProvideRun(inb: seq<Msg>, auth: Auth, hmac: (string, seq<bv8>) -> Mac): Run<AuthResult>
  {
    var r1 := Recv(inb);
    if r1.result.Err? then Run(Err(ChannelClosed), r1.rest, r1.events)
    else
      var nonce := r1.result.value;
      if !(nonce.Bin? && |nonce.bytes| == AUTH_NONCE_LENGTH) then Run(Err(InvalidNonce), r1.rest, r1.events)
      else
        var sent := [Sent(ProofMsg(hmac(auth.authSecret, nonce.bytes), auth.name))];
        var r2 := ReceiveMagicRun(r1.rest, MAGIC_AUTH_SUCCESS);
        if r2.result.Err? then Run(Err(r2.result.error), r2.rest, r1.events + sent + r2.events)
        else
          var r3 := Recv(r2.rest);
          var ev := r1.events + sent + r2.events + r3.events;
          if r3.result.Err? then Run(Err(ChannelClosed), r3.rest, ev)
          else Run(CheckRemoteName(r3.result.value), r3.rest, ev)
  }

  /** `Uint8Array` indexing: a position past the end reads as undefined, which `^` treats as 0. */
  function At(a: seq<bv8>, i: nat): bv8
  {
    if i < |a| then a[i] else 0
  }

  function Max(a: nat, b: nat): nat
  {
    if a < b then b else a
  }

  /** The OR-of-XOR accumulator over the first `n` positions. */
  function XorAcc(a: seq<bv8>, b: seq<bv8>, n: nat): bv8
  {
    if n == 0 then 0 else XorAcc(a, b, n - 1) | (At(a, n - 1) ^ At(b, n - 1))
  }

  /** The REQUEST branch, after the init barrier: `nonce` is the challenge drawn. */
  function RequestRun(inb: seq<Msg>, auth: Auth, hmac: (string, seq<bv8>) -> Mac, nonce: seq<bv8>): Run<AuthResult>
  {
    var expected := hmac(auth.authSecret, nonce);
    var sent := [Sent(Bin(nonce))];
    var r1 := Recv(inb);
    if r1.result.Err? then Run(Err(ChannelClosed), r1.rest, sent + r1.events)
    else
      var reply := r1.result.value;
      var ev := sent + r1.events;
      match (Field(reply, "name"), Field(reply, "secret"))
      case (Some(Str(n)), Some(Bin(secret))) =>
        if |secret| != AUTH_NONCE_LENGTH then Run(Err(InvalidAuthParams), r1.rest, ev)
        else if !IsNameValid(n) then Run(Err(InvalidName), r1.rest, ev)
        else if XorAcc(expected, secret, Max(|expected|, |secret|)) != 0 then Run(Err(AuthFailed), r1.rest, ev)
        else Run(Ok(AuthResult(n)), r1.rest, ev + [Sent(Str(MAGIC_AUTH_SUCCESS)), Sent(NameMsg(auth.name))])
      case _ => Run(Err(InvalidAuthParams), r1.rest, ev)
  }

  /** `doAuthenticate`: the init barrier, then the role's branch. */
  function AuthRun(inb: seq<Msg>, auth: Auth, hmac: (string, seq<bv8>) -> Mac, nonce: seq<bv8>): Run<AuthResult>
  {
    var init := ReceiveMagicRun(inb, MAGIC_AUTH_INIT);
    var ev := [Sent(Str(MAGIC_AUTH_INIT))] + init.events;
    if init.result.Err? then Run(Err(init.result.error), init.rest, ev)
    else if auth.role == PROVIDE then Prefix(ev, ProvideRun(init.rest, auth, hmac))
    else Prefix(ev, RequestRun(init.rest, auth, hmac, nonce))
  }

  // ---------------------------------------------------------- properties

  /** The comparison accepts exactly the byte-wise equal (zero-extended) inputs. */
  lemma {:induction false} XorAccZeroIff(a: seq<bv8>, b: seq<bv8>, n: nat)
    ensures XorAcc(a, b, n) == 0 <==> forall i :: 0 <= i < n ==> At(a, i) == At(b, i)
  {
    if n > 0 {
      XorAccZeroIff(a, b, n - 1);
      var x, y := XorAcc(a, b, n - 1), At(a, n - 1) ^ At(b, n - 1);
      assert (x | y) == 0 <==> x == 0 && y == 0;
      assert y == 0 <==> At(a, n - 1) == At(b, n - 1);
    }
  }

  /** For two buffers of the same length the accumulator is 0 iff they are equal. */
  lemma MacsEqualIff(a: seq<bv8>, b: seq<bv8>)
    requires |a| == |b|
    ensures XorAcc(a, b, Max(|a|, |b|)) == 0 <==> a == b
  {
    XorAccZeroIff(a, b, |a|);
    if forall i :: 0 <= i < |a| ==> At(a, i) == At(b, i) {
      assert forall i :: 0 <= i < |a| ==> a[i] == At(a, i) == At(b, i) == b[i];
    }
  }

  /** A shorter buffer is compared as if padded with zero bytes (the bound is the
      longer length): a buffer matches itself followed by any number of zeros. */
  lemma ZeroExtendedEqual(a: seq<bv8>, k: nat)
    ensures XorAcc(a, a + seq(k, _ => 0), |a| + k) == 0
  {
    var b := a + seq(k, _ => 0);
    XorAccZeroIff(a, b, |a| + k);
    forall i | 0 <= i < |a| + k
      ensures At(a, i) == At(b, i)
    {
      if i < |a| {
        assert b[i] == a[i];
      } else {
        assert b[i] == 0;
      }
    }
  }

  lemma ReceiveMagicSpec(inb: seq<Msg>, magic: string)
    ensures ReceiveMagicRun(inb, magic).result.Ok? <==> inb != [] && inb[0] == Str(magic)
    ensures inb == [] ==> ReceiveMagicRun(inb, magic) == Run(Err(ChannelClosed), [], [])
    ensures inb != [] ==> (ReceiveMagicRun(inb, magic).rest == inb[1..]
                           && ReceiveMagicRun(inb, magic).events == [Received(inb[0])])
    ensures inb != [] && inb[0] != Str(magic) ==> ReceiveMagicRun(inb, magic).result == Err(BadMagic)
  {
  }

  /** The done marker is sent first; success iff the peer's next message is the done marker. */
  lemma ExchangeDoneSpec(inb: seq<Msg>)
    ensures var r := ExchangeDoneRun(inb);
            && r.events[0] == Sent(Str(MAGIC_DONE))
            && (r.result.Ok? <==> inb != [] && inb[0] == Str(MAGIC_DONE))
  {
  }

  /** Our hello goes out first; the exchange succeeds iff the reply is an object whose
      `version` is the number 1, and then returns that reply.  A numeric version `k`
      other than 1 is a version mismatch; a reply without a numeric `version` (not an
      object, no such field, or a field of another type) is an invalid hello. */
  lemma ExchangeHelloSpec(inb: seq<Msg>, v: Msg, k: int)
    ensures ExchangeHelloRun(inb).events[0] == Sent(HELLO)
    ensures ExchangeHelloRun(inb).result == Ok(v) <==>
      inb != [] && v == inb[0] && v.Obj? && "version" in v.fields && v.fields["version"] == Num(VERSION_V1)
    ensures inb == [] ==> ExchangeHelloRun(inb).result == Err(ChannelClosed)
    ensures inb != [] && Field(inb[0], "version") == Some(Num(k)) && k != VERSION_V1 ==>
      ExchangeHelloRun(inb).result == Err(VersionMismatch)
    ensures inb != [] && !(Field(inb[0], "version").Some? && Field(inb[0], "version").value.Num?) ==>
      ExchangeHelloRun(inb).result == Err(InvalidHello)
  {
  }

  /** Both sides pass the init barrier before any role-specific message:
      with anything but the init marker first, nothing else is sent or received. */
  lemma AuthBarrier(inb: seq<Msg>, auth: Auth, hmac: (string, seq<bv8>) -> Mac, nonce: seq<bv8>)
    ensures AuthRun(inb, auth, hmac, nonce).events[0] == Sent(Str(MAGIC_AUTH_INIT))
    ensures AuthRun(inb, auth, hmac, nonce).result.Ok? ==>
      inb != [] && inb[0] == Str(MAGIC_AUTH_INIT) && AuthRun(inb, auth, hmac, nonce).events[1] == Received(Str(MAGIC_AUTH_INIT))
    ensures (inb == [] || inb[0] != Str(MAGIC_AUTH_INIT)) ==>
      AuthRun(inb, auth, hmac, nonce).result.Err? && |AuthRun(inb, auth, hmac, nonce).events| <= 2
  {
  }

  /** PROVIDE succeeds exactly on: the barrier, a 64-byte binary nonce, the success
      marker and a valid name; on success it has sent `{secret: HMAC(secret, nonce), name}`
      and returns the peer's name. */
  lemma ProvideSpec(inb: seq<Msg>, auth: Auth, hmac: (string, seq<bv8>) -> Mac, nonce: seq<bv8>, n: string)
    requires auth.role == PROVIDE
    ensures AuthRun(inb, auth, hmac, nonce).result == Ok(AuthResult(n)) <==>
      && |inb| >= 4
      && inb[0] == Str(MAGIC_AUTH_INIT)
      && inb[1].Bin? && |inb[1].bytes| == AUTH_NONCE_LENGTH
      && inb[2] == Str(MAGIC_AUTH_SUCCESS)
      && Field(inb[3], "name") == Some(Str(n)) && IsNameValid(n)
    ensures AuthRun(inb, auth, hmac, nonce).result.Ok? ==>
      AuthRun(inb, auth, hmac, nonce).events ==
        [Sent(Str(MAGIC_AUTH_INIT)), Received(inb[0]), Received(inb[1]),
         Sent(ProofMsg(hmac(auth.authSecret, inb[1].bytes), auth.name)),
         Received(inb[2]), Received(inb[3])]
    ensures |inb| >= 2 && inb[0] == Str(MAGIC_AUTH_INIT) && !(inb[1].Bin? && |inb[1].bytes| == AUTH_NONCE_LENGTH) ==>
      AuthRun(inb, auth, hmac, nonce).result == Err(InvalidNonce)
  {
    var init := ReceiveMagicRun(inb, MAGIC_AUTH_INIT);
    if init.result.Ok? {
      var r1 := Recv(init.rest);
      if r1.result.Ok? && r1.result.value.Bin? && |r1.result.value.bytes| == AUTH_NONCE_LENGTH {
        var r2 := ReceiveMagicRun(r1.rest, MAGIC_AUTH_SUCCESS);
        if r2.result.Ok? {
          assert inb[1..][1..][1..] == inb[3..];
          if |inb| >= 4 {
            assert inb[1..][1..][1..][0] == inb[3];
          }
        }
      }
    }
  }

  /** REQUEST succeeds exactly on: the barrier and a reply whose `name` is a valid
      string and whose `secret` is the expected 64-byte signature. */
  lemma RequestSpec(inb: seq<Msg>, auth: Auth, hmac: (string, seq<bv8>) -> Mac, nonce: seq<bv8>, n: string)
    requires auth.role == REQUEST
    ensures AuthRun(inb, auth, hmac, nonce).result == Ok(AuthResult(n)) <==>
      && |inb| >= 2
      && inb[0] == Str(MAGIC_AUTH_INIT)
      && Field(inb[1], "name") == Some(Str(n)) && IsNameValid(n)
      && Field(inb[1], "secret") == Some(Bin(hmac(auth.authSecret, nonce)))
  {
    var init := ReceiveMagicRun(inb, MAGIC_AUTH_INIT);
    if init.result.Ok? && |inb| >= 2 {
      assert inb[1..][0] == inb[1];
      var reply := inb[1];
      var expected := hmac(auth.authSecret, nonce);
      match (Field(reply, "name"), Field(reply, "secret"))
      case (Some(Str(m)), Some(Bin(secret))) =>
        if |secret| == AUTH_NONCE_LENGTH {
          MacsEqualIff(expected, secret);
        }
      case _ =>
    }
  }

  /** REQUEST sends the success marker and its name only when it accepts, and
      then those are its last two messages. */
  lemma RequestSuccessLast(inb: seq<Msg>, auth: Auth, hmac: (string, seq<bv8>) -> Mac, nonce: seq<bv8>)
    requires auth.role == REQUEST
    ensures var r := AuthRun(inb, auth, hmac, nonce);
            (Sent(Str(MAGIC_AUTH_SUCCESS)) in r.events <==> r.result.Ok?)
            && (r.result.Ok? ==> r.events[|r.events| - 2..] == [Sent(Str(MAGIC_AUTH_SUCCESS)), Sent(NameMsg(auth.name))])
  {
    var init := ReceiveMagicRun(inb, MAGIC_AUTH_INIT);
    if init.result.Ok? {
      var r1 := Recv(init.rest);
      if r1.result.Ok? {
        assert Sent(Bin(nonce)) != Sent(Str(MAGIC_AUTH_SUCCESS));
      }
    }
  }

  /** A secret of the wrong byte length is refused before any comparison. */
  lemma WrongLengthSecretRejected(inb: seq<Msg>, auth: Auth, hmac: (string, seq<bv8>) -> Mac, nonce: seq<bv8>, n: string, s: seq<bv8>)
    requires auth.role == REQUEST
    requires |inb| >= 2 && inb[0] == Str(MAGIC_AUTH_INIT)
    requires inb[1] == ProofMsg(s, n) && |s| != AUTH_NONCE_LENGTH
    ensures AuthRun(inb, auth, hmac, nonce).result == Err(InvalidAuthParams)
  {
    assert inb[1..][0] == inb[1];
  }

  /** An invalid remote name fails authentication on either side. */
  lemma InvalidNameRejected(inb: seq<Msg>, auth: Auth, hmac: (string, seq<bv8>) -> Mac, nonce: seq<bv8>, n: string)
    requires !IsNameValid(n)
    ensures AuthRun(inb, auth, hmac, nonce).result != Ok(AuthResult(n))
  {
    if auth.role == PROVIDE {
      ProvideSpec(inb, auth, hmac, nonce, n);
    } else {
      RequestSpec(inb, auth, hmac, nonce, n);
    }
  }

  /** What PROVIDE does when fed REQUEST's messages. */
  lemma ProvideSide(p: Auth, qName: string, hmac: (string, seq<bv8>) -> Mac, nonce: seq<bv8>, other: seq<bv8>)
    requires p.role == PROVIDE && IsNameValid(qName) && |nonce| == AUTH_NONCE_LENGTH
    ensures var pv := AuthRun([Str(MAGIC_AUTH_INIT), Bin(nonce), Str(MAGIC_AUTH_SUCCESS), NameMsg(qName)], p, hmac, other);
            && pv.result == Ok(AuthResult(qName))
            && SentMsgs(pv.events) == [Str(MAGIC_AUTH_INIT), ProofMsg(hmac(p.authSecret, nonce), p.name)]
  {
    var pIn := [Str(MAGIC_AUTH_INIT), Bin(nonce), Str(MAGIC_AUTH_SUCCESS), NameMsg(qName)];
    var proof := ProofMsg(hmac(p.authSecret, nonce), p.name);
    var pv := AuthRun(pIn, p, hmac, other);
    assert pIn[1..][1..][1..] == [NameMsg(qName)];
    assert pv.events == [Sent(Str(MAGIC_AUTH_INIT)), Received(pIn[0]), Received(pIn[1]), Sent(proof), Received(pIn[2]), Received(pIn[3])];
    assert SentMsgs(pv.events[5..]) == [];
    assert SentMsgs(pv.events[4..]) == [];
    assert SentMsgs(pv.events[3..]) == [proof];
    assert SentMsgs(pv.events[2..]) == [proof];
    assert SentMsgs(pv.events[1..]) == [proof];
  }

  /** The REQUEST branch accepts the expected signature under a valid name. */
  lemma RequestAccepts(q: Auth, pName: string, hmac: (string, seq<bv8>) -> Mac, nonce: seq<bv8>)
    requires IsNameValid(pName)
    ensures var proof := ProofMsg(hmac(q.authSecret, nonce), pName);
            RequestRun([proof], q, hmac, nonce) ==
              Run(Ok(AuthResult(pName)), [], [Sent(Bin(nonce)), Received(proof), Sent(Str(MAGIC_AUTH_SUCCESS)), Sent(NameMsg(q.name))])
  {
    var expected := hmac(q.authSecret, nonce);
    MacsEqualIff(expected, expected);
    var proof := ProofMsg(expected, pName);
    assert Field(proof, "name") == Some(Str(pName)) && Field(proof, "secret") == Some(Bin(expected));
  }

  /** With the nonce as written, a proof recorded from one session is accepted
      by every later REQUEST session under the same secret: nothing in the
      challenge changes between sessions. */
  lemma ReplayAccepted(q: Auth, later: Auth, pName: string, hmac: (string, seq<bv8>) -> Mac, recorded: Msg)
    requires IsNameValid(pName) && later.authSecret == q.authSecret
    requires recorded == ProofMsg(hmac(q.authSecret, WrittenNonce()), pName)
    ensures RequestRun([recorded], later, hmac, WrittenNonce()).result == Ok(AuthResult(pName))
  {
    RequestAccepts(later, pName, hmac, WrittenNonce());
  }

  /** What REQUEST does when fed PROVIDE's messages. */
  lemma RequestSide(q: Auth, pName: string, hmac: (string, seq<bv8>) -> Mac, nonce: seq<bv8>)
    requires q.role == REQUEST && IsNameValid(pName) && IsNameValid(q.name)
    ensures var rq := AuthRun([Str(MAGIC_AUTH_INIT), ProofMsg(hmac(q.authSecret, nonce), pName)], q, hmac, nonce);
            && rq.result == Ok(AuthResult(pName))
            && SentMsgs(rq.events) == [Str(MAGIC_AUTH_INIT), Bin(nonce), Str(MAGIC_AUTH_SUCCESS), NameMsg(q.name)]
  {
    var expected := hmac(q.authSecret, nonce);
    var qIn := [Str(MAGIC_AUTH_INIT), ProofMsg(expected, pName)];
    var rq := AuthRun(qIn, q, hmac, nonce);
    var proof := ProofMsg(expected, pName);
    assert qIn[1..] == [proof];
    RequestAccepts(q, pName, hmac, nonce);
    var role := RequestRun([proof], q, hmac, nonce);
    var head, mid, tail := [Sent(Str(MAGIC_AUTH_INIT)), Received(qIn[0])], [Sent(Bin(nonce)), Received(proof)],
                           [Sent(Str(MAGIC_AUTH_SUCCESS)), Sent(NameMsg(q.name))];
    assert rq == Prefix(head, role);
    assert role.events == mid + tail;
    assert SentMsgs(head) == [Str(MAGIC_AUTH_INIT)] by { assert SentMsgs(head[1..]) == []; }
    assert SentMsgs(mid) == [Bin(nonce)] by { assert SentMsgs(mid[1..]) == []; }
    assert SentMsgs(tail) == [Str(MAGIC_AUTH_SUCCESS), NameMsg(q.name)] by { assert SentMsgs(tail[1..]) == [NameMsg(q.name)]; }
    SentMsgsAppend(mid, tail);
    SentMsgsAppend(head, mid + tail);
  }

  /** Two peers with the same secret and valid names, each fed what the other
      sends, both accept and learn each other's name: PROVIDE's signature is
      exactly REQUEST's expected one. */
  lemma HandshakeAgreement(p: Auth, q: Auth, hmac: (string, seq<bv8>) -> Mac, nonce: seq<bv8>, other: seq<bv8>)
    requires p.role == PROVIDE && q.role == REQUEST
    requires p.authSecret == q.authSecret
    requires IsNameValid(p.name) && IsNameValid(q.name)
    requires |nonce| == AUTH_NONCE_LENGTH
    ensures var pIn := [Str(MAGIC_AUTH_INIT), Bin(nonce), Str(MAGIC_AUTH_SUCCESS), NameMsg(q.name)];
            var qIn := [Str(MAGIC_AUTH_INIT), ProofMsg(hmac(p.authSecret, nonce), p.name)];
            var pv := AuthRun(pIn, p, hmac, other);
            var rq := AuthRun(qIn, q, hmac, nonce);
            && SentMsgs(rq.events) == pIn && SentMsgs(pv.events) == qIn
            && pv.result == Ok(AuthResult(q.name)) && rq.result == Ok(AuthResult(p.name))
  {
    ProvideSide(p, q.name, hmac, nonce, other);
    RequestSide(q, p.name, hmac, nonce);
  }

  /** With a different signature in the reply, REQUEST rejects the peer. */
  lemma WrongSecretRejected(inb: seq<Msg>, q: Auth, hmac: (string, seq<bv8>) -> Mac, nonce: seq<bv8>, n: string, s: seq<bv8>)
    requires q.role == REQUEST
    requires |inb| >= 2 && inb[0] == Str(MAGIC_AUTH_INIT)
    requires inb[1] == ProofMsg(s, n) && IsNameValid(n)
    requires |s| == AUTH_NONCE_LENGTH && s != hmac(q.authSecret, nonce)
    ensures AuthRun(inb, q, hmac, nonce).result == Err(AuthFailed)
  {
    assert inb[1..][0] == inb[1];
    MacsEqualIff(hmac(q.authSecret, nonce), s);
  }

  // --------------------------------------------------------- the helper

  /** The timing-insensitive comparison loop. */
  method CompareMacs(a: seq<bv8>, b: seq<bv8>) returns (r: bv8)
    ensures r == XorAcc(a, b, Max(|a|, |b|))
    ensures r == 0 <==> forall i :: 0 <= i < Max(|a|, |b|) ==> At(a, i) == At(b, i)
    ensures |a| == |b| ==> (r == 0 <==> a == b)
  {
    r := 0;
    var i := 0;
    while i < Max(|a|, |b|)
      invariant 0 <= i <= Max(|a|, |b|)
      invariant r == XorAcc(a, b, i)
    {
      r := r | (At(a, i) ^ At(b, i));
      i := i + 1;
    }
    XorAccZeroIff(a, b, i);
    if |a| == |b| {
      MacsEqualIff(a, b);
    }
  }

  /** `FileTransferHelper`: the handshake steps over one connection. */
  class FileTransferHelper {
    const conn: Conn
    const crypto: Crypto

    constructor (conn: Conn, crypto: Crypto)
      ensures this.conn == conn && this.crypto == crypto
    {
      this.conn := conn;
      this.crypto := crypto;
    }

    method ReceiveMagic(magic: string) returns (r: Result<()>)
      modifies conn
      ensures Performed(conn, r, ReceiveMagicRun(old(conn.Input()), magic))
    {
      var m := conn.Receive();
      if m.Err? {
        r := Err(ChannelClosed);
      } else if m.value == Str(magic) {
        r := Ok(());
      } else {
        r := Err(BadMagic);
      }
    }

    method ExchangeDone() returns (r: Result<()>)
      modifies conn
      ensures Performed(conn, r, ExchangeDoneRun(old(conn.Input())))
    {
      conn.Send(Str(MAGIC_DONE));
      r := ReceiveMagic(MAGIC_DONE);
    }

    method ExchangeHello() returns (r: Result<Msg>)
      modifies conn
      ensures Performed(conn, r, ExchangeHelloRun(old(conn.Input())))
    {
      conn.Send(HELLO);
      var m := conn.Receive();
      if m.Err? {
        r := m;
      } else {
        r := CheckHello(m.value);
      }
    }

    /** The PROVIDE branch of `doAuthenticate`. */
    method Provide(auth: Auth) returns (r: Result<AuthResult>)
      modifies conn
      ensures Performed(conn, r, ProvideRun(old(conn.Input()), auth, crypto.hmac))
    {
      var nonce := conn.Receive();
      if nonce.Err? {
        return Err(ChannelClosed);
      }
      if !(nonce.value.Bin? && |nonce.value.bytes| == AUTH_NONCE_LENGTH) {
        return Err(InvalidNonce);
      }
      var signRes := crypto.hmac(auth.authSecret, nonce.value.bytes);
      conn.Send(ProofMsg(signRes, auth.name));
      var ok := ReceiveMagic(MAGIC_AUTH_SUCCESS);
      if ok.Err? {
        return Err(ok.error);
      }
      var reply := conn.Receive();
      if reply.Err? {
        return Err(ChannelClosed);
      }
      r := CheckRemoteName(reply.value);
    }

    /** The REQUEST branch of `doAuthenticate`, with the nonce drawn in place. */
    method Request(auth: Auth) returns (r: Result<AuthResult>)
      modifies conn
      ensures Performed(conn, r, RequestRun(old(conn.Input()), auth, crypto.hmac, Nonce(crypto)))
    {
      var buffer, ranges := InternalUtil.RandomBuffer(AUTH_NONCE_LENGTH, crypto.random);
      var nonce := buffer[..];
      assert nonce == Nonce(crypto);
      var signRes := crypto.hmac(auth.authSecret, nonce);
      conn.Send(Bin(nonce));
      var reply := conn.Receive();
      if reply.Err? {
        return Err(ChannelClosed);
      }
      var name, secret := Field(reply.value, "name"), Field(reply.value, "secret");
      if !(name.Some? && name.value.Str? && secret.Some? && secret.value.Bin?) {
        return Err(InvalidAuthParams);
      }
      if |secret.value.bytes| != AUTH_NONCE_LENGTH {
        return Err(InvalidAuthParams);
      }
      if !IsNameValid(name.value.s) {
        return Err(InvalidName);
      }
      var acc := CompareMacs(signRes, secret.value.bytes);
      if acc != 0 {
        return Err(AuthFailed);
      }
      conn.Send(Str(MAGIC_AUTH_SUCCESS));
      conn.Send(NameMsg(auth.name));
      r := Ok(AuthResult(name.value.s));
    }

    method DoAuthenticate(auth: Auth) returns (r: Result<AuthResult>)
      modifies conn
      ensures Performed(conn, r, AuthRun(old(conn.Input()), auth, crypto.hmac, Nonce(crypto)))
    {
      ghost var t0, first := conn.trace, [Sent(Str(MAGIC_AUTH_INIT))];
      ghost var run := ReceiveMagicRun(conn.Input(), MAGIC_AUTH_INIT);
      conn.Send(Str(MAGIC_AUTH_INIT));
      var init := ReceiveMagic(MAGIC_AUTH_INIT);
      AppendAssoc(t0, first, run.events);
      if init.Err? {
        return Err(init.error);
      }
      ghost var t1 := conn.trace;
      if auth.role == PROVIDE {
        r := Provide(auth);
        AppendAssoc(t0, first + run.events, ProvideRun(run.rest, auth, crypto.hmac).events);
      } else {
        r := Request(auth);
        AppendAssoc(t0, first + run.events, RequestRun(run.rest, auth, crypto.hmac, Nonce(crypto)).events);
      }
    }
  }
}
