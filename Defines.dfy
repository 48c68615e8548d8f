/**
 * Shared definitions of the transfer protocol: the protocol version, the
 * authentication roles, the name rule both peers enforce, entry headers,
 * the wire markers and the bootstrap token.
 */
module Defines {
  import opened Wire
  import Base64
  import opened Chars

  const VERSION_V1: int := 1

  datatype AuthRole = REQUEST | PROVIDE

  /** What one party presents: its role, the shared secret and its own name. */
  datatype Auth = Auth(role: AuthRole, authSecret: string, name: string)

  datatype AuthResult = AuthResult(remotePartyName: string)

  // --------------------------------------------------------------- names

  predicate IsNameChar(c: char)
  {
    ('a' <= c <= 'z') || ('A' <= c <= 'Z') || ('0' <= c <= '9') || c == '_' || c == '-'
  }

  predicate IsDash(c: char)
  {
    c == '_' || c == '-'
  }

  /** The anchored pattern `^[a-zA-Z0-9_-]+$`: one or more name characters. */
  predicate MatchesNameChars(s: string)
    decreases |s|
  {
    |s| > 0 && IsNameChar(s[0]) && (|s| == 1 || MatchesNameChars(s[1..]))
  }

  predicate AllDashes(s: string)
  {
    forall i :: 0 <= i < |s| ==> IsDash(s[i])
  }

  /** The pattern `^[_-]+`: some non-empty prefix of length at least `k` is all dashes. */
  predicate LeadingDashesFrom(s: string, k: nat)
    decreases |s| - k
  {
    1 <= k <= |s| && (AllDashes(s[..k]) || LeadingDashesFrom(s, k + 1))
  }

  /** The unanchored pattern `[_-]+$`: some non-empty suffix starting at or after `k` is all dashes. */
  predicate TrailingDashesFrom(s: string, k: nat)
    decreases |s| - k
  {
    k < |s| && (AllDashes(s[k..]) || TrailingDashesFrom(s, k + 1))
  }

  /** `isFileTransferAuthNameValid`: the checks in the source's order. */
  predicate IsNameValid(name: string)
  {
    if |name| < 3 then false
    else if |name| > 64 then false
    else if !MatchesNameChars(name) then false
    else if LeadingDashesFrom(name, 1) then false
    else if TrailingDashesFrom(name, 0) then false
    else true
  }

  lemma {:induction false} MatchesNameCharsIff(s: string)
    ensures MatchesNameChars(s) <==> |s| > 0 && forall i :: 0 <= i < |s| ==> IsNameChar(s[i])
    decreases |s|
  {
    if |s| > 1 {
      MatchesNameCharsIff(s[1..]);
      assert forall i :: 1 <= i < |s| ==> s[i] == s[1..][i - 1];
    }
  }

  lemma {:induction false} LeadingDashesOnlyIfFirst(s: string, k: nat)
    requires 1 <= k
    ensures LeadingDashesFrom(s, k) ==> IsDash(s[0])
    decreases |s| - k
  {
    if LeadingDashesFrom(s, k) {
      if AllDashes(s[..k]) {
        assert s[..k][0] == s[0];
      } else {
        LeadingDashesOnlyIfFirst(s, k + 1);
      }
    }
  }

  lemma LeadingDashesIff(s: string)
    ensures LeadingDashesFrom(s, 1) <==> |s| >= 1 && IsDash(s[0])
  {
    LeadingDashesOnlyIfFirst(s, 1);
    if |s| >= 1 && IsDash(s[0]) {
      assert s[..1] == [s[0]];
    }
  }

  lemma {:induction false} TrailingDashesIff(s: string, k: nat)
    requires k < |s|
    ensures TrailingDashesFrom(s, k) <==> IsDash(s[|s| - 1])
    decreases |s| - k
  {
    if k == |s| - 1 {
      assert s[k..] == [s[|s| - 1]];
    } else {
      assert s[k..][|s| - 1 - k] == s[|s| - 1];
      TrailingDashesIff(s, k + 1);
      if IsDash(s[|s| - 1]) {
        assert s[|s| - 1..] == [s[|s| - 1]];
      }
    }
  }

  /** The name rule in plain terms: 3 to 64 characters from [a-zA-Z0-9_-],
      not starting and not ending with `_` or `-`; both directions. */
  lemma NameRule(name: string)
    ensures IsNameValid(name) <==>
      && 3 <= |name| <= 64
      && (forall i :: 0 <= i < |name| ==> IsNameChar(name[i]))
      && !IsDash(name[0])
      && !IsDash(name[|name| - 1])
  {
    MatchesNameCharsIff(name);
    if |name| > 0 {
      LeadingDashesIff(name);
      TrailingDashesIff(name, 0);
    }
  }

  /** A name with a character outside the class is refused whatever its length. */
  lemma NameWithBadCharRejected(name: string, i: nat)
    requires i < |name| && !IsNameChar(name[i])
    ensures !IsNameValid(name)
  {
    NameRule(name);
  }

  // ------------------------------------------------------------- entries

  /** An entry offered by the sender: the file is its byte content. */
  datatype TransferEntry = TransferEntry(publicName: string, file: seq<bv8>, untypedHeader: Option<Msg>)

  /** What is announced ahead of an entry's bytes. */
  datatype EntryHeader = EntryHeader(publicName: string, size: int)

  /** `fileTransferHeaderFromFileTransferEntry`. */
  function HeaderOf(e: TransferEntry): EntryHeader
  {
    EntryHeader(e.publicName, |e.file|)
  }

  /** `entries.map(fileTransferHeaderFromFileTransferEntry)`. */
  function HeadersOf(entries: seq<TransferEntry>): (hs: seq<EntryHeader>)
    ensures |hs| == |entries|
    ensures forall i :: 0 <= i < |entries| ==>
      hs[i].publicName == entries[i].publicName && hs[i].size == |entries[i].file|
    decreases |entries|
  {
    if entries == [] then [] else [HeaderOf(entries[0])] + HeadersOf(entries[1..])
  }

  /** The optional header as sent: an absent or null value becomes the empty string (`?? ""`). */
  function OrEmpty(h: Option<Msg>): Msg
  {
    match h
    case None => Str("")
    case Some(Null) => Str("")
    case Some(v) => v
  }

  function EncodeHeader(h: EntryHeader): Msg
  {
    Obj(map["publicName" := Str(h.publicName), "size" := Num(h.size)])
  }

  function EncodeHeaders(hs: seq<EntryHeader>): (m: Msg)
    ensures m.Arr? && |m.items| == |hs|
    ensures forall i :: 0 <= i < |hs| ==> m.items[i] == EncodeHeader(hs[i])
  {
    Arr(seq(|hs|, i requires 0 <= i < |hs| => EncodeHeader(hs[i])))
  }

  function ParseHeader(m: Msg): Option<EntryHeader>
  {
    match (Field(m, "publicName"), Field(m, "size"))
    case (Some(Str(n)), Some(Num(sz))) => Some(EntryHeader(n, sz))
    case _ => None
  }

  function ParseHeaderList(items: seq<Msg>): (r: Option<seq<EntryHeader>>)
    ensures r.Some? ==> |r.value| == |items|
    decreases |items|
  {
    if items == [] then Some([])
    else match (ParseHeader(items[0]), ParseHeaderList(items[1..]))
      case (Some(h), Some(hs)) => Some([h] + hs)
      case _ => None
  }

  /** The receiver's reading of a header list: an array of {publicName: string, size: number}. */
  function ParseHeaders(m: Msg): Option<seq<EntryHeader>>
  {
    if m.Arr? then ParseHeaderList(m.items) else None
  }

  lemma {:induction false} ParseHeaderListEncoded(hs: seq<EntryHeader>)
    ensures ParseHeaderList(EncodeHeaders(hs).items) == Some(hs)
    decreases |hs|
  {
    var items := EncodeHeaders(hs).items;
    if hs != [] {
      assert ParseHeader(items[0]) == Some(hs[0]);
      assert items[1..] == EncodeHeaders(hs[1..]).items;
      ParseHeaderListEncoded(hs[1..]);
      assert [hs[0]] + hs[1..] == hs;
    }
  }

  /** The header list the sender sends is read back unchanged by the receiver. */
  lemma HeadersRoundTrip(hs: seq<EntryHeader>)
    ensures ParseHeaders(EncodeHeaders(hs)) == Some(hs)
  {
    ParseHeaderListEncoded(hs);
  }

  // -------------------------------------------------------------- markers

  const MAGIC_ACCEPT_FILES: string := "MAGIC_ACCEPT_FILE"
  const MAGIC_DID_RECEIVE: string := "MAGIC_DID_RECEIVE"
  const MAGIC_AUTH_SUCCESS: string := "MAGIC_AUTH_SUCCESS"
  const MAGIC_AUTH_INIT: string := "MAGIC_AUTH_INIT"
  const MAGIC_DONE: string := "MAGIC_DONE"

  // ---------------------------------------------------------------- token

  /** Everything needed to connect to the remote party. */
  datatype TokenData = TokenData(peerId: string, authId: string)

  /** The JSON layer, kept abstract: a serializer to text and a parser of text. */
  datatype JsonCodec = JsonCodec(stringify: Msg -> string, parse: string -> Option<Msg>)

  /** Parsing what was serialized gives `v` back.  `JSON.stringify` loses some
      values (an `ArrayBuffer` and `{}` both give `"{}"`), so this is asked only
      of the value at hand, never of every message. */
  predicate RoundTrips(c: JsonCodec, v: Msg)
  {
    c.parse(c.stringify(v)) == Some(v)
  }

  /** `btoa`: base64 of the text's bytes, or the InvalidCharacterError it throws
      on a character above U+00FF. */
  function Btoa(text: string): (r: Result<string>)
    ensures r.Ok? <==> Latin1(text)
    ensures r.Err? ==> r.error == EncodeFailed
  {
    if Latin1(text) then Ok(Base64.Encode(Latin1Bytes(text))) else Err(EncodeFailed)
  }

  function TokenObject(d: TokenData): Msg
  {
    Obj(map["authId" := Str(d.authId), "peerId" := Str(d.peerId)])
  }

  /** `encodeFileTransferTokenData`: base64 of the JSON object, every `=` removed;
      it throws when the JSON text has a character `btoa` refuses. */
  function EncodeToken(d: TokenData, c: JsonCodec): (r: Result<string>)
    ensures r.Ok? <==> Latin1(c.stringify(TokenObject(d)))
    ensures r.Ok? ==> '=' !in r.value
    ensures r.Err? ==> r.error == EncodeFailed
  {
    match Btoa(c.stringify(TokenObject(d)))
    case Err(e) => Err(e)
    case Ok(b) =>
      Base64.RemoveCharAbsent(b, '=');
      Ok(Base64.RemoveChar(b, '='))
  }

  /** `decodeFileTransferTokenData`: every failure becomes the one decode error. */
  function DecodeToken(token: string, c: JsonCodec): (r: Result<TokenData>)
    ensures r.Err? ==> r.error == DecodeFailed
  {
    match Base64.ForgivingDecode(token)
    case None => Err(DecodeFailed)
    case Some(bytes) =>
      match c.parse(BytesText(bytes))
      case None => Err(DecodeFailed)
      case Some(v) =>
        if !v.Obj? then Err(DecodeFailed)   // not an object, an array, or null (destructuring throws)
        else
          match (Field(v, "authId"), Field(v, "peerId"))
          case (Some(Str(a)), Some(Str(p))) => Ok(TokenData(p, a))
          case _ => Err(DecodeFailed)
  }

  /** Decoding succeeds exactly when the token is base64 of a JSON object whose
      `authId` and `peerId` are strings, and then returns those two strings. */
  lemma DecodeTokenIff(token: string, c: JsonCodec, d: TokenData)
    ensures DecodeToken(token, c) == Ok(d) <==>
      && Base64.ForgivingDecode(token).Some?
      && c.parse(BytesText(Base64.ForgivingDecode(token).value)).Some?
      && var v := c.parse(BytesText(Base64.ForgivingDecode(token).value)).value;
         v.Obj? && "authId" in v.fields && "peerId" in v.fields
         && v.fields["authId"] == Str(d.authId) && v.fields["peerId"] == Str(d.peerId)
  {
  }

  /** A token whose bytes parse to the object of `d` decodes to `d`. */
  lemma DecodesTo(token: string, c: JsonCodec, bytes: seq<bv8>, d: TokenData)
    requires Base64.ForgivingDecode(token) == Some(bytes)
    requires c.parse(BytesText(bytes)) == Some(TokenObject(d))
    ensures DecodeToken(token, c) == Ok(d)
  {
    var v := TokenObject(d);
    assert Field(v, "authId") == Some(Str(d.authId)) && Field(v, "peerId") == Some(Str(d.peerId));
  }

  /** The claimed inverse pair really is one, for every token data whose JSON
      text `btoa` accepts and whose token object the JSON codec reads back. */
  lemma TokenRoundTrip(d: TokenData, c: JsonCodec)
    requires RoundTrips(c, TokenObject(d))
    ensures EncodeToken(d, c).Ok? <==> Latin1(c.stringify(TokenObject(d)))
    ensures EncodeToken(d, c).Ok? ==> DecodeToken(EncodeToken(d, c).value, c) == Ok(d)
  {
    var text := c.stringify(TokenObject(d));
    if Latin1(text) {
      var bytes := Latin1Bytes(text);
      var token := Base64.RemoveChar(Base64.Encode(bytes), '=');
      assert EncodeToken(d, c) == Ok(token);
      Base64.UnpaddedRoundTrip(bytes);
      Latin1RoundTrip(text);
      assert c.parse(BytesText(bytes)) == Some(TokenObject(d));
      DecodesTo(token, c, bytes, d);
    }
  }
}
