/** What an SNMPv3 session sends and accepts, as functions of its keys and counters. */
module V3Session {
  import opened Octets
  import opened Results
  import opened Types
  import opened Integers
  import opened BerSpec
  import opened BerFacts
  import opened Messages
  import opened V3Messages
  import opened Limits
  import opened Placeholder
  import opened Crypto
  import opened Walk

  datatype Credentials = Credentials(
    username: bytes,
    authProtocol: Option<AuthProtocol>,
    authPassword: Option<bytes>,
    privProtocol: Option<PrivProtocol>,
    privPassword: Option<bytes>)

  datatype Engine = Engine(engineId: bytes, boots: u32, time: u32)

  const MAX_SIZE: i32 := 65507
  const USM_MODEL: i32 := 3
  const REPORTABLE: byte := 0x04

  /** msgFlags of a request: one bit each for authentication, privacy and reportable. */
  function Flags(c: Credentials): byte {
    REPORTABLE + (if c.authProtocol.Some? then 1 else 0) + (if c.privProtocol.Some? then 2 else 0)
  }

  lemma FlagsAgree(c: Credentials)
    ensures PrivFlag(Flags(c)) <==> c.privProtocol.Some?
  {
  }

  datatype Session = Session(suite: Suite, credentials: Credentials, engine: Engine,
                             authKey: Option<bytes>, privKey: Option<bytes>)
  {
    /** The code unwraps the privacy key whenever a privacy protocol is set, and slices sixteen octets off it. */
    ghost predicate Ready() {
      && suite.Sound()
      && (credentials.privProtocol.Some? ==> privKey.Some?)
      && (privKey.Some? ==> |privKey.value| >= 16)
    }

    /** The session holds what it takes to sign. */
    predicate Signs() {
      credentials.authProtocol.Some? && authKey.Some?
    }

    function MacSize(): nat {
      if credentials.authProtocol.Some? then MacLen(credentials.authProtocol.value) else 0
    }
  }

  // ---- Requests ----

  function RequestScoped(s: Session, tag: byte, requestId: i32, f1: i32, f2: i32, list: bytes): bytes {
    ScopedBytes(s.engine.engineId, [], tag, PduContent(requestId, f1, f2, list))
  }

  /** The scoped PDU as it is sent, with the privacy parameters. */
  function Sealed(s: Session, salt: u64, scoped: bytes): (bytes, bytes)
    requires s.Ready()
  {
    if s.credentials.privProtocol.Some?
    then Encrypted(s.suite, s.credentials.privProtocol.value, s.privKey.value, s.engine.boots, s.engine.time, salt, scoped)
    else (scoped, [])
  }

  function RequestHeader(s: Session, msgId: i32): Header {
    Header(msgId, MAX_SIZE, Flags(s.credentials), USM_MODEL)
  }

  function RequestUsm(s: Session, auth: bytes, priv: bytes): Usm {
    Usm(s.engine.engineId, s.engine.boots, s.engine.time, s.credentials.username, auth, priv)
  }

  function RequestBody(s: Session, salt: u64, scoped: bytes): bytes
    requires s.Ready()
  {
    Body(Sealed(s, salt, scoped).0, s.credentials.privProtocol.Some?)
  }

  /** The whole message with given authentication parameters. */
  function Assembled(s: Session, msgId: i32, salt: u64, scoped: bytes, auth: bytes): bytes
    requires s.Ready()
  {
    V3Bytes(RequestHeader(s, msgId), UsmBytes(RequestUsm(s, auth, Sealed(s, salt, scoped).1)),
            RequestBody(s, salt, scoped))
  }

  /** What the packet's outer SEQUENCE holds before it is signed. */
  function RequestContent(s: Session, msgId: i32, salt: u64, scoped: bytes): bytes
    requires s.Ready()
  {
    V3Content(RequestHeader(s, msgId), UsmBytes(RequestUsm(s, Zeros(s.MacSize()), Sealed(s, salt, scoped).1)),
              RequestBody(s, salt, scoped))
  }

  /** The MAC over the message whose authentication parameters are zeros (section 6.3.1 of RFC 3414). */
  function RequestMac(s: Session, msgId: i32, salt: u64, scoped: bytes): (mac: bytes)
    requires s.Ready() && s.Signs()
    ensures |mac| == s.MacSize()
  {
    Mac(s.suite, s.credentials.authProtocol.value, s.authKey.value,
        Assembled(s, msgId, salt, scoped, Zeros(s.MacSize())))
  }

  /** The packet that leaves: built with zeros, then patched in place if the session signs. */
  function RequestPacket(s: Session, msgId: i32, salt: u64, scoped: bytes): bytes
    requires s.Ready()
  {
    var plain := Assembled(s, msgId, salt, scoped, Zeros(s.MacSize()));
    if s.Signs() then Patched(plain, s.MacSize(), RequestMac(s, msgId, salt, scoped)) else plain
  }

  /** The authentication parameters that a request is meant to carry. */
  function RequestAuth(s: Session, msgId: i32, salt: u64, scoped: bytes): bytes
    requires s.Ready()
  {
    if s.Signs() then RequestMac(s, msgId, salt, scoped) else Zeros(s.MacSize())
  }

  /** What a receiver is meant to find in the packet. */
  function RequestMessage(s: Session, msgId: i32, salt: u64, scoped: bytes): V3Message
    requires s.Ready()
  {
    var (final, priv) := Sealed(s, salt, scoped);
    var usm := RequestUsm(s, RequestAuth(s, msgId, salt, scoped), priv);
    V3Message(RequestHeader(s, msgId), UsmBytes(usm), usm, final, s.credentials.privProtocol.Some?)
  }

  /** Neither the engine identifier nor the user name can be mistaken for the placeholder. */
  ghost predicate Unmistakable(s: Session) {
    s.Signs() ==> Unambiguous(RequestUsm(s, [], []), s.MacSize())
  }

  /** The names are unmistakable, or by chance the MAC is what it replaces. */
  ghost predicate SignsInPlace(s: Session, msgId: i32, salt: u64, scoped: bytes)
    requires s.Ready()
  {
    Unmistakable(s) || RequestAuth(s, msgId, salt, scoped) == Zeros(s.MacSize())
  }

  /** Signing in place is encoding with the MAC: exactly for unmistakable names, or a MAC of zeros. */
  lemma SignedIsReencoded(s: Session, msgId: i32, salt: u64, scoped: bytes)
    requires s.Ready()
    ensures RequestPacket(s, msgId, salt, scoped)
            == Assembled(s, msgId, salt, scoped, RequestAuth(s, msgId, salt, scoped))
            <==> SignsInPlace(s, msgId, salt, scoped)
  {
    hide V3Bytes, UsmBytes, Patched, Unambiguous, Body, Encrypted, RequestBody, OctetsTlv, HasRun, RequestHeader;
    if s.Signs() {
      var n, mac := s.MacSize(), RequestMac(s, msgId, salt, scoped);
      var u := RequestUsm(s, Zeros(n), Sealed(s, salt, scoped).1);
      PatchingIsReencoding(RequestHeader(s, msgId), u, RequestBody(s, salt, scoped), n, mac);
      assert u.(auth := mac) == RequestUsm(s, mac, Sealed(s, salt, scoped).1);
      assert Unambiguous(u, n) == Unambiguous(RequestUsm(s, [], []), n) by { NamesDecide(u, RequestUsm(s, [], []), n); }
    }
  }

  /** The condition looks at nothing but the two names. */
  lemma NamesDecide(u: Usm, v: Usm, n: nat)
    requires u.engineId == v.engineId && u.username == v.username
    ensures Unambiguous(u, n) <==> Unambiguous(v, n)
  {
    hide HasRun, OctetsTlv;
  }

  // ---- Replies ----

  /** The MAC check of `send_request`: skipped without a key or without authentication parameters. */
  predicate Authentic(s: Session, data: bytes, msg: V3Message)
    requires s.suite.Sound()
  {
    s.Signs() && msg.usm.auth != [] ==>
      msg.usm.auth == Mac(s.suite, s.credentials.authProtocol.value, s.authKey.value, Zeroed(data, |msg.usm.auth|))
  }

  /** The scoped PDU in the clear. */
  function Opened(s: Session, msg: V3Message): Result<bytes>
    requires s.Ready()
  {
    if !msg.isEncrypted then Ok(msg.scopedRaw)
    else if s.credentials.privProtocol.Some? && s.privKey.Some? then
      Decrypted(s.suite, s.credentials.privProtocol.value, s.privKey.value, msg.usm.boots, msg.usm.time,
                msg.usm.priv, msg.scopedRaw)
    else Err(DecryptFailed)
  }

  function ScopedReply(s: Session, msg: V3Message): Reply
    requires s.Ready()
  {
    var pdu :- Opened(s, msg);
    var scoped :- ScopedOf(pdu);
    :- Need(scoped.errorStatus == 0, Snmp(scoped.errorStatus, scoped.errorIndex));
    Ok(scoped.varbinds)
  }

  /** What a caller gets from one datagram; only `send_request` checks the MAC. */
  function Received(s: Session, checked: bool, datagram: Result<bytes>): Reply
    requires s.Ready()
  {
    var data :- datagram;
    var msg :- V3MessageOf(data);
    :- Need(checked ==> Authentic(s, data, msg), AuthFailed);
    ScopedReply(s, msg)
  }

  /** The MAC that a session computes over a message. */
  function MacOf(s: Session, data: bytes): (mac: bytes)
    requires s.suite.Sound() && s.Signs()
    ensures |mac| == s.MacSize()
  {
    Mac(s.suite, s.credentials.authProtocol.value, s.authKey.value, data)
  }

  /**
   Since zeroing zeros is idle, `send_request` refuses exactly the replies whose MAC is not that of the octets as
   received, and takes every reply without authentication parameters for what `get_bulk` would take it.
   */
  lemma CheckedAsReceived(s: Session, data: bytes)
    requires s.Ready() && V3MessageOf(data).Ok?
    ensures var auth := V3MessageOf(data).value.usm.auth;
            Received(s, true, Ok(data)) == if s.Signs() && auth != [] && auth != MacOf(s, data) then Err(AuthFailed)
                                           else Received(s, false, Ok(data))
  {
    hide V3MessageOf, ScopedReply;
    ZeroingIsIdle(data, |V3MessageOf(data).value.usm.auth|);
  }

  // ---- End to end ----

  /** The initialization vector under which a session seals with a salt. */
  function VectorUsed(s: Session, salt: u64): (iv: bytes)
    requires s.Ready() && s.credentials.privProtocol.Some?
  {
    match s.credentials.privProtocol.value
    case Des => DesIv(s.privKey.value, DesParams(s.engine.boots, salt))
    case Aes128 => AesIv(s.engine.boots, s.engine.time, BeBytes(salt, 8))
  }

  lemma SealedUnderVector(s: Session, salt: u64, scoped: bytes)
    requires s.Ready() && s.credentials.privProtocol.Some?
    ensures Sealed(s, salt, scoped).0
         == match s.credentials.privProtocol.value
            case Des => s.suite.desEncrypt(s.privKey.value[..8], VectorUsed(s, salt), Padded(scoped))
            case Aes128 => s.suite.aesEncrypt(s.privKey.value[..16], VectorUsed(s, salt), scoped)
  {
  }

  /** Padding transparency: encrypting and decrypting never changes what the scoped PDU parser returns. */
  lemma CipherIsTransparent(suite: Suite, protocol: PrivProtocol, key: bytes, boots: u32, time: u32, salt: u64, data: bytes)
    requires suite.Sound() && |key| >= 16 && ReadTlv(data).Ok?
    ensures var (cipher, params) := Encrypted(suite, protocol, key, boots, time, salt, data);
            var r := Decrypted(suite, protocol, key, boots, time, params, cipher);
            r.Ok? && ScopedOf(r.value) == ScopedOf(data)
  {
    hide Encrypted, Decrypted, ScopedOf, V3MessageOf, ReadTlv;
    DecryptUndoesEncrypt(suite, protocol, key, boots, time, salt, data);
    V3Stable(data, Zeros(PadLen(|data|)));
  }

  lemma SealedFits(s: Session, salt: u64, scoped: bytes)
    requires s.Ready()
    ensures |scoped| <= |Sealed(s, salt, scoped).0|
  {
    hide BerSpec.LenBytes;
  }

  /** A receiver with the session's keys opens what the session sealed, up to padding that its parser ignores. */
  lemma OpenedIsScoped(s: Session, msgId: i32, salt: u64, scoped: bytes, auth: bytes)
    requires s.Ready()
    ensures var (final, priv) := Sealed(s, salt, scoped);
            var msg := V3Message(RequestHeader(s, msgId), UsmBytes(RequestUsm(s, auth, priv)),
                                 RequestUsm(s, auth, priv), final, s.credentials.privProtocol.Some?);
            Opened(s, msg).Ok? && exists k: nat :: Opened(s, msg).value == scoped + Zeros(k)
  {
    hide UsmBytes, Encrypted, Decrypted, RequestHeader;
    if s.credentials.privProtocol.Some? {
      var protocol := s.credentials.privProtocol.value;
      DecryptUndoesEncrypt(s.suite, protocol, s.privKey.value, s.engine.boots, s.engine.time, salt, scoped);
      if protocol.Aes128? {
        assert scoped == scoped + Zeros(0);
      }
    } else {
      assert scoped == scoped + Zeros(0);
    }
  }

  lemma RequestFits(s: Session, msgId: i32, salt: u64, tag: byte, pdu: bytes)
    requires s.Ready()
    requires |RequestContent(s, msgId, salt, ScopedBytes(s.engine.engineId, [], tag, pdu))| < LENGTH_LIMIT
    ensures |ScopedContent(s.engine.engineId, [], tag, pdu)| < LENGTH_LIMIT
    ensures var final := Sealed(s, salt, ScopedBytes(s.engine.engineId, [], tag, pdu)).0;
            s.credentials.privProtocol.None? ==> ReadTlv(final).Ok? && ReadTlv(final).value.rest == []
  {
    hide UsmBytes, ScopedBytes, ScopedContent, Body, Encrypted, V3Content, ReadTlv, Sealed;
    var scoped := ScopedBytes(s.engine.engineId, [], tag, pdu);
    var (final, priv) := Sealed(s, salt, scoped);
    BodyFits(RequestHeader(s, msgId), UsmBytes(RequestUsm(s, Zeros(s.MacSize()), priv)), final,
             s.credentials.privProtocol.Some?);
    SealedFits(s, salt, scoped);
    ScopedSize(s.engine.engineId, tag, pdu);
    ScopedIsElement(s.engine.engineId, [], tag, pdu);
    PlainBody(s, salt, scoped);
  }

  /** Re-encoded, a message is what its receiver is meant to find exactly below the length limit. */
  lemma AssembledArrives(s: Session, msgId: i32, salt: u64, tag: byte, pdu: bytes)
    requires s.Ready()
    ensures var scoped := ScopedBytes(s.engine.engineId, [], tag, pdu);
            V3MessageOf(Assembled(s, msgId, salt, scoped, RequestAuth(s, msgId, salt, scoped)))
            == Ok(RequestMessage(s, msgId, salt, scoped))
            <==> |RequestContent(s, msgId, salt, scoped)| < LENGTH_LIMIT
  {
    hide V3MessageOf, V3Bytes, V3Content, UsmBytes, ScopedBytes, ScopedContent, Body, Encrypted, Sealed, RequestMac, ReadTlv;
    var scoped := ScopedBytes(s.engine.engineId, [], tag, pdu);
    var auth := RequestAuth(s, msgId, salt, scoped);
    var (final, priv) := Sealed(s, salt, scoped);
    var h, usm, encrypted := RequestHeader(s, msgId), RequestUsm(s, auth, priv), s.credentials.privProtocol.Some?;
    var packet := V3Bytes(h, UsmBytes(usm), Body(final, encrypted));
    SameSize(h, RequestUsm(s, Zeros(s.MacSize()), priv), auth, Body(final, encrypted));
    FlagsAgree(s.credentials);
    assert packet + [] == packet;
    if |RequestContent(s, msgId, salt, scoped)| < LENGTH_LIMIT {
      RequestFits(s, msgId, salt, tag, pdu);
      V3RoundTrip(h, usm, final, encrypted, []);
    } else {
      OversizeV3(h, usm, final, encrypted, []);
    }
  }

  /** A packet that is not the encoding with its MAC never arrives as it was meant: its security parameters differ. */
  lemma MispatchedDiffers(s: Session, msgId: i32, salt: u64, scoped: bytes)
    requires s.Ready() && !SignsInPlace(s, msgId, salt, scoped)
    ensures V3MessageOf(RequestPacket(s, msgId, salt, scoped)) != Ok(RequestMessage(s, msgId, salt, scoped))
  {
    hide V3MessageOf, V3Bytes, UsmBytes, Body, Encrypted, Sealed, Patched, Unmistakable, RequestMac, RequestBody;
    var n, auth := s.MacSize(), RequestAuth(s, msgId, salt, scoped);
    var (final, priv) := Sealed(s, salt, scoped);
    var h, body := RequestHeader(s, msgId), RequestBody(s, salt, scoped);
    var u, meant := RequestUsm(s, Zeros(n), priv), RequestUsm(s, auth, priv);
    NoSignatureIsInPlace(s, msgId, salt, scoped);
    PatchInsideParams(h, u, body, n, auth);
    var params := Patched(UsmBytes(u), n, auth);
    ParamsSeen(h, params, body);
    SignedIsReencoded(s, msgId, salt, scoped);
    SameMacLength(u, auth);
    AdmittedWhole(params, UsmBytes(meant));
  }

  /** Nor, below the length limit, does it decode to a message that names the session's engine and user. */
  lemma MispatchedNames(s: Session, msgId: i32, salt: u64, scoped: bytes)
    requires s.Ready() && !SignsInPlace(s, msgId, salt, scoped)
    requires |RequestContent(s, msgId, salt, scoped)| < LENGTH_LIMIT
    ensures var r := V3MessageOf(RequestPacket(s, msgId, salt, scoped));
            r.Ok? ==> r.value.usm.engineId != s.engine.engineId || r.value.usm.username != s.credentials.username
  {
    hide V3MessageOf, V3Bytes, V3Content, UsmBytes, UsmContent, UsmOf, ScopedRawOf, Encrypted, Sealed, Patched, Unambiguous,
      RequestMac, RequestBody;
    var n, auth := s.MacSize(), RequestAuth(s, msgId, salt, scoped);
    var (final, priv) := Sealed(s, salt, scoped);
    var h, body, u := RequestHeader(s, msgId), RequestBody(s, salt, scoped), RequestUsm(s, Zeros(n), priv);
    var params := Patched(UsmBytes(u), n, auth);
    NoSignatureIsInPlace(s, msgId, salt, scoped);
    NamesDecide(u, RequestUsm(s, [], []), n);
    PatchInsideParams(h, u, body, n, auth);
    SameContentSize(h, UsmBytes(u), params, body);
    HeaderFits(h, UsmBytes(u), body);
    UsmFieldsFit(u);
    StruckParams(u, n, auth);
    V3HeaderRead(h, params, body, []);
    assert V3Bytes(h, params, body) + [] == V3Bytes(h, params, body);
  }

  lemma SameContentSize(h: Header, params: bytes, other: bytes, body: bytes)
    requires |params| == |other|
    ensures |V3Content(h, params, body)| == |V3Content(h, other, body)|
  {
    hide OctetsTlv, IntegerTlv, HeaderContent;
    SameLength(params, other);
  }

  lemma NoSignatureIsInPlace(s: Session, msgId: i32, salt: u64, scoped: bytes)
    requires s.Ready()
    ensures !s.Signs() ==> SignsInPlace(s, msgId, salt, scoped)
  {
  }

  lemma AdmittedWhole(s: bytes, t: bytes)
    requires |s| == |t|
    ensures Admitted(s) == t ==> s == t
  {
    if Admitted(s) == t {
      assert s[..|s|] == s;
    }
  }

  /**
   End to end, for all three security levels: decoding the packet gives every header field and the security
   parameters with the MAC exactly when the names are unmistakable (or the MAC is zeros) and the message stays
   below 2^24 octets; decrypting and parsing then gives the request id, the PDU type and all varbinds up to
   what the wire cannot carry.
   */
  lemma RequestDelivered(s: Session, msgId: i32, salt: u64, tag: byte, requestId: i32, f1: i32, f2: i32,
                         vbs: seq<VarBind>, tagged: bool)
    requires s.Ready()
    ensures var scoped := RequestScoped(s, tag, requestId, f1, f2, VarBindsBytes(vbs, tagged));
            var msg, fits := RequestMessage(s, msgId, salt, scoped), |RequestContent(s, msgId, salt, scoped)| < LENGTH_LIMIT;
            && (V3MessageOf(RequestPacket(s, msgId, salt, scoped)) == Ok(msg)
                <==> SignsInPlace(s, msgId, salt, scoped) && fits)
            && (fits ==>
                  && Opened(s, msg).Ok?
                  && ScopedOf(Opened(s, msg).value)
                     == Ok(ScopedPdu(s.engine.engineId, [], tag, requestId, ToU32(f1), ToU32(f2),
                                     VarBindsOnWire(vbs, tagged))))
  {
    hide V3MessageOf, ScopedOf, UsmBytes, ScopedBytes, ScopedContent, PduContent, Opened, RequestMac, Encrypted,
      VarBindsBytes, VarBindsOnWire, SignsInPlace, Sealed, RequestPacket, RequestContent, ReadTlv, RequestAuth, Assembled;
    var pdu := PduContent(requestId, f1, f2, VarBindsBytes(vbs, tagged));
    var scoped := RequestScoped(s, tag, requestId, f1, f2, VarBindsBytes(vbs, tagged));
    SignedIsReencoded(s, msgId, salt, scoped);
    AssembledArrives(s, msgId, salt, tag, pdu);
    if !SignsInPlace(s, msgId, salt, scoped) {
      MispatchedDiffers(s, msgId, salt, scoped);
    }
    if |RequestContent(s, msgId, salt, scoped)| < LENGTH_LIMIT {
      RequestFits(s, msgId, salt, tag, pdu);
      OpenedIsScoped(s, msgId, salt, scoped, RequestAuth(s, msgId, salt, scoped));
      var k: nat :| Opened(s, RequestMessage(s, msgId, salt, scoped)).value == scoped + Zeros(k);
      ScopedRoundTrip(s.engine.engineId, [], tag, requestId, f1, f2, vbs, tagged, Zeros(k));
    }
  }

  /**
   What arrives in the other cases, for fenced names: the engine identifier or the user name with the
   MAC in it, and the placeholder still zero.
   */
  lemma MispatchedArrives(s: Session, msgId: i32, salt: u64, tag: byte, pdu: bytes)
    requires s.Ready() && s.Signs() && Fenced(s.engine.engineId) && Fenced(s.credentials.username)
    requires |RequestContent(s, msgId, salt, ScopedBytes(s.engine.engineId, [], tag, pdu))| < LENGTH_LIMIT
    ensures var scoped := ScopedBytes(s.engine.engineId, [], tag, pdu);
            var (final, priv) := Sealed(s, salt, scoped);
            var struck := Struck(RequestUsm(s, Zeros(s.MacSize()), priv), s.MacSize(), RequestMac(s, msgId, salt, scoped));
            V3MessageOf(RequestPacket(s, msgId, salt, scoped))
            == Ok(V3Message(RequestHeader(s, msgId), UsmBytes(struck), struck, final, s.credentials.privProtocol.Some?))
  {
    hide V3MessageOf, V3Bytes, V3Content, UsmBytes, ScopedBytes, ScopedContent, Body, Encrypted, Sealed, RequestMac, ReadTlv,
      Patched, Struck;
    var scoped := ScopedBytes(s.engine.engineId, [], tag, pdu);
    var n, mac := s.MacSize(), RequestMac(s, msgId, salt, scoped);
    var (final, priv) := Sealed(s, salt, scoped);
    var h, u, encrypted := RequestHeader(s, msgId), RequestUsm(s, Zeros(n), priv), s.credentials.privProtocol.Some?;
    var body, struck := Body(final, encrypted), Struck(u, n, mac);
    MacLands(h, u, body, n, mac);
    PatchInsideParams(h, u, body, n, mac);
    SameContentSize(h, UsmBytes(struck), UsmBytes(u), body);
    RequestFits(s, msgId, salt, tag, pdu);
    FlagsAgree(s.credentials);
    V3RoundTrip(h, struck, final, encrypted, []);
    assert V3Bytes(h, UsmBytes(struck), body) + [] == V3Bytes(h, UsmBytes(struck), body);
  }

  // ---- Replies ----

  /**
   A message as a peer builds it: any header, any security parameters, any context; encrypted under the session's
   key with the message's own boots and time if its privacy flag says so.
   */
  datatype PeerMessage = PeerMessage(header: Header, usm: Usm, salt: u64, contextEngine: bytes, contextName: bytes,
                                     tag: byte, requestId: i32, status: i32, index: i32, varbinds: seq<VarBind>)
  {
    predicate Flagged() {
      PrivFlag(header.flags)
    }

    function Pdu(): bytes {
      PduContent(requestId, status, index, VarBindsBytes(varbinds, true))
    }

    function Scoped(): bytes {
      ScopedBytes(contextEngine, contextName, tag, Pdu())
    }

    /** The scoped PDU as sent and the privacy parameters. */
    function Secured(s: Session): (bytes, bytes)
      requires s.Ready()
    {
      if Flagged() && s.credentials.privProtocol.Some?
      then Encrypted(s.suite, s.credentials.privProtocol.value, s.privKey.value, usm.boots, usm.time, salt, Scoped())
      else (Scoped(), usm.priv)
    }

    function Params(s: Session): Usm
      requires s.Ready()
    {
      usm.(priv := Secured(s).1)
    }

    function Content(s: Session): bytes
      requires s.Ready()
    {
      V3Content(header, UsmBytes(Params(s)), Body(Secured(s).0, Flagged()))
    }

    function Octets(s: Session): bytes
      requires s.Ready()
    {
      SequenceTlv(Content(s))
    }

    function Message(s: Session): V3Message
      requires s.Ready()
    {
      V3Message(header, UsmBytes(Params(s)), Params(s), Secured(s).0, Flagged())
    }

    /** What the peer means to say. */
    function Meaning(): Reply {
      if status == 0 then Ok(varbinds) else Err(Snmp(ToU32(status), ToU32(index)))
    }
  }

  lemma PeerMessageArrives(s: Session, d: PeerMessage)
    requires s.Ready() && |d.Content(s)| < LENGTH_LIMIT
    ensures V3MessageOf(d.Octets(s)) == Ok(d.Message(s))
    ensures |ScopedContent(d.contextEngine, d.contextName, d.tag, d.Pdu())| < LENGTH_LIMIT
  {
    hide V3MessageOf, V3Content, UsmBytes, ScopedContent, Body, Encrypted, ReadTlv, PeerMessage.Pdu;
    var raw := d.Secured(s).0;
    BodyFits(d.header, UsmBytes(d.Params(s)), raw, d.Flagged());
    SecuredFits(s, d);
    ScopedIsElement(d.contextEngine, d.contextName, d.tag, d.Pdu());
    V3RoundTrip(d.header, d.Params(s), raw, d.Flagged(), []);
    assert d.Octets(s) + [] == d.Octets(s);
  }

  lemma SecuredFits(s: Session, d: PeerMessage)
    requires s.Ready()
    ensures |ScopedContent(d.contextEngine, d.contextName, d.tag, d.Pdu())| < |d.Secured(s).0|
  {
    hide LenBytes, ScopedContent, PeerMessage.Pdu;
  }

  lemma PeerMessageOpens(s: Session, d: PeerMessage)
    requires s.Ready() && (d.Flagged() ==> s.credentials.privProtocol.Some?)
    ensures Opened(s, d.Message(s)).Ok? && exists k: nat :: Opened(s, d.Message(s)).value == d.Scoped() + Zeros(k)
  {
    hide UsmBytes, Encrypted, Decrypted, PeerMessage.Scoped;
    if d.Flagged() {
      var protocol := s.credentials.privProtocol.value;
      DecryptUndoesEncrypt(s.suite, protocol, s.privKey.value, d.usm.boots, d.usm.time, d.salt, d.Scoped());
      if protocol.Aes128? {
        assert d.Scoped() == d.Scoped() + Zeros(0);
      }
    } else {
      assert d.Scoped() == d.Scoped() + Zeros(0);
    }
  }

  /**
   The receiving half, for everything a peer may send: the caller gets the varbinds up to what the wire cannot
   carry, or the error status, unless the message is flagged as encrypted and the session has no privacy protocol, or
   the caller checks a MAC that is not that of the octets as received.
   */
  lemma MessageReceived(s: Session, checked: bool, d: PeerMessage)
    requires s.Ready() && |d.Content(s)| < LENGTH_LIMIT
    ensures Received(s, checked, Ok(d.Octets(s)))
         == if checked && s.Signs() && d.usm.auth != [] && d.usm.auth != MacOf(s, d.Octets(s)) then Err(AuthFailed)
            else if d.Flagged() && s.credentials.privProtocol.None? then Err(DecryptFailed)
            else if d.status != 0 then Err(Snmp(ToU32(d.status), ToU32(d.index)))
            else Ok(VarBindsOnWire(d.varbinds, true))
  {
    hide V3MessageOf, ScopedOf, ScopedContent, PduContent, VarBindsBytes, VarBindsOnWire, MacOf, Authentic,
      PeerMessage.Octets, PeerMessage.Content, PeerMessage.Secured;
    PeerMessageArrives(s, d);
    if checked {
      CheckedAsReceived(s, d.Octets(s));
    }
    if d.Flagged() ==> s.credentials.privProtocol.Some? {
      PeerMessageOpens(s, d);
      var k: nat :| Opened(s, d.Message(s)).value == d.Scoped() + Zeros(k);
      ScopedRoundTrip(d.contextEngine, d.contextName, d.tag, d.requestId, d.status, d.index, d.varbinds, true, Zeros(k));
    }
  }

  // ---- Correctly signed replies ----

  /** The message with other authentication parameters. */
  function WithAuth(d: PeerMessage, auth: bytes): PeerMessage {
    d.(usm := d.usm.(auth := auth))
  }

  /** The MAC that section 6.3.1 of RFC 3414 asks for: over the message with its authentication parameters zero. */
  function ProperMac(s: Session, d: PeerMessage): bytes
    requires s.Ready() && s.Signs()
  {
    MacOf(s, WithAuth(d, Zeros(s.MacSize())).Octets(s))
  }

  /** A correctly signed reply is refused unless the MAC happens not to change when the message carries it. */
  lemma ProperReplyRefused(s: Session, d: PeerMessage)
    requires s.Ready() && s.Signs() && d.usm.auth == ProperMac(s, d)
    requires |d.Content(s)| < LENGTH_LIMIT
    ensures Received(s, true, Ok(d.Octets(s))) == Err(AuthFailed) <==> ProperMac(s, d) != MacOf(s, d.Octets(s))
  {
    hide PeerMessage.Content, PeerMessage.Octets, Received, VarBindsOnWire, Mac;
    MessageReceived(s, true, d);
  }

  /** A suite whose HMAC tells messages with zero authentication parameters from all others. */
  const TELLING: Suite := Suite(
    (p, s) => seq(DigestLen(p), _ => 0),
    (p, k, s) => seq(DigestLen(p), _ => if ZeroAuth(s, MacLen(p)) then 1 else 2),
    (k, iv, s) => s, (k, iv, s) => s, (k, iv, s) => s, (k, iv, s) => s)

  predicate ZeroAuth(data: bytes, n: nat) {
    V3MessageOf(data).Ok? && V3MessageOf(data).value.usm.auth == Zeros(n)
  }

  lemma TellingMac(s: Session, data: bytes)
    requires s.suite == TELLING && s.suite.Sound() && s.Signs()
    ensures MacOf(s, data)[0] == if ZeroAuth(data, s.MacSize()) then 1 else 2
  {
    hide ZeroAuth;
  }

  lemma TellingIsSound()
    ensures TELLING.Sound()
  {
    hide ZeroAuth;
  }

  /** One suite under which every correctly signed reply is refused, encrypted or not. */
  lemma TellingRefuses(s: Session, d: PeerMessage)
    requires s.suite == TELLING && s.Ready() && s.Signs()
    ensures var t := WithAuth(d, ProperMac(s, d));
            && t.usm.auth == ProperMac(s, t)
            && (|t.Content(s)| < LENGTH_LIMIT ==> Received(s, true, Ok(t.Octets(s))) == Err(AuthFailed))
  {
    hide UsmBytes, V3Content, PeerMessage.Scoped, Received, V3MessageOf, VarBindsOnWire, Encrypted, Suite.Sound, MacOf;
    var zeroed, t := WithAuth(d, Zeros(s.MacSize())), WithAuth(d, ProperMac(s, d));
    SameScoped(d, zeroed);
    SameScoped(d, t);
    assert WithAuth(t, Zeros(s.MacSize())) == zeroed;
    if |t.Content(s)| < LENGTH_LIMIT {
      SameSize(d.header, zeroed.Params(s), t.usm.auth, Body(d.Secured(s).0, d.Flagged()));
      PeerMessageArrives(s, t);
      PeerMessageArrives(s, zeroed);
      TellingMac(s, zeroed.Octets(s));
      TellingMac(s, t.Octets(s));
      ProperReplyRefused(s, t);
    }
  }

  lemma SameScoped(d: PeerMessage, t: PeerMessage)
    requires t == d.(usm := t.usm)
    ensures t.Scoped() == d.Scoped() && t.Flagged() == d.Flagged()
  {
  }

  lemma PlainBody(s: Session, salt: u64, scoped: bytes)
    requires s.Ready()
    ensures s.credentials.privProtocol.None? ==> Sealed(s, salt, scoped).0 == scoped
  {
    hide Encrypted;
  }

  lemma ScopedSize(engineId: bytes, tag: byte, pdu: bytes)
    ensures |ScopedContent(engineId, [], tag, pdu)| < |ScopedBytes(engineId, [], tag, pdu)|
  {
    hide ScopedContent, BerSpec.LenBytes;
  }

  /** Replacing the authentication parameters by others of the same length keeps every length. */
  lemma SameSize(h: Header, u: Usm, auth: bytes, body: bytes)
    requires |auth| == |u.auth|
    ensures |V3Content(h, UsmBytes(u.(auth := auth)), body)| == |V3Content(h, UsmBytes(u), body)|
  {
    hide UsmBytes, V3Content;
    SameMacLength(u, auth);
    SameContentSize(h, UsmBytes(u.(auth := auth)), UsmBytes(u), body);
  }
}
