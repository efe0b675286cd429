/**
 What leaves the client and what it makes of a peer, in the standards' own terms: the layouts of `Layout`,
 literal numbers, and the bare primitives of a `Suite`.
 */
module Conformance {
  import opened Octets
  import opened Results
  import opened Types
  import opened Integers
  import opened Oids
  import opened BerSpec
  import opened BerFacts
  import opened Ber
  import opened Messages
  import opened V3Messages
  import opened Placeholder
  import opened Crypto
  import opened Walk
  import opened V3Session
  import opened Client
  import opened V3Client
  import opened V3Wire
  import opened Traps
  import opened Layout
  import opened LayoutFacts

  // ---- Community messages ----

  /** What a community client sends for each of its operations, below the length limit. */
  lemma RequestsLaidOut(version: Version, community: bytes, tag: byte, id: i32, f1: i32, f2: i32,
                        oids: seq<Oid>, vbs: seq<VarBind>)
    ensures |MessageContent(version, community, PDU_GET, RequestPdu(id, 0, 0, NullVarBinds(oids)))| < 0x100_0000 ==>
              MessageBytes(version, community, PDU_GET, RequestPdu(id, 0, 0, NullVarBinds(oids)))
              == CommunityMessage(VersionNumber(version), community,
                                  PduField(0xA0, id, 0, 0, Bindings(NullVarBinds(oids), false)))
    ensures |MessageContent(version, community, PDU_GETNEXT, RequestPdu(id, 0, 0, NullVarBinds(oids)))| < 0x100_0000 ==>
              MessageBytes(version, community, PDU_GETNEXT, RequestPdu(id, 0, 0, NullVarBinds(oids)))
              == CommunityMessage(VersionNumber(version), community,
                                  PduField(0xA1, id, 0, 0, Bindings(NullVarBinds(oids), false)))
    ensures |MessageContent(version, community, PDU_GETBULK, RequestPdu(id, f1, f2, NullVarBinds(oids)))| < 0x100_0000 ==>
              MessageBytes(version, community, PDU_GETBULK, RequestPdu(id, f1, f2, NullVarBinds(oids)))
              == CommunityMessage(VersionNumber(version), community,
                                  PduField(0xA5, id, f1, f2, Bindings(NullVarBinds(oids), false)))
    ensures |MessageContent(version, community, PDU_SET, RequestPdu(id, 0, 0, vbs))| < 0x100_0000 ==>
              MessageBytes(version, community, PDU_SET, RequestPdu(id, 0, 0, vbs))
              == CommunityMessage(VersionNumber(version), community, PduField(0xA3, id, 0, 0, Bindings(vbs, false)))
  {
    hide MessageContent, MessageBytes, CommunityMessage, PduField, PduContent, VarBindsBytes, Bindings, VersionNumber;
    if |MessageContent(version, community, PDU_GET, RequestPdu(id, 0, 0, NullVarBinds(oids)))| < 0x100_0000 {
      MessageAgrees(version, community, PDU_GET, id, 0, 0, NullVarBinds(oids), false);
    }
    if |MessageContent(version, community, PDU_GETNEXT, RequestPdu(id, 0, 0, NullVarBinds(oids)))| < 0x100_0000 {
      MessageAgrees(version, community, PDU_GETNEXT, id, 0, 0, NullVarBinds(oids), false);
    }
    if |MessageContent(version, community, PDU_GETBULK, RequestPdu(id, f1, f2, NullVarBinds(oids)))| < 0x100_0000 {
      MessageAgrees(version, community, PDU_GETBULK, id, f1, f2, NullVarBinds(oids), false);
    }
    if |MessageContent(version, community, PDU_SET, RequestPdu(id, 0, 0, vbs))| < 0x100_0000 {
      MessageAgrees(version, community, PDU_SET, id, 0, 0, vbs, false);
    }
  }

  /** A walk asks by GETNEXT under version 1 and otherwise by GETBULK for twenty repetitions, of one identifier. */
  lemma WalkPacketLaidOut(version: Version, community: bytes, id: i32, oid: Oid)
    requires Askable(version, community, oid)
    ensures WalkPacket(version, community, id, oid)
         == CommunityMessage(VersionNumber(version), community,
                             if version == V1 then PduField(0xA1, id, 0, 0, Bindings([VarBind(oid, Null)], false))
                             else PduField(0xA5, id, 0, 20, Bindings([VarBind(oid, Null)], false)))
  {
    hide MessageContent, MessageBytes, CommunityMessage, PduField, PduContent, VarBindsBytes, Bindings, VersionNumber;
    assert |MessageContent(version, community, WalkTag(version), WalkPdu(version, id, oid))| < LENGTH_LIMIT;
    assert NullVarBinds([oid]) == [VarBind(oid, Null)];
    MessageAgrees(version, community, WalkTag(version), id, 0, if version.V1? then 0 else MAX_REPETITIONS,
                  NullVarBinds([oid]), false);
  }

  /** A peer's response, whatever its version, gives the caller its varbinds, or its error status and index. */
  lemma ResponseUnderstood(version: Version, community: bytes, id: i32, status: i32, index: i32, vbs: seq<VarBind>)
    requires |MessageContent(version, community, 0xA2, PduContent(id, status, index, VarBindsBytes(vbs, true)))| < 0x100_0000
    ensures var data := CommunityMessage(VersionNumber(version), community,
                                         PduField(0xA2, id, status, index, Bindings(vbs, true)));
            Interpret(Ok(data)) == if status == 0 then Ok(VarBindsOnWire(vbs, true))
                                   else Err(Snmp(status % 0x1_0000_0000, index % 0x1_0000_0000))
  {
    hide MessageContent, MessageBytes, CommunityMessage, PduField, PduContent, VarBindsBytes, Bindings, VersionNumber,
      ResponseOf, VarBindsOnWire;
    MessageAgrees(version, community, 0xA2, id, status, index, vbs, true);
    MessageRoundTrip(version, community, 0xA2, id, status, index, vbs, true, []);
    var s := MessageBytes(version, community, 0xA2, PduContent(id, status, index, VarBindsBytes(vbs, true)));
    assert s + [] == s;
  }

  // ---- v3 requests ----

  /** The octets of every v3 request that signs in place, and the header and parameters that a receiver finds. */
  lemma V3RequestLaidOut(s: Session, msgId: i32, salt: u64, tag: byte, requestId: i32, f1: i32, f2: i32, vbs: seq<VarBind>)
    requires s.Ready()
    requires var scoped := RequestScoped(s, tag, requestId, f1, f2, VarBindsBytes(vbs, false));
             SignsInPlace(s, msgId, salt, scoped) && |RequestContent(s, msgId, salt, scoped)| < 0x100_0000
    ensures var packet := RequestPacket(s, msgId, salt, RequestScoped(s, tag, requestId, f1, f2, VarBindsBytes(vbs, false)));
            && V3MessageOf(packet).Ok?
            && var msg := V3MessageOf(packet).value;
            && msg.header.msgId == msgId && msg.header.maxSize == 65507 && msg.header.model == 3
            && msg.header.flags < 8 && msg.header.flags / 4 % 2 == 1
            && (msg.header.flags % 2 == 1 <==> s.credentials.authProtocol.Some?)
            && (msg.header.flags / 2 % 2 == 1 <==> s.credentials.privProtocol.Some?)
            && msg.usm.engineId == s.engine.engineId && msg.usm.boots == s.engine.boots && msg.usm.time == s.engine.time
            && msg.usm.username == s.credentials.username
            && packet == V3Octets(msgId, 65507, msg.header.flags, 3,
                                  SecurityParameters(s.engine.engineId, s.engine.boots, s.engine.time,
                                                     s.credentials.username, msg.usm.auth, msg.usm.priv),
                                  if s.credentials.privProtocol.Some? then Text(msg.scopedRaw)
                                  else ScopedField(s.engine.engineId, [],
                                                   PduField(tag, requestId, f1, f2, Bindings(vbs, false))))
  {
    hide V3MessageOf, ScopedOf, Opened, UsmBytes, UsmContent, V3Content, V3Bytes, V3Octets, SecurityParameters, ScopedBytes,
      ScopedContent, ScopedField, PduContent, PduField, VarBindsBytes, Bindings, VarBindsOnWire, SignsInPlace, RequestMac,
      Encrypted, Tlv, Field, ReadTlv;
    var list := VarBindsBytes(vbs, false);
    var scoped := RequestScoped(s, tag, requestId, f1, f2, list);
    var auth := RequestAuth(s, msgId, salt, scoped);
    var (final, priv) := Sealed(s, salt, scoped);
    var h, usm := RequestHeader(s, msgId), RequestUsm(s, auth, priv);
    RequestDelivered(s, msgId, salt, tag, requestId, f1, f2, vbs, false);
    SignedIsReencoded(s, msgId, salt, scoped);
    SameSize(h, RequestUsm(s, Zeros(s.MacSize()), priv), auth, RequestBody(s, salt, scoped));
    V3Agrees(h, usm, RequestBody(s, salt, scoped));
    RequestFits(s, msgId, salt, tag, PduContent(requestId, f1, f2, list));
    ScopedAgrees(s.engine.engineId, [], tag, requestId, f1, f2, vbs, false);
    BodyFits(h, UsmBytes(usm), final, s.credentials.privProtocol.Some?);
    FieldAgrees(0x04, final);
  }

  /** The GETBULK of a v3 walk asks for twenty repetitions of one identifier, and no non-repeaters. */
  lemma AskLaidOut(s: Session, requestId: i32, oid: Oid)
    requires |ScopedContent(s.engine.engineId, [], PDU_GETBULK,
                            PduContent(requestId, 0, 20, VarBindsBytes([VarBind(oid, Null)], false)))| < 0x100_0000
    ensures AskScoped(s, requestId, oid)
         == ScopedField(s.engine.engineId, [], PduField(0xA5, requestId, 0, 20, Bindings([VarBind(oid, Null)], false)))
  {
    hide ScopedBytes, ScopedContent, ScopedField, PduContent, PduField, VarBindsBytes, Bindings;
    assert NullVarBinds([oid]) == [VarBind(oid, Null)];
    ScopedAgrees(s.engine.engineId, [], PDU_GETBULK, requestId, 0, 20, [VarBind(oid, Null)], false);
  }

  /** The discovery request of section 4 of RFC 3414, octet for octet. */
  lemma DiscoveryLaidOut(msgId: i32)
    ensures DiscoveryPacket(msgId)
         == V3Octets(msgId, 65507, 0x04, 3, SecurityParameters([], 0, 0, [], [], []),
                     ScopedField([], [], PduField(0xA0, 0, 0, 0, [])))
    ensures V3MessageOf(DiscoveryPacket(msgId)).Ok?
    ensures var h := V3MessageOf(DiscoveryPacket(msgId)).value.header;
            h.msgId == msgId && h.maxSize == 65507 && h.flags == 4 && h.model == 3
  {
    hide V3MessageOf, ScopedOf, UsmBytes, V3Content, V3Bytes, V3Octets, SecurityParameters, ScopedBytes, ScopedContent,
      ScopedField, PduContent, PduField;
    var h, usm, pdu := Header(msgId, MAX_SIZE, REPORTABLE, USM_MODEL), Usm([], 0, 0, [], [], []), PduContent(0, 0, 0, []);
    DiscoveryDelivered(msgId);
    DiscoveryIsShort(h, usm, pdu);
    V3Agrees(h, usm, ScopedBytes([], [], PDU_GET, pdu));
    assert VarBindsBytes([], false) == [] && Bindings([], false) == [];
    ScopedAgrees([], [], PDU_GET, 0, 0, 0, [], false);
  }

  // ---- Authentication and privacy of requests ----

  /**
   Section 6.3.1 of RFC 3414 and section 4 of RFC 7860: the packet is a prefix, the first 12 or 24 octets of the HMAC of the
   packet with zeros in their place, and the rest; and that place is the authentication parameters.
   */
  lemma RequestAuthentic(s: Session, msgId: i32, salt: u64, tag: byte, pdu: bytes) returns (prefix: bytes, suffix: bytes)
    requires s.Ready() && s.Signs()
    requires var scoped := ScopedBytes(s.engine.engineId, [], tag, pdu);
             SignsInPlace(s, msgId, salt, scoped) && |RequestContent(s, msgId, salt, scoped)| < 0x100_0000
    ensures var packet := RequestPacket(s, msgId, salt, ScopedBytes(s.engine.engineId, [], tag, pdu));
            var size := match s.credentials.authProtocol.value case Md5 => 12 case Sha1 => 12 case Sha256 => 24;
            var zeroed := prefix + seq(size, _ => 0) + suffix;
            var auth := s.suite.hmac(s.credentials.authProtocol.value, s.authKey.value, zeroed)[..size];
            && packet == prefix + auth + suffix
            && V3MessageOf(packet).Ok? && V3MessageOf(packet).value.usm.auth == auth
            && V3MessageOf(zeroed).Ok?
            && V3MessageOf(zeroed).value.usm == V3MessageOf(packet).value.usm.(auth := seq(size, _ => 0))
  {
    hide V3MessageOf, V3Content, V3Bytes, UsmBytes, ScopedBytes, ScopedContent, Body, Encrypted, Sealed, SignsInPlace, ReadTlv,
      AuthPrefix, OctetsTlv;
    var scoped := ScopedBytes(s.engine.engineId, [], tag, pdu);
    var n, auth := s.MacSize(), RequestAuth(s, msgId, salt, scoped);
    var (final, priv) := Sealed(s, salt, scoped);
    var h, body := RequestHeader(s, msgId), RequestBody(s, salt, scoped);
    var u := RequestUsm(s, Zeros(n), priv);
    prefix, suffix := AuthPrefix(h, u, body), OctetsTlv(priv) + body;
    SignedIsReencoded(s, msgId, salt, scoped);
    AssembledArrives(s, msgId, salt, tag, pdu);
    PacketLayout(h, u, body);
    PacketLayout(h, u.(auth := auth), body);
    PrefixIgnoresMac(h, u, body, auth);
    RequestFits(s, msgId, salt, tag, pdu);
    FlagsAgree(s.credentials);
    V3RoundTrip(h, u, final, s.credentials.privProtocol.Some?, []);
    assert V3Bytes(h, UsmBytes(u), body) + [] == V3Bytes(h, UsmBytes(u), body);
    assert Zeros(n) == seq(n, _ => 0);
  }

  /**
   What a receiver of an encrypted request must decrypt with: under AES the first sixteen octets of the key and the
   vector of boots, time and privacy parameters that the message itself carries; under DES the first eight and the
   second eight masked with the privacy parameters. It then has the scoped PDU, up to padding.
   */
  lemma RequestOpens(s: Session, msgId: i32, salt: u64, tag: byte, pdu: bytes, iv: bytes)
    requires s.Ready() && s.credentials.privProtocol.Some?
    requires var scoped := ScopedBytes(s.engine.engineId, [], tag, pdu);
             SignsInPlace(s, msgId, salt, scoped) && |RequestContent(s, msgId, salt, scoped)| < 0x100_0000
    ensures var scoped := ScopedBytes(s.engine.engineId, [], tag, pdu);
            var r, key := V3MessageOf(RequestPacket(s, msgId, salt, scoped)), s.privKey.value;
            && r.Ok? && |r.value.usm.priv| == 8
            && var usm, cipher := r.value.usm, r.value.scopedRaw;
            && usm.boots == s.engine.boots && usm.time == s.engine.time
            && (s.credentials.privProtocol.value.Aes128? ==>
                  && Unsigned(usm.priv) == salt
                  && (IsAesVector(iv, usm.boots, usm.time, usm.priv) ==> s.suite.aesDecrypt(key[..16], iv, cipher) == scoped))
            && (s.credentials.privProtocol.value.Des? ==>
                  && Unsigned(usm.priv[..4]) == s.engine.boots && Unsigned(usm.priv[4..]) == salt % 0x1_0000_0000
                  && (IsDesVector(iv, key, usm.priv) ==>
                        s.suite.desDecrypt(key[..8], iv, cipher) == scoped + Zeros(PadLen(|scoped|))))
  {
    hide V3MessageOf, UsmBytes, ScopedBytes, ScopedContent, SignsInPlace, RequestContent, RequestAuth, DesIv, AesIv, DesParams,
      BeBytes, IsAesVector, IsDesVector, Assembled;
    var scoped := ScopedBytes(s.engine.engineId, [], tag, pdu);
    SignedIsReencoded(s, msgId, salt, scoped);
    AssembledArrives(s, msgId, salt, tag, pdu);
    PrivacyParameters(s.engine.boots, salt);
    DecryptUndoesEncrypt(s.suite, s.credentials.privProtocol.value, s.privKey.value, s.engine.boots, s.engine.time, salt, scoped);
    var (cipher, params) := Sealed(s, salt, scoped);
    AesVector(iv, s.engine.boots, s.engine.time, params);
    DesVector(iv, s.privKey.value, params);
  }

  // ---- Engine state ----

  lemma AskCarries(s: Session, t: Session, c: Counters, oid: Oid)
    requires s.Ready() && t == s.(engine := t.engine) && t.engine.engineId == s.engine.engineId
    requires V3Askable(s, oid) && V3QueryOf(s, AskPacket(t, c, oid)).Ok?
    ensures var r := V3MessageOf(AskPacket(t, c, oid));
            r.Ok? && r.value.usm.engineId == s.engine.engineId
            && r.value.usm.boots == t.engine.boots && r.value.usm.time == t.engine.time
  {
    hide V3MessageOf, V3QueryOf, ScopedOf, Opened, RequestPacket, RequestContent, RequestAuth, SignsInPlace, UsmBytes,
      RequestScoped, VarBindsBytes, VarBindsOnWire, Sealed;
    assert s.(engine := t.engine) == t;
    AskRead(s, t, c, oid);
    RequestDelivered(t, c.msgId, c.salt, PDU_GETBULK, c.requestId, 0, MAX_REPETITIONS, NullVarBinds([oid]), false);
    assert |RequestContent(t, c.msgId, c.salt, AskScoped(t, c.requestId, oid))| < LENGTH_LIMIT;
  }

  /**
   After a peer's message, the next request that an agent accepts carries the boots and time of that message, and
   the engine identifier of the session.
   */
  lemma EngineFollows(s: Session, c: Counters, asked: seq<Oid>, inbox: seq<Result<bytes>>, k: nat, d: PeerMessage)
    requires s.Ready() && |asked| <= |inbox| + 1 && k + 1 < |asked|
    requires inbox[k] == Ok(d.Octets(s)) && |d.Content(s)| < 0x100_0000
    requires V3Askable(s, asked[k + 1]) && V3QueryOf(s, AskPackets(s, c, asked, inbox)[k + 1]).Ok?
    ensures var r := V3MessageOf(AskPackets(s, c, asked, inbox)[k + 1]);
            && r.Ok? && r.value.usm.engineId == s.engine.engineId
            && r.value.usm.boots == d.usm.boots && r.value.usm.time == d.usm.time
  {
    hide V3MessageOf, V3QueryOf, AskPacket, V3Askable, PeerMessage.Octets, PeerMessage.Content, SessionAfter;
    SessionStep(s, inbox, k);
    PeerMessageArrives(s, d);
    AskCarries(s, SessionAfter(s, inbox[..k + 1]), CountersAfter(s, c, k + 2), asked[k + 1]);
  }

  /** After an error or a datagram that does not decode, the next request carries what the one before it did. */
  lemma EngineStays(s: Session, c: Counters, asked: seq<Oid>, inbox: seq<Result<bytes>>, k: nat)
    requires s.Ready() && |asked| <= |inbox| + 1 && k + 1 < |asked|
    requires inbox[k].Err? || V3MessageOf(inbox[k].value).Err?
    requires V3Askable(s, asked[k]) && V3QueryOf(s, AskPackets(s, c, asked, inbox)[k]).Ok?
    requires V3Askable(s, asked[k + 1]) && V3QueryOf(s, AskPackets(s, c, asked, inbox)[k + 1]).Ok?
    ensures var p, q := V3MessageOf(AskPackets(s, c, asked, inbox)[k]), V3MessageOf(AskPackets(s, c, asked, inbox)[k + 1]);
            && p.Ok? && q.Ok? && p.value.usm.boots == q.value.usm.boots && p.value.usm.time == q.value.usm.time
  {
    hide V3MessageOf, V3QueryOf, AskPacket, V3Askable, SessionAfter;
    SessionStep(s, inbox, k);
    AskCarries(s, SessionAfter(s, inbox[..k]), CountersAfter(s, c, k + 1), asked[k]);
    AskCarries(s, SessionAfter(s, inbox[..k + 1]), CountersAfter(s, c, k + 2), asked[k + 1]);
  }

  /** The first request carries the session's own engine state. */
  lemma EngineStarts(s: Session, c: Counters, asked: seq<Oid>, inbox: seq<Result<bytes>>)
    requires s.Ready() && 1 <= |asked| <= |inbox| + 1
    requires V3Askable(s, asked[0]) && V3QueryOf(s, AskPackets(s, c, asked, inbox)[0]).Ok?
    ensures var r := V3MessageOf(AskPackets(s, c, asked, inbox)[0]);
            && r.Ok? && r.value.usm.engineId == s.engine.engineId
            && r.value.usm.boots == s.engine.boots && r.value.usm.time == s.engine.time
  {
    hide V3MessageOf, V3QueryOf, AskPacket, V3Askable;
    assert inbox[..0] == [];
    AskCarries(s, s, CountersAfter(s, c, 1), asked[0]);
  }

  /** Discovery learns engine identifier, boots and time as the peer's message states them, or fails without an identifier. */
  lemma DiscoveryLearns(s: Session, d: PeerMessage)
    requires s.Ready() && |d.Content(s)| < 0x100_0000
    ensures Discovered(Ok(d.Octets(s))) == if d.usm.engineId == [] then Err(DiscoveryFailed)
                                           else Ok(Engine(d.usm.engineId, d.usm.boots, d.usm.time))
  {
    hide V3MessageOf, PeerMessage.Octets, PeerMessage.Content;
    PeerMessageArrives(s, d);
  }

  // ---- What a peer sends ----

  /** A peer's v3 message, octet for octet. */
  lemma PeerMessageLaidOut(s: Session, d: PeerMessage)
    requires s.Ready() && |d.Content(s)| < 0x100_0000
    ensures d.Octets(s)
         == V3Octets(d.header.msgId, d.header.maxSize, d.header.flags, d.header.model,
                     SecurityParameters(d.usm.engineId, d.usm.boots, d.usm.time, d.usm.username, d.usm.auth, d.Params(s).priv),
                     if d.header.flags / 2 % 2 == 1 then Text(d.Secured(s).0)
                     else ScopedField(d.contextEngine, d.contextName,
                                      PduField(d.tag, d.requestId, d.status, d.index, Bindings(d.varbinds, true))))
  {
    hide V3MessageOf, UsmBytes, V3Content, V3Octets, SecurityParameters, ScopedBytes, ScopedContent, ScopedField, PduContent,
      PduField, VarBindsBytes, Bindings, Encrypted, Tlv, Field;
    var body := Body(d.Secured(s).0, d.Flagged());
    PeerMessageArrives(s, d);
    V3Agrees(d.header, d.Params(s), body);
    assert d.Octets(s) == V3Bytes(d.header, UsmBytes(d.Params(s)), body);
    ScopedAgrees(d.contextEngine, d.contextName, d.tag, d.requestId, d.status, d.index, d.varbinds, true);
    BodyFits(d.header, UsmBytes(d.Params(s)), d.Secured(s).0, d.Flagged());
    FieldAgrees(0x04, d.Secured(s).0);
  }

  /** Version 1 traps by RFC 1157: read with the timestamp as INTEGER, refused with the TimeTicks that it prescribes. */
  lemma TrapV1Understood(community: bytes, f: V1Fields, addr: Ipv4, timestampTag: byte, vbs: seq<VarBind>)
    requires |MessageContent(V1, community, PDU_TRAP_V1,
                             V1PduContent(f, addr, timestampTag, VarBindsBytes(vbs, true)))| < 0x100_0000
    ensures TrapOf(CommunityMessage(0, community,
                                    TrapV1Field(f.enterprise, addr, f.genericTrap, f.specificTrap,
                                                Field(timestampTag, IntBytes(f.timestamp)), Bindings(vbs, true))))
         == if timestampTag == 0x02
            then Ok(Trap(V1, community, VarBindsOnWire(vbs, true),
                         Some(V1Fields(OnWire(f.enterprise), Some(addr), f.genericTrap, f.specificTrap, f.timestamp))))
            else Err(WrongTag(0x02, timestampTag))
  {
    hide TrapOf, MessageContent, MessageBytes, CommunityMessage, TrapV1Field, V1PduContent, VarBindsBytes, Bindings,
      VarBindsOnWire, OnWire, Field;
    TrapV1Agrees(community, f, addr, timestampTag, vbs, true);
    V1TrapRead(community, f, addr, timestampTag, vbs, true, []);
    var s := MessageBytes(V1, community, PDU_TRAP_V1, V1PduContent(f, addr, timestampTag, VarBindsBytes(vbs, true)));
    assert s + [] == s;
  }

  /** Version 2 traps by RFC 3416, whatever their request id, status and index. */
  lemma TrapV2Understood(community: bytes, id: i32, status: i32, index: i32, vbs: seq<VarBind>)
    requires |MessageContent(V2c, community, 0xA7, PduContent(id, status, index, VarBindsBytes(vbs, true)))| < 0x100_0000
    ensures TrapOf(CommunityMessage(1, community, PduField(0xA7, id, status, index, Bindings(vbs, true))))
         == Ok(Trap(V2c, community, VarBindsOnWire(vbs, true), None))
  {
    hide ReadTlv, ReadOctets, ReadInteger, IntegerTlv, PduOf, PduContent, CommunityMessage, PduField, VarBindsBytes, Bindings,
      VarBindsOnWire, V1TrapOf, V3TrapOf;
    var pdu := PduContent(id, status, index, VarBindsBytes(vbs, true));
    var body := Tlv(0xA7, pdu);
    MessageAgrees(V2c, community, 0xA7, id, status, index, vbs, true);
    SequenceRead(MessageContent(V2c, community, 0xA7, pdu), []);
    assert MessageBytes(V2c, community, 0xA7, pdu) + [] == MessageBytes(V2c, community, 0xA7, pdu);
    IntegerRead(1, OctetsTlv(community) + body);
    OctetsRead(community, body);
    TlvRead(0xA7, pdu, []);
    assert body + [] == body;
    InsideIsTlv(body, 0xA7);
    PduFits(id, status, index, VarBindsBytes(vbs, true));
    PduRead(id, status, index, vbs, true);
  }

  /** v3 traps in the clear, whatever header, security parameters, context and PDU type. */
  lemma TrapV3Understood(s: Session, d: PeerMessage)
    requires s.Ready() && |d.Content(s)| < 0x100_0000
    ensures TrapOf(d.Octets(s)) == if d.header.flags / 2 % 2 == 1 then Err(WrongTag(0x30, 0x04))
                                   else Ok(Trap(V3, [], VarBindsOnWire(d.varbinds, true), None))
  {
    hide TrapOf, V3MessageOf, ScopedOf, ScopedContent, PduContent, VarBindsBytes, VarBindsOnWire, PeerMessage.Octets,
      PeerMessage.Content;
    PeerMessageArrives(s, d);
    V3TrapAgrees(d.Octets(s));
    ScopedRoundTrip(d.contextEngine, d.contextName, d.tag, d.requestId, d.status, d.index, d.varbinds, true, []);
    assert d.Scoped() + [] == d.Scoped();
  }
}
