/** SNMPv3 messages with User-based Security Model parameters and scoped PDUs. */
module V3Messages {
  import opened Octets
  import opened Results
  import opened Types
  import opened BerSpec
  import opened BerFacts
  import opened Ber
  import opened Messages

  /** The security parameters of section 2.4 of RFC 3414. */
  datatype Usm = Usm(engineId: bytes, boots: u32, time: u32, username: bytes, auth: bytes, priv: bytes)

  datatype Header = Header(msgId: i32, maxSize: i32, flags: byte, model: i32)

  datatype V3Message = V3Message(header: Header, paramsRaw: bytes, usm: Usm, scopedRaw: bytes, isEncrypted: bool)

  datatype ScopedPdu = ScopedPdu(engineId: bytes, contextName: bytes, pduType: byte, requestId: i32,
                                 errorStatus: u32, errorIndex: u32, varbinds: seq<VarBind>)

  // ---- Layout ----

  function HeaderContent(h: Header): bytes {
    IntegerTlv(h.msgId) + (IntegerTlv(h.maxSize) + (OctetsTlv([h.flags]) + IntegerTlv(h.model)))
  }

  function UsmContent(u: Usm): bytes {
    OctetsTlv(u.engineId) + (IntegerTlv(u.boots) + (IntegerTlv(u.time) +
    (OctetsTlv(u.username) + (OctetsTlv(u.auth) + OctetsTlv(u.priv)))))
  }

  function UsmBytes(u: Usm): bytes {
    SequenceTlv(UsmContent(u))
  }

  function Body(scoped: bytes, encrypted: bool): bytes {
    if encrypted then OctetsTlv(scoped) else scoped
  }

  function V3Content(h: Header, params: bytes, body: bytes): bytes {
    IntegerTlv(3) + (SequenceTlv(HeaderContent(h)) + (OctetsTlv(params) + body))
  }

  function V3Bytes(h: Header, params: bytes, body: bytes): bytes {
    SequenceTlv(V3Content(h, params, body))
  }

  function ScopedContent(engineId: bytes, contextName: bytes, tag: byte, pdu: bytes): bytes {
    OctetsTlv(engineId) + (OctetsTlv(contextName) + Tlv(tag, pdu))
  }

  function ScopedBytes(engineId: bytes, contextName: bytes, tag: byte, pdu: bytes): bytes {
    SequenceTlv(ScopedContent(engineId, contextName, tag, pdu))
  }

  // ---- Decoding ----

  /** Bit 0x02 of msgFlags. */
  predicate PrivFlag(flags: byte) {
    flags / 2 % 2 == 1
  }

  function HeaderOf(s: bytes): Result<Header> {
    var msgId :- ReadInteger(s);
    var maxSize :- ReadInteger(msgId.rest);
    var flags :- ReadOctets(maxSize.rest);
    var model :- ReadInteger(flags.rest);
    Ok(Header(ToI32(msgId.value), ToI32(maxSize.value), if flags.value == [] then 0 else flags.value[0],
              ToI32(model.value)))
  }

  function UsmOf(s: bytes): Result<Usm> {
    if s == [] then Ok(Usm([], 0, 0, [], [], []))
    else
      var params :- ReadSequence(s);
      var engineId :- ReadOctets(params.value);
      var boots :- ReadInteger(engineId.rest);
      var time :- ReadInteger(boots.rest);
      var username :- ReadOctets(time.rest);
      var auth :- ReadOctets(username.rest);
      var priv :- ReadOctets(auth.rest);
      Ok(Usm(engineId.value, ToU32(boots.value), ToU32(time.value), username.value, auth.value, priv.value))
  }

  /** The scoped PDU as it stands in the message: the contents of an OCTET STRING, or a whole element. */
  function ScopedRawOf(s: bytes, encrypted: bool): Result<bytes> {
    if encrypted then
      var raw :- ReadOctets(s);
      Ok(raw.value)
    else
      var e :- ReadTlv(s);
      Ok(s[..|s| - |e.rest|])
  }

  /** Everything after the version. */
  function V3FieldsOf(s: bytes): Result<V3Message> {
    var headerSeq :- ReadSequence(s);
    var header :- HeaderOf(headerSeq.value);
    var params :- ReadOctets(headerSeq.rest);
    var usm :- UsmOf(params.value);
    var raw :- ScopedRawOf(params.rest, PrivFlag(header.flags));
    Ok(V3Message(header, params.value, usm, raw, PrivFlag(header.flags)))
  }

  function V3MessageOf(data: bytes): Result<V3Message> {
    var msg :- ReadSequence(data);
    var version :- ReadInteger(msg.value);
    :- Need(version.value == 3, UnknownVersion(version.value));
    V3FieldsOf(version.rest)
  }

  function ScopedContentOf(s: bytes): Result<ScopedPdu> {
    var engineId :- ReadOctets(s);
    var contextName :- ReadOctets(engineId.rest);
    var body :- ReadTlv(contextName.rest);
    var pdu :- PduOf(body.content);
    Ok(ScopedPdu(engineId.value, contextName.value, body.tag, ToI32(pdu.requestId),
                 ToU32(pdu.status), ToU32(pdu.index), pdu.varbinds))
  }

  function ScopedOf(data: bytes): Result<ScopedPdu> {
    var s :- ReadSequence(data);
    ScopedContentOf(s.value)
  }

  // ---- Round trips ----

  lemma HeaderRead(h: Header)
    ensures HeaderOf(HeaderContent(h)) == Ok(h)
  {
    hide IntegerTlv, OctetsTlv, ReadInteger, ReadOctets;
    IntegerRead(h.msgId, IntegerTlv(h.maxSize) + (OctetsTlv([h.flags]) + IntegerTlv(h.model)));
    IntegerRead(h.maxSize, OctetsTlv([h.flags]) + IntegerTlv(h.model));
    OctetsRead([h.flags], IntegerTlv(h.model));
    IntegerRead(h.model, []);
    assert IntegerTlv(h.model) + [] == IntegerTlv(h.model);
  }

  /** Security parameters round trip, whatever octets follow them. */
  lemma UsmRoundTrip(u: Usm, x: bytes)
    requires |UsmContent(u)| < LENGTH_LIMIT
    ensures UsmOf(UsmBytes(u) + x) == Ok(u)
  {
    hide IntegerTlv, ReadInteger, ReadOctets, ReadSequence;
    UsmFieldsFit(u);
    var e := OctetsTlv(u.priv);
    var d := OctetsTlv(u.auth) + e;
    var c := OctetsTlv(u.username) + d;
    var b := IntegerTlv(u.time) + c;
    SequenceRead(UsmContent(u), x);
    OctetsRead(u.engineId, IntegerTlv(u.boots) + b);
    IntegerRead(u.boots, b);
    IntegerRead(u.time, c);
    OctetsRead(u.username, d);
    OctetsRead(u.auth, e);
    OctetsRead(u.priv, []);
    assert e + [] == e;
  }

  lemma UsmFieldsFit(u: Usm)
    ensures |u.engineId| + |u.username| + |u.auth| + |u.priv| < |UsmContent(u)| < |UsmBytes(u)|
  {
  }

  /** A scoped PDU is one element that fills its string. */
  lemma ScopedIsElement(engineId: bytes, contextName: bytes, tag: byte, pdu: bytes)
    requires |ScopedContent(engineId, contextName, tag, pdu)| < LENGTH_LIMIT
    ensures ReadTlv(ScopedBytes(engineId, contextName, tag, pdu))
         == Ok(Element(TAG_SEQUENCE, ScopedContent(engineId, contextName, tag, pdu), []))
  {
    hide ScopedContent;
    var content := ScopedContent(engineId, contextName, tag, pdu);
    TlvRead(TAG_SEQUENCE, content, []);
    assert Tlv(TAG_SEQUENCE, content) + [] == Tlv(TAG_SEQUENCE, content);
  }

  /** The scoped PDU reader undoes the scoped PDU writer, whatever octets (such as padding) follow. */
  lemma ScopedRoundTrip(engineId: bytes, contextName: bytes, tag: byte, requestId: i32, status: i32, index: i32,
                        vbs: seq<VarBind>, tagged: bool, x: bytes)
    requires |ScopedContent(engineId, contextName, tag,
                            PduContent(requestId, status, index, VarBindsBytes(vbs, tagged)))| < LENGTH_LIMIT
    ensures ScopedOf(ScopedBytes(engineId, contextName, tag,
                                 PduContent(requestId, status, index, VarBindsBytes(vbs, tagged))) + x)
         == Ok(ScopedPdu(engineId, contextName, tag, requestId, ToU32(status), ToU32(index),
                         VarBindsOnWire(vbs, tagged)))
  {
    hide PduContent, PduOf, ScopedOf, ScopedBytes, ScopedContent;
    var pdu := PduContent(requestId, status, index, VarBindsBytes(vbs, tagged));
    ScopedFits(engineId, contextName, tag, pdu);
    PduFits(requestId, status, index, VarBindsBytes(vbs, tagged));
    PduRead(requestId, status, index, vbs, tagged);
    ScopedRead(engineId, contextName, tag, pdu, x, Pdu(requestId, status, index, VarBindsOnWire(vbs, tagged)));
  }

  lemma ScopedFits(engineId: bytes, contextName: bytes, tag: byte, pdu: bytes)
    ensures |pdu| < |ScopedContent(engineId, contextName, tag, pdu)|
  {
  }

  lemma PduFits(requestId: i32, status: i32, index: i32, list: bytes)
    ensures |list| < |PduContent(requestId, status, index, list)|
  {
  }

  lemma ScopedRead(engineId: bytes, contextName: bytes, tag: byte, pdu: bytes, x: bytes, p: Pdu)
    requires |ScopedContent(engineId, contextName, tag, pdu)| < LENGTH_LIMIT
    requires PduOf(pdu) == Ok(p)
    ensures ScopedOf(ScopedBytes(engineId, contextName, tag, pdu) + x)
         == Ok(ScopedPdu(engineId, contextName, tag, ToI32(p.requestId), ToU32(p.status), ToU32(p.index), p.varbinds))
  {
    hide PduOf, ReadOctets, ReadSequence, ReadTlv;
    var body := Tlv(tag, pdu);
    SequenceRead(ScopedContent(engineId, contextName, tag, pdu), x);
    OctetsRead(engineId, OctetsTlv(contextName) + body);
    OctetsRead(contextName, body);
    TlvRead(tag, pdu, []);
    assert body + [] == body;
  }

  lemma BodyRead(scoped: bytes, encrypted: bool)
    requires |scoped| < LENGTH_LIMIT
    requires !encrypted ==> ReadTlv(scoped).Ok? && ReadTlv(scoped).value.rest == []
    ensures ScopedRawOf(Body(scoped, encrypted), encrypted) == Ok(scoped)
  {
    hide ReadOctets, ReadTlv;
    if encrypted {
      OctetsRead(scoped, []);
      assert OctetsTlv(scoped) + [] == OctetsTlv(scoped);
    } else {
      assert scoped[..|scoped|] == scoped;
    }
  }

  lemma BodyFits(h: Header, params: bytes, scoped: bytes, encrypted: bool)
    ensures |scoped| + |params| < |V3Content(h, params, Body(scoped, encrypted))|
  {
  }

  /** A body read against its flag: the OCTET STRING is taken for a scoped PDU, or an element for an OCTET STRING. */
  lemma BodyMisread(scoped: bytes, encrypted: bool)
    requires |scoped| < LENGTH_LIMIT
    requires !encrypted ==> ReadTlv(scoped).Ok? && ReadTlv(scoped).value.rest == []
    ensures ScopedRawOf(Body(scoped, encrypted), !encrypted)
         == if encrypted then Ok(OctetsTlv(scoped))
            else if ReadTlv(scoped).value.tag == TAG_OCTET_STRING then Ok(ReadTlv(scoped).value.content)
            else Err(WrongTag(TAG_OCTET_STRING, ReadTlv(scoped).value.tag))
  {
    hide ReadTlv, Tlv;
    if encrypted {
      var s := OctetsTlv(scoped);
      TlvRead(TAG_OCTET_STRING, scoped, []);
      assert s + [] == s && s[..|s|] == s;
    }
  }

  /** What the reader takes for the scoped PDU: what was written if the privacy flag agrees with how it was written. */
  function RawSeen(h: Header, scoped: bytes, encrypted: bool): Result<bytes>
    requires !encrypted ==> ReadTlv(scoped).Ok?
  {
    if PrivFlag(h.flags) == encrypted then Ok(scoped)
    else if encrypted then Ok(OctetsTlv(scoped))
    else if ReadTlv(scoped).value.tag == TAG_OCTET_STRING then Ok(ReadTlv(scoped).value.content)
    else Err(WrongTag(TAG_OCTET_STRING, ReadTlv(scoped).value.tag))
  }

  /**
   The v3 message round trip: header and security parameters come back always; the scoped PDU does when the
   privacy flag agrees with how it was written. A flag missing yields the OCTET STRING around the ciphertext,
   a flag too many the refusal of the scoped PDU's tag.
   */
  lemma V3RoundTrip(h: Header, u: Usm, scoped: bytes, encrypted: bool, x: bytes)
    requires |V3Content(h, UsmBytes(u), Body(scoped, encrypted))| < LENGTH_LIMIT
    requires !encrypted ==> ReadTlv(scoped).Ok? && ReadTlv(scoped).value.rest == []
    ensures V3MessageOf(V3Bytes(h, UsmBytes(u), Body(scoped, encrypted)) + x)
         == (var raw :- RawSeen(h, scoped, encrypted);
             Ok(V3Message(h, UsmBytes(u), u, raw, PrivFlag(h.flags))))
  {
    hide ReadTlv, V3MessageOf, V3Content, UsmContent, ScopedRawOf, UsmOf, Body, UsmBytes, V3Bytes;
    BodyFits(h, UsmBytes(u), scoped, encrypted);
    UsmFieldsFit(u);
    UsmRoundTrip(u, []);
    assert UsmBytes(u) + [] == UsmBytes(u);
    V3HeaderRead(h, UsmBytes(u), Body(scoped, encrypted), x);
    if PrivFlag(h.flags) == encrypted {
      BodyRead(scoped, encrypted);
    } else {
      BodyMisread(scoped, encrypted);
    }
  }

  lemma V3HeaderRead(h: Header, params: bytes, body: bytes, x: bytes)
    requires |V3Content(h, params, body)| < LENGTH_LIMIT
    ensures V3MessageOf(V3Bytes(h, params, body) + x)
         == (var usm :- UsmOf(params);
             var raw :- ScopedRawOf(body, PrivFlag(h.flags));
             Ok(V3Message(h, params, usm, raw, PrivFlag(h.flags))))
  {
    hide UsmOf, ScopedRawOf, HeaderOf, ReadInteger, ReadOctets, ReadSequence, IntegerTlv, HeaderContent;
    HeaderFits(h, params, body);
    SequenceRead(V3Content(h, params, body), x);
    IntegerRead(3, SequenceTlv(HeaderContent(h)) + (OctetsTlv(params) + body));
    SequenceRead(HeaderContent(h), OctetsTlv(params) + body);
    HeaderRead(h);
    OctetsRead(params, body);
  }

  lemma HeaderFits(h: Header, params: bytes, body: bytes)
    ensures |HeaderContent(h)| < |V3Content(h, params, body)|
    ensures |params| < |V3Content(h, params, body)|
  {
  }

  // ---- Suffixes and cuts ----

  /** Trailing octets never change a decoded message. */
  lemma V3Stable(data: bytes, x: bytes)
    requires ReadTlv(data).Ok?
    ensures V3MessageOf(data + x) == V3MessageOf(data)
    ensures ScopedOf(data + x) == ScopedOf(data)
  {
    hide HeaderOf, UsmOf, ScopedRawOf, ScopedContentOf, ReadInteger, ReadOctets, ReadLength;
    TlvStable(data, x);
    assert (data + x)[0] == data[0];
    InsideIsTlv(data, TAG_SEQUENCE);
    InsideIsTlv(data + x, TAG_SEQUENCE);
  }

  /** Every strict prefix of an encoded message is rejected. */
  lemma V3Truncated(h: Header, params: bytes, body: bytes, cut: nat)
    requires |V3Content(h, params, body)| < LENGTH_LIMIT
    requires cut < |V3Bytes(h, params, body)|
    ensures V3MessageOf(V3Bytes(h, params, body)[..cut]).Err?
  {
    hide V3Content, HeaderOf, UsmOf, ScopedRawOf, ReadLength;
    var s := V3Bytes(h, params, body);
    TlvRead(TAG_SEQUENCE, V3Content(h, params, body), []);
    assert s + [] == s;
    TlvTruncated(s, cut);
    InsideIsTlv(s[..cut], TAG_SEQUENCE);
  }

  lemma ScopedTruncated(engineId: bytes, contextName: bytes, tag: byte, pdu: bytes, cut: nat)
    requires |ScopedContent(engineId, contextName, tag, pdu)| < LENGTH_LIMIT
    requires cut < |ScopedBytes(engineId, contextName, tag, pdu)|
    ensures ScopedOf(ScopedBytes(engineId, contextName, tag, pdu)[..cut]).Err?
  {
    hide ScopedContent, ScopedContentOf, ReadLength;
    var s := ScopedBytes(engineId, contextName, tag, pdu);
    ScopedIsElement(engineId, contextName, tag, pdu);
    TlvTruncated(s, cut);
    InsideIsTlv(s[..cut], TAG_SEQUENCE);
  }

  // ---- The encoders and decoders of the source ----

  method EncodeV3Message(h: Header, params: bytes, scoped: bytes, encrypted: bool) returns (out: bytes)
    ensures out == V3Bytes(h, params, Body(scoped, encrypted))
  {
    hide IntegerTlv, OctetsTlv, SequenceTlv;
    var header := new BerEncoder();
    header.WriteInteger(h.msgId);
    header.WriteInteger(h.maxSize);
    header.WriteOctetString([h.flags]);
    header.WriteInteger(h.model);
    assert header.buf == HeaderContent(h);
    var msg := new BerEncoder();
    msg.WriteInteger(3);
    msg.WriteSequence(header.buf);
    msg.WriteOctetString(params);
    if encrypted {
      msg.WriteOctetString(scoped);
    } else {
      msg.Extend(scoped);
    }
    assert msg.buf == V3Content(h, params, Body(scoped, encrypted));
    var enc := new BerEncoder();
    enc.WriteSequence(msg.buf);
    return enc.buf;
  }

  method EncodeUsmParams(u: Usm) returns (out: bytes)
    ensures out == UsmBytes(u)
  {
    hide IntegerTlv, OctetsTlv, SequenceTlv;
    var enc := new BerEncoder();
    enc.WriteOctetString(u.engineId);
    enc.WriteInteger(u.boots);
    enc.WriteInteger(u.time);
    enc.WriteOctetString(u.username);
    enc.WriteOctetString(u.auth);
    enc.WriteOctetString(u.priv);
    assert enc.buf == UsmContent(u);
    var seqEnc := new BerEncoder();
    seqEnc.WriteSequence(enc.buf);
    return seqEnc.buf;
  }

  method EncodeScopedPdu(engineId: bytes, contextName: bytes, tag: byte, requestId: i32, status: i32, index: i32,
                         list: bytes) returns (out: bytes)
    ensures out == ScopedBytes(engineId, contextName, tag, PduContent(requestId, status, index, list))
  {
    hide OctetsTlv, Tlv, PduContent;
    var pdu := BuildPdu(requestId, status, index, list);
    var scoped := new BerEncoder();
    scoped.WriteOctetString(engineId);
    scoped.WriteOctetString(contextName);
    scoped.WriteTagged(tag, pdu);
    assert scoped.buf == ScopedContent(engineId, contextName, tag, pdu);
    var enc := new BerEncoder();
    enc.WriteSequence(scoped.buf);
    return enc.buf;
  }

  method DecodeUsmParams(data: bytes) returns (r: Result<Usm>)
    ensures r == UsmOf(data)
  {
    if data == [] {
      return Ok(Usm([], 0, 0, [], [], []));
    }
    var dec := new BerDecoder(data);
    var params :- dec.ReadSequence();
    var engineId :- params.ReadOctetString();
    var boots :- params.ReadInteger();
    var time :- params.ReadInteger();
    var username :- params.ReadOctetString();
    var auth :- params.ReadOctetString();
    var priv :- params.ReadOctetString();
    return Ok(Usm(engineId, ToU32(boots), ToU32(time), username, auth, priv));
  }

  method ReadHeader(dec: BerDecoder) returns (r: Result<Header>)
    requires dec.Valid()
    modifies dec
    ensures r == HeaderOf(old(dec.Rest()))
  {
    hide ReadInteger, ReadOctets;
    var msgId :- dec.ReadInteger();
    var maxSize :- dec.ReadInteger();
    var flagsOctets :- dec.ReadOctetString();
    var flags: byte := if flagsOctets == [] then 0 else flagsOctets[0];
    var model :- dec.ReadInteger();
    return Ok(Header(ToI32(msgId), ToI32(maxSize), flags, ToI32(model)));
  }

  method ReadScopedRaw(msg: BerDecoder, encrypted: bool) returns (r: Result<bytes>)
    requires msg.Valid()
    modifies msg
    ensures r == ScopedRawOf(old(msg.Rest()), encrypted)
  {
    hide ReadTlv, ReadOctets;
    if encrypted {
      r := msg.ReadOctetString();
    } else {
      ReadTlvNeedsTag(msg.Rest());
      var _ :- msg.PeekTag();
      var e :- msg.ReadTlvWithHeader();
      return Ok(e.1);
    }
  }

  method ReadV3Fields(msg: BerDecoder) returns (r: Result<V3Message>)
    requires msg.Valid()
    modifies msg
    ensures r == V3FieldsOf(old(msg.Rest()))
  {
    hide ReadOctets, ReadSequence, UsmOf, HeaderOf, ScopedRawOf, PrivFlag;
    var headerDec :- msg.ReadSequence();
    var header :- ReadHeader(headerDec);
    var paramsRaw :- msg.ReadOctetString();
    var usm :- DecodeUsmParams(paramsRaw);
    var isEncrypted := PrivFlag(header.flags);
    var scopedRaw :- ReadScopedRaw(msg, isEncrypted);
    return Ok(V3Message(header, paramsRaw, usm, scopedRaw, isEncrypted));
  }

  method DecodeV3Message(data: bytes) returns (r: Result<V3Message>)
    ensures r == V3MessageOf(data)
  {
    hide ReadInteger, ReadSequence, V3FieldsOf;
    var dec := new BerDecoder(data);
    var msg :- dec.ReadSequence();
    var version :- msg.ReadInteger();
    if version != 3 {
      return Err(UnknownVersion(version));
    }
    r := ReadV3Fields(msg);
  }

  /** Peeking first reports the same error that reading would. */
  lemma ReadTlvNeedsTag(s: bytes)
    ensures ReadTag(s).Err? ==> ReadTlv(s) == Err(ReadTag(s).error)
  {
  }

  method DecodeScopedPdu(data: bytes) returns (r: Result<ScopedPdu>)
    ensures r == ScopedOf(data)
  {
    hide ReadInside, ReadInteger, ReadOctets, PduOf;
    var dec := new BerDecoder(data);
    var scoped :- dec.ReadSequence();
    var engineId :- scoped.ReadOctetString();
    var contextName :- scoped.ReadOctetString();
    var tag :- scoped.ReadTag();
    var len :- scoped.ReadLength();
    var content :- scoped.ReadRaw(len);
    var pduDec := new BerDecoder(content);
    var pdu :- ReadPdu(pduDec);
    return Ok(ScopedPdu(engineId, contextName, tag, ToI32(pdu.requestId), ToU32(pdu.status), ToU32(pdu.index), pdu.varbinds));
  }
}
