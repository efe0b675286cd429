/** SNMPv1/v2c messages: one layout written by every request encoder, one decoder for responses. */
module Messages {
  import opened Octets
  import opened Results
  import opened Types
  import opened BerSpec
  import opened BerFacts
  import opened Ber

  const PDU_GET: byte := 0xA0
  const PDU_GETNEXT: byte := 0xA1
  const PDU_RESPONSE: byte := 0xA2
  const PDU_SET: byte := 0xA3
  const PDU_GETBULK: byte := 0xA5

  /** The body every PDU shares; GETBULK reuses the middle fields. */
  datatype Pdu = Pdu(requestId: i64, status: i64, index: i64, varbinds: seq<VarBind>)

  datatype SnmpResponse = SnmpResponse(version: Version, community: bytes, requestId: i32,
                                       errorStatus: u32, errorIndex: u32, varbinds: seq<VarBind>)

  // ---- Layout ----

  function PduContent(requestId: i32, status: i32, index: i32, list: bytes): bytes {
    IntegerTlv(requestId) + (IntegerTlv(status) + (IntegerTlv(index) + SequenceTlv(list)))
  }

  function MessageContent(version: Version, community: bytes, tag: byte, pdu: bytes): bytes {
    IntegerTlv(version.Number()) + (OctetsTlv(community) + Tlv(tag, pdu))
  }

  function MessageBytes(version: Version, community: bytes, tag: byte, pdu: bytes): bytes {
    SequenceTlv(MessageContent(version, community, tag, pdu))
  }

  // ---- Decoding ----

  function VersionOf(n: i64): Result<Version> {
    if n == 0 then Ok(V1) else if n == 1 then Ok(V2c) else if n == 3 then Ok(V3) else Err(UnknownVersion(n))
  }

  function PduOf(s: bytes): Result<Pdu> {
    var id :- ReadInteger(s);
    var status :- ReadInteger(id.rest);
    var index :- ReadInteger(status.rest);
    var list :- ReadSequence(index.rest);
    var varbinds :- ReadVarBinds(list.value);
    Ok(Pdu(id.value, status.value, index.value, varbinds))
  }

  function ResponseOf(data: bytes): Result<SnmpResponse> {
    var msg :- ReadSequence(data);
    var number :- ReadInteger(msg.value);
    var version :- VersionOf(number.value);
    var community :- ReadOctets(number.rest);
    var body :- ReadInside(community.rest, PDU_RESPONSE);
    var pdu :- PduOf(body.value);
    Ok(SnmpResponse(version, community.value, ToI32(pdu.requestId), ToU32(pdu.status), ToU32(pdu.index), pdu.varbinds))
  }

  // ---- Round trips ----

  lemma PduRead(requestId: i32, status: i32, index: i32, vbs: seq<VarBind>, tagged: bool)
    requires |VarBindsBytes(vbs, tagged)| < LENGTH_LIMIT
    ensures PduOf(PduContent(requestId, status, index, VarBindsBytes(vbs, tagged)))
         == Ok(Pdu(requestId, status, index, VarBindsOnWire(vbs, tagged)))
  {
    hide ReadTlv, ReadInside, ReadInteger, IntegerTlv, ReadVarBinds, VarBindsBytes, VarBindsOnWire;
    var list := VarBindsBytes(vbs, tagged);
    var tail := SequenceTlv(list);
    IntegerRead(requestId, IntegerTlv(status) + (IntegerTlv(index) + tail));
    IntegerRead(status, IntegerTlv(index) + tail);
    IntegerRead(index, tail);
    SequenceRead(list, []);
    assert tail + [] == tail;
    VarBindsRead(vbs, tagged);
  }

  lemma HeaderRead(version: Version, community: bytes, tag: byte, pdu: bytes, x: bytes)
    requires |MessageContent(version, community, tag, pdu)| < LENGTH_LIMIT
    ensures ResponseOf(MessageBytes(version, community, tag, pdu) + x)
         == if tag != PDU_RESPONSE then Err(WrongTag(PDU_RESPONSE, tag))
            else if PduOf(pdu).Err? then Err(PduOf(pdu).error)
            else var p := PduOf(pdu).value;
                 Ok(SnmpResponse(version, community, ToI32(p.requestId), ToU32(p.status), ToU32(p.index), p.varbinds))
  {
    hide ReadTlv, PduOf, ReadInteger, ReadOctets, IntegerTlv;
    var content := MessageContent(version, community, tag, pdu);
    var body := Tlv(tag, pdu);
    SequenceRead(content, x);
    IntegerRead(version.Number(), OctetsTlv(community) + body);
    OctetsRead(community, body);
    TlvRead(tag, pdu, []);
    assert body + [] == body;
    InsideIsTlv(body, PDU_RESPONSE);
    assert ReadTag(body).value.value == tag;
  }

  /**
   Whole-message round trip, trailing octets included: the response decoder recovers the header, the
   request id and every varbind up to what the wire cannot carry, and rejects every other PDU tag.
   */
  lemma MessageRoundTrip(version: Version, community: bytes, tag: byte, requestId: i32, status: i32, index: i32,
                         vbs: seq<VarBind>, tagged: bool, x: bytes)
    requires |MessageContent(version, community, tag,
                             PduContent(requestId, status, index, VarBindsBytes(vbs, tagged)))| < LENGTH_LIMIT
    ensures ResponseOf(MessageBytes(version, community, tag,
                                    PduContent(requestId, status, index, VarBindsBytes(vbs, tagged))) + x)
         == if tag == PDU_RESPONSE
            then Ok(SnmpResponse(version, community, requestId, ToU32(status), ToU32(index), VarBindsOnWire(vbs, tagged)))
            else Err(WrongTag(PDU_RESPONSE, tag))
  {
    hide ResponseOf, PduOf, IntegerTlv, MessageBytes;
    HeaderRead(version, community, tag, PduContent(requestId, status, index, VarBindsBytes(vbs, tagged)), x);
    PduRead(requestId, status, index, vbs, tagged);
  }

  /** Suffix stability: what follows a decoded response never changes it. */
  lemma ResponseStable(data: bytes, x: bytes)
    requires ReadTlv(data).Ok?
    ensures ResponseOf(data + x) == ResponseOf(data)
  {
    TlvStable(data, x);
    InsideIsTlv(data, TAG_SEQUENCE);
    InsideIsTlv(data + x, TAG_SEQUENCE);
    assert (data + x)[0] == data[0];
  }

  /** Every strict prefix of an encoded message is rejected. */
  lemma MessageTruncated(version: Version, community: bytes, tag: byte, pdu: bytes, cut: nat)
    requires |MessageContent(version, community, tag, pdu)| < LENGTH_LIMIT
    requires cut < |MessageBytes(version, community, tag, pdu)|
    ensures ResponseOf(MessageBytes(version, community, tag, pdu)[..cut]).Err?
  {
    var s := MessageBytes(version, community, tag, pdu);
    TlvRead(TAG_SEQUENCE, MessageContent(version, community, tag, pdu), []);
    assert s + [] == s;
    TlvTruncated(s, cut);
    InsideIsTlv(s[..cut], TAG_SEQUENCE);
  }

  // ---- The codec's entry points ----

  method BuildPdu(requestId: i32, status: i32, index: i32, list: bytes) returns (out: bytes)
    ensures out == PduContent(requestId, status, index, list)
  {
    hide IntegerTlv, SequenceTlv;
    var pdu := new BerEncoder();
    pdu.WriteInteger(requestId);
    pdu.WriteInteger(status);
    pdu.WriteInteger(index);
    pdu.WriteSequence(list);
    return pdu.buf;
  }

  method BuildMessage(version: Version, community: bytes, tag: byte, pdu: bytes) returns (out: bytes)
    ensures out == MessageBytes(version, community, tag, pdu)
  {
    hide IntegerTlv, OctetsTlv, Tlv;
    var msg := new BerEncoder();
    msg.WriteInteger(version.Number());
    msg.WriteOctetString(community);
    msg.WriteTagged(tag, pdu);
    assert msg.buf == MessageContent(version, community, tag, pdu);
    var enc := new BerEncoder();
    enc.WriteSequence(msg.buf);
    return enc.buf;
  }

  /** GET and GETNEXT. */
  method EncodePdu(version: Version, community: bytes, requestId: i32, tag: byte, oids: seq<Oid>) returns (out: bytes)
    ensures out == MessageBytes(version, community, tag,
                                PduContent(requestId, 0, 0, VarBindsBytes(NullVarBinds(oids), false)))
  {
    var list := EncodeVarBindListNull(oids);
    var pdu := BuildPdu(requestId, 0, 0, list);
    out := BuildMessage(version, community, tag, pdu);
  }

  method EncodeGetBulkRequest(version: Version, community: bytes, requestId: i32,
                              nonRepeaters: i32, maxRepetitions: i32, oids: seq<Oid>) returns (out: bytes)
    ensures out == MessageBytes(version, community, PDU_GETBULK,
                                PduContent(requestId, nonRepeaters, maxRepetitions,
                                           VarBindsBytes(NullVarBinds(oids), false)))
  {
    var list := EncodeVarBindListNull(oids);
    var pdu := BuildPdu(requestId, nonRepeaters, maxRepetitions, list);
    out := BuildMessage(version, community, PDU_GETBULK, pdu);
  }

  method EncodeSetRequest(version: Version, community: bytes, requestId: i32, varbinds: seq<VarBind>) returns (out: bytes)
    ensures out == MessageBytes(version, community, PDU_SET,
                                PduContent(requestId, 0, 0, VarBindsBytes(varbinds, false)))
  {
    var list := EncodeVarBindList(varbinds);
    var pdu := BuildPdu(requestId, 0, 0, list);
    out := BuildMessage(version, community, PDU_SET, pdu);
  }

  method ReadPdu(pdu: BerDecoder) returns (r: Result<Pdu>)
    requires pdu.Valid()
    modifies pdu
    ensures r == PduOf(old(pdu.Rest()))
  {
    var requestId :- pdu.ReadInteger();
    var status :- pdu.ReadInteger();
    var index :- pdu.ReadInteger();
    var vbl :- pdu.ReadSequence();
    var varbinds :- vbl.ReadVarBinds();
    return Ok(Pdu(requestId, status, index, varbinds));
  }

  method DecodeResponse(data: bytes) returns (r: Result<SnmpResponse>)
    ensures r == ResponseOf(data)
  {
    var dec := new BerDecoder(data);
    var msg :- dec.ReadSequence();
    var ver :- msg.ReadInteger();
    var version :- VersionOf(ver);
    var community :- msg.ReadOctetString();
    var body :- msg.ReadInside(PDU_RESPONSE);
    var pdu :- ReadPdu(body);
    return Ok(SnmpResponse(version, community, ToI32(pdu.requestId), ToU32(pdu.status), ToU32(pdu.index), pdu.varbinds));
  }
}
