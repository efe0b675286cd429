/** The trap receiver's decoders, and their agreement with the response and v3 decoders. */
module Traps {
  import opened Octets
  import opened Results
  import opened Types
  import opened Integers
  import opened Oids
  import opened BerSpec
  import opened BerFacts
  import opened Ber
  import opened Messages
  import opened V3Messages

  const PDU_TRAP_V1: byte := 0xA4
  const PDU_TRAP_V2: byte := 0xA7

  /** What only version 1 traps carry. */
  datatype V1Fields = V1Fields(enterprise: Oid, agentAddr: Option<Ipv4>, genericTrap: i32, specificTrap: i32, timestamp: u32)

  datatype Trap = Trap(version: Version, community: bytes, varbinds: seq<VarBind>, v1: Option<V1Fields>)

  function V1FieldsOf(s: bytes): Result<(V1Fields, bytes)> {
    var enterprise :- ReadOid(s);
    var addr :- ReadTlv(enterprise.rest);
    var genericTrap :- ReadInteger(addr.rest);
    var specificTrap :- ReadInteger(genericTrap.rest);
    var timestamp :- ReadInteger(specificTrap.rest);
    Ok((V1Fields(enterprise.value, if |addr.content| == 4 then Some(addr.content) else None,
                 ToI32(genericTrap.value), ToI32(specificTrap.value), ToU32(timestamp.value)),
        timestamp.rest))
  }

  function V1TrapOf(s: bytes): Result<Trap> {
    var community :- ReadOctets(s);
    var body :- ReadInside(community.rest, PDU_TRAP_V1);
    var fields :- V1FieldsOf(body.value);
    var list :- ReadSequence(fields.1);
    var varbinds :- ReadVarBinds(list.value);
    Ok(Trap(V1, community.value, varbinds, Some(fields.0)))
  }

  function V2TrapOf(s: bytes): Result<Trap> {
    var community :- ReadOctets(s);
    var body :- ReadInside(community.rest, PDU_TRAP_V2);
    var pdu :- PduOf(body.value);
    Ok(Trap(V2c, community.value, pdu.varbinds, None))
  }

  function V3TrapOf(s: bytes): Result<Trap> {
    var headerSeq :- ReadSequence(s);
    var header :- HeaderOf(headerSeq.value);
    var params :- ReadOctets(headerSeq.rest);
    var scopedSeq :- ReadSequence(params.rest);
    var scoped :- ScopedContentOf(scopedSeq.value);
    Ok(Trap(V3, [], scoped.varbinds, None))
  }

  function TrapOf(data: bytes): Result<Trap> {
    var msg :- ReadSequence(data);
    var number :- ReadInteger(msg.value);
    var version :- VersionOf(number.value);
    match version
    case V1 => V1TrapOf(number.rest)
    case V2c => V2TrapOf(number.rest)
    case V3 => V3TrapOf(number.rest)
  }

  // ---- Cutting and replacing octets around an element ----

  /** The octets of the first element, without what follows. */
  function Whole(s: bytes): bytes
    requires ReadTlv(s).Ok?
  {
    s[..|s| - |ReadTlv(s).value.rest|]
  }

  lemma LengthExact(s: bytes)
    requires ReadLength(s).Ok?
    ensures ReadLength(s).value.rest == s[|s| - |ReadLength(s).value.rest|..]
  {
  }

  lemma ElementParts(s: bytes)
    requires ReadTlv(s).Ok?
    ensures var e := ReadTlv(s).value;
            var h := |s| - |e.content| - |e.rest|;
            && 2 <= h && s == s[..h] + e.content + e.rest && s[0] == e.tag
            && ReadLength(s[1..]) == Ok(Read(|e.content|, s[h..]))
  {
    hide ReadLength;
    LengthExact(s[1..]);
    var l := ReadLength(s[1..]).value;
    var e := ReadTlv(s).value;
    var h := |s| - |l.rest|;
    assert l.rest == s[1..][|s| - 1 - |l.rest|..] == s[h..];
    assert |e.content| + |e.rest| == |l.rest|;
    assert e.content == s[h..][..l.value] && e.rest == s[h..][l.value..];
  }

  /** A length is read from its own octets alone. */
  lemma LengthLocal(s: bytes, t: bytes)
    requires ReadLength(s).Ok? && |s| == |t|
    requires var k := |s| - |ReadLength(s).value.rest|; s[..k] == t[..k]
    ensures ReadLength(t) == Ok(Read(ReadLength(s).value.value, t[|s| - |ReadLength(s).value.rest|..]))
  {
    var k := |s| - |ReadLength(s).value.rest|;
    assert s[0] == s[..k][0] && t[0] == t[..k][0];
    if s[0] >= 0x80 {
      assert k == 1 + s[0] % 0x80;
      assert s[1..k] == s[..k][1..] && t[1..k] == t[..k][1..];
    }
  }

  /** Exchanging the contents for others of the same length. */
  lemma ReplaceContent(s: bytes, c: bytes)
    requires ReadTlv(s).Ok? && |c| == |ReadTlv(s).value.content|
    ensures var e := ReadTlv(s).value;
            ReadTlv(s[..|s| - |e.content| - |e.rest|] + c + e.rest) == Ok(e.(content := c))
  {
    hide ReadLength;
    ElementParts(s);
    var e := ReadTlv(s).value;
    var h := |s| - |e.content| - |e.rest|;
    var t := s[..h] + c + e.rest;
    assert s[1..][..h - 1] == s[..h][1..] == t[1..][..h - 1];
    LengthLocal(s[1..], t[1..]);
    assert t[1..][h - 1..] == c + e.rest;
    assert (c + e.rest)[..|c|] == c && (c + e.rest)[|c|..] == e.rest;
    assert t == [e.tag] + t[1..];
    ReadTlvSteps(e.tag, t[1..], |c|, c + e.rest);
  }

  /** Exchanging what follows. */
  lemma ReplaceRest(s: bytes, y: bytes)
    requires ReadTlv(s).Ok?
    ensures ReadTlv(Whole(s) + y) == Ok(ReadTlv(s).value.(rest := y))
  {
    WholeReads(s);
    TlvStable(Whole(s), y);
    assert [] + y == y;
  }

  lemma WholeReads(s: bytes)
    requires ReadTlv(s).Ok?
    ensures ReadTlv(Whole(s)) == Ok(ReadTlv(s).value.(rest := []))
  {
    hide ReadLength;
    ElementParts(s);
    var e := ReadTlv(s).value;
    var h := |s| - |e.content| - |e.rest|;
    var w := Whole(s);
    var l := s[1..h];
    LengthCut(s[1..], h - 1);
    assert l == s[1..][..h - 1];
    LengthStable(l, e.content);
    assert w == [e.tag] + (l + e.content);
    assert [] + e.content == e.content;
    ReadTlvSteps(e.tag, l + e.content, |e.content|, e.content);
    assert e.content[..|e.content|] == e.content && e.content[|e.content|..] == [];
  }

  lemma LengthCut(s: bytes, k: nat)
    requires ReadLength(s).Ok? && k == |s| - |ReadLength(s).value.rest|
    ensures ReadLength(s[..k]) == Ok(Read(ReadLength(s).value.value, []))
  {
    assert s[..k][k..] == [];
    if s[0] >= 0x80 {
      assert s[..k][1..k] == s[1..k];
    }
  }

  // ---- Agreement with the v3 decoders ----

  /**
   Whenever a v3 message decodes, the trap decoder does with it exactly what the scoped PDU decoder would:
   the same varbinds or the same error, and a refusal of every encrypted message.
   */
  lemma V3TrapAgrees(data: bytes)
    requires V3MessageOf(data).Ok?
    ensures var msg := V3MessageOf(data).value;
            TrapOf(data)
            == if msg.isEncrypted then Err(WrongTag(TAG_SEQUENCE, TAG_OCTET_STRING))
               else (var scoped :- ScopedOf(msg.scopedRaw);
                     Ok(Trap(V3, [], scoped.varbinds, None)))
  {
    hide HeaderOf, UsmOf, ScopedContentOf, ReadInteger, ReadSequence, ReadOctets, ScopedRawOf;
    var fields := ReadInteger(ReadSequence(data).value.value).value.rest;
    var s := ReadOctets(ReadSequence(fields).value.rest).value.rest;
    ScopedPartAgrees(s, V3MessageOf(data).value.isEncrypted);
  }

  lemma ScopedPartAgrees(s: bytes, encrypted: bool)
    requires ScopedRawOf(s, encrypted).Ok?
    ensures encrypted ==> ReadSequence(s) == Err(WrongTag(TAG_SEQUENCE, TAG_OCTET_STRING))
    ensures !encrypted ==>
              var raw := ScopedRawOf(s, false).value;
              && (ReadSequence(s).Err? ==> ScopedOf(raw) == Err(ReadSequence(s).error))
              && (ReadSequence(s).Ok? ==> ScopedOf(raw) == ScopedContentOf(ReadSequence(s).value.value))
  {
    hide ScopedContentOf, ReadLength;
    InsideIsTlv(s, TAG_SEQUENCE);
    if !encrypted {
      WholeReads(s);
      InsideIsTlv(Whole(s), TAG_SEQUENCE);
      ElementParts(s);
      assert Whole(s)[0] == s[0];
    }
  }

  // ---- Agreement with the response decoder ----

  datatype Opening = Opening(version: Version, community: bytes, rest: bytes)

  /** The common start of every community message. */
  function OpeningOf(data: bytes): Result<Opening> {
    var msg :- ReadSequence(data);
    var number :- ReadInteger(msg.value);
    var version :- VersionOf(number.value);
    var community :- ReadOctets(number.rest);
    Ok(Opening(version, community.value, community.rest))
  }

  /** Where the PDU tag of a community message stands. */
  function PduTagAt(data: bytes): (i: nat)
    requires OpeningOf(data).Ok? && OpeningOf(data).value.rest != []
    ensures i < |data|
  {
    |data| - |ReadSequence(data).value.rest| - |OpeningOf(data).value.rest|
  }

  /** The message, the version number and the community string: an opening is three elements. */
  predicate OpenedBy(data: bytes, o: Opening, e: Element, n: Element, c: Element) {
    && ReadTlv(data) == Ok(e) && e.tag == TAG_SEQUENCE
    && ReadTlv(e.content) == Ok(n) && n.tag == TAG_INTEGER
    && ReadTlv(n.rest) == Ok(c) && c.tag == TAG_OCTET_STRING
    && VersionOf(IntegerOf(n.content)) == Ok(o.version)
    && c.content == o.community && c.rest == o.rest
  }

  lemma OpeningFromElements(data: bytes, o: Opening, e: Element, n: Element, c: Element)
    requires OpenedBy(data, o, e, n, c)
    ensures OpeningOf(data) == Ok(o)
    ensures ReadSequence(data) == Ok(Read(e.content, e.rest))
  {
    hide ReadTlv, IntegerOf;
    InsideIsTlv(data, TAG_SEQUENCE);
  }

  lemma OpeningIsElements(data: bytes) returns (e: Element, n: Element, c: Element)
    requires OpeningOf(data).Ok?
    ensures OpenedBy(data, OpeningOf(data).value, e, n, c)
  {
    hide ReadTlv, IntegerOf;
    InsideIsTlv(data, TAG_SEQUENCE);
    e := ReadTlv(data).value;
    n := ReadTlv(e.content).value;
    c := ReadTlv(n.rest).value;
  }

  /** Overwriting an octet after the first element leaves that element alone. */
  lemma UpdateAfter(s: bytes, i: nat, t: byte)
    requires ReadTlv(s).Ok? && i < |ReadTlv(s).value.rest|
    ensures var e := ReadTlv(s).value;
            ReadTlv(s[|s| - |e.rest| + i := t]) == Ok(e.(rest := e.rest[i := t]))
  {
    hide ReadTlv;
    var e := ReadTlv(s).value;
    ElementParts(s);
    ReplaceRest(s, e.rest[i := t]);
    assert s[|s| - |e.rest| + i := t] == Whole(s) + e.rest[i := t];
  }

  /** Overwriting an octet of the contents changes the contents only. */
  lemma UpdateInside(s: bytes, i: nat, t: byte)
    requires ReadTlv(s).Ok? && i < |ReadTlv(s).value.content|
    ensures var e := ReadTlv(s).value;
            ReadTlv(s[|s| - |e.rest| - |e.content| + i := t]) == Ok(e.(content := e.content[i := t]))
  {
    hide ReadTlv;
    var e := ReadTlv(s).value;
    ElementParts(s);
    ReplaceContent(s, e.content[i := t]);
    var h := |s| - |e.content| - |e.rest|;
    assert s[h + i := t] == s[..h] + e.content[i := t] + e.rest;
  }

  /** Overwriting the PDU tag leaves everything before and after it as it was. */
  lemma Retagged(data: bytes, t: byte)
    requires OpeningOf(data).Ok? && OpeningOf(data).value.rest != []
    ensures var o := OpeningOf(data).value;
            OpeningOf(data[PduTagAt(data) := t]) == Ok(o.(rest := o.rest[0 := t]))
  {
    hide ReadTlv, IntegerOf, OpeningOf, ReadSequence;
    var o := OpeningOf(data).value;
    var e, n, c := OpeningIsElements(data);
    OpeningFromElements(data, o, e, n, c);
    ElementParts(e.content);
    ElementParts(n.rest);
    var k := |n.rest| - |c.rest|;
    UpdateAfter(n.rest, 0, t);
    UpdateAfter(e.content, k, t);
    UpdateInside(data, |e.content| - |c.rest|, t);
    var at := |e.content| - |c.rest|;
    OpeningFromElements(data[PduTagAt(data) := t], o.(rest := o.rest[0 := t]), e.(content := e.content[at := t]),
                        n.(rest := n.rest[k := t]), c.(rest := c.rest[0 := t]));
  }

  lemma InsideRetagged(s: bytes, from: byte, to: byte)
    requires s != [] && s[0] == from
    ensures ReadInside(s[0 := to], to) == ReadInside(s, from)
  {
    assert s[0 := to][1..] == s[1..];
  }

  /**
   A v2c message read by the response decoder is read with the same community and varbinds by the trap
   decoder once its PDU tag says trap; and the other way round.
   */
  lemma V2TrapAgrees(data: bytes)
    requires OpeningOf(data).Ok? && OpeningOf(data).value.rest != [] && OpeningOf(data).value.version == V2c
    requires OpeningOf(data).value.rest[0] == PDU_RESPONSE
    ensures var trap := TrapOf(data[PduTagAt(data) := PDU_TRAP_V2]);
            trap == (var response :- ResponseOf(data);
                     Ok(Trap(V2c, response.community, response.varbinds, None)))
  {
    hide ReadTlv, PduOf, ReadSequence, ReadInteger, ReadOctets, V1TrapOf, V3TrapOf;
    Retagged(data, PDU_TRAP_V2);
    InsideRetagged(OpeningOf(data).value.rest, PDU_RESPONSE, PDU_TRAP_V2);
    AsOpened(data);
    AsOpened(data[PduTagAt(data) := PDU_TRAP_V2]);
  }

  /** Both decoders, from the opening on. */
  lemma AsOpened(data: bytes)
    requires OpeningOf(data).Ok? && OpeningOf(data).value.version == V2c
    ensures var o := OpeningOf(data).value;
            && ResponseOf(data) == (var body :- ReadInside(o.rest, PDU_RESPONSE);
                                    var pdu :- PduOf(body.value);
                                    Ok(SnmpResponse(V2c, o.community, ToI32(pdu.requestId), ToU32(pdu.status),
                                                    ToU32(pdu.index), pdu.varbinds)))
            && TrapOf(data) == (var body :- ReadInside(o.rest, PDU_TRAP_V2);
                                var pdu :- PduOf(body.value);
                                Ok(Trap(V2c, o.community, pdu.varbinds, None)))
  {
    hide ReadTlv, PduOf, ReadSequence, ReadInteger, ReadOctets, ReadInside, V1TrapOf, V3TrapOf;
  }

  // ---- Version 1 traps ----

  /** The Trap-PDU of RFC 1157, with the timestamp under a tag of the sender's choice. */
  function V1PduContent(f: V1Fields, addr: bytes, timestampTag: byte, list: bytes): bytes {
    OidTlv(f.enterprise) + (Tlv(TAG_IPADDRESS, addr) + (IntegerTlv(f.genericTrap) + (IntegerTlv(f.specificTrap) +
    (Tlv(timestampTag, IntBytes(f.timestamp)) + SequenceTlv(list)))))
  }

  /**
   Version 1 traps are read field by field, but only with the timestamp as a plain INTEGER: the TimeTicks
   of RFC 1157, like every other tag, is refused.
   */
  lemma V1TrapRead(community: bytes, f: V1Fields, addr: Ipv4, timestampTag: byte, vbs: seq<VarBind>, tagged: bool, x: bytes)
    requires |MessageContent(V1, community, PDU_TRAP_V1,
                             V1PduContent(f, addr, timestampTag, VarBindsBytes(vbs, tagged)))| < LENGTH_LIMIT
    ensures TrapOf(MessageBytes(V1, community, PDU_TRAP_V1,
                                V1PduContent(f, addr, timestampTag, VarBindsBytes(vbs, tagged))) + x)
         == if timestampTag == TAG_INTEGER
            then Ok(Trap(V1, community, VarBindsOnWire(vbs, tagged),
                         Some(f.(enterprise := OnWire(f.enterprise), agentAddr := Some(addr)))))
            else Err(WrongTag(TAG_INTEGER, timestampTag))
  {
    hide ReadTlv, ReadOctets, ReadInteger, IntegerTlv, V1FieldsOf, V1PduContent, ReadVarBinds, VarBindsBytes,
      VarBindsOnWire, V2TrapOf, V3TrapOf, OnWire;
    var list := VarBindsBytes(vbs, tagged);
    var pdu := V1PduContent(f, addr, timestampTag, list);
    var body := Tlv(PDU_TRAP_V1, pdu);
    SequenceRead(MessageContent(V1, community, PDU_TRAP_V1, pdu), x);
    IntegerRead(0, OctetsTlv(community) + body);
    OctetsRead(community, body);
    TlvRead(PDU_TRAP_V1, pdu, []);
    assert body + [] == body;
    InsideIsTlv(body, PDU_TRAP_V1);
    V1PduFits(f, addr, timestampTag, list);
    V1FieldsRead(f, addr, timestampTag, list);
    SequenceRead(list, []);
    assert SequenceTlv(list) + [] == SequenceTlv(list);
    VarBindsRead(vbs, tagged);
  }

  lemma V1PduFits(f: V1Fields, addr: bytes, timestampTag: byte, list: bytes)
    ensures |OidBytes(f.enterprise)| + |list| < |V1PduContent(f, addr, timestampTag, list)|
  {
    hide OidBytes, IntegerTlv, LenBytes, IntBytes;
  }

  lemma V1FieldsRead(f: V1Fields, addr: Ipv4, timestampTag: byte, list: bytes)
    requires |OidBytes(f.enterprise)| < LENGTH_LIMIT
    ensures V1FieldsOf(V1PduContent(f, addr, timestampTag, list))
         == if timestampTag == TAG_INTEGER
            then Ok((f.(enterprise := OnWire(f.enterprise), agentAddr := Some(addr)), SequenceTlv(list)))
            else Err(WrongTag(TAG_INTEGER, timestampTag))
  {
    hide ReadTlv, ReadOid, OidBytes, OnWire, IntBytes, IntegerOf, Tlv;
    var tail := SequenceTlv(list);
    var r3 := Tlv(timestampTag, IntBytes(f.timestamp)) + tail;
    var r2 := IntegerTlv(f.specificTrap) + r3;
    var r1 := IntegerTlv(f.genericTrap) + r2;
    OidRead(f.enterprise, Tlv(TAG_IPADDRESS, addr) + r1);
    TlvRead(TAG_IPADDRESS, addr, r1);
    IntegerRead(f.genericTrap, r2);
    IntegerRead(f.specificTrap, r3);
    IntegerLength(f.timestamp);
    TlvRead(timestampTag, IntBytes(f.timestamp), tail);
    IntegerRoundTrip(f.timestamp);
  }

  // ---- The decoders ----

  method DecodeV1Trap(msg: BerDecoder) returns (r: Result<Trap>)
    requires msg.Valid()
    modifies msg
    ensures r == V1TrapOf(old(msg.Rest()))
  {
    hide ReadInside, ReadTlv, ReadSequence, ReadInteger, ReadOctets, ReadOid, V1FieldsOf;
    var community :- msg.ReadOctetString();
    var pdu :- msg.ReadInside(PDU_TRAP_V1);
    var fields :- ReadV1Fields(pdu);
    var vbl :- pdu.ReadSequence();
    var varbinds :- vbl.ReadVarBinds();
    return Ok(Trap(V1, community, varbinds, Some(fields)));
  }

  method ReadV1Fields(pdu: BerDecoder) returns (r: Result<V1Fields>)
    requires pdu.Valid()
    modifies pdu
    ensures pdu.Valid()
    ensures match V1FieldsOf(old(pdu.Rest()))
            case Ok(f) => r == Ok(f.0) && pdu.Rest() == f.1
            case Err(e) => r == Err(e)
  {
    hide ReadTlv, ReadInteger, ReadOid;
    var enterprise :- pdu.ReadOid();
    var addr :- pdu.ReadTlv();
    var agentAddr: Option<Ipv4> := if |addr.1| == 4 then Some(addr.1) else None;
    var genericTrap :- pdu.ReadInteger();
    var specificTrap :- pdu.ReadInteger();
    var timestamp :- pdu.ReadInteger();
    return Ok(V1Fields(enterprise, agentAddr, ToI32(genericTrap), ToI32(specificTrap), ToU32(timestamp)));
  }

  method DecodeV2Trap(msg: BerDecoder) returns (r: Result<Trap>)
    requires msg.Valid()
    modifies msg
    ensures r == V2TrapOf(old(msg.Rest()))
  {
    hide ReadInside, ReadSequence, ReadInteger, ReadOctets;
    var community :- msg.ReadOctetString();
    var pdu :- msg.ReadInside(PDU_TRAP_V2);
    var _ :- pdu.ReadInteger();
    var _ :- pdu.ReadInteger();
    var _ :- pdu.ReadInteger();
    var vbl :- pdu.ReadSequence();
    var varbinds :- vbl.ReadVarBinds();
    return Ok(Trap(V2c, community, varbinds, None));
  }

  method DecodeV3Trap(msg: BerDecoder) returns (r: Result<Trap>)
    requires msg.Valid()
    modifies msg
    ensures r == V3TrapOf(old(msg.Rest()))
  {
    hide ReadInside, ReadSequence, ReadInteger, ReadOctets, HeaderOf, ScopedContentOf;
    var header :- msg.ReadSequence();
    var _ :- ReadHeader(header);
    var _ :- msg.ReadOctetString();
    var scoped :- msg.ReadSequence();
    var varbinds :- ReadScopedVarBinds(scoped);
    return Ok(Trap(V3, [], varbinds, None));
  }

  method ReadScopedVarBinds(scoped: BerDecoder) returns (r: Result<seq<VarBind>>)
    requires scoped.Valid()
    modifies scoped
    ensures r == (var s :- ScopedContentOf(old(scoped.Rest())); Ok(s.varbinds))
  {
    hide ReadSequence, ReadInteger, ReadOctets, PduOf;
    var _ :- scoped.ReadOctetString();
    var _ :- scoped.ReadOctetString();
    var _ :- scoped.ReadTag();
    var len :- scoped.ReadLength();
    var content :- scoped.ReadRaw(len);
    var pduDec := new BerDecoder(content);
    var pdu :- ReadPdu(pduDec);
    return Ok(pdu.varbinds);
  }

  method DecodeTrap(data: bytes) returns (r: Result<Trap>)
    ensures r == TrapOf(data)
  {
    hide ReadInside, ReadSequence, ReadInteger, V1TrapOf, V2TrapOf, V3TrapOf;
    var dec := new BerDecoder(data);
    var msg :- dec.ReadSequence();
    var ver :- msg.ReadInteger();
    var version :- VersionOf(ver);
    match version {
      case V1 => r := DecodeV1Trap(msg);
      case V2c => r := DecodeV2Trap(msg);
      case V3 => r := DecodeV3Trap(msg);
    }
  }
}
