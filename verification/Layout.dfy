/**
 The octets of every message as a peer writes them, from the standards alone: literal tags and numbers, lengths by
 section 8.1.3 of X.690. Nothing here uses the codec's own tags, lengths or layouts; the lemmas compare the two.
 */
module Layout {
  import opened Octets
  import opened Types
  import opened Integers
  import opened Oids

  function Base256(n: nat): bytes {
    if n == 0 then [] else Base256(n / 256) + [n % 256]
  }

  /** The short form, or the number of further octets and these. */
  function Length(n: nat): bytes {
    if n < 0x80 then [n] else [(0x80 + |Base256(n)|) % 0x100] + Base256(n)
  }

  function Field(tag: byte, content: bytes): (s: bytes)
    ensures |s| > |content|
  {
    [tag] + Length(|content|) + content
  }

  function Number(v: int): bytes {
    Field(0x02, IntBytes(v))
  }

  function Text(s: bytes): bytes {
    Field(0x04, s)
  }

  function Group(s: bytes): bytes {
    Field(0x30, s)
  }

  /** Section 3 of RFC 3416 and section 2 of RFC 2578; without `markers`, exceptions are written as NULL. */
  function ValueField(v: Value, markers: bool): bytes {
    match v
    case Integer(i) => Field(0x02, IntBytes(i))
    case OctetString(s) => Field(0x04, s)
    case Null => Field(0x05, [])
    case ObjectIdentifier(o) => Field(0x06, OidBytes(o))
    case IpAddress(a) => Field(0x40, a)
    case Counter32(n) => Field(0x41, IntBytes(n))
    case Gauge32(n) => Field(0x42, IntBytes(n))
    case TimeTicks(n) => Field(0x43, IntBytes(n))
    case Opaque(s) => Field(0x44, s)
    case Counter64(n) => Field(0x46, IntBytes(n))
    case NoSuchObject => Field(if markers then 0x80 else 0x05, [])
    case NoSuchInstance => Field(if markers then 0x81 else 0x05, [])
    case EndOfMibView => Field(if markers then 0x82 else 0x05, [])
  }

  function Bindings(vbs: seq<VarBind>, markers: bool): bytes {
    if vbs == [] then []
    else Group(Field(0x06, OidBytes(vbs[0].oid)) + ValueField(vbs[0].value, markers)) + Bindings(vbs[1..], markers)
  }

  /** PDU and BulkPDU of section 3 of RFC 3416. */
  function PduField(tag: byte, requestId: int, f1: int, f2: int, list: bytes): bytes {
    Field(tag, Number(requestId) + (Number(f1) + (Number(f2) + Group(list))))
  }

  /** Section 4 of RFC 1157: version 0, or 1 by section 3 of RFC 1901. */
  function CommunityMessage(version: int, community: bytes, pdu: bytes): bytes {
    Group(Number(version) + (Text(community) + pdu))
  }

  /** The Trap-PDU of section 4.1.6 of RFC 1157. */
  function TrapV1Field(enterprise: Oid, addr: bytes, genericTrap: int, specificTrap: int, timestamp: bytes, list: bytes): bytes {
    Field(0xA4, Field(0x06, OidBytes(enterprise)) + (Field(0x40, addr) + (Number(genericTrap) + (Number(specificTrap)
                + (timestamp + Group(list))))))
  }

  /** UsmSecurityParameters of section 2.4 of RFC 3414. */
  function SecurityParameters(engineId: bytes, boots: int, time: int, username: bytes, auth: bytes, priv: bytes): bytes {
    Group(Text(engineId) + (Number(boots) + (Number(time) + (Text(username) + (Text(auth) + Text(priv))))))
  }

  /** ScopedPDU of section 6 of RFC 3412. */
  function ScopedField(engineId: bytes, contextName: bytes, pdu: bytes): bytes {
    Group(Text(engineId) + (Text(contextName) + pdu))
  }

  /** SNMPv3Message of section 6 of RFC 3412. */
  function V3Octets(msgId: int, maxSize: int, flags: byte, model: int, params: bytes, body: bytes): bytes {
    Group(Number(3) + (Group(Number(msgId) + (Number(maxSize) + (Text([flags]) + Number(model))))
          + (Text(params) + body)))
  }
}

/** Contents octets by the weights of their digits, and the values of every kind under their tags. */
module LayoutValues {
  import opened Octets
  import opened Results
  import opened Types
  import opened Integers
  import opened Oids
  import opened BerSpec
  import opened BerFacts
  import opened Layout
  import opened LayoutFacts

  function Power(base: nat, k: nat): nat {
    if k == 0 then 1 else base * Power(base, k - 1)
  }

  /** Digits of a base, the most significant first. */
  function Weighted(base: nat, s: bytes): nat
    requires base > 0
  {
    if s == [] then 0 else s[0] % base * Power(base, |s| - 1) + Weighted(base, s[1..])
  }

  lemma Distributes(d: nat, p: nat, w: nat, base: nat)
    ensures (d * p + w) * base == d * (base * p) + w * base
  {
  }

  lemma WeightedStep(base: nat, d: byte, s: bytes)
    requires base > 0
    ensures Weighted(base, [d] + s) == d % base * Power(base, |s|) + Weighted(base, s)
  {
    assert ([d] + s)[1..] == s;
  }

  lemma {:induction false} WeightedAppend(base: nat, s: bytes, b: byte)
    requires base > 0
    ensures Weighted(base, s + [b]) == Weighted(base, s) * base + b % base
  {
    hide Weighted;
    if s == [] {
      NoWeight(base);
      WeightedStep(base, b, []);
      assert [] + [b] == [b] + [];
    } else {
      var t := s[1..];
      WeightedAppend(base, t, b);
      WeightedStep(base, s[0], t);
      WeightedStep(base, s[0], t + [b]);
      assert s == [s[0]] + t && s + [b] == [s[0]] + (t + [b]);
      Distributes(s[0] % base, Power(base, |t|), Weighted(base, t), base);
    }
  }

  lemma NoWeight(base: nat)
    requires base > 0
    ensures Weighted(base, []) == 0 && Power(base, 0) == 1
  {
  }

  lemma {:induction false} UnsignedIsWeighted(s: bytes)
    ensures Unsigned(s) == Weighted(256, s)
  {
    if s != [] {
      var k := |s| - 1;
      UnsignedIsWeighted(s[..k]);
      WeightedAppend(256, s[..k], s[k]);
      assert s == s[..k] + [s[k]];
    }
  }

  lemma {:induction false} SignedIsWeighted(s: bytes)
    requires s != []
    ensures Signed(s) == Weighted(256, s) - if s[0] >= 128 then Power(256, |s|) else 0
  {
    var k := |s| - 1;
    WeightedAppend(256, s[..k], s[k]);
    assert s == s[..k] + [s[k]];
    assert Power(256, k + 1) == 256 * Power(256, k);
    if k == 0 {
      assert s[..0] == [] && Weighted(256, []) == 0 && Power(256, 0) == 1;
    } else {
      SignedIsWeighted(s[..k]);
    }
  }

  /** Section 8.3 of X.690: two's complement, most significant octet first, the first nine bits not all equal. */
  lemma IntegerOctets(v: i64)
    ensures var s := IntBytes(v);
            && v == Weighted(256, s) - (if s[0] >= 128 then Power(256, |s|) else 0)
            && (|s| > 1 ==> !(s[0] == 0x00 && s[1] < 128) && !(s[0] == 0xFF && s[1] >= 128))
  {
    SignedOfIntBytes(v);
    NotRedundantWhenShortest(IntBytes(v));
    SignedIsWeighted(IntBytes(v));
  }

  lemma {:induction false} ContinuedIsWeighted(v: nat)
    ensures Weighted(128, Continued(v)) == v
    ensures forall i :: 0 <= i < |Continued(v)| ==> Continued(v)[i] >= 128
  {
    if v > 0 {
      ContinuedIsWeighted(v / 128);
      WeightedAppend(128, Continued(v / 128), 128 + v % 128);
    }
  }

  /** Section 8.19 of X.690: base 128, every octet but the last flagged, no leading zero digit. */
  lemma SubIdOctets(v: nat)
    ensures var s := SubIdBytes(v);
            && Weighted(128, s) == v
            && s[|s| - 1] < 128 && (forall i :: 0 <= i < |s| - 1 ==> s[i] >= 128)
            && s[0] != 0x80
  {
    ContinuedIsWeighted(v / 128);
    ContinuedStart(v / 128);
    WeightedAppend(128, Continued(v / 128), v % 128);
  }

  /** The first two components share an octet. */
  lemma OidOctets(o: Oid)
    requires |o| >= 2 && o[1] < 40 && o[0] as int * 40 + o[1] as int <= 255
    ensures OidBytes(o) == [o[0] as int * 40 + o[1] as int] + SubIdsBytes(o[2..])
  {
  }

  /** A value of every kind, read from under the tag that the standards give it, whatever follows. */
  lemma ReadByTag(i: i64, n: u32, w: u64, s: bytes, o: Oid, a: Ipv4, x: bytes)
    requires |s| < 0x100_0000 && |OidBytes(o)| < 0x100_0000
    ensures ReadValue(Field(0x02, IntBytes(i)) + x) == Ok(Read(Integer(i), x))
    ensures ReadValue(Field(0x04, s) + x) == Ok(Read(OctetString(s), x))
    ensures ReadValue(Field(0x05, []) + x) == Ok(Read(Null, x))
    ensures ReadValue(Field(0x06, OidBytes(o)) + x) == Ok(Read(ObjectIdentifier(OnWire(o)), x))
    ensures ReadValue(Field(0x40, a) + x) == Ok(Read(IpAddress(a), x))
    ensures ReadValue(Field(0x41, IntBytes(n)) + x) == Ok(Read(Counter32(n), x))
    ensures ReadValue(Field(0x42, IntBytes(n)) + x) == Ok(Read(Gauge32(n), x))
    ensures ReadValue(Field(0x43, IntBytes(n)) + x) == Ok(Read(TimeTicks(n), x))
    ensures ReadValue(Field(0x44, s) + x) == Ok(Read(Opaque(s), x))
    ensures ReadValue(Field(0x46, IntBytes(w)) + x) == Ok(Read(Counter64(w), x))
    ensures ReadValue(Field(0x80, []) + x) == Ok(Read(NoSuchObject, x))
    ensures ReadValue(Field(0x81, []) + x) == Ok(Read(NoSuchInstance, x))
    ensures ReadValue(Field(0x82, []) + x) == Ok(Read(EndOfMibView, x))
  {
    hide ReadValue, ValueTlv, Field, IntBytes, OidBytes, OnWire;
    ReadOfKind(Integer(i), x);
    ReadOfKind(OctetString(s), x);
    ReadOfKind(Null, x);
    ReadOfKind(ObjectIdentifier(o), x);
    ReadOfKind(IpAddress(a), x);
    ReadOfKind(Counter32(n), x);
    ReadOfKind(Gauge32(n), x);
    ReadOfKind(TimeTicks(n), x);
    ReadOfKind(Opaque(s), x);
    ReadOfKind(Counter64(w), x);
    ReadOfKind(NoSuchObject, x);
    ReadOfKind(NoSuchInstance, x);
    ReadOfKind(EndOfMibView, x);
  }

  /** Any contents at all under any tag: numbers keep their low bits, a wrong address or unknown tag is an octet string. */
  lemma ReadAnyContents(tag: byte, c: bytes, x: bytes)
    requires |c| < 0x100_0000
    ensures var r := ReadValue(Field(tag, c) + x);
            && (tag in {0x41, 0x42, 0x43, 0x46} ==>
                  var n := Weighted(256, c);
                  r == Ok(Read(if tag == 0x41 then Counter32(n % 0x1_0000_0000)
                               else if tag == 0x42 then Gauge32(n % 0x1_0000_0000)
                               else if tag == 0x43 then TimeTicks(n % 0x1_0000_0000)
                               else Counter64(n % 0x1_0000_0000_0000_0000), x)))
            && (tag == 0x02 ==> r == Ok(Read(Integer(if c == [] then 0 else ToI64(Signed(c))), x)))
            && (tag == 0x05 ==> r == Ok(Read(Null, x)))
            && (tag == 0x06 ==> r == var o :- OidOf(c); Ok(Read(ObjectIdentifier(o), x)))
            && (tag == 0x44 ==> r == Ok(Read(Opaque(c), x)))
            && (tag == 0x80 ==> r == Ok(Read(NoSuchObject, x)))
            && (tag == 0x81 ==> r == Ok(Read(NoSuchInstance, x)))
            && (tag == 0x82 ==> r == Ok(Read(EndOfMibView, x)))
            && (tag == 0x40 ==> r == Ok(Read(if |c| == 4 then IpAddress(c) else OctetString(c), x)))
            && (tag !in {0x02, 0x05, 0x06, 0x40, 0x41, 0x42, 0x43, 0x44, 0x46, 0x80, 0x81, 0x82} ==>
                  r == Ok(Read(OctetString(c), x)))
  {
    hide Field, ReadTlv, Weighted, Unsigned, Signed, OidOf;
    FieldAgrees(tag, c);
    TlvRead(tag, c, x);
    UnsignedIsWeighted(c);
  }

  lemma ReadOfKind(v: Value, x: bytes)
    requires v.OctetString? ==> |v.octets| < 0x100_0000
    requires v.Opaque? ==> |v.opaqueOctets| < 0x100_0000
    requires v.ObjectIdentifier? ==> |OidBytes(v.oid)| < 0x100_0000
    ensures ReadValue(ValueField(v, true) + x) == Ok(Read(ValueOnWire(v, true), x))
  {
    hide ReadValue, ValueTlv, ValueField, IntBytes, OidBytes, OnWire;
    ShortContent(v);
    ValueAgrees(v, true);
    ValueRead(v, true, x);
  }

  lemma ShortContent(v: Value)
    requires v.OctetString? ==> |v.octets| < 0x100_0000
    requires v.Opaque? ==> |v.opaqueOctets| < 0x100_0000
    requires v.ObjectIdentifier? ==> |OidBytes(v.oid)| < 0x100_0000
    ensures |ValueContent(v)| < 0x100_0000
  {
    hide IntBytes, OidBytes;
    match v
    case Integer(i) => IntegerLength(i);
    case Counter32(n) => UnsignedLength(n);
    case Gauge32(n) => UnsignedLength(n);
    case TimeTicks(n) => UnsignedLength(n);
    case Counter64(n) => UnsignedLength(n);
    case _ =>
  }

  /** The octet that begins each value written, by kind. */
  lemma WriteByTag(v: Value)
    ensures ValueTlv(v, false)[0]
         == match v
            case Integer(_) => 0x02
            case OctetString(_) => 0x04
            case ObjectIdentifier(_) => 0x06
            case IpAddress(_) => 0x40
            case Counter32(_) => 0x41
            case Gauge32(_) => 0x42
            case TimeTicks(_) => 0x43
            case Opaque(_) => 0x44
            case Counter64(_) => 0x46
            case _ => 0x05
  {
    hide LenBytes, ValueContent;
  }
}

/** The codec's layouts are the standards', below the length limit. */
module LayoutFacts {
  import opened Octets
  import opened Types
  import opened Integers
  import opened Oids
  import opened BerSpec
  import opened Messages
  import opened V3Messages
  import opened Traps
  import opened Layout

  lemma LengthAgrees(n: nat)
    requires n < 0x100_0000
    ensures LenBytes(n) == Length(n)
  {
    if n >= 0x80 {
      assert Base256(n) == Base256(n / 256) + [n % 256];
      assert n / 256 > 0 ==> Base256(n / 256) == Base256(n / 256 / 256) + [n / 256 % 256];
      assert n / 256 / 256 > 0 ==> Base256(n / 256 / 256) == Base256(n / 256 / 256 / 256) + [n / 256 / 256 % 256];
      assert n / 256 / 256 / 256 == 0;
      assert n / 256 / 256 == n / 0x1_0000;
    }
  }

  lemma FieldAgrees(tag: byte, content: bytes)
    requires |content| < 0x100_0000
    ensures Tlv(tag, content) == Field(tag, content)
  {
    hide LenBytes, Length;
    LengthAgrees(|content|);
  }

  lemma NumberAgrees(v: i64)
    ensures IntegerTlv(v) == Number(v)
  {
    hide Tlv, Field, IntBytes;
    IntegerLength(v);
    FieldAgrees(0x02, IntBytes(v));
  }

  /** Every value is written under the tag the standards give its kind. */
  lemma ValueAgrees(v: Value, markers: bool)
    requires |ValueContent(v)| < 0x100_0000
    ensures ValueTlv(v, markers) == ValueField(v, markers)
  {
    hide Tlv, Field, IntBytes, OidBytes;
    FieldAgrees(ValueTag(v, markers), ValueContent(v));
  }

  lemma {:induction false} BindingsAgree(vbs: seq<VarBind>, markers: bool)
    requires |VarBindsBytes(vbs, markers)| < 0x100_0000
    ensures VarBindsBytes(vbs, markers) == Bindings(vbs, markers)
  {
    hide Field, LenBytes, OidBytes, ValueTag, ValueContent, ValueField;
    if vbs != [] {
      var vb := vbs[0];
      BindingsAgree(vbs[1..], markers);
      FieldAgrees(0x06, OidBytes(vb.oid));
      ValueAgrees(vb.value, markers);
      FieldAgrees(0x30, VarBindContent(vb, markers));
    }
  }

  lemma PduAgrees(tag: byte, requestId: i32, f1: i32, f2: i32, vbs: seq<VarBind>, markers: bool)
    requires |PduContent(requestId, f1, f2, VarBindsBytes(vbs, markers))| < 0x100_0000
    ensures Tlv(tag, PduContent(requestId, f1, f2, VarBindsBytes(vbs, markers)))
         == PduField(tag, requestId, f1, f2, Bindings(vbs, markers))
  {
    hide Field, LenBytes, IntegerTlv, Number, VarBindsBytes, Bindings;
    var list := VarBindsBytes(vbs, markers);
    PduFits(requestId, f1, f2, list);
    BindingsAgree(vbs, markers);
    NumberAgrees(requestId);
    NumberAgrees(f1);
    NumberAgrees(f2);
    FieldAgrees(0x30, list);
    FieldAgrees(tag, PduContent(requestId, f1, f2, list));
  }

  /** What stands for a version on the wire. */
  function VersionNumber(version: Version): int {
    match version
    case V1 => 0
    case V2c => 1
    case V3 => 3
  }

  lemma EnvelopeAgrees(version: Version, community: bytes, tag: byte, pdu: bytes)
    requires |MessageContent(version, community, tag, pdu)| < 0x100_0000
    ensures MessageBytes(version, community, tag, pdu) == CommunityMessage(VersionNumber(version), community, Tlv(tag, pdu))
  {
    hide Field, LenBytes, IntegerTlv, Number;
    NumberAgrees(version.Number());
    FieldAgrees(0x04, community);
    FieldAgrees(0x30, MessageContent(version, community, tag, pdu));
  }

  /** Community messages are laid out as the standards say. */
  lemma MessageAgrees(version: Version, community: bytes, tag: byte, requestId: i32, f1: i32, f2: i32,
                      vbs: seq<VarBind>, markers: bool)
    requires |MessageContent(version, community, tag,
                             PduContent(requestId, f1, f2, VarBindsBytes(vbs, markers)))| < 0x100_0000
    ensures MessageBytes(version, community, tag, PduContent(requestId, f1, f2, VarBindsBytes(vbs, markers)))
         == CommunityMessage(VersionNumber(version), community,
                             PduField(tag, requestId, f1, f2, Bindings(vbs, markers)))
  {
    hide PduContent, MessageBytes, CommunityMessage, PduField, VarBindsBytes, Bindings, LenBytes;
    EnvelopeAgrees(version, community, tag, PduContent(requestId, f1, f2, VarBindsBytes(vbs, markers)));
    PduAgrees(tag, requestId, f1, f2, vbs, markers);
  }

  /** Security parameters are laid out as the standards say. */
  lemma ParametersAgree(u: Usm)
    requires |UsmContent(u)| < 0x100_0000
    ensures UsmBytes(u) == SecurityParameters(u.engineId, u.boots, u.time, u.username, u.auth, u.priv)
  {
    hide Field, LenBytes, IntegerTlv, Number;
    UsmFieldsFit(u);
    NumberAgrees(u.boots);
    NumberAgrees(u.time);
    FieldAgrees(0x04, u.engineId);
    FieldAgrees(0x04, u.username);
    FieldAgrees(0x04, u.auth);
    FieldAgrees(0x04, u.priv);
    FieldAgrees(0x30, UsmContent(u));
  }

  /** Scoped PDUs are laid out as the standards say. */
  lemma ScopedAgrees(engineId: bytes, contextName: bytes, tag: byte, requestId: i32, f1: i32, f2: i32,
                     vbs: seq<VarBind>, markers: bool)
    requires |ScopedContent(engineId, contextName, tag,
                            PduContent(requestId, f1, f2, VarBindsBytes(vbs, markers)))| < 0x100_0000
    ensures ScopedBytes(engineId, contextName, tag, PduContent(requestId, f1, f2, VarBindsBytes(vbs, markers)))
         == ScopedField(engineId, contextName, PduField(tag, requestId, f1, f2, Bindings(vbs, markers)))
  {
    hide PduContent, PduField, VarBindsBytes, Bindings, LenBytes, Field;
    var pdu := PduContent(requestId, f1, f2, VarBindsBytes(vbs, markers));
    PduAgrees(tag, requestId, f1, f2, vbs, markers);
    FieldAgrees(0x04, engineId);
    FieldAgrees(0x04, contextName);
    FieldAgrees(0x30, ScopedContent(engineId, contextName, tag, pdu));
  }

  /** v3 messages are laid out as the standards say. */
  lemma V3Agrees(h: Header, u: Usm, body: bytes)
    requires |V3Content(h, UsmBytes(u), body)| < 0x100_0000
    ensures V3Bytes(h, UsmBytes(u), body)
         == V3Octets(h.msgId, h.maxSize, h.flags, h.model,
                     SecurityParameters(u.engineId, u.boots, u.time, u.username, u.auth, u.priv), body)
  {
    hide Field, LenBytes, IntegerTlv, Number, UsmBytes, SecurityParameters;
    HeaderFits(h, UsmBytes(u), body);
    UsmFieldsFit(u);
    ParametersAgree(u);
    NumberAgrees(3);
    NumberAgrees(h.msgId);
    NumberAgrees(h.maxSize);
    NumberAgrees(h.model);
    FieldAgrees(0x04, [h.flags]);
    FieldAgrees(0x30, HeaderContent(h));
    FieldAgrees(0x04, UsmBytes(u));
    FieldAgrees(0x30, V3Content(h, UsmBytes(u), body));
  }

  /** Version 1 traps are laid out as the standards say, but for the tag of the timestamp. */
  lemma TrapV1Agrees(community: bytes, f: V1Fields, addr: Ipv4, timestampTag: byte, vbs: seq<VarBind>, markers: bool)
    requires |MessageContent(V1, community, PDU_TRAP_V1,
                             V1PduContent(f, addr, timestampTag, VarBindsBytes(vbs, markers)))| < 0x100_0000
    ensures MessageBytes(V1, community, PDU_TRAP_V1, V1PduContent(f, addr, timestampTag, VarBindsBytes(vbs, markers)))
         == CommunityMessage(0, community,
                             TrapV1Field(f.enterprise, addr, f.genericTrap, f.specificTrap,
                                         Field(timestampTag, IntBytes(f.timestamp)), Bindings(vbs, markers)))
  {
    hide MessageBytes, CommunityMessage, VarBindsBytes, Bindings, LenBytes, Field, IntegerTlv, Number, OidBytes, IntBytes;
    var list := VarBindsBytes(vbs, markers);
    var pdu := V1PduContent(f, addr, timestampTag, list);
    EnvelopeAgrees(V1, community, PDU_TRAP_V1, pdu);
    V1PduFits(f, addr, timestampTag, list);
    BindingsAgree(vbs, markers);
    FieldAgrees(0x06, OidBytes(f.enterprise));
    FieldAgrees(0x40, addr);
    NumberAgrees(f.genericTrap);
    NumberAgrees(f.specificTrap);
    IntegerLength(f.timestamp);
    FieldAgrees(timestampTag, IntBytes(f.timestamp));
    FieldAgrees(0x30, list);
    FieldAgrees(0xA4, pdu);
  }
}
