/**
 Lengths are written with at most three octets, so contents of 2^24 octets or more are cut short by the
 reader. Every round trip therefore holds exactly below that limit: what a decoder makes of a cut encoding
 is never what was encoded.
 */
module Limits {
  import opened Octets
  import opened Results
  import opened Types
  import opened Integers
  import opened Oids
  import opened BerSpec
  import opened BerFacts
  import opened Messages
  import opened V3Messages

  // Throughout, `p` is what is left of an encoding and `d`, never empty, is what was cut off its end.

  lemma CutElement(tag: byte, a: bytes, x: bytes, p: bytes, d: bytes)
    requires p + d == Tlv(tag, a) + x && ReadTlv(p).Ok?
    ensures var e, n := ReadTlv(p).value, |a| % LENGTH_LIMIT;
            && e.tag == tag && e.content == a[..n] && e.rest + d == a[n..] + x
            && (e.content == a <==> |a| < LENGTH_LIMIT)
            && (e.content == a ==> e.rest + d == x)
  {
    hide ReadTlv, Tlv;
    TlvStable(p, d);
    TlvOnWire(tag, a, x);
    var n := |a| % LENGTH_LIMIT;
    assert a[..|a|] == a;
    if a[..n] == a {
      assert n == |a|;
      assert a[n..] + x == x;
    }
  }

  lemma {:induction false} CutSubId(s: bytes, acc: u32, d: bytes)
    requires ReadSubId(s, acc).Ok?
    ensures ReadSubId(s + d, acc) == Ok(ReadSubId(s, acc).value.(rest := ReadSubId(s, acc).value.rest + d))
  {
    assert (s + d)[1..] == s[1..] + d;
    if s[0] >= 128 {
      CutSubId(s[1..], ToU32(acc * 128 + s[0] % 128), d);
    }
  }

  lemma {:induction false} CutSubIds(subs: Oid, p: bytes, d: bytes)
    requires d != [] && p + d == SubIdsBytes(subs)
    ensures ReadSubIds(p) != Ok(subs)
    decreases |subs|
  {
    if subs != [] && p != [] && ReadSubId(p, 0).Ok? {
      var sub := ReadSubId(p, 0).value;
      CutSubId(p, 0, d);
      SubIdRoundTrip(subs[0], SubIdsBytes(subs[1..]));
      CutSubIds(subs[1..], sub.rest, d);
      if ReadSubIds(sub.rest).Ok? {
        var tail := ReadSubIds(sub.rest).value;
        assert ([sub.value] + tail)[1..] == tail;
      }
    }
  }

  lemma CutOid(o: Oid, p: bytes, d: bytes)
    requires d != [] && p + d == OidBytes(o)
    ensures OidOf(p) != Ok(OnWire(o))
  {
    if p != [] && |o| >= 2 {
      assert p[1..] + d == (p + d)[1..] == SubIdsBytes(o[2..]);
      CutSubIds(o[2..], p[1..], d);
      if ReadSubIds(p[1..]).Ok? {
        var subs := ReadSubIds(p[1..]).value;
        assert ([p[0] / 40, p[0] % 40] + subs)[2..] == subs;
        assert OnWire(o)[2..] == o[2..];
      }
    }
  }

  lemma LongValues(v: Value)
    requires |ValueContent(v)| >= LENGTH_LIMIT
    ensures v.OctetString? || v.Opaque? || v.ObjectIdentifier?
  {
    hide IntBytes, OidBytes;
    match v
    case Integer(i) => IntegerLength(i);
    case Counter32(n) => UnsignedLength(n);
    case Gauge32(n) => UnsignedLength(n);
    case TimeTicks(n) => UnsignedLength(n);
    case Counter64(n) => UnsignedLength(n);
    case _ =>
  }

  lemma CutValue(v: Value, tagged: bool, p: bytes, d: bytes)
    requires d != [] && p + d == ValueTlv(v, tagged)
    ensures ReadValue(p).Ok? ==> ReadValue(p).value.value != ValueOnWire(v, tagged)
  {
    hide ReadTlv, Tlv, OidBytes, OidOf, OnWire, IntBytes;
    if ReadValue(p).Ok? {
      var a := ValueContent(v);
      assert p + d == Tlv(ValueTag(v, tagged), a) + [];
      CutElement(ValueTag(v, tagged), a, [], p, d);
      var e := ReadTlv(p).value;
      if e.content != a {
        LongValues(v);
        if v.ObjectIdentifier? {
          var n := |a| % LENGTH_LIMIT;
          assert a[..n] + a[n..] == a;
          CutOid(v.oid, a[..n], a[n..]);
        }
      }
    }
  }

  lemma CutVarBind(vb: VarBind, tagged: bool, p: bytes, d: bytes)
    requires d != [] && p + d == VarBindContent(vb, tagged)
    ensures VarBindOf(p) != Ok(VarBindOnWire(vb, tagged))
  {
    hide ReadTlv, Tlv, OidBytes, OidOf, OnWire, ReadValue, ValueTlv, ValueOnWire;
    if VarBindOf(p).Ok? {
      var a := OidBytes(vb.oid);
      CutElement(TAG_OID, a, ValueTlv(vb.value, tagged), p, d);
      var e := ReadTlv(p).value;
      if e.content == a {
        CutValue(vb.value, tagged, e.rest, d);
      } else {
        var n := |a| % LENGTH_LIMIT;
        assert a[..n] + a[n..] == a;
        CutOid(vb.oid, a[..n], a[n..]);
      }
    }
  }

  lemma NothingCut(tagged: bool)
    ensures VarBindsBytes([], tagged) == []
  {
  }

  lemma {:induction false} CutVarBinds(vbs: seq<VarBind>, tagged: bool, p: bytes, d: bytes)
    requires d != [] && p + d == VarBindsBytes(vbs, tagged)
    ensures ReadVarBinds(p) != Ok(VarBindsOnWire(vbs, tagged))
    decreases |vbs|
  {
    hide ReadTlv, Tlv, VarBindOf, VarBindContent, VarBindOnWire, ReadVarBinds, VarBindsBytes, VarBindsOnWire, ReadInside;
    if vbs == [] {
      NothingCut(tagged);
    } else if p == [] {
      ReadVarBindsStep(p);
      VarBindsStep(vbs, tagged);
    } else if ReadVarBinds(p).Ok? {
      ReadVarBindsStep(p);
      VarBindsStep(vbs, tagged);
      var a, more := VarBindContent(vbs[0], tagged), VarBindsBytes(vbs[1..], tagged);
      InsideIsTlv(p, TAG_SEQUENCE);
      CutElement(TAG_SEQUENCE, a, more, p, d);
      var e := ReadTlv(p).value;
      if e.content == a {
        CutVarBinds(vbs[1..], tagged, e.rest, d);
        var tail := ReadVarBinds(e.rest).value;
        assert ReadVarBinds(p).value[1..] == tail;
        assert VarBindsOnWire(vbs, tagged)[1..] == VarBindsOnWire(vbs[1..], tagged);
      } else {
        var n := |a| % LENGTH_LIMIT;
        assert a[..n] + a[n..] == a;
        CutVarBind(vbs[0], tagged, a[..n], a[n..]);
        assert ReadVarBinds(p).value[0] == VarBindOf(e.content).value;
        assert VarBindsOnWire(vbs, tagged)[0] == VarBindOnWire(vbs[0], tagged);
      }
    }
  }

  /** An INTEGER in front survives every cut behind it. */
  lemma CutAfterInteger(v: i64, x: bytes, p: bytes, d: bytes)
    requires p + d == IntegerTlv(v) + x && ReadInteger(p).Ok?
    ensures ReadInteger(p).value.value == v && ReadInteger(p).value.rest + d == x
  {
    hide ReadTlv, Tlv, IntegerOf, IntBytes;
    IntegerLength(v);
    IntegerRoundTrip(v);
    CutElement(TAG_INTEGER, IntBytes(v), x, p, d);
  }

  /** An OCTET STRING in front is either cut itself or survives. */
  lemma CutAfterOctets(s: bytes, x: bytes, p: bytes, d: bytes)
    requires p + d == OctetsTlv(s) + x && ReadOctets(p).Ok?
    ensures ReadOctets(p).value.value == s ==> ReadOctets(p).value.rest + d == x
  {
    hide ReadTlv, Tlv;
    CutElement(TAG_OCTET_STRING, s, x, p, d);
  }

  /** The part of a string that its length octets admit to. */
  function Admitted(s: bytes): bytes {
    s[..|s| % LENGTH_LIMIT]
  }

  /** Of an OCTET STRING in front, a reader sees what its length octets admit to. */
  lemma CutOctets(s: bytes, x: bytes, p: bytes, d: bytes)
    requires p + d == OctetsTlv(s) + x && ReadOctets(p).Ok?
    ensures ReadOctets(p).value.value == Admitted(s)
  {
    hide ReadTlv, Tlv;
    CutElement(TAG_OCTET_STRING, s, x, p, d);
  }

  lemma CutPdu(requestId: i32, status: i32, index: i32, vbs: seq<VarBind>, tagged: bool, p: bytes, d: bytes)
    requires d != [] && p + d == PduContent(requestId, status, index, VarBindsBytes(vbs, tagged))
    ensures PduOf(p).Ok? ==> PduOf(p).value.varbinds != VarBindsOnWire(vbs, tagged)
  {
    hide ReadTlv, Tlv, ReadInteger, IntegerTlv, ReadVarBinds, VarBindsBytes, VarBindsOnWire;
    if PduOf(p).Ok? {
      var a := VarBindsBytes(vbs, tagged);
      var tail := SequenceTlv(a);
      CutAfterInteger(requestId, IntegerTlv(status) + (IntegerTlv(index) + tail), p, d);
      var p1 := ReadInteger(p).value.rest;
      CutAfterInteger(status, IntegerTlv(index) + tail, p1, d);
      var p2 := ReadInteger(p1).value.rest;
      CutAfterInteger(index, tail, p2, d);
      var p3 := ReadInteger(p2).value.rest;
      InsideIsTlv(p3, TAG_SEQUENCE);
      assert p3 + d == Tlv(TAG_SEQUENCE, a) + [];
      CutElement(TAG_SEQUENCE, a, [], p3, d);
      var n := |a| % LENGTH_LIMIT;
      assert a[..n] + a[n..] == a;
      if ReadTlv(p3).value.content != a {
        CutVarBinds(vbs, tagged, a[..n], a[n..]);
      }
    }
  }

  /** A cut element that holds a PDU never yields the varbinds that were put in. */
  lemma CutPduElement(tag: byte, requestId: i32, status: i32, index: i32, vbs: seq<VarBind>, tagged: bool,
                      p: bytes, d: bytes)
    requires d != [] && p + d == Tlv(tag, PduContent(requestId, status, index, VarBindsBytes(vbs, tagged)))
    requires ReadTlv(p).Ok?
    ensures var r := PduOf(ReadTlv(p).value.content); r.Ok? ==> r.value.varbinds != VarBindsOnWire(vbs, tagged)
  {
    hide ReadTlv, Tlv, PduContent, PduOf, VarBindsOnWire;
    var a := PduContent(requestId, status, index, VarBindsBytes(vbs, tagged));
    assert p + d == Tlv(tag, a) + [];
    CutElement(tag, a, [], p, d);
    var n := |a| % LENGTH_LIMIT;
    assert a[..n] + a[n..] == a;
    CutPdu(requestId, status, index, vbs, tagged, a[..n], a[n..]);
  }

  // ---- Community messages ----

  lemma OversizeMessage(version: Version, community: bytes, requestId: i32, status: i32, index: i32,
                        vbs: seq<VarBind>, tagged: bool, x: bytes)
    requires |MessageContent(version, community, PDU_RESPONSE,
                             PduContent(requestId, status, index, VarBindsBytes(vbs, tagged)))| >= LENGTH_LIMIT
    ensures var r := ResponseOf(MessageBytes(version, community, PDU_RESPONSE,
                                             PduContent(requestId, status, index, VarBindsBytes(vbs, tagged))) + x);
            r.Ok? ==> r.value.community != community || r.value.varbinds != VarBindsOnWire(vbs, tagged)
  {
    hide ReadTlv, Tlv, ReadInteger, IntegerTlv, ReadOctets, OctetsTlv, PduContent, PduOf, VarBindsOnWire, VarBindsBytes;
    var pdu := PduContent(requestId, status, index, VarBindsBytes(vbs, tagged));
    var content := MessageContent(version, community, PDU_RESPONSE, pdu);
    var s := MessageBytes(version, community, PDU_RESPONSE, pdu) + x;
    if ResponseOf(s).Ok? && ResponseOf(s).value.community == community {
      InsideIsTlv(s, TAG_SEQUENCE);
      TlvOnWire(TAG_SEQUENCE, content, x);
      var n := |content| % LENGTH_LIMIT;
      var p, d := content[..n], content[n..];
      assert p + d == content;
      CutAfterInteger(version.Number(), OctetsTlv(community) + Tlv(PDU_RESPONSE, pdu), p, d);
      var p1 := ReadInteger(p).value.rest;
      CutAfterOctets(community, Tlv(PDU_RESPONSE, pdu), p1, d);
      var p2 := ReadOctets(p1).value.rest;
      InsideIsTlv(p2, PDU_RESPONSE);
      CutPduElement(PDU_RESPONSE, requestId, status, index, vbs, tagged, p2, d);
    }
  }

  /** The whole-message round trip holds exactly when the message's contents stay below 2^24 octets. */
  lemma MessageRoundTripExactly(version: Version, community: bytes, requestId: i32, status: i32, index: i32,
                                vbs: seq<VarBind>, tagged: bool, x: bytes)
    ensures ResponseOf(MessageBytes(version, community, PDU_RESPONSE,
                                    PduContent(requestId, status, index, VarBindsBytes(vbs, tagged))) + x)
            == Ok(SnmpResponse(version, community, requestId, ToU32(status), ToU32(index), VarBindsOnWire(vbs, tagged)))
            <==> |MessageContent(version, community, PDU_RESPONSE,
                                 PduContent(requestId, status, index, VarBindsBytes(vbs, tagged)))| < LENGTH_LIMIT
  {
    hide ResponseOf, MessageContent, MessageBytes, PduContent, VarBindsBytes, VarBindsOnWire;
    var pdu := PduContent(requestId, status, index, VarBindsBytes(vbs, tagged));
    if |MessageContent(version, community, PDU_RESPONSE, pdu)| < LENGTH_LIMIT {
      MessageRoundTrip(version, community, PDU_RESPONSE, requestId, status, index, vbs, tagged, x);
    } else {
      OversizeMessage(version, community, requestId, status, index, vbs, tagged, x);
    }
  }

  // ---- Scoped PDUs ----

  lemma OversizeScoped(engineId: bytes, contextName: bytes, tag: byte, requestId: i32, status: i32, index: i32,
                       vbs: seq<VarBind>, tagged: bool, x: bytes)
    requires |ScopedContent(engineId, contextName, tag,
                            PduContent(requestId, status, index, VarBindsBytes(vbs, tagged)))| >= LENGTH_LIMIT
    ensures var r := ScopedOf(ScopedBytes(engineId, contextName, tag,
                                          PduContent(requestId, status, index, VarBindsBytes(vbs, tagged))) + x);
            r.Ok? ==> r.value.engineId != engineId || r.value.contextName != contextName
                      || r.value.varbinds != VarBindsOnWire(vbs, tagged)
  {
    hide ReadTlv, Tlv, ReadOctets, OctetsTlv, PduContent, PduOf, VarBindsOnWire, VarBindsBytes;
    var pdu := PduContent(requestId, status, index, VarBindsBytes(vbs, tagged));
    var content := ScopedContent(engineId, contextName, tag, pdu);
    var s := ScopedBytes(engineId, contextName, tag, pdu) + x;
    if ScopedOf(s).Ok? && ScopedOf(s).value.engineId == engineId && ScopedOf(s).value.contextName == contextName {
      InsideIsTlv(s, TAG_SEQUENCE);
      TlvOnWire(TAG_SEQUENCE, content, x);
      var n := |content| % LENGTH_LIMIT;
      var p, d := content[..n], content[n..];
      assert p + d == content;
      CutAfterOctets(engineId, OctetsTlv(contextName) + Tlv(tag, pdu), p, d);
      var p1 := ReadOctets(p).value.rest;
      CutAfterOctets(contextName, Tlv(tag, pdu), p1, d);
      var p2 := ReadOctets(p1).value.rest;
      CutPduElement(tag, requestId, status, index, vbs, tagged, p2, d);
    }
  }

  /** The scoped PDU round trip holds exactly when its contents stay below 2^24 octets. */
  lemma ScopedRoundTripExactly(engineId: bytes, contextName: bytes, tag: byte, requestId: i32, status: i32, index: i32,
                               vbs: seq<VarBind>, tagged: bool, x: bytes)
    ensures ScopedOf(ScopedBytes(engineId, contextName, tag,
                                 PduContent(requestId, status, index, VarBindsBytes(vbs, tagged))) + x)
            == Ok(ScopedPdu(engineId, contextName, tag, requestId, ToU32(status), ToU32(index),
                            VarBindsOnWire(vbs, tagged)))
            <==> |ScopedContent(engineId, contextName, tag,
                                PduContent(requestId, status, index, VarBindsBytes(vbs, tagged)))| < LENGTH_LIMIT
  {
    hide ScopedOf, ScopedContent, ScopedBytes, PduContent, VarBindsBytes, VarBindsOnWire;
    var pdu := PduContent(requestId, status, index, VarBindsBytes(vbs, tagged));
    if |ScopedContent(engineId, contextName, tag, pdu)| < LENGTH_LIMIT {
      ScopedRoundTrip(engineId, contextName, tag, requestId, status, index, vbs, tagged, x);
    } else {
      OversizeScoped(engineId, contextName, tag, requestId, status, index, vbs, tagged, x);
    }
  }

  // ---- Security parameters ----

  lemma OversizeUsm(u: Usm, x: bytes)
    requires |UsmContent(u)| >= LENGTH_LIMIT
    ensures UsmOf(UsmBytes(u) + x) != Ok(u)
  {
    hide ReadTlv, Tlv, ReadInteger, IntegerTlv, ReadOctets, OctetsTlv;
    var content := UsmContent(u);
    var s := UsmBytes(u) + x;
    if UsmOf(s) == Ok(u) {
      InsideIsTlv(s, TAG_SEQUENCE);
      TlvOnWire(TAG_SEQUENCE, content, x);
      var n := |content| % LENGTH_LIMIT;
      var p, d := content[..n], content[n..];
      assert p + d == content;
      var last := OctetsTlv(u.priv);
      var c2 := OctetsTlv(u.auth) + last;
      var c1 := OctetsTlv(u.username) + c2;
      CutAfterOctets(u.engineId, IntegerTlv(u.boots) + (IntegerTlv(u.time) + c1), p, d);
      var p1 := ReadOctets(p).value.rest;
      CutAfterInteger(u.boots, IntegerTlv(u.time) + c1, p1, d);
      var p2 := ReadInteger(p1).value.rest;
      CutAfterInteger(u.time, c1, p2, d);
      var p3 := ReadInteger(p2).value.rest;
      CutAfterOctets(u.username, c2, p3, d);
      var p4 := ReadOctets(p3).value.rest;
      CutAfterOctets(u.auth, last, p4, d);
      var p5 := ReadOctets(p4).value.rest;
      assert p5 + d == OctetsTlv(u.priv) + [];
      CutAfterOctets(u.priv, [], p5, d);
    }
  }

  /** The security parameters round trip exactly when their contents stay below 2^24 octets. */
  lemma UsmRoundTripExactly(u: Usm, x: bytes)
    ensures UsmOf(UsmBytes(u) + x) == Ok(u) <==> |UsmContent(u)| < LENGTH_LIMIT
  {
    hide UsmOf, UsmBytes, UsmContent;
    if |UsmContent(u)| < LENGTH_LIMIT {
      UsmRoundTrip(u, x);
    } else {
      OversizeUsm(u, x);
    }
  }

  // ---- v3 messages ----

  lemma CutBody(scoped: bytes, encrypted: bool, p: bytes, d: bytes)
    requires d != [] && p + d == Body(scoped, encrypted)
    ensures ScopedRawOf(p, encrypted) != Ok(scoped)
  {
    hide ReadTlv, Tlv;
    if encrypted && ReadOctets(p).Ok? && ReadOctets(p).value.value == scoped {
      assert p + d == OctetsTlv(scoped) + [];
      CutAfterOctets(scoped, [], p, d);
    }
  }

  lemma OversizeV3(h: Header, u: Usm, scoped: bytes, encrypted: bool, x: bytes)
    requires |V3Content(h, UsmBytes(u), Body(scoped, encrypted))| >= LENGTH_LIMIT
    ensures V3MessageOf(V3Bytes(h, UsmBytes(u), Body(scoped, encrypted)) + x)
            != Ok(V3Message(h, UsmBytes(u), u, scoped, encrypted))
  {
    hide ReadTlv, Tlv, ReadInteger, IntegerTlv, ReadOctets, OctetsTlv, HeaderContent, HeaderOf, UsmBytes, UsmOf, Body,
      ScopedRawOf, PrivFlag;
    var params, body := UsmBytes(u), Body(scoped, encrypted);
    var content := V3Content(h, params, body);
    var s := V3Bytes(h, params, body) + x;
    var r := V3MessageOf(s);
    if r == Ok(V3Message(h, params, u, scoped, encrypted)) {
      InsideIsTlv(s, TAG_SEQUENCE);
      TlvOnWire(TAG_SEQUENCE, content, x);
      var n := |content| % LENGTH_LIMIT;
      var p, d := content[..n], content[n..];
      assert p + d == content;
      CutAfterInteger(3, SequenceTlv(HeaderContent(h)) + (OctetsTlv(params) + body), p, d);
      var p1 := ReadInteger(p).value.rest;
      InsideIsTlv(p1, TAG_SEQUENCE);
      CutElement(TAG_SEQUENCE, HeaderContent(h), OctetsTlv(params) + body, p1, d);
      HeaderShort(h);
      var p2 := ReadTlv(p1).value.rest;
      CutAfterOctets(params, body, p2, d);
      var p3 := ReadOctets(p2).value.rest;
      CutBody(scoped, encrypted, p3, d);
    }
  }

  lemma FieldsInOrder(s: bytes)
    requires V3FieldsOf(s).Ok?
    ensures ReadTlv(s).Ok? && ReadOctets(ReadTlv(s).value.rest).Ok?
    ensures V3FieldsOf(s).value.paramsRaw == ReadOctets(ReadTlv(s).value.rest).value.value
  {
    hide ReadTlv, ReadOctets, HeaderOf, UsmOf, ScopedRawOf, PrivFlag;
    InsideIsTlv(s, TAG_SEQUENCE);
  }

  lemma FieldsBehindVersion(s: bytes)
    requires V3MessageOf(s).Ok?
    ensures ReadTlv(s).Ok? && ReadInteger(ReadTlv(s).value.content).Ok?
    ensures V3MessageOf(s) == V3FieldsOf(ReadInteger(ReadTlv(s).value.content).value.rest)
  {
    hide ReadTlv, ReadInteger, V3FieldsOf;
    InsideIsTlv(s, TAG_SEQUENCE);
  }

  lemma CutParams(h: Header, params: bytes, body: bytes, p: bytes, d: bytes)
    requires p + d == V3Content(h, params, body) && ReadInteger(p).Ok?
    requires V3FieldsOf(ReadInteger(p).value.rest).Ok?
    ensures V3FieldsOf(ReadInteger(p).value.rest).value.paramsRaw == Admitted(params)
  {
    hide ReadTlv, Tlv, ReadInteger, IntegerTlv, ReadOctets, HeaderContent, V3FieldsOf;
    CutAfterInteger(3, SequenceTlv(HeaderContent(h)) + (OctetsTlv(params) + body), p, d);
    var p1 := ReadInteger(p).value.rest;
    FieldsInOrder(p1);
    CutElement(TAG_SEQUENCE, HeaderContent(h), OctetsTlv(params) + body, p1, d);
    HeaderShort(h);
    CutOctets(params, body, ReadTlv(p1).value.rest, d);
  }

  /** Of the security parameters a reader sees what their length octets admit to, whatever became of the rest. */
  lemma ParamsSeen(h: Header, params: bytes, body: bytes)
    ensures var r := V3MessageOf(V3Bytes(h, params, body));
            r.Ok? ==> r.value.paramsRaw == Admitted(params)
  {
    hide ReadTlv, Tlv, ReadInteger, V3Content, V3FieldsOf, V3MessageOf;
    var content, s := V3Content(h, params, body), V3Bytes(h, params, body);
    if V3MessageOf(s).Ok? {
      assert s + [] == s;
      FieldsBehindVersion(s);
      TlvOnWire(TAG_SEQUENCE, content, []);
      var n := |content| % LENGTH_LIMIT;
      assert content[..n] + content[n..] == content;
      CutParams(h, params, body, content[..n], content[n..]);
    }
  }

  lemma HeaderShort(h: Header)
    ensures |HeaderContent(h)| < LENGTH_LIMIT
  {
    hide IntBytes, LenBytes;
    IntegerLength(h.msgId);
    IntegerLength(h.maxSize);
    IntegerLength(h.model);
  }

  /** With agreeing flags, the v3 round trip holds exactly when the message's contents stay below 2^24 octets. */
  lemma V3RoundTripExactly(h: Header, u: Usm, scoped: bytes, encrypted: bool, x: bytes)
    requires PrivFlag(h.flags) == encrypted
    requires !encrypted ==> ReadTlv(scoped).Ok? && ReadTlv(scoped).value.rest == []
    ensures V3MessageOf(V3Bytes(h, UsmBytes(u), Body(scoped, encrypted)) + x)
            == Ok(V3Message(h, UsmBytes(u), u, scoped, encrypted))
            <==> |V3Content(h, UsmBytes(u), Body(scoped, encrypted))| < LENGTH_LIMIT
  {
    hide V3MessageOf, V3Content, V3Bytes, UsmBytes, Body, ReadTlv;
    if |V3Content(h, UsmBytes(u), Body(scoped, encrypted))| < LENGTH_LIMIT {
      V3RoundTrip(h, u, scoped, encrypted, x);
    } else {
      OversizeV3(h, u, scoped, encrypted, x);
    }
  }
}
