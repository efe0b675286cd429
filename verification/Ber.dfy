/** The mutable encoder and decoder of the codec, proved against `BerSpec`. */
module Ber {
  import opened Octets
  import opened Results
  import opened Types
  import opened Integers
  import opened Oids
  import Spec = BerSpec
  import Facts = BerFacts

  class BerEncoder {
    var buf: bytes

    constructor ()
      ensures buf == []
    {
      buf := [];
    }

    method Extend(data: bytes)
      modifies this
      ensures buf == old(buf) + data
    {
      buf := buf + data;
    }

    method WriteLength(len: nat)
      modifies this
      ensures buf == old(buf) + Spec.LenBytes(len)
    {
      if len < 0x80 {
        buf := buf + [len];
      } else if len <= 0xFF {
        buf := buf + [0x81];
        buf := buf + [len];
      } else if len <= 0xFFFF {
        buf := buf + [0x82];
        buf := buf + [len / 0x100];
        buf := buf + [len % 0x100];
      } else {
        buf := buf + [0x83];
        buf := buf + [len / 0x1_0000 % 0x100];
        buf := buf + [len / 0x100 % 0x100];
        buf := buf + [len % 0x100];
      }
    }

    method WriteTagged(tag: byte, content: bytes)
      modifies this
      ensures buf == old(buf) + Spec.Tlv(tag, content)
    {
      buf := buf + [tag];
      WriteLength(|content|);
      buf := buf + content;
    }

    method WriteSequence(content: bytes)
      modifies this
      ensures buf == old(buf) + Spec.SequenceTlv(content)
    {
      WriteTagged(Spec.TAG_SEQUENCE, content);
    }

    method WriteInteger(val: i64)
      modifies this
      ensures buf == old(buf) + Spec.IntegerTlv(val)
    {
      var octets := EncodeIntegerBytes(val);
      WriteTagged(Spec.TAG_INTEGER, octets);
    }

    method WriteOctetString(data: bytes)
      modifies this
      ensures buf == old(buf) + Spec.OctetsTlv(data)
    {
      WriteTagged(Spec.TAG_OCTET_STRING, data);
    }

    method WriteNull()
      modifies this
      ensures buf == old(buf) + Spec.Tlv(Spec.TAG_NULL, [])
    {
      buf := buf + [Spec.TAG_NULL];
      buf := buf + [0x00];
    }

    method WriteOid(oid: Oid)
      modifies this
      ensures buf == old(buf) + Spec.OidTlv(oid)
    {
      var encoded := EncodeOid(oid);
      WriteTagged(Spec.TAG_OID, encoded);
    }

    method WriteValue(value: Value)
      modifies this
      ensures buf == old(buf) + Spec.ValueTlv(value, false)
    {
      var octets: bytes;
      match value {
        case Integer(v) => WriteInteger(v);
        case OctetString(s) => WriteOctetString(s);
        case Null => WriteNull();
        case ObjectIdentifier(oid) => WriteOid(oid);
        case IpAddress(ip) => WriteTagged(Spec.TAG_IPADDRESS, ip);
        case Counter32(v) =>
          octets := EncodeUnsigned32(v);
          WriteTagged(Spec.TAG_COUNTER32, octets);
        case Gauge32(v) =>
          octets := EncodeUnsigned32(v);
          WriteTagged(Spec.TAG_GAUGE32, octets);
        case TimeTicks(v) =>
          octets := EncodeUnsigned32(v);
          WriteTagged(Spec.TAG_TIMETICKS, octets);
        case Opaque(s) => WriteTagged(Spec.TAG_OPAQUE, s);
        case Counter64(v) =>
          octets := EncodeUnsigned64(v);
          WriteTagged(Spec.TAG_COUNTER64, octets);
        case _ => WriteNull();
      }
    }
  }

  class BerDecoder {
    const data: bytes
    var pos: nat

    ghost predicate Valid()
      reads this
    {
      pos <= |data|
    }

    /** The octets not yet consumed. */
    ghost function Rest(): bytes
      reads this
      requires Valid()
    {
      data[pos..]
    }

    constructor (data: bytes)
      ensures Valid() && this.data == data && Rest() == data
    {
      this.data := data;
      pos := 0;
    }

    method Remaining() returns (n: nat)
      requires Valid()
      ensures n == |Rest()|
    {
      n := |data| - pos;
    }

    method PeekTag() returns (r: Result<byte>)
      requires Valid()
      ensures match Spec.ReadTag(Rest())
              case Ok(t) => r == Ok(t.value)
              case Err(e) => r == Err(e)
    {
      if pos >= |data| {
        return Err(UnexpectedEnd);
      }
      return Ok(data[pos]);
    }

    method ReadTag() returns (r: Result<byte>)
      requires Valid()
      modifies this
      ensures Valid() && pos >= old(pos)
      ensures match Spec.ReadTag(old(Rest()))
              case Ok(t) => r == Ok(t.value) && Rest() == t.rest
              case Err(e) => r == Err(e)
    {
      var tag :- PeekTag();
      pos := pos + 1;
      return Ok(tag);
    }

    method ReadLength() returns (r: Result<nat>)
      requires Valid()
      modifies this
      ensures Valid() && pos >= old(pos)
      ensures match Spec.ReadLength(old(Rest()))
              case Ok(l) => r == Ok(l.value) && Rest() == l.rest
              case Err(e) => r == Err(e)
    {
      if pos >= |data| {
        return Err(UnexpectedEnd);
      }
      var first := data[pos];
      pos := pos + 1;
      if first < 0x80 {
        return Ok(first);
      }
      var numBytes := first % 0x80;
      if pos + numBytes > |data| {
        return Err(LengthOverflow);
      }
      var octets := data[pos..pos + numBytes];
      assert octets == old(Rest())[1..1 + numBytes];
      pos := pos + numBytes;
      var len := DecodeUnsigned64(octets);
      return Ok(len);
    }

    method ReadRaw(len: nat) returns (r: Result<bytes>)
      requires Valid()
      modifies this
      ensures Valid() && pos >= old(pos)
      ensures match Spec.ReadRaw(old(Rest()), len)
              case Ok(raw) => r == Ok(raw.value) && Rest() == raw.rest && raw.value == data[pos - len..pos]
              case Err(e) => r == Err(e)
    {
      if pos + len > |data| {
        return Err(DataTooShort);
      }
      var slice := data[pos..pos + len];
      assert slice == Rest()[..len];
      pos := pos + len;
      return Ok(slice);
    }

    /** A sub-decoder or value always covers a contiguous slice that ends at the new position. */
    method ReadTlv() returns (r: Result<(byte, bytes)>)
      requires Valid()
      modifies this
      ensures Valid() && pos >= old(pos)
      ensures match Spec.ReadTlv(old(Rest()))
              case Ok(e) => r == Ok((e.tag, e.content)) && Rest() == e.rest && e.content == data[pos - |e.content|..pos]
              case Err(e) => r == Err(e)
    {
      var tag :- ReadTag();
      var len :- ReadLength();
      var content :- ReadRaw(len);
      return Ok((tag, content));
    }

    /** The element with its own tag and length octets. */
    method ReadTlvWithHeader() returns (r: Result<(byte, bytes)>)
      requires Valid()
      modifies this
      ensures Valid() && pos >= old(pos)
      ensures match Spec.ReadTlv(old(Rest()))
              case Ok(e) =>
                && Rest() == e.rest
                && r == Ok((e.tag, old(Rest())[..|old(Rest())| - |e.rest|]))
              case Err(e) => r == Err(e)
    {
      hide Spec.ReadLength;
      var start := pos;
      var tag :- ReadTag();
      var len :- ReadLength();
      var _ :- ReadRaw(len);
      var end := pos;
      assert data[start..end] == data[start..][..end - start];
      return Ok((tag, data[start..end]));
    }

    method ReadInside(expected: byte) returns (r: Result<BerDecoder>)
      requires Valid()
      modifies this
      ensures Valid() && pos >= old(pos)
      ensures match Spec.ReadInside(old(Rest()), expected)
              case Ok(s) =>
                && Rest() == s.rest && r.Ok? && fresh(r.value)
                && r.value.Valid() && r.value.Rest() == s.value == r.value.data
              case Err(e) => r == Err(e)
    {
      var tag :- ReadTag();
      if tag != expected {
        return Err(WrongTag(expected, tag));
      }
      var len :- ReadLength();
      var content :- ReadRaw(len);
      var inner := new BerDecoder(content);
      return Ok(inner);
    }

    method ReadSequence() returns (r: Result<BerDecoder>)
      requires Valid()
      modifies this
      ensures Valid() && pos >= old(pos)
      ensures match Spec.ReadSequence(old(Rest()))
              case Ok(s) =>
                && Rest() == s.rest && r.Ok? && fresh(r.value)
                && r.value.Valid() && r.value.Rest() == s.value == r.value.data
              case Err(e) => r == Err(e)
    {
      r := ReadInside(Spec.TAG_SEQUENCE);
    }

    method ReadInteger() returns (r: Result<i64>)
      requires Valid()
      modifies this
      ensures Valid() && pos >= old(pos)
      ensures match Spec.ReadInteger(old(Rest()))
              case Ok(v) => r == Ok(v.value) && Rest() == v.rest
              case Err(e) => r == Err(e)
    {
      var e :- ReadTlv();
      var (tag, content) := e;
      if tag != Spec.TAG_INTEGER {
        return Err(WrongTag(Spec.TAG_INTEGER, tag));
      }
      var v := DecodeInteger(content);
      return Ok(v);
    }

    method ReadOctetString() returns (r: Result<bytes>)
      requires Valid()
      modifies this
      ensures Valid() && pos >= old(pos)
      ensures match Spec.ReadOctets(old(Rest()))
              case Ok(s) => r == Ok(s.value) && Rest() == s.rest
              case Err(e) => r == Err(e)
    {
      var e :- ReadTlv();
      var (tag, content) := e;
      if tag != Spec.TAG_OCTET_STRING {
        return Err(WrongTag(Spec.TAG_OCTET_STRING, tag));
      }
      return Ok(content);
    }

    method ReadOid() returns (r: Result<Oid>)
      requires Valid()
      modifies this
      ensures Valid() && pos >= old(pos)
      ensures match Spec.ReadOid(old(Rest()))
              case Ok(o) => r == Ok(o.value) && Rest() == o.rest
              case Err(e) => r == Err(e)
    {
      var e :- ReadTlv();
      var (tag, content) := e;
      if tag != Spec.TAG_OID {
        return Err(WrongTag(Spec.TAG_OID, tag));
      }
      r := DecodeOid(content);
    }

    method ReadValue() returns (r: Result<Value>)
      requires Valid()
      modifies this
      ensures Valid() && pos >= old(pos)
      ensures match Spec.ReadValue(old(Rest()))
              case Ok(v) => r == Ok(v.value) && Rest() == v.rest
              case Err(e) => r == Err(e)
    {
      var e :- ReadTlv();
      var (tag, content) := e;
      r := DecodeValue(tag, content);
    }

    /** The varbind loop that every message decoder repeats. */
    method ReadVarBinds() returns (r: Result<seq<VarBind>>)
      requires Valid()
      modifies this
      ensures Valid() && pos >= old(pos)
      ensures r == Spec.ReadVarBinds(old(Rest()))
    {
      hide Spec.ReadInside, Spec.ReadOid, Spec.ReadValue, Spec.ReadVarBinds;
      var varbinds: seq<VarBind> := [];
      AfterNothing(Spec.ReadVarBinds(Rest()));
      while pos < |data|
        invariant Valid() && pos >= old(pos)
        invariant Spec.ReadVarBinds(old(Rest())) == After(varbinds, Spec.ReadVarBinds(Rest()))
        decreases |data| - pos
      {
        Facts.ReadVarBindsStep(Rest());
        var item :- ReadSequence();
        var oid :- item.ReadOid();
        var value :- item.ReadValue();
        AfterOne(varbinds, VarBind(oid, value), Spec.ReadVarBinds(Rest()));
        varbinds := varbinds + [VarBind(oid, value)];
      }
      Facts.ReadVarBindsStep(Rest());
      AfterAll(varbinds);
      return Ok(varbinds);
    }
  }

  function After(done: seq<VarBind>, more: Result<seq<VarBind>>): Result<seq<VarBind>> {
    if more.Err? then more else Ok(done + more.value)
  }

  lemma AfterNothing(more: Result<seq<VarBind>>)
    ensures After([], more) == more
  {
    if more.Ok? {
      assert [] + more.value == more.value;
    }
  }

  lemma AfterAll(done: seq<VarBind>)
    ensures After(done, Ok([])) == Ok(done)
  {
    assert done + [] == done;
  }

  lemma AfterOne(done: seq<VarBind>, vb: VarBind, more: Result<seq<VarBind>>)
    ensures After(done + [vb], more) == After(done, After([vb], more))
  {
    if more.Ok? {
      assert done + ([vb] + more.value) == done + [vb] + more.value;
    }
  }

  method DecodeValue(tag: byte, content: bytes) returns (r: Result<Value>)
    ensures r == Spec.ValueOf(tag, content)
  {
    if tag == Spec.TAG_INTEGER {
      var v := DecodeInteger(content);
      return Ok(Integer(v));
    } else if tag == Spec.TAG_OCTET_STRING {
      return Ok(OctetString(content));
    } else if tag == Spec.TAG_NULL {
      return Ok(Null);
    } else if tag == Spec.TAG_OID {
      var oid :- DecodeOid(content);
      return Ok(ObjectIdentifier(oid));
    } else if tag == Spec.TAG_IPADDRESS {
      return if |content| == 4 then Ok(IpAddress(content)) else Ok(OctetString(content));
    } else if tag == Spec.TAG_COUNTER32 {
      var v := DecodeUnsigned32(content);
      return Ok(Counter32(v));
    } else if tag == Spec.TAG_GAUGE32 {
      var v := DecodeUnsigned32(content);
      return Ok(Gauge32(v));
    } else if tag == Spec.TAG_TIMETICKS {
      var v := DecodeUnsigned32(content);
      return Ok(TimeTicks(v));
    } else if tag == Spec.TAG_OPAQUE {
      return Ok(Opaque(content));
    } else if tag == Spec.TAG_COUNTER64 {
      var v := DecodeUnsigned64(content);
      return Ok(Counter64(v));
    } else if tag == Spec.TAG_NO_SUCH_OBJECT {
      return Ok(NoSuchObject);
    } else if tag == Spec.TAG_NO_SUCH_INSTANCE {
      return Ok(NoSuchInstance);
    } else if tag == Spec.TAG_END_OF_MIB_VIEW {
      return Ok(EndOfMibView);
    } else {
      return Ok(OctetString(content));
    }
  }

  // ---- Varbind lists ----

  lemma {:induction false} VarBindsAppend(vbs: seq<VarBind>, vb: VarBind)
    ensures Spec.VarBindsBytes(vbs + [vb], false)
         == Spec.VarBindsBytes(vbs, false) + Spec.SequenceTlv(Spec.VarBindContent(vb, false))
  {
    if vbs != [] {
      assert (vbs + [vb])[1..] == vbs[1..] + [vb];
      VarBindsAppend(vbs[1..], vb);
    } else {
      assert Spec.VarBindsBytes([], false) == [];
      assert (vbs + [vb])[1..] == [];
    }
  }

  method EncodeVarBind(vb: VarBind) returns (out: bytes)
    ensures out == Spec.VarBindContent(vb, false)
  {
    hide Spec.OidTlv, Spec.ValueTlv;
    var enc := new BerEncoder();
    enc.WriteOid(vb.oid);
    enc.WriteValue(vb.value);
    return enc.buf;
  }

  method EncodeVarBindNull(oid: Oid) returns (out: bytes)
    ensures out == Spec.VarBindContent(VarBind(oid, Null), false)
  {
    hide Spec.OidTlv, Spec.Tlv;
    var enc := new BerEncoder();
    enc.WriteOid(oid);
    enc.WriteNull();
    return enc.buf;
  }

  method EncodeVarBindList(varbinds: seq<VarBind>) returns (out: bytes)
    ensures out == Spec.VarBindsBytes(varbinds, false)
  {
    hide Spec.VarBindContent, Spec.SequenceTlv;
    var inner := new BerEncoder();
    for i := 0 to |varbinds|
      invariant fresh(inner)
      invariant inner.buf == Spec.VarBindsBytes(varbinds[..i], false)
    {
      var content := EncodeVarBind(varbinds[i]);
      inner.WriteSequence(content);
      assert varbinds[..i + 1] == varbinds[..i] + [varbinds[i]];
      VarBindsAppend(varbinds[..i], varbinds[i]);
    }
    assert varbinds[..|varbinds|] == varbinds;
    return inner.buf;
  }

  /** The varbinds of a request for the values of `oids`. */
  function NullVarBinds(oids: seq<Oid>): (vbs: seq<VarBind>)
    ensures |vbs| == |oids|
    ensures forall i :: 0 <= i < |oids| ==> vbs[i] == VarBind(oids[i], Null)
  {
    seq(|oids|, i requires 0 <= i < |oids| => VarBind(oids[i], Null))
  }

  method EncodeVarBindListNull(oids: seq<Oid>) returns (out: bytes)
    ensures out == Spec.VarBindsBytes(NullVarBinds(oids), false)
  {
    hide Spec.VarBindContent, Spec.SequenceTlv;
    ghost var varbinds := NullVarBinds(oids);
    var inner := new BerEncoder();
    for i := 0 to |oids|
      invariant fresh(inner)
      invariant inner.buf == Spec.VarBindsBytes(varbinds[..i], false)
    {
      var content := EncodeVarBindNull(oids[i]);
      inner.WriteSequence(content);
      assert varbinds[..i + 1] == varbinds[..i] + [VarBind(oids[i], Null)];
      VarBindsAppend(varbinds[..i], VarBind(oids[i], Null));
    }
    assert varbinds[..|oids|] == varbinds;
    return inner.buf;
  }
}
