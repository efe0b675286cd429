/**
 What the BER codec writes and reads, as functions on octet strings.
 A reader takes the octets not yet consumed and returns a value with the octets left over.
 */
module BerSpec {
  import opened Octets
  import opened Results
  import opened Types
  import opened Integers
  import opened Oids

  const TAG_INTEGER: byte := 0x02
  const TAG_OCTET_STRING: byte := 0x04
  const TAG_NULL: byte := 0x05
  const TAG_OID: byte := 0x06
  const TAG_SEQUENCE: byte := 0x30
  const TAG_IPADDRESS: byte := 0x40
  const TAG_COUNTER32: byte := 0x41
  const TAG_GAUGE32: byte := 0x42
  const TAG_TIMETICKS: byte := 0x43
  const TAG_OPAQUE: byte := 0x44
  const TAG_COUNTER64: byte := 0x46
  const TAG_NO_SUCH_OBJECT: byte := 0x80
  const TAG_NO_SUCH_INSTANCE: byte := 0x81
  const TAG_END_OF_MIB_VIEW: byte := 0x82

  /** Lengths are written with at most three octets. */
  const LENGTH_LIMIT: nat := 0x100_0000

  datatype Read<+T> = Read(value: T, rest: bytes)

  datatype Element = Element(tag: byte, content: bytes, rest: bytes)

  // ---- Writers ----

  function LenBytes(n: nat): (s: bytes)
    ensures 1 <= |s| <= 4
  {
    if n < 0x80 then [n]
    else if n <= 0xFF then [0x81, n]
    else if n <= 0xFFFF then [0x82, n / 0x100, n % 0x100]
    else [0x83, n / 0x1_0000 % 0x100, n / 0x100 % 0x100, n % 0x100]
  }

  function Tlv(tag: byte, content: bytes): (s: bytes)
    ensures |content| + 2 <= |s| <= |content| + 5
  {
    [tag] + LenBytes(|content|) + content
  }

  function IntegerTlv(v: int): bytes {
    Tlv(TAG_INTEGER, IntBytes(v))
  }

  function OctetsTlv(s: bytes): bytes {
    Tlv(TAG_OCTET_STRING, s)
  }

  function OidTlv(o: Oid): bytes {
    Tlv(TAG_OID, OidBytes(o))
  }

  function SequenceTlv(s: bytes): bytes {
    Tlv(TAG_SEQUENCE, s)
  }

  // `tagged` tells the two encoders of exception values apart: an agent's reply carries
  // the markers of section 3 of RFC 3416, this codec writes NULL for them.

  function ValueTag(v: Value, tagged: bool): byte {
    match v
    case Integer(_) => TAG_INTEGER
    case OctetString(_) => TAG_OCTET_STRING
    case Null => TAG_NULL
    case ObjectIdentifier(_) => TAG_OID
    case IpAddress(_) => TAG_IPADDRESS
    case Counter32(_) => TAG_COUNTER32
    case Gauge32(_) => TAG_GAUGE32
    case TimeTicks(_) => TAG_TIMETICKS
    case Opaque(_) => TAG_OPAQUE
    case Counter64(_) => TAG_COUNTER64
    case NoSuchObject => if tagged then TAG_NO_SUCH_OBJECT else TAG_NULL
    case NoSuchInstance => if tagged then TAG_NO_SUCH_INSTANCE else TAG_NULL
    case EndOfMibView => if tagged then TAG_END_OF_MIB_VIEW else TAG_NULL
  }

  function ValueContent(v: Value): bytes {
    match v
    case Integer(i) => IntBytes(i)
    case OctetString(s) => s
    case ObjectIdentifier(o) => OidBytes(o)
    case IpAddress(a) => a
    case Counter32(n) => IntBytes(n)
    case Gauge32(n) => IntBytes(n)
    case TimeTicks(n) => IntBytes(n)
    case Opaque(s) => s
    case Counter64(n) => IntBytes(n)
    case _ => []
  }

  function ValueTlv(v: Value, tagged: bool): bytes {
    Tlv(ValueTag(v, tagged), ValueContent(v))
  }

  function VarBindContent(vb: VarBind, tagged: bool): bytes {
    OidTlv(vb.oid) + ValueTlv(vb.value, tagged)
  }

  function VarBindsBytes(vbs: seq<VarBind>, tagged: bool): bytes {
    if vbs == [] then [] else SequenceTlv(VarBindContent(vbs[0], tagged)) + VarBindsBytes(vbs[1..], tagged)
  }

  // ---- Readers ----

  function ReadTag(s: bytes): Result<Read<byte>> {
    if s == [] then Err(UnexpectedEnd) else Ok(Read(s[0], s[1..]))
  }

  function ReadLength(s: bytes): Result<Read<nat>> {
    if s == [] then Err(UnexpectedEnd)
    else if s[0] < 0x80 then Ok(Read(s[0], s[1..]))
    else
      var k := s[0] % 0x80;
      if 1 + k > |s| then Err(LengthOverflow)
      else Ok(Read(ToU64(Unsigned(s[1..1 + k])), s[1 + k..]))
  }

  function ReadRaw(s: bytes, n: nat): Result<Read<bytes>> {
    if n > |s| then Err(DataTooShort) else Ok(Read(s[..n], s[n..]))
  }

  function ReadTlv(s: bytes): (r: Result<Element>)
    ensures r.Ok? ==> |r.value.content| + |r.value.rest| + 2 <= |s|
  {
    var tag :- ReadTag(s);
    var len :- ReadLength(tag.rest);
    var raw :- ReadRaw(len.rest, len.value);
    Ok(Element(tag.value, raw.value, raw.rest))
  }

  /** A constructed element whose tag is checked before its length is read. */
  function ReadInside(s: bytes, expected: byte): (r: Result<Read<bytes>>)
    ensures r.Ok? ==> |r.value.value| + |r.value.rest| + 2 <= |s|
  {
    var tag :- ReadTag(s);
    :- Need(tag.value == expected, WrongTag(expected, tag.value));
    var len :- ReadLength(tag.rest);
    ReadRaw(len.rest, len.value)
  }

  function ReadSequence(s: bytes): Result<Read<bytes>> {
    ReadInside(s, TAG_SEQUENCE)
  }

  function ReadInteger(s: bytes): Result<Read<i64>> {
    var e :- ReadTlv(s);
    :- Need(e.tag == TAG_INTEGER, WrongTag(TAG_INTEGER, e.tag));
    Ok(Read(IntegerOf(e.content), e.rest))
  }

  function ReadOctets(s: bytes): Result<Read<bytes>> {
    var e :- ReadTlv(s);
    :- Need(e.tag == TAG_OCTET_STRING, WrongTag(TAG_OCTET_STRING, e.tag));
    Ok(Read(e.content, e.rest))
  }

  function ReadOid(s: bytes): Result<Read<Oid>> {
    var e :- ReadTlv(s);
    :- Need(e.tag == TAG_OID, WrongTag(TAG_OID, e.tag));
    var oid :- OidOf(e.content);
    Ok(Read(oid, e.rest))
  }

  function ValueOf(tag: byte, content: bytes): Result<Value> {
    if tag == TAG_INTEGER then Ok(Integer(IntegerOf(content)))
    else if tag == TAG_NULL then Ok(Null)
    else if tag == TAG_OID then
      var oid :- OidOf(content);
      Ok(ObjectIdentifier(oid))
    else if tag == TAG_IPADDRESS && |content| == 4 then Ok(IpAddress(content))
    else if tag == TAG_COUNTER32 then Ok(Counter32(U32Of(content)))
    else if tag == TAG_GAUGE32 then Ok(Gauge32(U32Of(content)))
    else if tag == TAG_TIMETICKS then Ok(TimeTicks(U32Of(content)))
    else if tag == TAG_OPAQUE then Ok(Opaque(content))
    else if tag == TAG_COUNTER64 then Ok(Counter64(U64Of(content)))
    else if tag == TAG_NO_SUCH_OBJECT then Ok(NoSuchObject)
    else if tag == TAG_NO_SUCH_INSTANCE then Ok(NoSuchInstance)
    else if tag == TAG_END_OF_MIB_VIEW then Ok(EndOfMibView)
    else Ok(OctetString(content))
  }

  function ReadValue(s: bytes): Result<Read<Value>> {
    var e :- ReadTlv(s);
    var value :- ValueOf(e.tag, e.content);
    Ok(Read(value, e.rest))
  }

  /** One varbind; octets after the value inside its SEQUENCE are ignored. */
  function VarBindOf(s: bytes): Result<VarBind> {
    var oid :- ReadOid(s);
    var value :- ReadValue(oid.rest);
    Ok(VarBind(oid.value, value.value))
  }

  function ReadVarBinds(s: bytes): Result<seq<VarBind>>
    decreases |s|
  {
    if s == [] then Ok([])
    else
      var item :- ReadSequence(s);
      var vb :- VarBindOf(item.value);
      var more :- ReadVarBinds(item.rest);
      Ok([vb] + more)
  }
}

/** Facts about the element layer: what reading makes of writing, of suffixes and of cuts. */
module BerFacts {
  import opened Octets
  import opened Results
  import opened Types
  import opened Integers
  import opened Oids
  import opened BerSpec

  lemma UnsignedOfThree(s: bytes)
    ensures |s| == 1 ==> Unsigned(s) == s[0]
    ensures |s| == 2 ==> Unsigned(s) == s[0] as int * 0x100 + s[1]
    ensures |s| == 3 ==> Unsigned(s) == s[0] as int * 0x1_0000 + s[1] as int * 0x100 + s[2]
  {
    if |s| == 1 {
      assert s[..0] == [];
    } else if |s| == 2 {
      UnsignedOfThree(s[..1]);
    } else if |s| == 3 {
      UnsignedOfThree(s[..2]);
    }
  }

  lemma ThreeOctets(n: nat)
    ensures n % LENGTH_LIMIT == n / 0x1_0000 % 0x100 * 0x1_0000 + n / 0x100 % 0x100 * 0x100 + n % 0x100
  {
    var q0, q1 := n / 0x100, n / 0x100 / 0x100;
    var low := q0 % 0x100 * 0x100 + n % 0x100;
    ModUnique(q1, low, n, 0x1_0000);
    ModUnique(q1 / 0x100, q1 % 0x100 * 0x1_0000 + low, n, LENGTH_LIMIT);
  }

  lemma LengthOctets(n: nat)
    ensures n >= 0x80 ==> Unsigned(LenBytes(n)[1..]) == n % LENGTH_LIMIT
  {
    UnsignedOfThree(LenBytes(n)[1..]);
    ThreeOctets(n);
  }

  /** The decoder sees the low 24 bits of every length. */
  lemma LengthOnWire(n: nat, x: bytes)
    ensures ReadLength(LenBytes(n) + x) == Ok(Read(n % LENGTH_LIMIT, x))
  {
    hide Unsigned;
    var l := LenBytes(n);
    var s := l + x;
    if n < 0x80 {
      assert s[1..] == x;
    } else {
      var k := |l| - 1;
      assert s[0] == 0x80 + k;
      assert s[1..1 + k] == l[1..];
      assert s[1 + k..] == x;
      LengthOctets(n);
    }
  }

  /** The three steps of reading an element. */
  lemma ReadTlvSteps(tag: byte, s: bytes, n: nat, rest: bytes)
    requires ReadLength(s) == Ok(Read(n, rest)) && n <= |rest|
    ensures ReadTlv([tag] + s) == Ok(Element(tag, rest[..n], rest[n..]))
  {
    assert ([tag] + s)[1..] == s;
  }

  /** Elements read back with the part of their contents that the length octets admit to. */
  lemma TlvOnWire(tag: byte, content: bytes, x: bytes)
    ensures var n := |content| % LENGTH_LIMIT;
            ReadTlv(Tlv(tag, content) + x) == Ok(Element(tag, content[..n], content[n..] + x))
  {
    hide ReadTlv, ReadLength, LenBytes;
    var n := |content| % LENGTH_LIMIT;
    LengthOnWire(|content|, content + x);
    ReadTlvSteps(tag, LenBytes(|content|) + (content + x), n, content + x);
    assert Tlv(tag, content) + x == [tag] + (LenBytes(|content|) + (content + x));
    assert (content + x)[..n] == content[..n];
    assert (content + x)[n..] == content[n..] + x;
  }

  lemma TlvRead(tag: byte, content: bytes, x: bytes)
    requires |content| < LENGTH_LIMIT
    ensures ReadTlv(Tlv(tag, content) + x) == Ok(Element(tag, content, x))
  {
    hide ReadTlv, Tlv;
    TlvOnWire(tag, content, x);
    assert content[..|content|] == content && content[|content|..] + x == x;
  }

  /** The element round trip holds exactly below the length limit. */
  lemma TlvRoundTrip(tag: byte, content: bytes, x: bytes)
    ensures ReadTlv(Tlv(tag, content) + x) == Ok(Element(tag, content, x)) <==> |content| < LENGTH_LIMIT
  {
    TlvOnWire(tag, content, x);
    if |content| < LENGTH_LIMIT {
      TlvRead(tag, content, x);
    } else {
      assert |content[..|content| % LENGTH_LIMIT]| < |content|;
    }
  }

  /** Unique decodability: two elements followed by anything agree only if all parts agree. */
  lemma TlvUnique(t: byte, a: bytes, x: bytes, u: byte, b: bytes, y: bytes)
    requires |a| < LENGTH_LIMIT && |b| < LENGTH_LIMIT
    ensures Tlv(t, a) + x == Tlv(u, b) + y <==> t == u && a == b && x == y
  {
    TlvRead(t, a, x);
    TlvRead(u, b, y);
  }

  // ---- Suffix stability and truncation ----

  /** Reading an element never looks past its end. */
  lemma TlvStable(s: bytes, x: bytes)
    requires ReadTlv(s).Ok?
    ensures var e := ReadTlv(s).value; ReadTlv(s + x) == Ok(e.(rest := e.rest + x))
  {
    hide ReadLength;
    var l := ReadLength(s[1..]).value;
    assert (s + x)[1..] == s[1..] + x;
    LengthStable(s[1..], x);
    assert (l.rest + x)[..l.value] == l.rest[..l.value];
    assert (l.rest + x)[l.value..] == l.rest[l.value..] + x;
  }

  lemma LengthStable(s: bytes, x: bytes)
    requires ReadLength(s).Ok?
    ensures var l := ReadLength(s).value; ReadLength(s + x) == Ok(l.(rest := l.rest + x))
  {
    if s[0] < 0x80 {
      assert (s + x)[1..] == s[1..] + x;
    } else {
      var k := s[0] % 0x80;
      SplitConcat(s, x, 1 + k);
      assert (s + x)[1..1 + k] == s[1..1 + k];
    }
  }

  lemma SplitConcat(s: bytes, x: bytes, n: nat)
    requires n <= |s|
    ensures (s + x)[..n] == s[..n] && (s + x)[n..] == s[n..] + x
  {
  }

  /** An element that fills its string is unreadable from any strict prefix of it. */
  lemma TlvTruncated(s: bytes, cut: nat)
    requires ReadTlv(s).Ok? && ReadTlv(s).value.rest == []
    requires cut < |s|
    ensures ReadTlv(s[..cut]).Err?
  {
    assert s == s[..cut] + s[cut..];
    if ReadTlv(s[..cut]).Ok? {
      TlvStable(s[..cut], s[cut..]);
    }
  }

  // ---- Only the encoding reads back ----

  /** Length octets that begin like those of `n` and are as many give `n` only if they are those of `n`. */
  lemma LengthOnly(l: bytes, n: nat, y: bytes)
    requires n < LENGTH_LIMIT && |l| == |LenBytes(n)| && l[0] == LenBytes(n)[0]
    ensures ReadLength(l + y).Ok? && ReadLength(l + y).value.rest == y
    ensures ReadLength(l + y).value.value == n ==> l == LenBytes(n)
  {
    hide Unsigned;
    var s, e := l + y, LenBytes(n);
    if n < 0x80 {
      assert s[1..] == y;
      assert l == e;
    } else {
      var k := |l| - 1;
      assert s[0] == 0x80 + k;
      assert s[1..1 + k] == l[1..] && s[1 + k..] == y;
      LengthOctets(n);
      ThreeFit(l[1..]);
      if Unsigned(l[1..]) == n {
        UnsignedInjective(l[1..], e[1..]);
        assert l == [l[0]] + l[1..] && e == [e[0]] + e[1..];
      }
    }
  }

  lemma ThreeFit(s: bytes)
    requires |s| <= 3
    ensures Unsigned(s) < LENGTH_LIMIT
  {
    UnsignedOfThree(s);
  }

  /** Octets as many as an OCTET STRING's that begin like it and read as its contents are that OCTET STRING. */
  lemma OctetsOnly(s: bytes, x: bytes, y: bytes)
    requires |x| < LENGTH_LIMIT && |s| == |OctetsTlv(x)|
    requires s[0] == TAG_OCTET_STRING && s[1] == OctetsTlv(x)[1]
    requires ReadOctets(s + y).Ok? && ReadOctets(s + y).value.value == x
    ensures s == OctetsTlv(x)
  {
    hide LenBytes, ReadLength;
    var k := 1 + |LenBytes(|x|)|;
    var l, c := s[1..k], s[k..];
    assert s == [s[0]] + (l + c);
    assert (s + y)[1..] == l + (c + y);
    LengthOnly(l, |x|, c + y);
    assert (c + y)[..|x|] == c;
  }

  /** `ReadInside` is `ReadTlv` with the tag checked. */
  lemma InsideIsTlv(s: bytes, tag: byte)
    ensures ReadInside(s, tag).Ok? <==> ReadTlv(s).Ok? && ReadTlv(s).value.tag == tag
    ensures ReadInside(s, tag).Ok? ==>
              var e := ReadTlv(s).value; ReadInside(s, tag) == Ok(Read(e.content, e.rest))
  {
  }

  // ---- Reading what was written, kind by kind ----

  lemma SequenceRead(content: bytes, x: bytes)
    requires |content| < LENGTH_LIMIT
    ensures ReadSequence(SequenceTlv(content) + x) == Ok(Read(content, x))
  {
    TlvRead(TAG_SEQUENCE, content, x);
    InsideIsTlv(SequenceTlv(content) + x, TAG_SEQUENCE);
  }

  lemma IntegerRead(v: i64, x: bytes)
    ensures ReadInteger(IntegerTlv(v) + x) == Ok(Read(v, x))
  {
    IntegerLength(v);
    TlvRead(TAG_INTEGER, IntBytes(v), x);
    IntegerRoundTrip(v);
  }

  lemma OctetsRead(s: bytes, x: bytes)
    requires |s| < LENGTH_LIMIT
    ensures ReadOctets(OctetsTlv(s) + x) == Ok(Read(s, x))
  {
    TlvRead(TAG_OCTET_STRING, s, x);
  }

  lemma OidRead(o: Oid, x: bytes)
    requires |OidBytes(o)| < LENGTH_LIMIT
    ensures ReadOid(OidTlv(o) + x) == Ok(Read(OnWire(o), x))
  {
    TlvRead(TAG_OID, OidBytes(o), x);
    OidOnWire(o);
  }

  /** The value a peer sees after one trip over the wire. */
  function ValueOnWire(v: Value, tagged: bool): Value {
    if v.ObjectIdentifier? then ObjectIdentifier(OnWire(v.oid))
    else if v.IsException() && !tagged then Null
    else v
  }

  function VarBindOnWire(vb: VarBind, tagged: bool): VarBind {
    VarBind(OnWire(vb.oid), ValueOnWire(vb.value, tagged))
  }

  function VarBindsOnWire(vbs: seq<VarBind>, tagged: bool): seq<VarBind> {
    if vbs == [] then [] else [VarBindOnWire(vbs[0], tagged)] + VarBindsOnWire(vbs[1..], tagged)
  }

  /** A varbind that survives the trip: encodable identifiers, no marker lost to NULL. */
  predicate Faithful(vb: VarBind, tagged: bool) {
    && Encodable(vb.oid)
    && (vb.value.ObjectIdentifier? ==> Encodable(vb.value.oid))
    && (vb.value.IsException() ==> tagged)
  }

  lemma ValueOfContent(v: Value, tagged: bool)
    ensures ValueOf(ValueTag(v, tagged), ValueContent(v)) == Ok(ValueOnWire(v, tagged))
  {
    hide IntBytes, Oids.OidBytes, IntegerOf, U32Of, U64Of, Oids.OidOf;
    match v
    case Integer(i) => IntegerRoundTrip(i);
    case ObjectIdentifier(o) => OidOnWire(o);
    case Counter32(n) => UnsignedRoundTrip(n);
    case Gauge32(n) => UnsignedRoundTrip(n);
    case TimeTicks(n) => UnsignedRoundTrip(n);
    case Counter64(n) => UnsignedRoundTrip(n);
    case _ =>
  }

  lemma ValueRead(v: Value, tagged: bool, x: bytes)
    requires |ValueContent(v)| < LENGTH_LIMIT
    ensures ReadValue(ValueTlv(v, tagged) + x) == Ok(Read(ValueOnWire(v, tagged), x))
  {
    TlvRead(ValueTag(v, tagged), ValueContent(v), x);
    ValueOfContent(v, tagged);
  }

  // The list functions, one step at a time.

  lemma ReadVarBindsStep(s: bytes)
    ensures ReadVarBinds(s)
         == if s == [] then Ok([])
            else (var item :- ReadSequence(s);
                  var vb :- VarBindOf(item.value);
                  var more :- ReadVarBinds(item.rest);
                  Ok([vb] + more))
  {
    hide ReadSequence, VarBindOf;
  }

  lemma VarBindsStep(vbs: seq<VarBind>, tagged: bool)
    requires vbs != []
    ensures VarBindsBytes(vbs, tagged) == SequenceTlv(VarBindContent(vbs[0], tagged)) + VarBindsBytes(vbs[1..], tagged)
    ensures VarBindsOnWire(vbs, tagged) == [VarBindOnWire(vbs[0], tagged)] + VarBindsOnWire(vbs[1..], tagged)
  {
    hide SequenceTlv, VarBindContent, VarBindOnWire;
  }

  lemma {:induction false} VarBindsRead(vbs: seq<VarBind>, tagged: bool)
    requires |VarBindsBytes(vbs, tagged)| < LENGTH_LIMIT
    ensures ReadVarBinds(VarBindsBytes(vbs, tagged)) == Ok(VarBindsOnWire(vbs, tagged))
  {
    if vbs != [] {
      var vb, more := vbs[0], VarBindsBytes(vbs[1..], tagged);
      var content := VarBindContent(vb, tagged);
      SequenceRead(content, more);
      OidRead(vb.oid, ValueTlv(vb.value, tagged));
      ValueRead(vb.value, tagged, []);
      assert ValueTlv(vb.value, tagged) + [] == ValueTlv(vb.value, tagged);
      assert VarBindOf(content) == Ok(VarBindOnWire(vb, tagged));
      VarBindsRead(vbs[1..], tagged);
    }
  }

  lemma FaithfulVarBind(vb: VarBind, tagged: bool)
    ensures VarBindOnWire(vb, tagged) == vb <==> Faithful(vb, tagged)
  {
    OidOnWire(vb.oid);
    OidRoundTrip(vb.oid);
    if vb.value.ObjectIdentifier? {
      OidOnWire(vb.value.oid);
      OidRoundTrip(vb.value.oid);
    }
  }

  /** The list comes back unchanged exactly when every varbind in it is faithful. */
  lemma {:induction false} FaithfulOnWire(vbs: seq<VarBind>, tagged: bool)
    ensures VarBindsOnWire(vbs, tagged) == vbs <==> forall vb :: vb in vbs ==> Faithful(vb, tagged)
  {
    if vbs != [] {
      var vb, more := vbs[0], vbs[1..];
      FaithfulVarBind(vb, tagged);
      FaithfulOnWire(more, tagged);
      assert vbs == [vb] + more;
      assert forall v :: v in vbs <==> v == vb || v in more;
      var w := VarBindsOnWire(vbs, tagged);
      assert w[0] == VarBindOnWire(vb, tagged) && w[1..] == VarBindsOnWire(more, tagged);
      if w[0] == vb && w[1..] == more {
        assert w == [w[0]] + w[1..];
      }
    }
  }
}
