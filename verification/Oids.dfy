/** OBJECT IDENTIFIER contents octets (section 8.19 of X.690), as the codec writes and reads them. */
module Oids {
  import opened Octets
  import opened Results
  import opened Types

  datatype SubId = SubId(value: u32, rest: bytes)

  // Encoding.

  /** Base-128 digits of `v`, each flagged as followed by another. */
  function Continued(v: nat): bytes {
    if v == 0 then [] else Continued(v / 128) + [128 + v % 128]
  }

  function SubIdBytes(v: nat): (s: bytes)
    ensures s != []
  {
    Continued(v / 128) + [v % 128]
  }

  function SubIdsBytes(subs: Oid): bytes {
    if subs == [] then [] else SubIdBytes(subs[0]) + SubIdsBytes(subs[1..])
  }

  function FirstOctet(o: Oid): byte
    requires |o| >= 2
  {
    ToU32(ToU32(o[0] as int * 40) + o[1] as int) % 256
  }

  function OidBytes(o: Oid): bytes {
    if |o| < 2 then [] else [FirstOctet(o)] + SubIdsBytes(o[2..])
  }

  // Decoding.

  function ReadSubId(s: bytes, acc: u32): (r: Result<SubId>)
    ensures r.Ok? ==> |r.value.rest| < |s|
  {
    if s == [] then Err(TruncatedSubIdentifier)
    else
      var next := ToU32(acc * 128 + s[0] % 128);
      if s[0] < 128 then Ok(SubId(next, s[1..])) else ReadSubId(s[1..], next)
  }

  function ReadSubIds(s: bytes): Result<Oid>
    decreases |s|
  {
    if s == [] then Ok([])
    else
      var sub :- ReadSubId(s, 0);
      var tail :- ReadSubIds(sub.rest);
      Ok([sub.value] + tail)
  }

  function OidOf(s: bytes): Result<Oid> {
    if s == [] then Ok([])
    else
      var subs :- ReadSubIds(s[1..]);
      Ok([s[0] / 40, s[0] % 40] + subs)
  }

  // Decoding what was encoded.

  lemma ReadDigit(a: nat, b: byte, t: bytes)
    requires b >= 128 && a * 128 + (b - 128) < 0x1_0000_0000
    ensures ReadSubId([b] + t, a) == ReadSubId(t, a * 128 + (b - 128))
  {
    assert ([b] + t)[1..] == t;
  }

  lemma {:induction false} ReadContinued(v: u32, t: bytes)
    ensures ReadSubId(Continued(v) + t, 0) == ReadSubId(t, v)
    decreases v
  {
    if v == 0 {
      assert Continued(v) + t == t;
    } else {
      var q, d: byte := v / 128, 128 + v % 128;
      assert Continued(v) + t == Continued(q) + ([d] + t);
      ReadContinued(q, [d] + t);
      ReadDigit(q, d, t);
    }
  }

  /** A sub-identifier is self-delimiting: whatever follows is left alone. */
  lemma SubIdRoundTrip(v: u32, t: bytes)
    ensures ReadSubId(SubIdBytes(v) + t, 0) == Ok(SubId(v, t))
  {
    var t' := [v % 128] + t;
    assert SubIdBytes(v) + t == Continued(v / 128) + t';
    ReadContinued(v / 128, t');
    ReadLastDigit(v, t);
  }

  lemma ReadLastDigit(v: u32, t: bytes)
    ensures ReadSubId([v % 128] + t, v / 128) == Ok(SubId(v, t))
  {
    assert ([v % 128] + t)[1..] == t;
  }

  lemma {:induction false} SubIdsRoundTrip(subs: Oid)
    ensures ReadSubIds(SubIdsBytes(subs)) == Ok(subs)
  {
    if subs != [] {
      SubIdRoundTrip(subs[0], SubIdsBytes(subs[1..]));
      SubIdsRoundTrip(subs[1..]);
      assert subs == [subs[0]] + subs[1..];
    }
  }

  /** The identifier a peer sees after one trip over the wire. */
  function OnWire(o: Oid): Oid {
    if |o| < 2 then [] else [FirstOctet(o) / 40, FirstOctet(o) % 40] + o[2..]
  }

  /** Identifiers whose first two components fit the single leading octet. */
  predicate Encodable(o: Oid) {
    o == [] || (|o| >= 2 && o[1] < 40 && o[0] as int * 40 + o[1] as int <= 255)
  }

  lemma OidOnWire(o: Oid)
    ensures OidOf(OidBytes(o)) == Ok(OnWire(o))
  {
    if |o| >= 2 {
      SubIdsRoundTrip(o[2..]);
      assert OidBytes(o)[1..] == SubIdsBytes(o[2..]);
    }
  }

  /** Splitting by 40 undoes the first octet exactly when the pair fits it. */
  lemma FirstPair(a: u32, b: u32)
    ensures var f := ToU32(ToU32(a as int * 40) + b as int) % 256;
            f / 40 == a && f % 40 == b <==> b < 40 && a as int * 40 + b as int <= 255
  {
  }

  /** The round trip holds exactly on encodable identifiers. */
  lemma OidRoundTrip(o: Oid)
    ensures OidOf(OidBytes(o)) == Ok(o) <==> Encodable(o)
  {
    hide OidBytes, OidOf;
    OidOnWire(o);
    if |o| >= 2 {
      FirstPair(o[0], o[1]);
      var w := OnWire(o);
      assert w[2..] == o[2..];
      if w[..2] == o[..2] {
        assert w == w[..2] + w[2..] == o[..2] + o[2..] == o;
      }
      assert w[0] == w[..2][0] && w[1] == w[..2][1] && o[0] == o[..2][0] && o[1] == o[..2][1];
    }
  }

  // Encoding what was decoded: canonical strings.

  /** One sub-identifier read in unbounded arithmetic. */
  function ReadNat(s: bytes, acc: nat): (r: Option<(nat, bytes)>)
    ensures r.Some? ==> |r.value.1| < |s|
  {
    if s == [] then None
    else
      var next := acc * 128 + s[0] % 128;
      if s[0] < 128 then Some((next, s[1..])) else ReadNat(s[1..], next)
  }

  /** No sub-identifier starts with 0x80, exceeds 32 bits or is cut off. */
  predicate CanonicalSubIds(s: bytes)
    decreases |s|
  {
    s == [] ||
    (s[0] != 0x80 &&
     var r := ReadNat(s, 0);
     r.Some? && r.value.0 < 0x1_0000_0000 && CanonicalSubIds(r.value.1))
  }

  predicate Canonical(s: bytes) {
    s == [] || CanonicalSubIds(s[1..])
  }

  lemma {:induction false} ReadSubIdWraps(s: bytes, acc: nat)
    ensures var r := ReadNat(s, acc);
            ReadSubId(s, ToU32(acc)) == if r.None? then Err(TruncatedSubIdentifier)
                                        else Ok(SubId(ToU32(r.value.0), r.value.1))
  {
    if s != [] {
      ModShift(acc, s[0] % 128, 128, 0x1_0000_0000);
      ReadSubIdWraps(s[1..], acc * 128 + s[0] % 128);
    }
  }

  /** What unbounded reading consumed is the encoding of what it returned. */
  lemma {:induction false} ReadNatConsumes(s: bytes, acc: nat)
    requires acc > 0 || (s != [] && s[0] != 0x80)
    requires ReadNat(s, acc).Some?
    ensures var (v, rest) := ReadNat(s, acc).value;
            Continued(acc) + s == SubIdBytes(v) + rest
  {
    var next := acc * 128 + s[0] % 128;
    assert next / 128 == acc && next % 128 == s[0] % 128;
    if s[0] < 128 {
      assert s == [s[0]] + s[1..];
    } else {
      ReadNatConsumes(s[1..], next);
      assert Continued(next) == Continued(acc) + [s[0]];
      assert Continued(acc) + s == Continued(next) + s[1..];
    }
  }

  lemma ReadNatDigit(a: nat, b: byte, t: bytes)
    ensures ReadNat([b] + t, a) == if b < 128 then Some((a * 128 + b, t)) else ReadNat(t, a * 128 + (b - 128))
  {
    assert ([b] + t)[1..] == t;
  }

  lemma {:induction false} ReadNatContinued(v: nat, t: bytes)
    ensures ReadNat(Continued(v) + t, 0) == ReadNat(t, v)
    decreases v
  {
    if v == 0 {
      assert Continued(v) + t == t;
    } else {
      var q, d: byte := v / 128, 128 + v % 128;
      assert Continued(v) + t == Continued(q) + ([d] + t);
      ReadNatContinued(q, [d] + t);
      ReadNatDigit(q, d, t);
    }
  }

  lemma {:induction false} ContinuedStart(v: nat)
    ensures v > 0 ==> Continued(v) != [] && Continued(v)[0] > 0x80
  {
    if v > 0 {
      ContinuedStart(v / 128);
    }
  }

  lemma {:induction false} EncodedIsCanonical(subs: Oid)
    ensures CanonicalSubIds(SubIdsBytes(subs))
  {
    if subs != [] {
      var v, t := subs[0], SubIdsBytes(subs[1..]);
      EncodedIsCanonical(subs[1..]);
      var t' := [v % 128] + t;
      assert SubIdsBytes(subs) == Continued(v / 128) + t';
      ReadNatContinued(v / 128, t');
      ReadNatDigit(v / 128, v % 128, t);
      ContinuedStart(v / 128);
    }
  }

  lemma {:induction false} CanonicalDecodes(s: bytes)
    requires CanonicalSubIds(s)
    ensures ReadSubIds(s).Ok? && SubIdsBytes(ReadSubIds(s).value) == s
    decreases |s|
  {
    if s != [] {
      var (v, rest) := ReadNat(s, 0).value;
      ReadSubIdWraps(s, 0);
      assert ReadSubId(s, 0) == Ok(SubId(v, rest));
      ReadNatConsumes(s, 0);
      assert s == SubIdBytes(v) + rest by { assert Continued(0) + s == s; }
      CanonicalDecodes(rest);
      var tail := ReadSubIds(rest).value;
      assert ([v] + tail)[1..] == tail;
    }
  }

  lemma SplitFirst(first: byte, subs: Oid)
    ensures OidBytes([first / 40, first % 40] + subs) == [first] + SubIdsBytes(subs)
  {
    var o := [first / 40, first % 40] + subs;
    assert o[2..] == subs;
    assert FirstOctet(o) == first;
  }

  /** Re-encoding restores the octets exactly when they were canonical. */
  lemma OidCanonical(s: bytes)
    ensures OidOf(s).Ok? && OidBytes(OidOf(s).value) == s <==> Canonical(s)
  {
    if s != [] {
      if Canonical(s) {
        CanonicalDecodes(s[1..]);
      }
      if ReadSubIds(s[1..]).Ok? {
        var subs := ReadSubIds(s[1..]).value;
        SplitFirst(s[0], subs);
        EncodedIsCanonical(subs);
        assert s == [s[0]] + s[1..];
        assert ([s[0]] + SubIdsBytes(subs))[1..] == SubIdsBytes(subs);
      }
    }
  }

  lemma {:induction false} ContinuedGrows(v: nat, n: nat)
    requires v <= n
    ensures |Continued(v)| <= |Continued(n)|
  {
    if v > 0 {
      ContinuedGrows(v / 128, n / 128);
    }
  }

  /** Minimality: no octets that read as `v` are fewer than those written for `v`. */
  lemma {:induction false} SubIdMinimal(s: bytes, v: u32)
    requires ReadSubId(s, 0) == Ok(SubId(v, []))
    ensures |SubIdBytes(v)| <= |s|
  {
    if s[0] == 0x80 {
      SubIdMinimal(s[1..], v);
    } else {
      ReadSubIdWraps(s, 0);
      ReadNatConsumes(s, 0);
      var n := ReadNat(s, 0).value.0;
      assert v <= n;
      ContinuedGrows(v / 128, n / 128);
    }
  }

  // The loops of the codec.

  function Reversed(s: bytes): (r: bytes)
    ensures |r| == |s|
    ensures forall i :: 0 <= i < |s| ==> r[i] == s[|s| - 1 - i]
  {
    seq(|s|, i requires 0 <= i < |s| => s[|s| - 1 - i])
  }

  /** The same digits as `Continued`, without the flag. */
  function Digits(v: nat): bytes {
    if v == 0 then [] else Digits(v / 128) + [v % 128]
  }

  lemma {:induction false} DigitsFlagged(v: nat)
    ensures |Digits(v)| == |Continued(v)|
    ensures forall i :: 0 <= i < |Digits(v)| ==> Digits(v)[i] < 128 && Continued(v)[i] == Digits(v)[i] + 128
  {
    if v > 0 {
      DigitsFlagged(v / 128);
    }
  }

  method SubIdDigits(sub: u32) returns (tmp: bytes)
    ensures tmp == Digits(sub)
  {
    var val := sub;
    tmp := [];
    while val > 0
      invariant Digits(sub) == Digits(val) + Reversed(tmp)
    {
      assert Reversed(tmp + [val % 128]) == [val % 128] + Reversed(tmp);
      tmp := tmp + [val % 128];
      val := val / 128;
    }
    tmp := Reversed(tmp);
  }

  method EncodeSubId(prefix: bytes, sub: u32) returns (out: bytes)
    ensures out == prefix + SubIdBytes(sub)
  {
    out := prefix;
    if sub == 0 {
      assert Continued(0) == [];
      out := out + [0];
      return;
    }
    var tmp := SubIdDigits(sub);
    ghost var front := Continued(sub / 128);
    DigitsFlagged(sub / 128);
    for i := 0 to |tmp|
      invariant out == prefix + (front + [sub % 128])[..i]
    {
      if i < |tmp| - 1 {
        assert tmp[i] == Digits(sub / 128)[i];
        out := out + [tmp[i] + 0x80];
      } else {
        out := out + [tmp[i]];
      }
    }
  }

  lemma SubIdsAppend(subs: Oid, i: nat)
    requires i < |subs|
    ensures SubIdsBytes(subs[..i + 1]) == SubIdsBytes(subs[..i]) + SubIdBytes(subs[i])
    decreases i
  {
    if i > 0 {
      assert subs[..i + 1][1..] == subs[1..][..i] && subs[..i][1..] == subs[1..][..i - 1];
      SubIdsAppend(subs[1..], i - 1);
    } else {
      assert subs[..1][1..] == [];
      assert SubIdsBytes([]) == [];
    }
  }

  method EncodeOid(oid: Oid) returns (out: bytes)
    ensures out == OidBytes(oid)
  {
    if |oid| < 2 {
      return [];
    }
    out := [ToU32(ToU32(oid[0] as int * 40) + oid[1] as int) % 256];
    var subs := oid[2..];
    for i := 0 to |subs|
      invariant out == [FirstOctet(oid)] + SubIdsBytes(subs[..i])
    {
      SubIdsAppend(subs, i);
      out := EncodeSubId(out, subs[i]);
    }
    assert subs[..|subs|] == subs;
  }

  /** The components already read, followed by what the remaining octets read as. */
  function Prepend(done: Oid, more: Result<Oid>): Result<Oid> {
    if more.Err? then more else Ok(done + more.value)
  }

  method DecodeOid(data: bytes) returns (r: Result<Oid>)
    ensures r == OidOf(data)
  {
    if data == [] {
      return Ok([]);
    }
    var first := data[0];
    var components: Oid := [first / 40, first % 40];
    var i := 1;
    while i < |data|
      invariant 1 <= i <= |data|
      invariant OidOf(data) == Prepend(components, ReadSubIds(data[i..]))
    {
      var sub: u32 := 0;
      ghost var start := i;
      var more := true;
      while more
        invariant start <= i <= |data|
        invariant more ==> ReadSubId(data[start..], 0) == ReadSubId(data[i..], sub)
        invariant !more ==> ReadSubId(data[start..], 0) == Ok(SubId(sub, data[i..])) && start < i
        decreases more, |data| - i
      {
        if i >= |data| {
          return Err(TruncatedSubIdentifier);
        }
        var b := data[i];
        assert data[i..][1..] == data[i + 1..];
        i := i + 1;
        sub := ToU32(sub * 128 + b % 128);
        if b < 0x80 {
          more := false;
        }
      }
      assert forall tail: Oid :: components + ([sub] + tail) == components + [sub] + tail;
      components := components + [sub];
    }
    assert data[i..] == [] && components + [] == components;
    return Ok(components);
  }
}
