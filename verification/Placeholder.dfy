/**
 Authenticating an outgoing SNMPv3 message: the packet is built with a run of zeros where the MAC goes,
 the first such run is looked up, and the MAC is copied over it.
 */
module Placeholder {
  import opened Octets
  import opened Results
  import opened Integers
  import opened BerSpec
  import opened BerFacts
  import opened V3Messages

  function Zeros(n: nat): (s: bytes)
    ensures |s| == n && forall i :: 0 <= i < n ==> s[i] == 0
  {
    seq(n, _ => 0)
  }

  /** The window of `n` octets at `p` lies inside `s` and is all zeros. */
  predicate ZeroAt(s: bytes, p: nat, n: nat) {
    p + n <= |s| && forall k :: p <= k < p + n ==> s[k] == 0
  }

  ghost predicate HasRun(s: bytes, n: nat) {
    exists p: nat :: ZeroAt(s, p, n)
  }

  function FindFrom(s: bytes, p: nat, n: nat): (r: Option<nat>)
    requires n > 0
    ensures r.Some? ==> r.value >= p && ZeroAt(s, r.value, n)
    ensures forall q :: p <= q && (r.Some? ==> q < r.value) ==> !ZeroAt(s, q, n)
    decreases |s| - p
  {
    if p + n > |s| then None
    else if ZeroAt(s, p, n) then Some(p)
    else FindFrom(s, p + 1, n)
  }

  /** The first all-zero window, if there is one; never any for an empty placeholder. */
  function FindAuthPlaceholder(packet: bytes, n: nat): (r: Option<nat>)
    ensures r.Some? ==> n > 0 && ZeroAt(packet, r.value, n) && forall q :: 0 <= q < r.value ==> !ZeroAt(packet, q, n)
    ensures r.None? ==> n == 0 || !HasRun(packet, n)
  {
    if n == 0 then None else FindFrom(packet, 0, n)
  }

  function Overwrite(s: bytes, p: nat, mac: bytes): (r: bytes)
    requires p + |mac| <= |s|
    ensures |r| == |s|
  {
    s[..p] + mac + s[p + |mac|..]
  }

  /** Look up the placeholder and copy the MAC over it; without a placeholder nothing happens. */
  function Patched(packet: bytes, n: nat, mac: bytes): bytes
    requires |mac| == n
  {
    match FindAuthPlaceholder(packet, n)
    case None => packet
    case Some(p) => Overwrite(packet, p, mac)
  }

  // ---- Runs of zeros in concatenations ----

  lemma ShortHasNone(s: bytes, n: nat)
    requires |s| < n
    ensures !HasRun(s, n)
  {
  }

  /** No run crosses into a string that starts with a non-zero octet. */
  lemma RunInConcat(a: bytes, b: bytes, n: nat)
    requires b != [] && b[0] != 0 && n > 0
    ensures HasRun(a + b, n) <==> HasRun(a, n) || HasRun(b, n)
  {
    var s := a + b;
    if HasRun(s, n) {
      var p: nat :| ZeroAt(s, p, n);
      if p >= |a| {
        assert forall k :: p - |a| <= k < p - |a| + n ==> b[k] == s[k + |a|];
        assert ZeroAt(b, p - |a|, n);
      } else {
        assert s[|a|] == b[0];
        assert p + n <= |a|;
        assert forall k :: p <= k < p + n ==> a[k] == s[k];
        assert ZeroAt(a, p, n);
      }
    }
    if HasRun(a, n) {
      var p: nat :| ZeroAt(a, p, n);
      assert ZeroAt(s, p, n);
    }
    if HasRun(b, n) {
      var p: nat :| ZeroAt(b, p, n);
      assert forall k :: |a| + p <= k < |a| + p + n ==> s[k] == b[k - |a|];
      assert ZeroAt(s, |a| + p, n);
    }
  }

  // ---- The layout in front of the placeholder ----

  /** Tag and length octets of an element. */
  function Open(tag: byte, length: nat): (s: bytes)
    ensures 2 <= |s| <= 5 && s[0] == tag
  {
    [tag] + LenBytes(length)
  }

  function UsmHead(u: Usm): bytes {
    OctetsTlv(u.engineId) + (IntegerTlv(u.boots) + (IntegerTlv(u.time) + OctetsTlv(u.username)))
  }

  /** Everything before the contents of the authentication parameters. */
  function AuthPrefix(h: Header, u: Usm, body: bytes): bytes {
    Open(TAG_SEQUENCE, |V3Content(h, UsmBytes(u), body)|) +
    (IntegerTlv(3) +
     (SequenceTlv(HeaderContent(h)) +
      (Open(TAG_OCTET_STRING, |UsmBytes(u)|) +
       (Open(TAG_SEQUENCE, |UsmContent(u)|) +
        (UsmHead(u) + Open(TAG_OCTET_STRING, |u.auth|))))))
  }

  lemma UsmLayout(u: Usm)
    ensures UsmBytes(u) == Open(TAG_SEQUENCE, |UsmContent(u)|) +
                           ((UsmHead(u) + Open(TAG_OCTET_STRING, |u.auth|)) + (u.auth + OctetsTlv(u.priv)))
  {
    hide LenBytes, IntegerTlv, IntBytes;
    var tail := u.auth + OctetsTlv(u.priv);
    assert OctetsTlv(u.auth) + OctetsTlv(u.priv) == Open(TAG_OCTET_STRING, |u.auth|) + tail;
    assert UsmContent(u) == (UsmHead(u) + Open(TAG_OCTET_STRING, |u.auth|)) + tail by {
      hide OctetsTlv, Open;
    }
  }

  /** The message is its prefix, the authentication parameters, and the rest. */
  lemma PacketLayout(h: Header, u: Usm, body: bytes)
    ensures V3Bytes(h, UsmBytes(u), body) == AuthPrefix(h, u, body) + u.auth + (OctetsTlv(u.priv) + body)
  {
    hide LenBytes, IntegerTlv, IntBytes, HeaderContent, UsmContent, UsmHead;
    UsmLayout(u);
    var inner := UsmHead(u) + Open(TAG_OCTET_STRING, |u.auth|);
    var params := UsmBytes(u);
    assert OctetsTlv(params) == Open(TAG_OCTET_STRING, |params|) + params;
    assert V3Bytes(h, params, body) == Open(TAG_SEQUENCE, |V3Content(h, params, body)|) + V3Content(h, params, body);
    PacketConcat(Open(TAG_SEQUENCE, |V3Content(h, params, body)|), IntegerTlv(3), SequenceTlv(HeaderContent(h)),
                 Open(TAG_OCTET_STRING, |params|), Open(TAG_SEQUENCE, |UsmContent(u)|), inner, u.auth,
                 OctetsTlv(u.priv), body);
  }

  lemma PacketConcat(a: bytes, b: bytes, c: bytes, d: bytes, e: bytes, f: bytes, auth: bytes, priv: bytes, body: bytes)
    ensures a + (b + (c + ((d + (e + (f + (auth + priv)))) + body)))
         == (a + (b + (c + (d + (e + f))))) + auth + (priv + body)
  {
    assert (d + (e + (f + (auth + priv)))) + body == (d + (e + f)) + (auth + (priv + body));
    var rest := auth + (priv + body);
    assert c + ((d + (e + f)) + rest) == (c + (d + (e + f))) + rest;
    assert b + ((c + (d + (e + f))) + rest) == (b + (c + (d + (e + f)))) + rest;
    assert a + ((b + (c + (d + (e + f)))) + rest) == (a + (b + (c + (d + (e + f))))) + rest;
  }

  /** The prefix knows the MAC only by its length. */
  lemma PrefixIgnoresMac(h: Header, u: Usm, body: bytes, mac: bytes)
    requires |mac| == |u.auth|
    ensures AuthPrefix(h, u.(auth := mac), body) == AuthPrefix(h, u, body)
  {
    hide IntegerTlv, IntBytes, HeaderContent, Open;
    var v := u.(auth := mac);
    assert |OctetsTlv(mac)| == |OctetsTlv(u.auth)|;
    assert |UsmContent(v)| == |UsmContent(u)|;
    assert |UsmBytes(v)| == |UsmBytes(u)|;
    assert |OctetsTlv(UsmBytes(v))| == |OctetsTlv(UsmBytes(u))|;
    assert |V3Content(h, UsmBytes(v), body)| == |V3Content(h, UsmBytes(u), body)|;
    assert UsmHead(v) == UsmHead(u);
  }

  // ---- Where the prefix has runs of zeros ----

  /** An INTEGER of at most nine octets is too short for a run of twelve. */
  lemma IntegerHasNone(v: i64, n: nat)
    requires n >= 12
    ensures !HasRun(IntegerTlv(v), n) && IntegerTlv(v) != [] && IntegerTlv(v)[0] != 0
  {
    hide LenBytes;
    IntegerLength(v);
    LenOfShort(|IntBytes(v)|);
    ShortHasNone(IntegerTlv(v), n);
  }

  lemma LenOfShort(k: nat)
    requires k < 0x80
    ensures LenBytes(k) == [k]
  {
  }

  lemma HeaderHasNone(h: Header, n: nat)
    requires n >= 12
    ensures !HasRun(HeaderContent(h), n) && HeaderContent(h) != [] && HeaderContent(h)[0] != 0
  {
    hide IntegerTlv, HasRun, LenBytes;
    var d := IntegerTlv(h.model);
    var c := OctetsTlv([h.flags]) + d;
    var b := IntegerTlv(h.maxSize) + c;
    IntegerHasNone(h.msgId, n);
    IntegerHasNone(h.maxSize, n);
    IntegerHasNone(h.model, n);
    LenOfShort(1);
    ShortHasNone(OctetsTlv([h.flags]), n);
    RunInConcat(OctetsTlv([h.flags]), d, n);
    RunInConcat(IntegerTlv(h.maxSize), c, n);
    RunInConcat(IntegerTlv(h.msgId), b, n);
  }

  lemma OctetsStart(s: bytes)
    ensures OctetsTlv(s) != [] && OctetsTlv(s)[0] == TAG_OCTET_STRING
  {
  }

  lemma UsmHeadRuns(u: Usm, n: nat)
    requires n >= 12
    ensures UsmHead(u) != [] && UsmHead(u)[0] != 0
    ensures HasRun(UsmHead(u), n) <==> HasRun(OctetsTlv(u.engineId), n) || HasRun(OctetsTlv(u.username), n)
  {
    hide IntegerTlv, HasRun, OctetsTlv;
    var d := OctetsTlv(u.username);
    var c := IntegerTlv(u.time) + d;
    var b := IntegerTlv(u.boots) + c;
    OctetsStart(u.engineId);
    OctetsStart(u.username);
    IntegerHasNone(u.boots, n);
    IntegerHasNone(u.time, n);
    RunInConcat(IntegerTlv(u.time), d, n);
    RunInConcat(IntegerTlv(u.boots), c, n);
    RunInConcat(OctetsTlv(u.engineId), b, n);
  }

  lemma OpenHasNone(tag: byte, length: nat, n: nat)
    requires n >= 12
    ensures !HasRun(Open(tag, length), n)
  {
    ShortHasNone(Open(tag, length), n);
  }

  /** Only the engine identifier and the user name can bring a run of zeros before the placeholder. */
  lemma PrefixRuns(h: Header, u: Usm, body: bytes, n: nat)
    requires n >= 12
    ensures HasRun(AuthPrefix(h, u, body), n) <==>
            HasRun(OctetsTlv(u.engineId), n) || HasRun(OctetsTlv(u.username), n)
  {
    hide IntegerTlv, HasRun, OctetsTlv, Open, UsmHead, HeaderContent, V3Content, UsmContent, UsmBytes, LenBytes;
    var a := Open(TAG_SEQUENCE, |V3Content(h, UsmBytes(u), body)|);
    var d := Open(TAG_OCTET_STRING, |UsmBytes(u)|);
    var e := Open(TAG_SEQUENCE, |UsmContent(u)|);
    var g := Open(TAG_OCTET_STRING, |u.auth|);
    var hc := HeaderContent(h);
    var ho := [TAG_SEQUENCE] + LenBytes(|hc|);
    OpenHasNone(TAG_SEQUENCE, |V3Content(h, UsmBytes(u), body)|, n);
    OpenHasNone(TAG_OCTET_STRING, |UsmBytes(u)|, n);
    OpenHasNone(TAG_SEQUENCE, |UsmContent(u)|, n);
    OpenHasNone(TAG_OCTET_STRING, |u.auth|, n);
    ShortHasNone(ho, n);
    IntegerHasNone(3, n);
    HeaderHasNone(h, n);
    UsmHeadRuns(u, n);
    var r5 := UsmHead(u) + g;
    var r4 := e + r5;
    var r3 := d + r4;
    var r2 := SequenceTlv(hc) + r3;
    assert SequenceTlv(hc) == ho + hc;
    RunInConcat(ho, hc, n);
    RunInConcat(UsmHead(u), g, n);
    RunInConcat(e, r5, n);
    RunInConcat(d, r4, n);
    RunInConcat(SequenceTlv(hc), r3, n);
    RunInConcat(IntegerTlv(3), r2, n);
    RunInConcat(a, IntegerTlv(3) + r2, n);
  }

  /** The last length octet is not zero, so no run of zeros begins before the contents. */
  predicate Fenced(s: bytes) {
    s == [] || |s| % 0x100 != 0
  }

  function StringHead(s: bytes): bytes {
    [TAG_OCTET_STRING] + LenBytes(|s|)
  }

  lemma FenceHolds(s: bytes)
    requires Fenced(s)
    ensures s != [] ==> StringHead(s)[|StringHead(s)| - 1] != 0
  {
  }

  /** No run crosses out of a string that ends in a non-zero octet. */
  lemma RunBehind(a: bytes, b: bytes, n: nat)
    requires a != [] && a[|a| - 1] != 0 && n > 0 && !HasRun(a, n)
    ensures HasRun(a + b, n) <==> HasRun(b, n)
  {
    var s := a + b;
    if HasRun(s, n) {
      var p: nat :| ZeroAt(s, p, n);
      assert forall k :: 0 <= k < |a| ==> s[k] == a[k];
      assert p + n <= |a| ==> ZeroAt(a, p, n);
      assert p >= |a|;
      assert forall k :: p - |a| <= k < p - |a| + n ==> b[k] == s[k + |a|];
      assert ZeroAt(b, p - |a|, n);
    }
    if HasRun(b, n) {
      var p: nat :| ZeroAt(b, p, n);
      assert forall k :: |a| + p <= k < |a| + p + n ==> s[k] == b[k - |a|];
      assert ZeroAt(s, |a| + p, n);
    }
  }

  /** Behind the fence the length octets hide nothing: the string itself must be free of runs. */
  lemma FencedRuns(s: bytes, n: nat)
    requires Fenced(s) && n >= 12
    ensures HasRun(OctetsTlv(s), n) <==> HasRun(s, n)
  {
    hide LenBytes, HasRun;
    if s == [] {
      LenOfShort(0);
      ShortHasNone(s, n);
      ShortHasNone(OctetsTlv(s), n);
    } else {
      FenceHolds(s);
      ShortHasNone(StringHead(s), n);
      assert OctetsTlv(s) == StringHead(s) + s;
      RunBehind(StringHead(s), s, n);
    }
  }

  // ---- The theorem ----

  /** The encoded engine identifier and user name are free of runs as long as the placeholder. */
  ghost predicate Unambiguous(u: Usm, n: nat) {
    !HasRun(OctetsTlv(u.engineId), n) && !HasRun(OctetsTlv(u.username), n)
  }

  /** The search in a string that ends its prefix with a non-zero octet and continues with the zeros. */
  lemma FirstRun(prefix: bytes, n: nat, suffix: bytes)
    requires prefix != [] && prefix[|prefix| - 1] != 0 && n > 0
    ensures var r := FindAuthPlaceholder(prefix + Zeros(n) + suffix, n);
            && r.Some?
            && (r.value == |prefix| <==> !HasRun(prefix, n))
            && (HasRun(prefix, n) ==> r.value + n < |prefix|)
  {
    var s := prefix + Zeros(n) + suffix;
    assert ZeroAt(s, |prefix|, n);
    var r := FindAuthPlaceholder(s, n);
    assert r.Some? && r.value <= |prefix|;
    if r.value < |prefix| {
      assert s[|prefix| - 1] == prefix[|prefix| - 1];
      assert r.value + n <= |prefix| - 1;
      assert forall k :: r.value <= k < r.value + n ==> prefix[k] == s[k];
      assert ZeroAt(prefix, r.value, n);
    }
    if HasRun(prefix, n) {
      var p: nat :| ZeroAt(prefix, p, n);
      assert forall k :: p <= k < p + n ==> s[k] == prefix[k];
      assert ZeroAt(s, p, n);
    }
  }

  lemma PrefixEnd(h: Header, u: Usm, body: bytes)
    requires 0 < |u.auth| < 0x80
    ensures AuthPrefix(h, u, body) != []
    ensures AuthPrefix(h, u, body)[|AuthPrefix(h, u, body)| - 1] == |u.auth|
  {
    hide IntegerTlv, UsmHead, HeaderContent, V3Content, UsmContent, UsmBytes;
    var g := Open(TAG_OCTET_STRING, |u.auth|);
    assert g == [TAG_OCTET_STRING, |u.auth|];
  }

  /** The search hits the authentication parameters exactly when the names before them are unambiguous. */
  lemma PlaceholderFound(h: Header, u: Usm, body: bytes, n: nat)
    requires 12 <= n < 0x80 && u.auth == Zeros(n)
    ensures FindAuthPlaceholder(V3Bytes(h, UsmBytes(u), body), n) == Some(|AuthPrefix(h, u, body)|)
            <==> Unambiguous(u, n)
  {
    hide V3Bytes, AuthPrefix, UsmBytes, OctetsTlv, HasRun;
    PacketLayout(h, u, body);
    PrefixEnd(h, u, body);
    FirstRun(AuthPrefix(h, u, body), n, OctetsTlv(u.priv) + body);
    PrefixRuns(h, u, body, n);
  }

  /**
   Patching equals re-encoding: the packet patched in place is octet for octet the encoding of the message
   that carries the MAC, exactly when the names are unambiguous or the MAC is itself all zeros.
   */
  lemma PatchingIsReencoding(h: Header, u: Usm, body: bytes, n: nat, mac: bytes)
    requires 12 <= n < 0x80 && u.auth == Zeros(n) && |mac| == n
    ensures Patched(V3Bytes(h, UsmBytes(u), body), n, mac) == V3Bytes(h, UsmBytes(u.(auth := mac)), body)
            <==> Unambiguous(u, n) || mac == Zeros(n)
  {
    hide V3Bytes, AuthPrefix, UsmBytes, OctetsTlv, HasRun, FindAuthPlaceholder;
    var prefix, suffix := AuthPrefix(h, u, body), OctetsTlv(u.priv) + body;
    PacketLayout(h, u, body);
    PacketLayout(h, u.(auth := mac), body);
    PrefixIgnoresMac(h, u, body, mac);
    PrefixEnd(h, u, body);
    PrefixRuns(h, u, body, n);
    PatchFirst(prefix, n, suffix, mac);
  }

  /** For fenced names: exactly when neither of them contains a run of `n` zeros. */
  lemma PatchingWithFencedNames(h: Header, u: Usm, body: bytes, n: nat, mac: bytes)
    requires 12 <= n < 0x80 && u.auth == Zeros(n) && |mac| == n
    requires Fenced(u.engineId) && Fenced(u.username)
    ensures Patched(V3Bytes(h, UsmBytes(u), body), n, mac) == V3Bytes(h, UsmBytes(u.(auth := mac)), body)
            <==> (!HasRun(u.engineId, n) && !HasRun(u.username, n)) || mac == Zeros(n)
  {
    hide V3Bytes, UsmBytes, Patched, OctetsTlv, HasRun;
    FencedRuns(u.engineId, n);
    FencedRuns(u.username, n);
    PatchingIsReencoding(h, u, body, n, mac);
  }

  // ---- Where the MAC lands otherwise ----

  /** The first run of a string is that of its first part with a run, provided none crosses into that part. */
  lemma FirstRunBehind(a: bytes, b: bytes, c: bytes, n: nat)
    requires n > 0 && !HasRun(a, n) && HasRun(b, n)
    requires a == [] || a[|a| - 1] != 0 || b[0] != 0
    ensures FindAuthPlaceholder(b, n).Some? && FindAuthPlaceholder(b, n).value + n <= |b|
    ensures FindAuthPlaceholder(a + (b + c), n) == Some(|a| + FindAuthPlaceholder(b, n).value)
  {
    hide FindAuthPlaceholder;
    var s := a + (b + c);
    assert forall k :: 0 <= k < |a| ==> s[k] == a[k];
    assert forall k :: 0 <= k < |b| ==> s[|a| + k] == b[k];
    var q := FindAuthPlaceholder(b, n).value;
    assert ZeroAt(s, |a| + q, n);
    var p := FindAuthPlaceholder(s, n).value;
    assert p + n <= |a| ==> ZeroAt(a, p, n);
    assert |a| <= p <= |a| + q;
    assert forall k :: p - |a| <= k < p - |a| + n ==> b[k] == s[|a| + k];
    assert ZeroAt(b, p - |a|, n);
  }

  lemma OverwriteMiddle(a: bytes, b: bytes, c: bytes, q: nat, mac: bytes)
    requires q + |mac| <= |b|
    ensures Overwrite(a + (b + c), |a| + q, mac) == a + (Overwrite(b, q, mac) + c)
  {
    var s, p := a + (b + c), |a| + q;
    assert s[..p] == a + b[..q];
    assert s[p + |mac|..] == b[q + |mac|..] + c;
  }

  /** So patching a string patches that part. */
  lemma PatchMiddle(a: bytes, b: bytes, c: bytes, n: nat, mac: bytes)
    requires |mac| == n > 0 && !HasRun(a, n) && HasRun(b, n)
    requires a == [] || a[|a| - 1] != 0 || b[0] != 0
    ensures |Patched(b, n, mac)| == |b|
    ensures Patched(a + (b + c), n, mac) == a + (Patched(b, n, mac) + c)
  {
    hide FindAuthPlaceholder, HasRun, ZeroAt, Overwrite;
    FirstRunBehind(a, b, c, n);
    OverwriteMiddle(a, b, c, FindAuthPlaceholder(b, n).value, mac);
  }

  /** Everything before the security parameters. */
  function BeforeParams(h: Header, params: bytes, body: bytes): bytes {
    Open(TAG_SEQUENCE, |V3Content(h, params, body)|) +
    (IntegerTlv(3) + (SequenceTlv(HeaderContent(h)) + Open(TAG_OCTET_STRING, |params|)))
  }

  lemma ParamsLayout(h: Header, params: bytes, body: bytes)
    ensures V3Bytes(h, params, body) == BeforeParams(h, params, body) + (params + body)
  {
    hide LenBytes, IntegerTlv, HeaderContent;
    var a, b, c := Open(TAG_SEQUENCE, |V3Content(h, params, body)|), IntegerTlv(3), SequenceTlv(HeaderContent(h));
    var d, rest := Open(TAG_OCTET_STRING, |params|), params + body;
    assert OctetsTlv(params) + body == d + rest;
    assert c + (d + rest) == (c + d) + rest;
    assert b + ((c + d) + rest) == (b + (c + d)) + rest;
    assert a + ((b + (c + d)) + rest) == (a + (b + (c + d))) + rest;
  }

  lemma BeforeParamsHasNone(h: Header, params: bytes, body: bytes, n: nat)
    requires n >= 12
    ensures !HasRun(BeforeParams(h, params, body), n)
  {
    hide IntegerTlv, HasRun, Open, HeaderContent, V3Content, LenBytes;
    var hc, g := HeaderContent(h), Open(TAG_OCTET_STRING, |params|);
    var ho := [TAG_SEQUENCE] + LenBytes(|hc|);
    OpenHasNone(TAG_SEQUENCE, |V3Content(h, params, body)|, n);
    OpenHasNone(TAG_OCTET_STRING, |params|, n);
    ShortHasNone(ho, n);
    IntegerHasNone(3, n);
    HeaderHasNone(h, n);
    assert SequenceTlv(hc) == ho + hc;
    RunInConcat(ho, hc, n);
    RunInConcat(SequenceTlv(hc), g, n);
    RunInConcat(IntegerTlv(3), SequenceTlv(hc) + g, n);
    RunInConcat(Open(TAG_SEQUENCE, |V3Content(h, params, body)|), IntegerTlv(3) + (SequenceTlv(hc) + g), n);
  }

  lemma UsmHasRun(u: Usm)
    requires u.auth == Zeros(|u.auth|)
    ensures HasRun(UsmBytes(u), |u.auth|) && UsmBytes(u)[0] != 0
  {
    hide LenBytes, UsmHead, OctetsTlv;
    UsmLayout(u);
    var a, b := Open(TAG_SEQUENCE, |UsmContent(u)|), UsmHead(u) + Open(TAG_OCTET_STRING, |u.auth|);
    var s := a + (b + (u.auth + OctetsTlv(u.priv)));
    var p := |a| + |b|;
    assert forall k :: p <= k < p + |u.auth| ==> s[k] == u.auth[k - p];
    assert ZeroAt(UsmBytes(u), p, |u.auth|);
  }

  /** Whatever the names, the MAC lands inside the security parameters: it patches them as a string of their own. */
  lemma PatchInsideParams(h: Header, u: Usm, body: bytes, n: nat, mac: bytes)
    requires n >= 12 && u.auth == Zeros(n) && |mac| == n
    ensures |Patched(UsmBytes(u), n, mac)| == |UsmBytes(u)|
    ensures Patched(V3Bytes(h, UsmBytes(u), body), n, mac) == V3Bytes(h, Patched(UsmBytes(u), n, mac), body)
  {
    hide V3Bytes, UsmBytes, Patched, HasRun, HeaderContent, Open, SequenceTlv, OctetsTlv, IntegerTlv;
    var params := UsmBytes(u);
    UsmHasRun(u);
    ParamsLayout(h, params, body);
    BeforeParamsHasNone(h, params, body, n);
    PatchMiddle(BeforeParams(h, params, body), params, body, n, mac);
    var patched := Patched(params, n, mac);
    ParamsLayout(h, patched, body);
    SameLength(params, patched);
    assert BeforeParams(h, patched, body) == BeforeParams(h, params, body);
  }

  lemma SameLength(s: bytes, t: bytes)
    requires |s| == |t|
    ensures |OctetsTlv(s)| == |OctetsTlv(t)|
  {
  }

  /** The parameters as the patch leaves them: the MAC goes to the first field with a run of `n` zeros. */
  ghost function Struck(u: Usm, n: nat, mac: bytes): Usm
    requires |mac| == n
  {
    if HasRun(u.engineId, n) then u.(engineId := Patched(u.engineId, n, mac))
    else if HasRun(u.username, n) then u.(username := Patched(u.username, n, mac))
    else u.(auth := mac)
  }

  function AfterEngine(u: Usm): bytes {
    IntegerTlv(u.boots) + (IntegerTlv(u.time) + (OctetsTlv(u.username) + AfterName(u)))
  }

  function AfterName(u: Usm): bytes {
    OctetsTlv(u.auth) + OctetsTlv(u.priv)
  }

  lemma AsOpen(content: bytes)
    ensures SequenceTlv(content) == Open(TAG_SEQUENCE, |content|) + content
  {
  }

  /** A run in the encoded engine identifier comes first. */
  lemma PatchAtEngine(u: Usm, n: nat, mac: bytes)
    requires n >= 12 && |mac| == n && HasRun(OctetsTlv(u.engineId), n)
    ensures |Patched(OctetsTlv(u.engineId), n, mac)| == |OctetsTlv(u.engineId)|
    ensures Patched(UsmBytes(u), n, mac) == SequenceTlv(Patched(OctetsTlv(u.engineId), n, mac) + AfterEngine(u))
  {
    hide Patched, HasRun, OctetsTlv, IntegerTlv, Open, LenBytes;
    var a, b, c := Open(TAG_SEQUENCE, |UsmContent(u)|), OctetsTlv(u.engineId), AfterEngine(u);
    OpenHasNone(TAG_SEQUENCE, |UsmContent(u)|, n);
    OctetsStart(u.engineId);
    PatchMiddle(a, b, c, n, mac);
    assert UsmContent(u) == b + c;
    AsOpen(UsmContent(u));
    AsOpen(Patched(b, n, mac) + c);
  }

  /** After an engine identifier without one, a run in the encoded user name does. */
  lemma PatchAtName(u: Usm, n: nat, mac: bytes)
    requires n >= 12 && |mac| == n && !HasRun(OctetsTlv(u.engineId), n) && HasRun(OctetsTlv(u.username), n)
    ensures |Patched(OctetsTlv(u.username), n, mac)| == |OctetsTlv(u.username)|
    ensures Patched(UsmBytes(u), n, mac)
         == SequenceTlv(OctetsTlv(u.engineId) + (IntegerTlv(u.boots) + (IntegerTlv(u.time)
                        + (Patched(OctetsTlv(u.username), n, mac) + AfterName(u)))))
  {
    hide Patched, HasRun, OctetsTlv, IntegerTlv, Open, LenBytes, AfterName;
    var o, b, c := Open(TAG_SEQUENCE, |UsmContent(u)|), OctetsTlv(u.username), AfterName(u);
    var e, i := OctetsTlv(u.engineId), IntegerTlv(u.boots) + IntegerTlv(u.time);
    OpenHasNone(TAG_SEQUENCE, |UsmContent(u)|, n);
    OctetsStart(u.engineId);
    OctetsStart(u.username);
    IntegerHasNone(u.boots, n);
    IntegerHasNone(u.time, n);
    RunInConcat(IntegerTlv(u.boots), IntegerTlv(u.time), n);
    RunInConcat(e, i, n);
    RunInConcat(o, e + i, n);
    PatchMiddle(o + (e + i), b, c, n, mac);
    var patched := Patched(b, n, mac);
    NameLayout(u.engineId, u.boots, u.time, o, b, c);
    NameLayout(u.engineId, u.boots, u.time, o, patched, c);
    var inner := e + (IntegerTlv(u.boots) + (IntegerTlv(u.time) + (patched + c)));
    assert UsmContent(u) == e + (IntegerTlv(u.boots) + (IntegerTlv(u.time) + (b + c))) by { AfterNameIs(u); }
    AsOpen(UsmContent(u));
    AsOpen(inner);
  }

  lemma AfterNameIs(u: Usm)
    ensures AfterName(u) == OctetsTlv(u.auth) + OctetsTlv(u.priv)
  {
  }

  lemma NameLayout(engineId: bytes, boots: u32, time: u32, o: bytes, name: bytes, c: bytes)
    ensures o + (OctetsTlv(engineId) + (IntegerTlv(boots) + (IntegerTlv(time) + (name + c))))
         == (o + (OctetsTlv(engineId) + (IntegerTlv(boots) + IntegerTlv(time)))) + (name + c)
  {
    hide OctetsTlv, IntegerTlv;
    var e, b, t := OctetsTlv(engineId), IntegerTlv(boots), IntegerTlv(time);
    assert b + (t + (name + c)) == (b + t) + (name + c);
    assert e + ((b + t) + (name + c)) == (e + (b + t)) + (name + c);
  }

  /** Behind the fence the MAC lands in the string itself. */
  lemma PatchString(s: bytes, n: nat, mac: bytes)
    requires Fenced(s) && n >= 12 && |mac| == n && HasRun(s, n)
    ensures |Patched(s, n, mac)| == |s| && HasRun(OctetsTlv(s), n)
    ensures Patched(OctetsTlv(s), n, mac) == OctetsTlv(Patched(s, n, mac))
  {
    hide Patched, LenBytes, HasRun;
    if s == [] {
      ShortHasNone(s, n);
      assert false;
    }
    FenceHolds(s);
    FencedRuns(s, n);
    var a := StringHead(s);
    ShortHasNone(a, n);
    PatchMiddle(a, s, [], n, mac);
    assert OctetsTlv(s) == a + (s + []);
    assert OctetsTlv(Patched(s, n, mac)) == a + (Patched(s, n, mac) + []);
  }

  lemma PatchEngine(u: Usm, n: nat, mac: bytes)
    requires n >= 12 && |mac| == n && Fenced(u.engineId) && HasRun(u.engineId, n)
    ensures Patched(UsmBytes(u), n, mac) == UsmBytes(u.(engineId := Patched(u.engineId, n, mac)))
  {
    hide Patched, HasRun, OctetsTlv, IntegerTlv, SequenceTlv;
    PatchString(u.engineId, n, mac);
    PatchAtEngine(u, n, mac);
  }

  lemma PatchName(u: Usm, n: nat, mac: bytes)
    requires n >= 12 && |mac| == n && Fenced(u.username) && HasRun(u.username, n)
    requires !HasRun(OctetsTlv(u.engineId), n)
    ensures Patched(UsmBytes(u), n, mac) == UsmBytes(u.(username := Patched(u.username, n, mac)))
  {
    hide Patched, HasRun, OctetsTlv, IntegerTlv, SequenceTlv;
    PatchString(u.username, n, mac);
    PatchAtName(u, n, mac);
  }

  /** For fenced names the patched packet is in every case the encoding of the parameters as struck. */
  lemma MacLands(h: Header, u: Usm, body: bytes, n: nat, mac: bytes)
    requires 12 <= n < 0x80 && u.auth == Zeros(n) && |mac| == n
    requires Fenced(u.engineId) && Fenced(u.username)
    ensures |UsmBytes(Struck(u, n, mac))| == |UsmBytes(u)|
    ensures Patched(V3Bytes(h, UsmBytes(u), body), n, mac) == V3Bytes(h, UsmBytes(Struck(u, n, mac)), body)
  {
    hide V3Bytes, UsmBytes, Patched, OctetsTlv, HasRun;
    FencedRuns(u.engineId, n);
    PatchInsideParams(h, u, body, n, mac);
    if HasRun(u.engineId, n) {
      PatchEngine(u, n, mac);
    } else if HasRun(u.username, n) {
      PatchName(u, n, mac);
    } else {
      PatchingWithFencedNames(h, u, body, n, mac);
      SameMacLength(u, mac);
    }
  }

  lemma SameMacLength(u: Usm, mac: bytes)
    requires |mac| == |u.auth|
    ensures |UsmBytes(u.(auth := mac))| == |UsmBytes(u)|
  {
    hide IntegerTlv, LenBytes;
    SameLength(mac, u.auth);
    assert |UsmContent(u.(auth := mac))| == |UsmContent(u)|;
  }

  /** A user name of zeros as long as the placeholder takes the MAC and leaves the placeholder zero. */
  lemma ZeroNameTakesMac(h: Header, u: Usm, body: bytes, n: nat, mac: bytes)
    requires 12 <= n < 0x80 && u.auth == Zeros(n) && |mac| == n
    requires Fenced(u.engineId) && !HasRun(u.engineId, n) && u.username == Zeros(n)
    ensures Patched(V3Bytes(h, UsmBytes(u), body), n, mac) == V3Bytes(h, UsmBytes(u.(username := mac)), body)
  {
    hide V3Bytes, UsmBytes;
    MacLands(h, u, body, n, mac);
    assert ZeroAt(u.username, 0, n);
    assert FindAuthPlaceholder(u.username, n) == Some(0);
    assert Overwrite(u.username, 0, mac) == mac;
  }

  // ---- A struck name is never read back ----

  /** A string that took the MAC in its encoding does not read as itself, whatever follows it. */
  lemma StruckString(x: bytes, n: nat, mac: bytes, y: bytes)
    requires n >= 12 && |mac| == n && mac != Zeros(n) && |x| < LENGTH_LIMIT && HasRun(OctetsTlv(x), n)
    ensures var s := Patched(OctetsTlv(x), n, mac);
            ReadOctets(s + y).Ok? ==> ReadOctets(s + y).value.value != x
  {
    hide FindAuthPlaceholder, OctetsTlv, ReadOctets;
    var t, s := OctetsTlv(x), Patched(OctetsTlv(x), n, mac);
    var p := FindAuthPlaceholder(t, n).value;
    HeadIsNotZero(x, n);
    assert p >= 2;
    assert s[p..p + n] == mac && t[p..p + n] == Zeros(n);
    if ReadOctets(s + y).Ok? && ReadOctets(s + y).value.value == x {
      OctetsOnly(s, x, y);
    }
  }

  lemma HeadIsNotZero(x: bytes, n: nat)
    requires n >= 12 && HasRun(OctetsTlv(x), n)
    ensures OctetsTlv(x)[0] == TAG_OCTET_STRING && OctetsTlv(x)[1] != 0
  {
    if x == [] {
      ShortHasNone(OctetsTlv(x), n);
    }
  }

  /** With mistakable names, the patched security parameters never read as naming the same engine and user. */
  lemma StruckParams(u: Usm, n: nat, mac: bytes)
    requires n >= 12 && |mac| == n && mac != Zeros(n) && |UsmContent(u)| < LENGTH_LIMIT && !Unambiguous(u, n)
    ensures var r := UsmOf(Patched(UsmBytes(u), n, mac));
            r.Ok? ==> r.value.engineId != u.engineId || r.value.username != u.username
  {
    hide Patched, HasRun, OctetsTlv, IntegerTlv, ReadOctets, ReadInteger, ReadSequence, AfterEngine, AfterName;
    UsmFieldsFit(u);
    var e, b, t, c := OctetsTlv(u.engineId), IntegerTlv(u.boots), IntegerTlv(u.time), AfterName(u);
    if HasRun(e, n) {
      PatchAtEngine(u, n, mac);
      var content := Patched(e, n, mac) + AfterEngine(u);
      ContentSize(u);
      SequenceReads(content);
      StruckString(u.engineId, n, mac, AfterEngine(u));
    } else {
      PatchAtName(u, n, mac);
      var name := Patched(OctetsTlv(u.username), n, mac);
      ContentSize(u);
      SequenceReads(e + (b + (t + (name + c))));
      OctetsRead(u.engineId, b + (t + (name + c)));
      IntegerRead(u.boots, t + (name + c));
      IntegerRead(u.time, name + c);
      StruckString(u.username, n, mac, c);
    }
  }

  lemma SequenceReads(content: bytes)
    requires |content| < LENGTH_LIMIT
    ensures SequenceTlv(content) != [] && ReadSequence(SequenceTlv(content)) == Ok(Read(content, []))
  {
    SequenceRead(content, []);
    assert SequenceTlv(content) + [] == SequenceTlv(content);
  }

  lemma ContentSize(u: Usm)
    ensures |UsmContent(u)| == |OctetsTlv(u.engineId)| + |AfterEngine(u)|
    ensures |UsmContent(u)| == |OctetsTlv(u.engineId)| + |IntegerTlv(u.boots)| + |IntegerTlv(u.time)|
                               + |OctetsTlv(u.username)| + |AfterName(u)|
  {
    hide OctetsTlv, IntegerTlv;
  }

  lemma PatchFirst(prefix: bytes, n: nat, suffix: bytes, mac: bytes)
    requires prefix != [] && prefix[|prefix| - 1] != 0 && |mac| == n > 0
    ensures Patched(prefix + Zeros(n) + suffix, n, mac) == prefix + mac + suffix
            <==> !HasRun(prefix, n) || mac == Zeros(n)
  {
    hide FindAuthPlaceholder, HasRun;
    var s := prefix + Zeros(n) + suffix;
    FirstRun(prefix, n, suffix);
    var p := FindAuthPlaceholder(s, n).value;
    var t := Overwrite(s, p, mac);
    if p == |prefix| {
      assert s[..p] == prefix && s[p + n..] == suffix;
    } else if mac == Zeros(n) {
      assert forall k :: p <= k < p + n ==> s[k] == 0;
      assert t == s;
    } else {
      var k :| 0 <= k < n && mac[k] != 0;
      assert t[|prefix| + k] == s[|prefix| + k] == 0;
      assert (prefix + mac + suffix)[|prefix| + k] == mac[k];
    }
  }

  // ---- Receiving ----

  /** What the client verifies a reply over: the first window of zeros is overwritten with zeros. */
  function Zeroed(packet: bytes, n: nat): bytes {
    match FindAuthPlaceholder(packet, n)
    case None => packet
    case Some(p) => Overwrite(packet, p, Zeros(n))
  }

  /** The zeroing step never changes a reply, so its MAC is checked over the reply as received. */
  lemma ZeroingIsIdle(packet: bytes, n: nat)
    ensures Zeroed(packet, n) == packet
  {
    var r := FindAuthPlaceholder(packet, n);
    if r.Some? {
      assert forall k :: r.value <= k < r.value + n ==> packet[k] == 0;
      assert Overwrite(packet, r.value, Zeros(n)) == packet;
    }
  }
}
