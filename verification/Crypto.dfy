/**
 Keys, authentication and privacy of the User-based Security Model.
 Digests, HMAC and the block ciphers are parameters; what is modelled is everything the code does around them.
 */
module Crypto {
  import opened Octets
  import opened Results
  import opened Integers
  import opened Placeholder

  datatype AuthProtocol = Md5 | Sha1 | Sha256

  datatype PrivProtocol = Des | Aes128

  function DigestLen(p: AuthProtocol): nat {
    match p
    case Md5 => 16
    case Sha1 => 20
    case Sha256 => 32
  }

  function MacLen(p: AuthProtocol): nat {
    match p
    case Md5 => 12
    case Sha1 => 12
    case Sha256 => 24
  }

  /** The external primitives. Ciphers take key, initialization vector and data. */
  datatype Suite = Suite(
    digest: (AuthProtocol, bytes) -> bytes,
    hmac: (AuthProtocol, bytes, bytes) -> bytes,
    desEncrypt: (bytes, bytes, bytes) -> bytes,
    desDecrypt: (bytes, bytes, bytes) -> bytes,
    aesEncrypt: (bytes, bytes, bytes) -> bytes,
    aesDecrypt: (bytes, bytes, bytes) -> bytes)
  {
    /** Output lengths, and decryption undoing encryption; CBC without padding works on whole blocks. */
    ghost predicate Sound() {
      && (forall p, s :: |digest(p, s)| == DigestLen(p))
      && (forall p, k, s :: |hmac(p, k, s)| == DigestLen(p))
      && (forall k, iv, s :: |s| % 8 == 0 ==> |desEncrypt(k, iv, s)| == |s|)
      && (forall k, iv, s :: |s| % 8 == 0 ==> desDecrypt(k, iv, desEncrypt(k, iv, s)) == s)
      && (forall k, iv, s :: |aesEncrypt(k, iv, s)| == |s|)
      && (forall k, iv, s :: aesDecrypt(k, iv, aesEncrypt(k, iv, s)) == s)
    }
  }

  // ---- Passwords to keys ----

  /** A streaming hash: what it has absorbed so far determines its digest. */
  class Hasher {
    const protocol: AuthProtocol
    var absorbed: bytes

    constructor (protocol: AuthProtocol)
      ensures this.protocol == protocol && absorbed == []
    {
      this.protocol := protocol;
      absorbed := [];
    }

    method Update(data: bytes)
      modifies this
      ensures absorbed == old(absorbed) + data
    {
      absorbed := absorbed + data;
    }

    method Finalize(suite: Suite) returns (digest: bytes)
      ensures digest == suite.digest(protocol, absorbed)
    {
      digest := suite.digest(protocol, absorbed);
    }
  }

  const STRETCH: nat := 1_048_576

  /** `n` octets of the password repeated without end, from octet `start` on (section A.2 of RFC 3414). */
  function Cycle(password: bytes, start: nat, n: nat): (s: bytes)
    requires password != []
    ensures |s| == n
    ensures forall k :: 0 <= k < n ==> s[k] == password[(start + k) % |password|]
  {
    seq(n, k requires 0 <= k < n => password[(start + k) % |password|])
  }

  lemma CycleJoins(password: bytes, start: nat, m: nat, n: nat)
    requires password != []
    ensures Cycle(password, start, m) + Cycle(password, start + m, n) == Cycle(password, start, m + n)
  {
    var a, b, c := Cycle(password, start, m), Cycle(password, start + m, n), Cycle(password, start, m + n);
    forall k | 0 <= k < m + n
      ensures (a + b)[k] == c[k]
    {
      if k >= m {
        assert start + m + (k - m) == start + k;
      }
    }
  }

  /** `s` is the password over and over, `n` octets of it. */
  predicate Repeats(password: bytes, s: bytes, n: nat)
    requires password != []
  {
    |s| == n && forall k :: 0 <= k < n ==> s[k] == password[k % |password|]
  }

  /** Sections A.2 and 2.6 of RFC 3414, by what is digested. */
  lemma KeyOfPassword(suite: Suite, protocol: AuthProtocol, password: bytes, engineId: bytes, s: bytes)
    requires password != [] && Repeats(password, s, 1_048_576)
    ensures LocalizedKey(suite, protocol, password, engineId)
         == var master := suite.digest(protocol, s); suite.digest(protocol, master + engineId + master)
  {
    assert s == Cycle(password, 0, 1_048_576);
  }

  function MasterKey(suite: Suite, protocol: AuthProtocol, password: bytes): bytes {
    if password == [] then Zeros(DigestLen(protocol))
    else suite.digest(protocol, Cycle(password, 0, STRETCH))
  }

  function LocalizedKey(suite: Suite, protocol: AuthProtocol, password: bytes, engineId: bytes): bytes {
    var master := MasterKey(suite, protocol, password);
    suite.digest(protocol, master + engineId + master)
  }

  /** The chunked loops feed exactly the stretched password, wherever 64-octet chunks happen to fall. */
  method PasswordToMasterKey(suite: Suite, protocol: AuthProtocol, password: bytes) returns (key: bytes)
    ensures key == MasterKey(suite, protocol, password)
    ensures password != [] ==> exists s :: Repeats(password, s, 1_048_576) && key == suite.digest(protocol, s)
    ensures password == [] ==> key == Zeros(match protocol case Md5 => 16 case Sha1 => 20 case Sha256 => 32)
  {
    var count := STRETCH;
    var passLen := |password|;
    if passLen == 0 {
      return Zeros(DigestLen(protocol));
    }
    var hasher := new Hasher(protocol);
    var i := 0;
    while i < count
      invariant 0 <= i <= count
      invariant fresh(hasher) && hasher.absorbed == Cycle(password, 0, i)
    {
      var chunkEnd := if i + 64 < count then i + 64 else count;
      var chunkLen := chunkEnd - i;
      var buf := new byte[64](_ => 0);
      for j := 0 to chunkLen
        invariant fresh(hasher) && hasher.absorbed == Cycle(password, 0, i)
        invariant buf[..j] == Cycle(password, i, j)
      {
        CycleJoins(password, i, j, 1);
        buf[j] := password[(i + j) % passLen];
        assert buf[..j + 1] == buf[..j] + [buf[j]];
        assert [buf[j]] == Cycle(password, i + j, 1);
      }
      CycleJoins(password, 0, i, chunkLen);
      hasher.Update(buf[..chunkLen]);
      i := i + chunkLen;
    }
    key := hasher.Finalize(suite);
    assert Repeats(password, hasher.absorbed, 1_048_576);
  }

  method LocalizeKey(suite: Suite, protocol: AuthProtocol, master: bytes, engineId: bytes) returns (key: bytes)
    ensures key == suite.digest(protocol, master + engineId + master)
  {
    var hasher := new Hasher(protocol);
    hasher.Update(master);
    hasher.Update(engineId);
    hasher.Update(master);
    assert hasher.absorbed == master + engineId + master;
    key := hasher.Finalize(suite);
  }

  method PasswordToKey(suite: Suite, protocol: AuthProtocol, password: bytes, engineId: bytes) returns (key: bytes)
    ensures key == LocalizedKey(suite, protocol, password, engineId)
  {
    var master := PasswordToMasterKey(suite, protocol, password);
    key := LocalizeKey(suite, protocol, master, engineId);
  }

  // ---- Authentication ----

  function Mac(suite: Suite, protocol: AuthProtocol, key: bytes, message: bytes): (mac: bytes)
    requires suite.Sound()
    ensures |mac| == MacLen(protocol)
  {
    suite.hmac(protocol, key, message)[..MacLen(protocol)]
  }

  /** The comparison that looks at every octet accepts exactly the right MAC. */
  method VerifyAuth(suite: Suite, protocol: AuthProtocol, key: bytes, message: bytes, expected: bytes) returns (ok: bool)
    requires suite.Sound()
    ensures ok <==> expected == suite.hmac(protocol, key, message)[..match protocol case Md5 => 12 case Sha1 => 12 case Sha256 => 24]
    ensures ok <==> expected == Mac(suite, protocol, key, message)
  {
    var computed := Mac(suite, protocol, key, message);
    if |computed| != |expected| {
      return false;
    }
    var diff: byte := 0;
    for i := 0 to |computed|
      invariant diff == 0 <==> computed[..i] == expected[..i]
    {
      OrZero(diff, Xor(computed[i], expected[i]));
      XorZero(computed[i], expected[i]);
      assert computed[..i + 1] == computed[..i] + [computed[i]];
      assert expected[..i + 1] == expected[..i] + [expected[i]];
      diff := Or(diff, Xor(computed[i], expected[i]));
    }
    assert computed[..|computed|] == computed && expected[..|computed|] == expected;
    return diff == 0;
  }

  // ---- Privacy ----

  /** CBC-DES: the pre-IV is the second half of the key, masked with boots and the salt (section 8.1.1.1 of RFC 3414). */
  function DesIv(key: bytes, params: bytes): (iv: bytes)
    requires |key| >= 16 && |params| == 8
    ensures |iv| == 8
    ensures forall i :: 0 <= i < 8 ==> iv[i] == Xor(key[8 + i], params[i])
  {
    seq(8, i requires 0 <= i < 8 => Xor(key[8 + i], params[i]))
  }

  function DesParams(boots: u32, salt: u64): (s: bytes)
    ensures |s| == 8
  {
    BeBytes(boots, 4) + BeBytes(ToU32(salt), 4)
  }

  /** CFB-AES: boots, time and salt side by side (section 3.1.2.1 of RFC 3826). */
  function AesIv(boots: u32, time: u32, params: bytes): (iv: bytes)
    requires |params| == 8
    ensures |iv| == 16
  {
    BeBytes(boots, 4) + BeBytes(time, 4) + params
  }

  // The vectors by what the standards say of them.

  predicate IsDesVector(iv: bytes, key: bytes, params: bytes)
    requires |key| >= 16 && |params| == 8
  {
    |iv| == 8 && forall i :: 0 <= i < 8 ==> iv[i] == Xor(key[8 + i], params[i])
  }

  predicate IsAesVector(iv: bytes, boots: u32, time: u32, params: bytes) {
    |iv| == 16 && Unsigned(iv[..4]) == boots && Unsigned(iv[4..8]) == time && iv[8..] == params
  }

  lemma AesVector(iv: bytes, boots: u32, time: u32, params: bytes)
    requires |params| == 8
    ensures IsAesVector(iv, boots, time, params) <==> iv == AesIv(boots, time, params)
  {
    hide BeBytes;
    var e := AesIv(boots, time, params);
    HalfOfEight();
    assert e[..4] == BeBytes(boots, 4) && e[4..8] == BeBytes(time, 4) && e[8..] == params;
    UnsignedOfBeBytes(boots, 4);
    UnsignedOfBeBytes(time, 4);
    if IsAesVector(iv, boots, time, params) {
      UnsignedInjective(iv[..4], e[..4]);
      UnsignedInjective(iv[4..8], e[4..8]);
      assert iv == iv[..4] + iv[4..8] + iv[8..] && e == e[..4] + e[4..8] + e[8..];
    }
  }

  lemma DesVector(iv: bytes, key: bytes, params: bytes)
    requires |key| >= 16 && |params| == 8
    ensures IsDesVector(iv, key, params) <==> iv == DesIv(key, params)
  {
    hide Xor;
  }

  /** msgPrivacyParameters: boots and the low half of the salt under DES, the whole salt under AES. */
  lemma PrivacyParameters(boots: u32, salt: u64)
    ensures Unsigned(DesParams(boots, salt)[..4]) == boots
    ensures Unsigned(DesParams(boots, salt)[4..]) == salt % 0x1_0000_0000
    ensures Unsigned(BeBytes(salt, 8)) == salt
  {
    hide BeBytes;
    HalfOfEight();
    var p := DesParams(boots, salt);
    assert p[..4] == BeBytes(boots, 4) && p[4..] == BeBytes(ToU32(salt), 4);
    UnsignedOfBeBytes(boots, 4);
    UnsignedOfBeBytes(ToU32(salt), 4);
    UnsignedOfBeBytes(salt, 8);
  }

  function PadLen(n: nat): (k: nat)
    ensures k < 8 && (n + k) % 8 == 0
  {
    (8 - n % 8) % 8
  }

  function Padded(data: bytes): (s: bytes)
    ensures |s| % 8 == 0
  {
    data + Zeros(PadLen(|data|))
  }

  /** Ciphertext and privacy parameters. */
  function Encrypted(suite: Suite, protocol: PrivProtocol, key: bytes, boots: u32, time: u32, salt: u64, data: bytes)
    : (r: (bytes, bytes))
    requires |key| >= 16
    ensures |r.1| == 8
  {
    match protocol
    case Des =>
      var params := DesParams(boots, salt);
      (suite.desEncrypt(key[..8], DesIv(key, params), Padded(data)), params)
    case Aes128 =>
      var params := BeBytes(salt, 8);
      (suite.aesEncrypt(key[..16], AesIv(boots, time, params), data), params)
  }

  function Decrypted(suite: Suite, protocol: PrivProtocol, key: bytes, boots: u32, time: u32, params: bytes, data: bytes)
    : Result<bytes>
    requires |key| >= 16
  {
    if |params| != 8 then Err(DecryptFailed)
    else match protocol
      case Des =>
        if |data| % 8 != 0 then Err(DecryptFailed)
        else Ok(suite.desDecrypt(key[..8], DesIv(key, params), data))
      case Aes128 => Ok(suite.aesDecrypt(key[..16], AesIv(boots, time, params), data))
  }

  /** Decryption returns the data, followed under DES by the zeros that filled its last block. */
  lemma DecryptUndoesEncrypt(suite: Suite, protocol: PrivProtocol, key: bytes, boots: u32, time: u32, salt: u64, data: bytes)
    requires suite.Sound() && |key| >= 16
    ensures var (cipher, params) := Encrypted(suite, protocol, key, boots, time, salt, data);
            Decrypted(suite, protocol, key, boots, time, params, cipher)
            == Ok(if protocol.Des? then data + Zeros(PadLen(|data|)) else data)
  {
  }

  /** The initialization vector is filled octet by octet in a fixed buffer. */
  method FillDesIv(key: bytes, params: bytes) returns (iv: bytes)
    requires |key| >= 16 && |params| == 8
    ensures iv == DesIv(key, params)
  {
    var buf := new byte[8](_ => 0);
    for i := 0 to 8
      invariant forall k :: 0 <= k < i ==> buf[k] == Xor(key[8 + k], params[k])
    {
      buf[i] := Xor(key[8 + i], params[i]);
    }
    iv := buf[..];
  }

  method Encrypt(suite: Suite, protocol: PrivProtocol, key: bytes, boots: u32, time: u32, salt: u64, data: bytes)
    returns (cipher: bytes, params: bytes)
    requires |key| >= 16
    ensures (cipher, params) == Encrypted(suite, protocol, key, boots, time, salt, data)
    ensures |params| == 8
    ensures protocol.Des? ==>
              && Unsigned(params[..4]) == boots && Unsigned(params[4..]) == salt % 0x1_0000_0000
              && exists iv :: IsDesVector(iv, key, params)
                              && cipher == suite.desEncrypt(key[..8], iv, data + Zeros(PadLen(|data|)))
    ensures protocol.Aes128? ==>
              && Unsigned(params) == salt
              && exists iv :: IsAesVector(iv, boots, time, params) && cipher == suite.aesEncrypt(key[..16], iv, data)
  {
    hide BeBytes, Xor;
    PrivacyParameters(boots, salt);
    match protocol {
      case Des =>
        params := BeBytes(boots, 4);
        params := params + BeBytes(ToU32(salt), 4);
        var iv := FillDesIv(key, params);
        var padLen := (8 - |data| % 8) % 8;
        var padded := data;
        padded := padded + Zeros(padLen);
        cipher := suite.desEncrypt(key[..8], iv, padded);
        assert IsDesVector(iv, key, params);
      case Aes128 =>
        params := BeBytes(salt, 8);
        var iv := BeBytes(boots, 4) + BeBytes(time, 4) + params;
        AesVector(iv, boots, time, params);
        cipher := suite.aesEncrypt(key[..16], iv, data);
    }
  }

  method Decrypt(suite: Suite, protocol: PrivProtocol, key: bytes, boots: u32, time: u32, params: bytes, data: bytes)
    returns (r: Result<bytes>)
    requires |key| >= 16
    ensures r == Decrypted(suite, protocol, key, boots, time, params, data)
    ensures r.Err? <==> |params| != 8 || (protocol.Des? && |data| % 8 != 0)
    ensures r.Ok? && protocol.Des? ==>
              exists iv :: IsDesVector(iv, key, params) && r.value == suite.desDecrypt(key[..8], iv, data)
    ensures r.Ok? && protocol.Aes128? ==>
              exists iv :: IsAesVector(iv, boots, time, params) && r.value == suite.aesDecrypt(key[..16], iv, data)
  {
    hide BeBytes, Xor;
    if |params| != 8 {
      return Err(DecryptFailed);
    }
    match protocol {
      case Des =>
        var iv := FillDesIv(key, params);
        if |data| % 8 != 0 {
          return Err(DecryptFailed);
        }
        assert IsDesVector(iv, key, params);
        return Ok(suite.desDecrypt(key[..8], iv, data));
      case Aes128 =>
        var iv := BeBytes(boots, 4) + BeBytes(time, 4) + params;
        AesVector(iv, boots, time, params);
        return Ok(suite.aesDecrypt(key[..16], iv, data));
    }
  }
}
