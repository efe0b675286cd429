/** Counters over whole runs: message and request identifiers, salts, and the initialization vectors made of them. */
module Freshness {
  import opened Octets
  import opened Integers
  import opened Crypto

  const MAX_ID: nat := 0x7FFF_FFFF

  /** One step of `next_request_id` and `next_msg_id`: wrapping increment, negatives become 1. */
  function NextId(id: i32): i32 {
    var next := ToI32(id + 1);
    if next < 0 then 1 else next
  }

  /** The identifier after `n` calls. */
  function IdAfter(id: i32, n: nat): i32 {
    if n == 0 then id else NextId(IdAfter(id, n - 1))
  }

  function NextSalt(salt: u64): u64 {
    ToU64(salt + 1)
  }

  function SaltAfter(salt: u64, n: nat): u64 {
    if n == 0 then salt else NextSalt(SaltAfter(salt, n - 1))
  }

  // ---- Identifiers ----

  lemma NextOfId(id: i32)
    requires id >= 0
    ensures NextId(id) == if id == MAX_ID then 1 else id + 1
  {
  }

  /** Starting from any non-negative value, identifiers count round the cycle 1 .. 2^31 - 1. */
  lemma {:induction false} IdCycle(id: i32, n: nat)
    requires id >= 0 && n >= 1
    ensures IdAfter(id, n) == (id + n - 1) % MAX_ID + 1
  {
    hide NextId;
    if n == 1 {
      assert IdAfter(id, 0) == id;
      NextOfId(id);
      FirstOfCycle(id);
    } else {
      IdCycle(id, n - 1);
      NextOfId(IdAfter(id, n - 1));
      CycleStep(id + n - 2);
    }
  }

  lemma FirstOfCycle(id: nat)
    requires id <= MAX_ID
    ensures id % MAX_ID == if id == MAX_ID then 0 else id
  {
  }

  lemma CycleStep(x: nat)
    ensures (x + 1) % MAX_ID == if x % MAX_ID + 1 == MAX_ID then 0 else x % MAX_ID + 1
  {
    var q, r := x / MAX_ID, x % MAX_ID;
    if r + 1 == MAX_ID {
      ModUnique(q + 1, 0, x + 1, MAX_ID);
    } else {
      ModUnique(q, r + 1, x + 1, MAX_ID);
    }
  }

  /** Every identifier lies in 1 .. 2^31 - 1, whatever the start, except that a start of -1 yields 0 first. */
  lemma {:induction false} IdRange(id: i32, n: nat)
    requires n >= 1
    ensures 1 <= IdAfter(id, n) <= MAX_ID <==> !(id == -1 && n == 1)
    decreases n
  {
    if n == 1 {
      assert IdAfter(id, 0) == id;
    } else {
      IdRange(id, n - 1);
      if id == -1 && n == 2 {
        assert IdAfter(id, 0) == -1;
        assert IdAfter(id, 1) == 0;
      }
    }
  }

  lemma SameResidue(x: int, y: int, m: nat)
    requires m > 0
    ensures x % m == y % m <==> (x - y) % m == 0
  {
    var q, p := x / m, y / m;
    if x % m == y % m {
      assert x - y == (q - p) * m;
      ModUnique(q - p, 0, x - y, m);
    }
    if (x - y) % m == 0 {
      var k := (x - y) / m;
      assert x == (k + p) * m + y % m;
      ModUnique(k + p, y % m, x, m);
    }
  }

  /** Two calls return the same identifier exactly when a whole number of cycles lies between them. */
  lemma IdsRepeat(id: i32, i: nat, j: nat)
    requires id >= 0 && i >= 1 && j >= 1
    ensures IdAfter(id, i) == IdAfter(id, j) <==> (i - j) % MAX_ID == 0
  {
    hide IdAfter;
    IdCycle(id, i);
    IdCycle(id, j);
    SameResidue(id + i - 1, id + j - 1, MAX_ID);
  }

  // ---- Salts ----

  lemma {:induction false} SaltCycle(salt: u64, n: nat)
    ensures SaltAfter(salt, n) == ToU64(salt + n)
  {
    if n > 0 {
      SaltCycle(salt, n - 1);
      ModShift(salt + n - 1, 1, 1, 0x1_0000_0000_0000_0000);
    }
  }

  lemma SaltsRepeat(salt: u64, i: nat, j: nat)
    ensures SaltAfter(salt, i) == SaltAfter(salt, j) <==> (i - j) % 0x1_0000_0000_0000_0000 == 0
  {
    hide SaltAfter;
    SaltCycle(salt, i);
    SaltCycle(salt, j);
    SameResidue(salt + i, salt + j, 0x1_0000_0000_0000_0000);
  }

  lemma LowHalf(x: int)
    ensures ToU32(ToU64(x)) == ToU32(x)
  {
    var q := x / 0x1_0000_0000_0000_0000;
    assert x == (q * 0x1_0000_0000) * 0x1_0000_0000 + ToU64(x);
    ModOfMultiple(q * 0x1_0000_0000, ToU64(x), 0x1_0000_0000);
  }

  lemma LowSaltsRepeat(salt: u64, i: nat, j: nat)
    ensures ToU32(SaltAfter(salt, i)) == ToU32(SaltAfter(salt, j)) <==> (i - j) % 0x1_0000_0000 == 0
  {
    hide SaltAfter;
    SaltCycle(salt, i);
    SaltCycle(salt, j);
    LowHalf(salt + i);
    LowHalf(salt + j);
    SameResidue(salt + i, salt + j, 0x1_0000_0000);
  }

  // ---- Initialization vectors ----

  lemma BeBytesInjective(v: nat, w: nat, k: nat)
    requires k >= 1 && v < 2 * Half(k) && w < 2 * Half(k)
    ensures BeBytes(v, k) == BeBytes(w, k) <==> v == w
  {
    UnsignedOfBeBytes(v, k);
    UnsignedOfBeBytes(w, k);
  }

  /**
   AES vectors of calls `i` and `j` coincide exactly when boots and time do and a multiple of 2^64 calls
   lies between them, so never within 2^64 calls.
   */
  lemma AesIvsRepeat(salt: u64, i: nat, j: nat, boots1: u32, time1: u32, boots2: u32, time2: u32)
    ensures AesIv(boots1, time1, BeBytes(SaltAfter(salt, i), 8)) == AesIv(boots2, time2, BeBytes(SaltAfter(salt, j), 8))
            <==> boots1 == boots2 && time1 == time2 && (i - j) % 0x1_0000_0000_0000_0000 == 0
  {
    hide BeBytes, SaltAfter;
    var p1, p2 := BeBytes(SaltAfter(salt, i), 8), BeBytes(SaltAfter(salt, j), 8);
    var v1, v2 := AesIv(boots1, time1, p1), AesIv(boots2, time2, p2);
    assert v1[..4] == BeBytes(boots1, 4) && v1[4..8] == BeBytes(time1, 4) && v1[8..] == p1;
    assert v2[..4] == BeBytes(boots2, 4) && v2[4..8] == BeBytes(time2, 4) && v2[8..] == p2;
    HalfOfEight();
    BeBytesInjective(boots1, boots2, 4);
    BeBytesInjective(time1, time2, 4);
    BeBytesInjective(SaltAfter(salt, i), SaltAfter(salt, j), 8);
    SaltsRepeat(salt, i, j);
  }

  /**
   DES vectors under one key coincide exactly when boots do and a multiple of 2^32 calls lies between them,
   so never within 2^32 calls.
   */
  lemma DesIvsRepeat(key: bytes, salt: u64, i: nat, j: nat, boots1: u32, boots2: u32)
    requires |key| >= 16
    ensures DesIv(key, DesParams(boots1, SaltAfter(salt, i))) == DesIv(key, DesParams(boots2, SaltAfter(salt, j)))
            <==> boots1 == boots2 && (i - j) % 0x1_0000_0000 == 0
  {
    hide SaltAfter;
    var s1, s2 := SaltAfter(salt, i), SaltAfter(salt, j);
    DesIvInjective(key, DesParams(boots1, s1), DesParams(boots2, s2));
    DesParamsInjective(boots1, s1, boots2, s2);
    LowSaltsRepeat(salt, i, j);
  }

  lemma DesIvInjective(key: bytes, p: bytes, q: bytes)
    requires |key| >= 16 && |p| == 8 && |q| == 8
    ensures DesIv(key, p) == DesIv(key, q) <==> p == q
  {
    hide Xor;
    forall i | 0 <= i < 8
      ensures DesIv(key, p)[i] == DesIv(key, q)[i] <==> p[i] == q[i]
    {
      XorCancels(key[8 + i], p[i], q[i]);
    }
    if DesIv(key, p) == DesIv(key, q) {
      assert forall i :: 0 <= i < 8 ==> p[i] == q[i];
    }
  }

  lemma DesParamsInjective(boots1: u32, s1: u64, boots2: u32, s2: u64)
    ensures DesParams(boots1, s1) == DesParams(boots2, s2) <==> boots1 == boots2 && ToU32(s1) == ToU32(s2)
  {
    hide BeBytes, ToU32;
    var p1, p2 := DesParams(boots1, s1), DesParams(boots2, s2);
    assert p1[..4] == BeBytes(boots1, 4) && p1[4..] == BeBytes(ToU32(s1), 4);
    assert p2[..4] == BeBytes(boots2, 4) && p2[4..] == BeBytes(ToU32(s2), 4);
    HalfOfEight();
    BeBytesInjective(boots1, boots2, 4);
    BeBytesInjective(ToU32(s1), ToU32(s2), 4);
  }
}
