/** INTEGER contents octets (section 8.3 of X.690) and their unsigned relatives. */
module Integers {
  import opened Octets

  /** Big-endian accumulation, most significant octet first. */
  function Accumulate(init: int, s: bytes): int {
    if s == [] then init else Accumulate(init, s[..|s| - 1]) * 256 + s[|s| - 1]
  }

  function Unsigned(s: bytes): nat {
    if s == [] then 0 else Unsigned(s[..|s| - 1]) * 256 + s[|s| - 1]
  }

  /** The two's-complement value of a non-empty string of octets. */
  function Signed(s: bytes): int
    requires s != []
  {
    if |s| == 1 then (if s[0] < 128 then s[0] else s[0] - 256)
    else Signed(s[..|s| - 1]) * 256 + s[|s| - 1]
  }

  /** What the decoder makes of any contents octets: the low 64 bits, and zero for none at all. */
  function IntegerOf(s: bytes): i64 {
    if s == [] then 0 else ToI64(Signed(s))
  }

  function U32Of(s: bytes): u32 {
    ToU32(Unsigned(s))
  }

  function U64Of(s: bytes): u64 {
    ToU64(Unsigned(s))
  }

  /** The shortest two's-complement form, defined by its own recursion and not by stripping. */
  function IntBytes(v: int): (s: bytes)
    ensures s != []
    decreases if v < 0 then -v else v
  {
    if -128 <= v < 128 then [v % 256] else IntBytes(v / 256) + [v % 256]
  }

  /** Fixed-width big-endian octets of the low `8 * k` bits. */
  function BeBytes(v: int, k: nat): (s: bytes)
    ensures |s| == k
    decreases k
  {
    if k == 0 then [] else BeBytes(v / 256, k - 1) + [v % 256]
  }

  /** The first nine bits are all equal, so the first octet says nothing. */
  predicate Redundant(s: bytes) {
    |s| > 1 && ((s[0] == 0 && s[1] < 128) || (s[0] == 255 && s[1] >= 128))
  }

  // Half(k) is 2^(8k - 1): the k-octet range is -Half(k) <= v < Half(k).

  function Half(k: nat): (h: int)
    requires k >= 1
    ensures h >= 128
  {
    if k == 1 then 128 else 256 * Half(k - 1)
  }

  lemma {:induction false} SignedOfIntBytes(v: int)
    ensures Signed(IntBytes(v)) == v
    decreases if v < 0 then -v else v
  {
    if !(-128 <= v < 128) {
      SignedOfIntBytes(v / 256);
      assert IntBytes(v)[..|IntBytes(v)| - 1] == IntBytes(v / 256);
    }
  }

  lemma {:induction false} RedundancyIsSmallness(s: bytes)
    requires |s| > 1 && !Redundant(s)
    ensures !(-128 <= Signed(s) < 128)
  {
    var front := s[..|s| - 1];
    if |s| > 2 {
      RedundancyIsSmallness(front);
    }
  }

  lemma {:induction false} IntBytesOfSigned(s: bytes)
    requires s != [] && !Redundant(s)
    ensures IntBytes(Signed(s)) == s
  {
    if |s| > 1 {
      var front, last := s[..|s| - 1], s[|s| - 1];
      RedundancyIsSmallness(s);
      IntBytesOfSigned(front);
      assert Signed(s) / 256 == Signed(front) && Signed(s) % 256 == last;
      assert s == front + [last];
    }
  }

  lemma {:induction false} IntBytesFit(v: int, k: nat)
    requires k >= 1 && -Half(k) <= v < Half(k)
    ensures |IntBytes(v)| <= k
    decreases k
  {
    if !(-128 <= v < 128) {
      IntBytesFit(v / 256, k - 1);
    }
  }

  lemma HalfOfEight()
    ensures Half(8) == 0x8000_0000_0000_0000
    ensures Half(9) == 0x80_0000_0000_0000_0000
    ensures Half(5) == 0x80_0000_0000
    ensures Half(4) == 0x8000_0000
  {
    assert Half(2) == 0x8000;
    assert Half(3) == 0x80_0000;
    assert Half(4) == 0x8000_0000;
    assert Half(5) == 0x80_0000_0000;
    assert Half(6) == 0x8000_0000_0000;
    assert Half(7) == 0x80_0000_0000_0000;
    assert Half(8) == 0x8000_0000_0000_0000;
  }

  lemma {:induction false} SignedRange(s: bytes)
    requires s != []
    ensures -Half(|s|) <= Signed(s) < Half(|s|)
  {
    if |s| > 1 {
      SignedRange(s[..|s| - 1]);
    }
  }

  /** INTEGER round trip on every i64. */
  lemma IntegerRoundTrip(v: i64)
    ensures IntegerOf(IntBytes(v)) == v
  {
    SignedOfIntBytes(v);
  }

  lemma {:induction false} HalfGrows(j: nat, k: nat)
    requires 1 <= j <= k
    ensures Half(j) <= Half(k)
    decreases k - j
  {
    if j < k {
      HalfGrows(j, k - 1);
    }
  }

  /** Canonicality: nothing shorter decodes to the same value, and nothing else of the same length does. */
  lemma IntegerCanonical(v: i64, s: bytes)
    requires s != [] && IntegerOf(s) == v
    ensures |IntBytes(v)| <= |s|
    ensures |IntBytes(v)| == |s| ==> s == IntBytes(v)
  {
    IntegerLength(v);
    if |s| <= 8 {
      ShortIsExact(s);
      SignedRange(s);
      IntBytesFit(v, |s|);
      if |IntBytes(v)| == |s| {
        NotRedundantWhenShortest(s);
        IntBytesOfSigned(s);
      }
    }
  }

  lemma IntegerLength(v: i64)
    ensures |IntBytes(v)| <= 8
  {
    HalfOfEight();
    IntBytesFit(v, 8);
  }

  lemma ShortIsExact(s: bytes)
    requires 1 <= |s| <= 8
    ensures IntegerOf(s) == Signed(s)
  {
    SignedRange(s);
    HalfGrows(|s|, 8);
    HalfOfEight();
  }

  lemma NotRedundantWhenShortest(s: bytes)
    requires s != [] && |IntBytes(Signed(s))| == |s|
    ensures !Redundant(s)
  {
    if Redundant(s) {
      DropRedundant(s);
      SignedRange(s[1..]);
      IntBytesFit(Signed(s), |s| - 1);
      assert false;
    }
  }

  /** Dropping a redundant octet keeps the value. */
  lemma {:induction false} DropRedundant(s: bytes)
    requires Redundant(s)
    ensures Signed(s[1..]) == Signed(s)
  {
    if |s| > 2 {
      var front := s[..|s| - 1];
      DropRedundant(front);
      assert s[1..][..|s| - 2] == front[1..];
    } else {
      assert s[..1] == [s[0]];
    }
  }

  lemma {:induction false} SignedOfBeBytes(v: int, k: nat)
    requires k >= 1 && -Half(k) <= v < Half(k)
    ensures Signed(BeBytes(v, k)) == v
    decreases k
  {
    if k > 1 {
      SignedOfBeBytes(v / 256, k - 1);
      assert BeBytes(v, k)[..k - 1] == BeBytes(v / 256, k - 1);
    } else {
      assert BeBytes(v, 1) == [] + [v % 256];
    }
  }

  lemma {:induction false} SignFromFirst(s: bytes)
    requires s != []
    ensures Signed(s) < 0 <==> s[0] >= 128
    ensures s[0] < 128 ==> Unsigned(s) == Signed(s)
  {
    if |s| > 1 {
      SignFromFirst(s[..|s| - 1]);
    } else {
      assert s[..0] == [];
    }
  }

  lemma UnsignedOfIntBytes(v: nat)
    ensures Unsigned(IntBytes(v)) == v
  {
    SignedOfIntBytes(v);
    SignFromFirst(IntBytes(v));
  }

  /** Unsigned round trips; the low 32 or 64 bits are all that the reader keeps. */
  lemma UnsignedRoundTrip(v: nat)
    ensures U32Of(IntBytes(v)) == v <==> v < 0x1_0000_0000
    ensures U64Of(IntBytes(v)) == v <==> v < 0x1_0000_0000_0000_0000
  {
    UnsignedOfIntBytes(v);
  }

  // The loops of the codec.

  method EncodeIntegerBytes(val: i64) returns (out: bytes)
    ensures out == IntBytes(val)
  {
    if val == 0 {
      return [0x00];
    }
    HalfOfEight();
    SignedOfBeBytes(val, 8);
    out := BeBytes(val, 8);
    if val > 0 {
      while |out| > 1 && out[0] == 0x00 && out[1] < 0x80
        invariant out != [] && Signed(out) == val
      {
        DropRedundant(out);
        out := out[1..];
      }
    } else {
      while |out| > 1 && out[0] == 0xFF && out[1] >= 0x80
        invariant out != [] && Signed(out) == val
      {
        DropRedundant(out);
        out := out[1..];
      }
    }
    SignFromFirst(out);
    IntBytesOfSigned(out);
  }

  method EncodeUnsigned32(val: u32) returns (out: bytes)
    ensures out == IntBytes(val)
  {
    out := EncodeIntegerBytes(val);
  }

  lemma {:induction false} UnsignedOfBeBytes(v: nat, k: nat)
    requires k >= 1 && v < 2 * Half(k)
    ensures Unsigned(BeBytes(v, k)) == v
    decreases k
  {
    var s := BeBytes(v, k);
    if k > 1 {
      UnsignedOfBeBytes(v / 256, k - 1);
      assert s[..k - 1] == BeBytes(v / 256, k - 1);
      assert s[k - 1] == v % 256;
    } else {
      assert s == [v % 256];
      assert s[..0] == [];
    }
  }

  /** Octets of one length are told apart by their value. */
  lemma {:induction false} UnsignedInjective(s: bytes, t: bytes)
    requires |s| == |t| && Unsigned(s) == Unsigned(t)
    ensures s == t
  {
    if s != [] {
      var k := |s| - 1;
      UnsignedInjective(s[..k], t[..k]);
      assert s == s[..k] + [s[k]] && t == t[..k] + [t[k]];
    }
  }

  lemma {:induction false} UnsignedDropsZero(s: bytes)
    requires s != [] && s[0] == 0
    ensures Unsigned(s[1..]) == Unsigned(s)
  {
    if |s| > 1 {
      UnsignedDropsZero(s[..|s| - 1]);
      assert s[1..][..|s| - 2] == s[..|s| - 1][1..];
    } else {
      assert s[..0] == [];
    }
  }

  /** A value that needs the top bit of `k` octets takes one more, a leading zero. */
  lemma TopBit(v: nat, k: nat)
    requires k >= 1 && Half(k) <= v < 2 * Half(k)
    ensures IntBytes(v) == [0] + BeBytes(v, k)
  {
    var b := BeBytes(v, k);
    var s: bytes := [0] + b;
    UnsignedOfBeBytes(v, k);
    UnsignedDropsZero(s);
    assert s[1..] == b;
    SignFromFirst(s);
    SignFromFirst(b);
    SignedRange(b);
    IntBytesOfSigned(s);
  }

  /** The 32-bit and 64-bit unsigned forms: at most five and nine octets, exactly that with the top bit set. */
  lemma UnsignedLength(v: nat)
    ensures v < 0x1_0000_0000 ==> |IntBytes(v)| <= 5
    ensures 0x8000_0000 <= v < 0x1_0000_0000 ==> IntBytes(v) == [0] + BeBytes(v, 4)
    ensures v < 0x1_0000_0000_0000_0000 ==> |IntBytes(v)| <= 9
    ensures 0x8000_0000_0000_0000 <= v < 0x1_0000_0000_0000_0000 ==> IntBytes(v) == [0] + BeBytes(v, 8)
  {
    HalfOfEight();
    if v < 0x8000_0000 {
      IntBytesFit(v, 4);
    } else if v < 0x1_0000_0000 {
      TopBit(v, 4);
    } else if v < 0x8000_0000_0000_0000 {
      IntBytesFit(v, 8);
    } else if v < 0x1_0000_0000_0000_0000 {
      TopBit(v, 8);
    }
  }

  method EncodeUnsigned64(val: u64) returns (out: bytes)
    ensures out == IntBytes(val)
  {
    if val == 0 {
      return [0x00];
    }
    HalfOfEight();
    UnsignedOfBeBytes(val, 8);
    var octets := BeBytes(val, 8);
    var start := 0;
    while start < 7 && octets[start] == 0
      invariant 0 <= start <= 7
      invariant Unsigned(octets[start..]) == val
    {
      UnsignedDropsZero(octets[start..]);
      assert octets[start..][1..] == octets[start + 1..];
      start := start + 1;
    }
    var tail := octets[start..];
    if start == 7 {
      assert tail == [octets[7]];
      assert tail[..0] == [];
      assert Unsigned([]) == 0;
    }
    assert tail[0] != 0;
    if octets[start] >= 0x80 {
      out := [0x00] + tail;
      UnsignedDropsZero(out);
      assert out[1..] == tail;
    } else {
      out := tail;
    }
    SignFromFirst(out);
    IntBytesOfSigned(out);
  }

  lemma {:induction false} AccumulateSigned(s: bytes)
    requires s != []
    ensures Accumulate(if s[0] >= 128 then -1 else 0, s) == Signed(s)
  {
    if |s| > 1 {
      AccumulateSigned(s[..|s| - 1]);
    } else {
      assert s[..0] == [];
    }
  }

  method DecodeInteger(data: bytes) returns (val: i64)
    ensures val == IntegerOf(data)
  {
    if data == [] {
      return 0;
    }
    ghost var init := if data[0] >= 0x80 then -1 else 0;
    val := if data[0] >= 0x80 then -1 else 0;
    for i := 0 to |data|
      invariant val == ToI64(Accumulate(init, data[..i]))
    {
      assert data[..i + 1][..i] == data[..i];
      ShiftI64(Accumulate(init, data[..i]), data[i]);
      val := ToI64(val * 256 + data[i]);
    }
    assert data[..|data|] == data;
    AccumulateSigned(data);
  }

  method DecodeUnsigned32(data: bytes) returns (val: u32)
    ensures val == U32Of(data)
  {
    val := 0;
    for i := 0 to |data|
      invariant val == U32Of(data[..i])
    {
      assert data[..i + 1][..i] == data[..i];
      ModShift(Unsigned(data[..i]), data[i], 256, 0x1_0000_0000);
      val := ToU32(val * 256 + data[i]);
    }
    assert data[..|data|] == data;
  }

  method DecodeUnsigned64(data: bytes) returns (val: u64)
    ensures val == U64Of(data)
  {
    val := 0;
    for i := 0 to |data|
      invariant val == U64Of(data[..i])
    {
      assert data[..i + 1][..i] == data[..i];
      ModShift(Unsigned(data[..i]), data[i], 256, 0x1_0000_0000_0000_0000);
      val := ToU64(val * 256 + data[i]);
    }
    assert data[..|data|] == data;
  }
}
