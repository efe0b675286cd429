/** Dotted text of object identifiers: printing and parsing. */
module OidText {
  import opened Octets
  import opened Results
  import opened Types

  // ---- Printing ----

  function Digit(d: nat): char
    requires d < 10
  {
    '0' + d as char
  }

  function Decimal(n: nat): string {
    if n < 10 then [Digit(n)] else Decimal(n / 10) + [Digit(n % 10)]
  }

  /** The components in decimal, joined by dots. */
  function ToString(o: Oid): string {
    if o == [] then ""
    else if |o| == 1 then Decimal(o[0])
    else Decimal(o[0]) + "." + ToString(o[1..])
  }

  /** Decimal, most significant digit first. */
  lemma TextExample()
    ensures ToString([1, 3, 311]) == "1.3.311"
  {
    assert Decimal(31) == "31" && Decimal(311) == "311";
    assert ToString([311]) == "311" && ToString([3, 311]) == "3.311";
  }

  // ---- Parsing ----

  function TrimDots(s: string): string {
    if s != [] && s[0] == '.' then TrimDots(s[1..]) else s
  }

  /** The parts between dots; one empty part for the empty string. */
  function Split(s: string): (parts: seq<string>)
    ensures parts != []
  {
    if s == [] then [""]
    else
      var parts := Split(s[1..]);
      if s[0] == '.' then [""] + parts else [[s[0]] + parts[0]] + parts[1..]
  }

  function ParseDigits(s: string, acc: u32): Result<u32> {
    if s == [] then Ok(acc)
    else if !('0' <= s[0] <= '9') then Err(InvalidOidString)
    else
      var next := acc * 10 + (s[0] - '0') as int;
      if next >= 0x1_0000_0000 then Err(InvalidOidString) else ParseDigits(s[1..], next)
  }

  /** One component: digits, possibly after a plus sign, within 32 bits. */
  function ParseU32(s: string): Result<u32> {
    if s == [] || s == "+" then Err(InvalidOidString)
    else if s[0] == '+' then ParseDigits(s[1..], 0)
    else ParseDigits(s, 0)
  }

  function ParseAll(parts: seq<string>): Result<Oid> {
    if parts == [] then Ok([])
    else
      var first :- ParseU32(parts[0]);
      var rest :- ParseAll(parts[1..]);
      Ok([first] + rest)
  }

  function FromString(s: string): Result<Oid> {
    ParseAll(Split(TrimDots(s)))
  }

  // ---- Round trip ----

  lemma DigitsAreDigits(d: nat)
    requires d < 10
    ensures '0' <= Digit(d) <= '9' && (Digit(d) - '0') as int == d
  {
  }

  lemma {:induction false} DecimalStart(n: nat)
    ensures Decimal(n) != [] && '0' <= Decimal(n)[0] <= '9'
    ensures forall i :: 0 <= i < |Decimal(n)| ==> Decimal(n)[i] != '.'
  {
    DigitsAreDigits(n % 10);
    if n >= 10 {
      DecimalStart(n / 10);
    }
  }

  lemma {:induction false} ParseDecimal(n: u32, t: string)
    ensures ParseDigits(Decimal(n) + t, 0) == ParseDigits(t, n)
    decreases n
  {
    var d := Digit(n % 10);
    DigitsAreDigits(n % 10);
    var t' := [d] + t;
    assert t'[1..] == t;
    if n < 10 {
      assert Decimal(n) + t == t';
    } else {
      assert Decimal(n) + t == Decimal(n / 10) + t';
      ParseDecimal(n / 10, t');
    }
  }

  lemma ParsePrinted(n: u32)
    ensures ParseU32(Decimal(n)) == Ok(n)
  {
    DecimalStart(n);
    ParseDecimal(n, "");
    assert Decimal(n) + "" == Decimal(n);
  }

  /** A dot after a part without dots ends that part. */
  lemma {:induction false} SplitAtDot(part: string, rest: string)
    requires forall i :: 0 <= i < |part| ==> part[i] != '.'
    ensures Split(part + "." + rest) == [part] + Split(rest)
    ensures Split(part) == [part]
  {
    var s := part + "." + rest;
    if part == [] {
      assert s == ['.'] + rest && s[1..] == rest;
    } else {
      SplitAtDot(part[1..], rest);
      assert s[1..] == part[1..] + "." + rest;
      assert [part[0]] + part[1..] == part;
      assert ([part[1..]] + Split(rest))[1..] == Split(rest);
    }
  }

  lemma {:induction false} ParseJoined(o: Oid)
    requires o != []
    ensures ParseAll(Split(ToString(o))) == Ok(o)
  {
    DecimalStart(o[0]);
    ParsePrinted(o[0]);
    assert o == [o[0]] + o[1..];
    if |o| == 1 {
      SplitAtDot(Decimal(o[0]), "");
      assert ParseAll([Decimal(o[0])][1..]) == Ok([]) && o[1..] == [];
    } else {
      SplitAtDot(Decimal(o[0]), ToString(o[1..]));
      ParseJoined(o[1..]);
      assert ([Decimal(o[0])] + Split(ToString(o[1..])))[1..] == Split(ToString(o[1..]));
    }
  }

  function Dots(k: nat): string {
    if k == 0 then "" else "." + Dots(k - 1)
  }

  lemma {:induction false} TrimLeading(k: nat, s: string)
    requires s == [] || s[0] != '.'
    ensures TrimDots(Dots(k) + s) == s
  {
    if k > 0 {
      TrimLeading(k - 1, s);
      assert (Dots(k) + s)[1..] == Dots(k - 1) + s;
    } else {
      assert Dots(0) + s == s;
    }
  }

  /** Printed identifiers parse back, any number of leading dots aside, exactly when they are not empty. */
  lemma TextRoundTrip(o: Oid, k: nat)
    ensures FromString(Dots(k) + ToString(o)) == Ok(o) <==> o != []
  {
    if o != [] {
      DecimalStart(o[0]);
      assert ToString(o)[0] == Decimal(o[0])[0];
      TrimLeading(k, ToString(o));
      ParseJoined(o);
    } else {
      TrimLeading(k, "");
      assert ParseU32("").Err?;
    }
  }
}
