/**
 IPv4 addresses as 32-bit numbers and their dotted decimal text (dhcp/ipv4.go). Every key of
 the lease index that stands for an address is such a text, so the index is only as good as
 this codec.
 */
module Ipv4 {
  import opened Bits
  import opened Wrappers

  const MAX := 0xFFFF_FFFF

  type IPv4 = a: int | 0 <= a <= 0xFFFF_FFFF

  // ---------------------------------------------------------------- decimal numbers

  predicate IsDigit(c: char) {
    '0' <= c <= '9'
  }

  predicate AllDigits(s: string) {
    forall i :: 0 <= i < |s| ==> IsDigit(s[i])
  }

  function DigitValue(c: char): (d: nat)
    requires IsDigit(c)
    ensures d < 10
  {
    c as int - '0' as int
  }

  function Digit(d: nat): (c: char)
    requires d < 10
    ensures IsDigit(c) && DigitValue(c) == d
  {
    (d + '0' as int) as char
  }

  /** The number a digit string denotes, leading zeros allowed. */
  function Value(s: string): nat
    requires AllDigits(s)
  {
    if s == "" then 0 else 10 * Value(s[..|s| - 1]) + DigitValue(s[|s| - 1])
  }

  /** What fmt prints for %d. */
  function Dec(n: nat): string {
    if n < 10 then [Digit(n)] else Dec(n / 10) + [Digit(n % 10)]
  }

  predicate NoLeadingZero(s: string) {
    |s| == 1 || (|s| > 1 && s[0] != '0')
  }

  lemma {:induction false} DecDenotes(n: nat)
    ensures Dec(n) != "" && AllDigits(Dec(n)) && NoLeadingZero(Dec(n))
    ensures n > 0 ==> Dec(n)[0] != '0'
    ensures Value(Dec(n)) == n
  {
    var s := Dec(n);
    if n < 10 {
      assert s[..|s| - 1] == "";
    } else {
      DecDenotes(n / 10);
      assert s[..|s| - 1] == Dec(n / 10);
    }
  }

  lemma {:induction false} DecInverts(s: string)
    requires AllDigits(s) && NoLeadingZero(s)
    ensures Dec(Value(s)) == s
    ensures s[0] != '0' ==> Value(s) > 0
  {
    var init, last := s[..|s| - 1], DigitValue(s[|s| - 1]);
    if |s| == 1 {
      assert Value(init) == 0;
      assert s == [Digit(last)];
    } else {
      DecInverts(init);
      assert Value(s) / 10 == Value(init) && Value(s) % 10 == last;
      assert s == init + [Digit(last)];
    }
  }

  // ---------------------------------------------------------------- strings.Split

  function Split(s: string, c: char): (parts: seq<string>)
    ensures |parts| > 0
  {
    if s == "" then [""]
    else
      var rest := Split(s[1..], c);
      if s[0] == c then [""] + rest else [[s[0]] + rest[0]] + rest[1..]
  }

  function Join(parts: seq<string>, c: char): string
    requires |parts| > 0
  {
    if |parts| == 1 then parts[0] else parts[0] + [c] + Join(parts[1..], c)
  }

  ghost predicate Free(parts: seq<string>, c: char) {
    forall i :: 0 <= i < |parts| ==> c !in parts[i]
  }

  lemma {:induction false} JoinSplit(s: string, c: char)
    ensures Join(Split(s, c), c) == s && Free(Split(s, c), c)
  {
    if s != "" {
      JoinSplit(s[1..], c);
      var rest := Split(s[1..], c);
      assert s == [s[0]] + s[1..];
      if s[0] == c {
        assert ([""] + rest)[1..] == rest;
      } else {
        var parts := [[s[0]] + rest[0]] + rest[1..];
        assert parts[1..] == rest[1..];
        assert Split(s, c) == parts;
      }
    }
  }

  lemma {:induction false} SplitJoin(parts: seq<string>, c: char)
    requires |parts| > 0 && Free(parts, c)
    ensures Split(Join(parts, c), c) == parts
    decreases |parts|, |parts[0]|
  {
    var s := Join(parts, c);
    if parts[0] == "" {
      if |parts| == 1 {
        assert parts == [""];
      } else {
        assert s[0] == c && s[1..] == Join(parts[1..], c);
        SplitJoin(parts[1..], c);
      }
    } else {
      var shorter := [parts[0][1..]] + parts[1..];
      assert Free(shorter, c);
      assert shorter[1..] == parts[1..];
      SplitJoin(shorter, c);
      assert s[0] == parts[0][0] && s[1..] == Join(shorter, c);
      assert [s[0]] + shorter[0] == parts[0];
      assert parts == [parts[0]] + parts[1..];
    }
  }

  // ---------------------------------------------------------------- parsing

  /** strconv.ParseUint(s, 10, 8). */
  function ParseUint8(s: string): Option<nat> {
    if s != "" && AllDigits(s) && Value(s) <= 255 then Some(Value(s)) else None
  }

  predicate IsByteField(s: string) {
    s != "" && AllDigits(s) && Value(s) <= 255
  }

  function Number(b0: nat, b1: nat, b2: nat, b3: nat): IPv4
    requires b0 <= 255 && b1 <= 255 && b2 <= 255 && b3 <= 255
  {
    b0 * 0x100_0000 + b1 * 0x1_0000 + b2 * 0x100 + b3
  }

  /** The address a text denotes, if any. */
  function Parse(s: string): Option<IPv4> {
    var f := Split(s, '.');
    if |f| == 4 && IsByteField(f[0]) && IsByteField(f[1]) && IsByteField(f[2]) && IsByteField(f[3])
    then Some(Number(Value(f[0]), Value(f[1]), Value(f[2]), Value(f[3])))
    else None
  }

  /** The shifts of the four fields. */
  predicate IsFieldShift(k: nat) {
    k == 0 || k == 8 || k == 16 || k == 24
  }

  /** Cutting a shifted field to 32 bits loses nothing, and it stays below the field above it. */
  lemma FieldFits(n: nat, k: nat)
    requires n <= 255 && IsFieldShift(k)
    ensures Shl(n, k) % 0x1_0000_0000 == Shl(n, k)
    ensures Shl(n, k) < Pow2(k + 8)
  {
    ShlValues(n);
    Pow2Values();
    assert Shl(n, k) < Pow2(k + 8) <= 0x1_0000_0000;
    SmallMod(Shl(n, k), 0x1_0000_0000);
  }

  /** Masking the place of a shifted field loses nothing. */
  lemma FieldMask(n: nat, k: nat)
    requires n <= 255
    ensures And(Shl(n, k), Shl(0xFF, k)) == Shl(n, k)
  {
    AndShift(n, 0xFF, k);
    AndLowByte(n);
  }

  /** One step of the parser: field n is or-ed in below what is there. */
  method OrField(ip: nat, n: nat, k: nat, ghost hi: nat) returns (r: nat)
    requires n <= 255 && IsFieldShift(k) && ip == Shl(hi, k + 8)
    ensures r == ip + Shl(n, k)
  {
    r := Or(ip, And(Shl(n, k) % 0x1_0000_0000, Shl(0xFF, k)));
    FieldFits(n, k);
    FieldMask(n, k);
    OrDisjoint(hi, Shl(n, k), k + 8);
  }

  /** ParseIPv4, field by field with the source's shifts and masks. */
  method ParseIPv4(s: string) returns (r: Result<IPv4>)
    ensures r.Ok? <==> Parse(s).Some?
    ensures r.Ok? ==> r.value == Parse(s).value
  {
    var bits := Split(s, '.');
    if |bits| != 4 {
      return Err("invalid ipv4");
    }
    var n := ParseUint8(bits[0]);
    if n == None {
      return Err("invalid first field");
    }
    var b0 := n.value;
    ShlValues(b0);
    ShlValues(0);
    var ip := OrField(0, b0, 24, 0);

    n := ParseUint8(bits[1]);
    if n == None {
      return Err("invalid second field");
    }
    var b1 := n.value;
    ShlValues(b1);
    ip := OrField(ip, b1, 16, b0);

    n := ParseUint8(bits[2]);
    if n == None {
      return Err("invalid third field");
    }
    var b2 := n.value;
    ShlValues(b2);
    ShlValues(b0 * 0x100 + b1);
    ip := OrField(ip, b2, 8, b0 * 0x100 + b1);

    n := ParseUint8(bits[3]);
    if n == None {
      return Err("invalid fourth field");
    }
    var b3 := n.value;
    ShlValues(b3);
    ShlValues(b0 * 0x1_0000 + b1 * 0x100 + b2);
    ip := OrField(ip, b3, 0, b0 * 0x1_0000 + b1 * 0x100 + b2);
    return Ok(ip);
  }

  // ---------------------------------------------------------------- printing

  /** Byte i of an address, i = 0 the most significant one. */
  function Octet(a: IPv4, i: nat): (b: nat)
    requires i < 4
    ensures b <= 255
  {
    match i
    case 0 => a / 0x100_0000
    case 1 => a / 0x1_0000 % 0x100
    case 2 => a / 0x100 % 0x100
    case _ => a % 0x100
  }

  /** The dotted decimal text of an address. */
  function Text(a: IPv4): string {
    Dec(Octet(a, 0)) + "." + Dec(Octet(a, 1)) + "." + Dec(Octet(a, 2)) + "." + Dec(Octet(a, 3))
  }

  function Fields(a: IPv4): seq<string> {
    [Dec(Octet(a, 0)), Dec(Octet(a, 1)), Dec(Octet(a, 2)), Dec(Octet(a, 3))]
  }

  /** One operand of the print call: shift down and keep the low byte. */
  method ByteAt(ip: IPv4, shift: nat) returns (b: nat)
    ensures b == Shr(ip, shift) % 0x100
  {
    var shifted := Shr(ip, shift);
    b := And(shifted, 0xFF);
    AndLowByte(shifted);
  }

  lemma OctetsByShift(a: IPv4)
    ensures Shr(a, 24) % 0x100 == Octet(a, 0) && Shr(a, 16) % 0x100 == Octet(a, 1)
    ensures Shr(a, 8) % 0x100 == Octet(a, 2) && Shr(a, 0) % 0x100 == Octet(a, 3)
  {
    Pow2Values();
    SmallMod(a / 0x100_0000, 0x100);
  }

  /** String, with the source's shifts and masks. */
  method String(ip: IPv4) returns (s: string)
    ensures s == Text(ip)
  {
    OctetsByShift(ip);
    var b0 := ByteAt(ip, 24);
    var b1 := ByteAt(ip, 16);
    var b2 := ByteAt(ip, 8);
    var b3 := ByteAt(ip, 0);
    s := Dec(b0) + "." + Dec(b1) + "." + Dec(b2) + "." + Dec(b3);
  }

  /** Inc and Next: unsigned 32-bit increment, wrapping. */
  function Inc(a: IPv4): (b: IPv4)
    ensures a < MAX ==> b == a + 1
    ensures a == MAX ==> b == 0
  {
    (a + 1) % 0x1_0000_0000
  }

  // ---------------------------------------------------------------- codec laws

  lemma DigitsHaveNoDot(s: string)
    requires AllDigits(s)
    ensures '.' !in s
  {
  }

  lemma {:induction false} JoinFour(f: seq<string>, c: char)
    requires |f| == 4
    ensures Join(f, c) == f[0] + [c] + f[1] + [c] + f[2] + [c] + f[3]
  {
    assert f[1..][1..] == f[2..] && f[2..][1..] == f[3..];
    assert Join(f[3..], c) == f[3];
    assert Join(f[2..], c) == f[2] + [c] + f[3];
    assert Join(f[1..], c) == f[1] + [c] + Join(f[2..], c);
    assert Join(f, c) == f[0] + [c] + Join(f[1..], c);
  }

  lemma TextSplits(a: IPv4)
    ensures Split(Text(a), '.') == Fields(a)
    ensures forall i :: 0 <= i < 4 ==> IsByteField(Fields(a)[i]) && Value(Fields(a)[i]) == Octet(a, i)
  {
    var f := Fields(a);
    forall i | 0 <= i < 4
      ensures IsByteField(f[i]) && Value(f[i]) == Octet(a, i) && '.' !in f[i]
    {
      assert f[i] == Dec(Octet(a, i));
      DecDenotes(Octet(a, i));
      DigitsHaveNoDot(f[i]);
    }
    JoinFour(f, '.');
    assert Text(a) == Join(f, '.');
    SplitJoin(f, '.');
  }

  /** ParseIPv4 inverts String on every address. */
  lemma ParseText(a: IPv4)
    ensures Parse(Text(a)) == Some(a)
  {
    TextSplits(a);
    var f := Fields(a);
    assert IsByteField(f[0]) && IsByteField(f[1]) && IsByteField(f[2]) && IsByteField(f[3]);
    NumberOfOctets(a);
  }

  /** The text of an address: its four bytes in decimal, the most significant first. */
  lemma TextIs(a: IPv4)
    ensures Text(a) ==
            Dec(a / 0x100_0000) + "." + Dec(a / 0x1_0000 % 256) + "." + Dec(a / 0x100 % 256) + "." + Dec(a % 256)
  {
  }

  lemma NumberOfOctets(a: IPv4)
    ensures Number(Octet(a, 0), Octet(a, 1), Octet(a, 2), Octet(a, 3)) == a
  {
    var q1 := a / 0x100;
    var q2 := q1 / 0x100;
    var q3 := q2 / 0x100;
    ModUnique(a, 0x1_0000, q2, q1 % 0x100 * 0x100 + a % 0x100);
    ModUnique(a, 0x100_0000, q3, q2 % 0x100 * 0x1_0000 + q1 % 0x100 * 0x100 + a % 0x100);
  }

  /** The printed text determines the address, so address keys of the index never clash. */
  lemma TextInjective(a: IPv4, b: IPv4)
    requires Text(a) == Text(b)
    ensures a == b
  {
    ParseText(a);
    ParseText(b);
  }

  /** The texts ParseIPv4 accepts: four byte fields between dots, leading zeros allowed. */
  lemma ParseAcceptsExactly(s: string)
    ensures Parse(s).Some? <==>
            exists f: seq<string> :: |f| == 4 && Join(f, '.') == s && forall i :: 0 <= i < 4 ==> IsByteField(f[i])
  {
    JoinSplit(s, '.');
    var g := Split(s, '.');
    if Parse(s).Some? {
      assert |g| == 4 && Join(g, '.') == s && forall i :: 0 <= i < 4 ==> IsByteField(g[i]);
    }
    if f: seq<string> :| |f| == 4 && Join(f, '.') == s && forall i :: 0 <= i < 4 ==> IsByteField(f[i]) {
      forall i | 0 <= i < 4
        ensures '.' !in f[i]
      {
        DigitsHaveNoDot(f[i]);
      }
      SplitJoin(f, '.');
      assert g == f;
      assert IsByteField(g[0]) && IsByteField(g[1]) && IsByteField(g[2]) && IsByteField(g[3]);
    }
  }

  /** A field is what its value prints as exactly when it has no leading zero. */
  lemma FieldPrints(s: string)
    requires IsByteField(s)
    ensures Dec(Value(s)) == s <==> NoLeadingZero(s)
  {
    DecDenotes(Value(s));
    if NoLeadingZero(s) {
      DecInverts(s);
    }
  }

  /** Printing what was parsed gives the same text back exactly when no field has a leading zero. */
  lemma TextParse(s: string)
    requires Parse(s).Some?
    ensures Text(Parse(s).value) == s <==> forall i :: 0 <= i < 4 ==> NoLeadingZero(Split(s, '.')[i])
  {
    var a, f := Parse(s).value, Split(s, '.');
    JoinSplit(s, '.');
    JoinFour(f, '.');
    TextSplits(a);
    OctetsOfNumber(Value(f[0]), Value(f[1]), Value(f[2]), Value(f[3]));
    FieldPrints(f[0]);
    FieldPrints(f[1]);
    FieldPrints(f[2]);
    FieldPrints(f[3]);
    assert Fields(a) == f <==> forall i :: 0 <= i < 4 ==> Fields(a)[i] == f[i];
    assert Text(a) == s <==> Fields(a) == f;
  }

  lemma OctetsOfNumber(b0: nat, b1: nat, b2: nat, b3: nat)
    requires b0 <= 255 && b1 <= 255 && b2 <= 255 && b3 <= 255
    ensures Octet(Number(b0, b1, b2, b3), 0) == b0 && Octet(Number(b0, b1, b2, b3), 1) == b1
    ensures Octet(Number(b0, b1, b2, b3), 2) == b2 && Octet(Number(b0, b1, b2, b3), 3) == b3
  {
    var a := Number(b0, b1, b2, b3);
    ModUnique(a, 0x100_0000, b0, b1 * 0x1_0000 + b2 * 0x100 + b3);
    ModUnique(a, 0x1_0000, b0 * 0x100 + b1, b2 * 0x100 + b3);
    ModUnique(a, 0x100, b0 * 0x1_0000 + b1 * 0x100 + b2, b3);
    ModUnique(b0 * 0x100 + b1, 0x100, b0, b1);
    ModUnique(b0 * 0x1_0000 + b1 * 0x100 + b2, 0x100, b0 * 0x100 + b1, b2);
  }

  // ---------------------------------------------------------------- hardware addresses

  type Byte = b: int | 0 <= b <= 255

  function HexDigit(d: nat): char
    requires d < 16
  {
    if d < 10 then (d + '0' as int) as char else (d - 10 + 'a' as int) as char
  }

  /** net.HardwareAddr.String: lower-case hex pairs separated by colons. */
  function MacText(hw: seq<Byte>): string {
    if |hw| == 0 then ""
    else
      var pair := [HexDigit(hw[0] / 16), HexDigit(hw[0] % 16)];
      if |hw| == 1 then pair else pair + ":" + MacText(hw[1..])
  }

  /** A name that a request can carry: the text of some hardware address. */
  ghost predicate IsClient(m: string) {
    exists hw: seq<Byte> :: MacText(hw) == m
  }

  predicate IsHexDigit(c: char) {
    '0' <= c <= '9' || 'a' <= c <= 'f'
  }

  /** Pairs of lower-case hex digits, joined by colons. */
  predicate IsMacText(m: string) {
    m == "" || (|m| % 3 == 2 && forall i :: 0 <= i < |m| ==> if i % 3 == 2 then m[i] == ':' else IsHexDigit(m[i]))
  }

  lemma {:induction false} MacTextForm(hw: seq<Byte>)
    ensures IsMacText(MacText(hw)) && |MacText(hw)| >= |hw| && (MacText(hw) == "" <==> hw == [])
  {
    if |hw| > 1 {
      MacTextForm(hw[1..]);
      var rest := MacText(hw[1..]);
      assert MacText(hw)[3..] == rest;
      forall i | 0 <= i < |MacText(hw)|
        ensures if i % 3 == 2 then MacText(hw)[i] == ':' else IsHexDigit(MacText(hw)[i])
      {
        if i >= 3 {
          assert MacText(hw)[i] == rest[i - 3] && i % 3 == (i - 3) % 3;
        }
      }
    }
  }

  const HEX_DIGITS := "0123456789abcdef"

  /** Byte i is written at place 3i, high digit first, with a colon between bytes. */
  lemma {:induction false} MacTextDigits(hw: seq<Byte>, i: nat)
    requires i < |hw|
    ensures |MacText(hw)| == 3 * |hw| - 1
    ensures MacText(hw)[3 * i] == HEX_DIGITS[hw[i] / 16] && MacText(hw)[3 * i + 1] == HEX_DIGITS[hw[i] % 16]
    ensures i < |hw| - 1 ==> MacText(hw)[3 * i + 2] == ':'
  {
    HexDigitIs(hw[0] / 16);
    HexDigitIs(hw[0] % 16);
    if |hw| > 1 {
      var rest := MacText(hw[1..]);
      MacTextDigits(hw[1..], if i > 0 then i - 1 else 0);
      assert MacText(hw)[3..] == rest;
      if i > 0 {
        assert hw[1..][i - 1] == hw[i];
        assert forall j :: 0 <= j < |rest| ==> MacText(hw)[3 + j] == rest[j];
        assert 3 + 3 * (i - 1) == 3 * i;
      }
    }
  }

  lemma HexDigitIs(d: nat)
    requires d < 16
    ensures HexDigit(d) == HEX_DIGITS[d]
  {
  }

  lemma {:induction false} FormIsMacText(m: string) returns (hw: seq<Byte>)
    requires IsMacText(m)
    ensures MacText(hw) == m
  {
    if m == "" {
      hw := [];
    } else {
      var b := ByteOf(m[0], m[1]);
      if |m| == 2 {
        hw := [b];
      } else {
        var rest := m[3..];
        forall i | 0 <= i < |rest|
          ensures if i % 3 == 2 then rest[i] == ':' else IsHexDigit(rest[i])
        {
          assert rest[i] == m[i + 3] && (i + 3) % 3 == i % 3;
        }
        var tail := FormIsMacText(rest);
        assert tail != [];
        hw := [b] + tail;
        assert hw[1..] == tail;
        assert m == m[..2] + ":" + rest;
      }
    }
  }

  /** The byte written as two hex digits. */
  lemma ByteOf(c: char, d: char) returns (b: Byte)
    requires IsHexDigit(c) && IsHexDigit(d)
    ensures HexDigit(b / 16) == c && HexDigit(b % 16) == d
  {
    var x := if c <= '9' then c as int - '0' as int else c as int - 'a' as int + 10;
    var y := if d <= '9' then d as int - '0' as int else d as int - 'a' as int + 10;
    b := 16 * x + y;
    assert b / 16 == x && b % 16 == y;
  }

  /** Requests carry exactly the names made of lower-case hex pairs joined by colons. */
  lemma IsClientIff(m: string)
    ensures IsClient(m) <==> IsMacText(m)
  {
    if hw: seq<Byte> :| MacText(hw) == m {
      MacTextForm(hw);
    }
    if IsMacText(m) {
      var hw := FormIsMacText(m);
    }
  }

  /** net.ParseIP, IPv4 texts only: unlike ParseIPv4 it accepts no leading zeros. */
  function ParseIp(s: string): Option<IPv4> {
    var a := Parse(s);
    if a.Some? && Text(a.value) == s then a else None
  }

  /** A string that is not the text of any address; as a client name it clashes with no address key. */
  predicate NotAddress(s: string) {
    ParseIp(s).None?
  }

  lemma ParseIpText(a: IPv4)
    ensures ParseIp(Text(a)) == Some(a)
  {
    ParseText(a);
  }

  lemma ParseIpIsText(s: string)
    ensures ParseIp(s).Some? ==> s == Text(ParseIp(s).value)
  {
  }

  lemma {:induction false} MacTextHasNoDot(hw: seq<Byte>)
    ensures '.' !in MacText(hw)
  {
    if |hw| > 1 {
      MacTextHasNoDot(hw[1..]);
    }
  }

  /** The text of a client's hardware address is never the text of an IP address. */
  lemma MacTextIsNotAddress(hw: seq<Byte>)
    ensures NotAddress(MacText(hw)) && forall a: IPv4 :: Text(a) != MacText(hw)
  {
    MacTextHasNoDot(hw);
    forall a: IPv4
      ensures Text(a) != MacText(hw)
    {
      assert Text(a)[|Dec(Octet(a, 0))|] == '.';
    }
    ParseIpIsText(MacText(hw));
  }
}
