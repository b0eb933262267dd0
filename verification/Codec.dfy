/** Byte and text encodings of field elements: big-endian words, hexadecimal, decimal. */
module Codec {
  import opened Field
  import opened Wrappers

  newtype byte = x: int | 0 <= x < 256

  // ---- big-endian numbers ----

  function BE(bs: seq<byte>): nat {
    if bs == [] then 0 else 256 * BE(bs[..|bs| - 1]) + bs[|bs| - 1] as nat
  }

  function Pow256(n: nat): (p: nat)
    ensures p > 0
  {
    if n == 0 then 1 else 256 * Pow256(n - 1)
  }

  /** The low `len` bytes of `n`, most significant first. */
  function ToBE(n: nat, len: nat): (bs: seq<byte>)
    ensures |bs| == len
    decreases len
  {
    if len == 0 then [] else ToBE(n / 256, len - 1) + [(n % 256) as byte]
  }

  lemma {:induction false} BEBound(bs: seq<byte>)
    ensures BE(bs) < Pow256(|bs|)
  {
    if bs != [] { BEBound(bs[..|bs| - 1]); }
  }

  /** Reading back what was written, and writing back what was read. */
  lemma {:induction false} BEOfToBE(n: nat, len: nat)
    requires n < Pow256(len)
    ensures BE(ToBE(n, len)) == n
    decreases len
  {
    if len > 0 {
      BEOfToBE(n / 256, len - 1);
      assert ToBE(n, len)[..len - 1] == ToBE(n / 256, len - 1);
    }
  }

  lemma {:induction false} ToBEOfBE(bs: seq<byte>)
    ensures ToBE(BE(bs), |bs|) == bs
  {
    if bs != [] {
      var k := |bs| - 1;
      ToBEOfBE(bs[..k]);
      assert BE(bs) / 256 == BE(bs[..k]) && BE(bs) % 256 == bs[k] as nat;
      assert bs == bs[..k] + [bs[k]];
    }
  }

  function Zeros(n: nat): (bs: seq<byte>)
    ensures |bs| == n
  {
    seq(n, _ => 0 as byte)
  }

  lemma {:induction false} LeadingZeros(n: nat, bs: seq<byte>)
    ensures BE(Zeros(n) + bs) == BE(bs)
  {
    if bs != [] {
      assert (Zeros(n) + bs)[..n + |bs| - 1] == Zeros(n) + bs[..|bs| - 1];
      LeadingZeros(n, bs[..|bs| - 1]);
    } else if n > 0 {
      assert (Zeros(n) + bs)[..n - 1] == Zeros(n - 1) + [];
      LeadingZeros(n - 1, []);
    }
  }

  lemma {:induction false} Pow256Adds(a: nat, b: nat, x: nat)
    requires Pow256(b) == x
    ensures Pow256(a + b) == Pow256(a) * x
  {
    if a > 0 {
      Pow256Adds(a - 1, b, x);
      Scaled(Pow256(a - 1), x);
    }
  }

  lemma Scaled(y: nat, x: nat)
    ensures 256 * (y * x) == (256 * y) * x
  {
  }

  lemma WordSizes()
    ensures Pow256(16) == TWO_128 && Pow256(32) == TWO_256
  {
    assert Pow256(4) == 0x1_0000_0000;
    Pow256Adds(4, 4, 0x1_0000_0000);
    Pow256Adds(8, 8, TWO_64);
    Pow256Adds(16, 16, TWO_128);
  }

  /** The reading of 32 bytes as a number, on which the rest of the model rests, is a
      bijection onto the 256-bit words. */
  lemma WordBijection(w: Word, bs: seq<byte>)
    requires |bs| == 32
    ensures BE(ToBE(w, 32)) == w
    ensures BE(bs) < TWO_256 && ToBE(BE(bs), 32) == bs
  {
    WordSizes();
    BEOfToBE(w, 32);
    BEBound(bs);
    ToBEOfBE(bs);
  }

  // ---- 32-byte buffers ----

  /** Copy `bytes` into the end of a zeroed 32-byte buffer. */
  method RightAlign(bytes: seq<byte>) returns (buf: seq<byte>)
    requires |bytes| <= 32
    ensures buf == Zeros(32 - |bytes|) + bytes
    ensures |buf| == 32 && BE(buf) == BE(bytes)
  {
    var a := new byte[32](_ => 0);
    var off := 32 - |bytes|;
    for i := 0 to |bytes|
      invariant forall k :: 0 <= k < 32 ==> a[k] == if off <= k < off + i then bytes[k - off] else 0
    {
      a[off + i] := bytes[i];
    }
    buf := a[..];
    assert buf == Zeros(off) + bytes;
    LeadingZeros(off, bytes);
  }

  function FromBeBytesModOrder(bs: seq<byte>): Fr {
    BE(bs) % R
  }

  /** The canonical 32-byte form of a field element: it reads back as itself. */
  method FrBe32(f: Fr) returns (buf: seq<byte>)
    ensures buf == ToBE(f, 32)
    ensures BE(buf) == f && FromBeBytesModOrder(buf) == f
  {
    WordSizes();
    BEOfToBE(f, 32);
    buf := RightAlign(ToBE(f, 32));
    assert buf == ToBE(f, 32);
  }

  /** The amount's 16-byte two's complement, right-aligned. A positive amount reads back as
      itself, below the field's order. */
  method AmountBytes(amount: I128) returns (buf: seq<byte>)
    ensures |buf| == 32 && BE(buf) == AmountField(amount)
    ensures amount > 0 ==> BE(buf) == amount < R && FromBeBytesModOrder(buf) == amount
  {
    hide BE, ToBE, Pow256;
    WordSizes();
    BEOfToBE(amount % TWO_128, 16);
    buf := RightAlign(ToBE(amount % TWO_128, 16));
  }

  // ---- hexadecimal, section 8 of RFC 4648 ----

  function DigitValue(c: char): Option<nat> {
    if '0' <= c <= '9' then Some(c as nat - '0' as nat)
    else if 'a' <= c <= 'f' then Some(c as nat - 'a' as nat + 10)
    else if 'A' <= c <= 'F' then Some(c as nat - 'A' as nat + 10)
    else None
  }

  predicate IsHex(t: string) {
    forall i :: 0 <= i < |t| ==> DigitValue(t[i]).Some?
  }

  function Digit(n: nat): (c: char)
    requires n < 16
    ensures DigitValue(c) == Some(n)
  {
    if n < 10 then ('0' as nat + n) as char else ('a' as nat + (n - 10)) as char
  }

  function HexValue(t: string): nat
    requires IsHex(t)
  {
    if t == [] then 0 else 16 * HexValue(t[..|t| - 1]) + DigitValue(t[|t| - 1]).value
  }

  lemma DigitBound(c: char)
    ensures DigitValue(c).Some? ==> DigitValue(c).value < 16
  {
  }

  function Hex(bs: seq<byte>): (t: string)
    ensures |t| == 2 * |bs|
    ensures IsHex(t)
  {
    if bs == [] then []
    else
      var k := |bs| - 1;
      Hex(bs[..k]) + [Digit(bs[k] as nat / 16), Digit(bs[k] as nat % 16)]
  }

  /** Decoding fails on an odd length or a character that is no digit. */
  function Unhex(t: string): Option<seq<byte>> {
    if t == [] then Some([])
    else if |t| == 1 then None
    else
      var k := |t| - 2;
      DigitBound(t[k]);
      DigitBound(t[k + 1]);
      match (Unhex(t[..k]), DigitValue(t[k]), DigitValue(t[k + 1]))
      case (Some(bs), Some(hi), Some(lo)) => Some(bs + [(16 * hi + lo) as byte])
      case _ => None
  }

  lemma {:induction false} UnhexExact(t: string)
    ensures Unhex(t).Some? <==> |t| % 2 == 0 && IsHex(t)
    ensures Unhex(t).Some? ==> |Unhex(t).value| == |t| / 2 && BE(Unhex(t).value) == HexValue(t)
  {
    hide DigitValue;
    if |t| >= 2 {
      var k := |t| - 2;
      UnhexExact(t[..k]);
      DigitBound(t[k]);
      DigitBound(t[k + 1]);
      if IsHex(t) {
        assert t[..|t| - 1][..k] == t[..k];
        assert HexValue(t[..|t| - 1]) == 16 * HexValue(t[..k]) + DigitValue(t[k]).value;
        var bs := Unhex(t[..k]);
        if bs.Some? {
          assert Unhex(t).value[..k / 2] == bs.value;
        }
      }
      if Unhex(t).Some? {
        forall i | 0 <= i < |t| ensures DigitValue(t[i]).Some? {
          assert i < k ==> t[i] == t[..k][i];
        }
      }
    }
  }

  lemma {:induction false} HexValueOfHex(bs: seq<byte>)
    ensures HexValue(Hex(bs)) == BE(bs)
  {
    if bs != [] {
      var k := |bs| - 1;
      HexValueOfHex(bs[..k]);
      var t := Hex(bs);
      assert t[..|t| - 1][..|t| - 2] == Hex(bs[..k]);
      assert HexValue(t[..|t| - 1]) == 16 * HexValue(Hex(bs[..k])) + bs[k] as nat / 16;
    }
  }

  lemma UnhexAppend(t: string, b: byte)
    requires Unhex(t).Some?
    ensures Unhex(t + [Digit(b as nat / 16), Digit(b as nat % 16)]) == Some(Unhex(t).value + [b])
  {
    hide Digit, DigitValue;
    var longer := t + [Digit(b as nat / 16), Digit(b as nat % 16)];
    assert longer[..|t|] == t;
  }

  /** Hexadecimal is lossless. */
  lemma {:induction false} UnhexOfHex(bs: seq<byte>)
    ensures Unhex(Hex(bs)) == Some(bs)
  {
    hide Unhex, Digit, DigitValue;
    if bs == [] {
      assert Unhex([]) == Some([]) by { NoDigits(); }
    } else {
      var k := |bs| - 1;
      UnhexOfHex(bs[..k]);
      UnhexAppend(Hex(bs[..k]), bs[k]);
      assert bs == bs[..k] + [bs[k]];
    }
  }

  lemma NoDigits()
    ensures Unhex([]) == Some([])
  {
  }

  lemma {:induction false} LeadingZeroDigit(t: string)
    requires IsHex(t)
    ensures IsHex("0" + t) && HexValue("0" + t) == HexValue(t)
  {
    if t != [] {
      assert ("0" + t)[..|t|] == "0" + t[..|t| - 1];
      LeadingZeroDigit(t[..|t| - 1]);
    } else {
      assert ("0" + t)[..0] == "";
    }
  }

  /** t without its leading zero digits. */
  function Stripped(t: string): (r: string)
    ensures |r| <= |t| && r == t[|t| - |r|..] && forall i :: 0 <= i < |t| - |r| ==> t[i] == '0'
    ensures r == [] || r[0] != '0'
  {
    if t != [] && t[0] == '0' then Stripped(t[1..]) else t
  }

  lemma {:induction false} StrippedValue(t: string)
    requires IsHex(t)
    ensures IsHex(Stripped(t)) && HexValue(Stripped(t)) == HexValue(t) && |Stripped(t)| <= |t|
  {
    if t != [] && t[0] == '0' {
      StrippedValue(t[1..]);
      LeadingZeroDigit(t[1..]);
      assert t == "0" + t[1..];
    }
  }

  // ---- parsing ----

  datatype ParseError = BadHex | TooLong | BadDecimal | BadLength

  predicate IsSpace(c: char) {
    || '\t' <= c <= '\r' || c == ' ' || c == '\U{0085}' || c == '\U{00A0}' || c == '\U{1680}'
    || '\U{2000}' <= c <= '\U{200A}' || c == '\U{2028}' || c == '\U{2029}' || c == '\U{202F}' || c == '\U{205F}'
    || c == '\U{3000}'
  }

  function Trim(s: string): string {
    if s != [] && IsSpace(s[0]) then Trim(s[1..])
    else if s != [] && IsSpace(s[|s| - 1]) then Trim(s[..|s| - 1])
    else s
  }

  /** Value of a nonempty run of decimal digits. */
  function DecimalValue(s: string): Option<nat> {
    if s == [] || !('0' <= s[|s| - 1] <= '9') then None
    else
      var d := s[|s| - 1] as nat - '0' as nat;
      if |s| == 1 then Some(d)
      else
        match DecimalValue(s[..|s| - 1])
        case None => None
        case Some(v) => Some(10 * v + d)
  }

  /** An unsigned 128-bit decimal, with an optional plus sign. */
  function ParseU128(s: string): (r: Option<nat>)
    ensures r.Some? ==> r.value < TWO_128
  {
    match DecimalValue(if s != [] && s[0] == '+' then s[1..] else s)
    case None => None
    case Some(v) => if v < TWO_128 then Some(v) else None
  }

  /** Decimal digits of a number, most significant first. */
  function Decimal(n: nat): (s: string)
    ensures s != [] && forall i :: 0 <= i < |s| ==> '0' <= s[i] <= '9'
  {
    if n < 10 then [Digit(n)] else Decimal(n / 10) + [Digit(n % 10)]
  }

  /** Reading a number's decimal digits gives the number. */
  lemma {:induction false} DecimalRoundTrip(n: nat)
    ensures DecimalValue(Decimal(n)) == Some(n)
  {
    if n >= 10 {
      DecimalRoundTrip(n / 10);
      assert Decimal(n)[..|Decimal(n)| - 1] == Decimal(n / 10);
    }
  }

  /** A decimal is a nonempty run of digits and nothing else. */
  lemma {:induction false} DecimalExact(s: string)
    ensures DecimalValue(s).Some? <==> s != [] && forall i :: 0 <= i < |s| ==> '0' <= s[i] <= '9'
  {
    if |s| > 1 {
      DecimalExact(s[..|s| - 1]);
    }
  }

  lemma DecimalIsNoSpace(n: nat)
    ensures Trim(Decimal(n)) == Decimal(n) && !("0x" <= Decimal(n)) && Decimal(n)[0] != '+'
  {
    TrimNothing(Decimal(n));
    assert |Decimal(n)| > 1 ==> Decimal(n)[1] != 'x';
  }

  /** `parse_fr` reads a decimal as the number it spells, with an optional plus sign, up to
      128 bits. */
  lemma ParsedDecimal(n: nat)
    ensures ParsedFr(Decimal(n))
         == if n < 0x1_0000_0000_0000_0000_0000_0000_0000_0000 then Ok(n) else Err(BadDecimal)
    ensures ParsedFr("+" + Decimal(n)) == ParsedFr(Decimal(n))
  {
    hide Trim, DecimalValue, IsSpace;
    DecimalIsNoSpace(n);
    DecimalRoundTrip(n);
    var signed := "+" + Decimal(n);
    PlusIsNoSpace(n);
    assert signed[1..] == Decimal(n);
  }

  lemma PlusIsNoSpace(n: nat)
    ensures Trim("+" + Decimal(n)) == "+" + Decimal(n) && !("0x" <= "+" + Decimal(n))
  {
    TrimNothing("+" + Decimal(n));
    assert ("+" + Decimal(n))[0] == '+';
  }

  /** `parse_fr` on the remaining hexadecimal forms: too long, or not hexadecimal. */
  lemma ParsedHexErrors(t: string)
    requires t == [] || !IsSpace(t[|t| - 1])
    ensures ParsedFr("0x" + t)
         == if !IsHex(t) then Err(BadHex)
            else if |t| > 64 then Err(TooLong) else Ok(HexValue(t) % R)
  {
    hide Trim, HexValue, IsHex, IsSpace, ParseU128;
    var s := "0x" + t;
    assert s[2..] == t && "0x" <= s && s[0] == '0';
    assert s[|s| - 1] == if t == [] then 'x' else t[|t| - 1];
    XIsNoSpace();
    TrimNothing(s);
  }

  lemma XIsNoSpace()
    ensures !IsSpace('0') && !IsSpace('x')
  {
  }

  const LOWER: string := "0123456789abcdef"
  const UPPER: string := "0123456789ABCDEF"

  /** The hexadecimal digits in order, in either case, and only they. */
  lemma DigitsExact(c: char, i: nat)
    requires i < 16
    ensures DigitValue(LOWER[i]) == Some(i) && DigitValue(UPPER[i]) == Some(i)
    ensures DigitValue(c) == Some(i) ==> c == LOWER[i] || c == UPPER[i]
  {
  }

  /** Trimming removes spaces, all at the ends and nothing else. */
  lemma {:induction false} TrimExact(s: string) returns (before: string, after: string)
    ensures s == before + Trim(s) + after
    ensures forall i :: 0 <= i < |before| ==> IsSpace(before[i])
    ensures forall i :: 0 <= i < |after| ==> IsSpace(after[i])
    ensures Trim(s) == [] || (!IsSpace(Trim(s)[0]) && !IsSpace(Trim(s)[|Trim(s)| - 1]))
    decreases |s|
  {
    hide IsSpace;
    if s != [] && IsSpace(s[0]) {
      before, after := TrimExact(s[1..]);
      before := [s[0]] + before;
    } else if s != [] && IsSpace(s[|s| - 1]) {
      before, after := TrimExact(s[..|s| - 1]);
      after := after + [s[|s| - 1]];
    } else {
      before, after := [], [];
    }
  }

  /** What `parse_fr` means: hexadecimal of up to 64 digits after 0x, read as one number
      and reduced; otherwise a decimal of up to 128 bits. */
  function ParsedFr(s: string): Result<Fr, ParseError> {
    var t := Trim(s);
    if "0x" <= t then
      if !IsHex(t[2..]) then Err(BadHex)
      else if |t| - 2 > 64 then Err(TooLong)
      else Ok(HexValue(t[2..]) % R)
    else
      match ParseU128(t)
      case None => Err(BadDecimal)
      case Some(v) => Ok(v)
  }

  /** `parse_fr` pads an odd digit count, decodes bytes and right-aligns them; the result is
      the number the digits spell, reduced. */
  method ParseFr(s: string) returns (r: Result<Fr, ParseError>)
    ensures r == ParsedFr(s)
  {
    hide BE, HexValue, Unhex, Trim, ParseU128, Zeros;
    var t := Trim(s);
    if "0x" <= t {
      var hexpart := t[2..];
      var padded := if |hexpart| % 2 == 1 then "0" + hexpart else hexpart;
      var bytes := Unhex(padded);
      UnhexExact(padded);
      PaddedHex(hexpart);
      if bytes.None? {
        return Err(BadHex);
      }
      if |bytes.value| > 32 {
        return Err(TooLong);
      }
      var buf := RightAlign(bytes.value);
      return Ok(FromBeBytesModOrder(buf));
    }
    var v := ParseU128(t);
    if v.None? {
      return Err(BadDecimal);
    }
    var value: Fr := v.value;
    return Ok(value);
  }

  lemma PaddedHex(t: string)
    ensures IsHex("0" + t) <==> IsHex(t)
    ensures IsHex(t) ==> HexValue("0" + t) == HexValue(t)
  {
    if IsHex(t) {
      LeadingZeroDigit(t);
    }
    if IsHex("0" + t) {
      forall i | 0 <= i < |t| ensures DigitValue(t[i]).Some? { assert ("0" + t)[i + 1] == t[i]; }
    }
  }

  function Parsed32(s: string): Result<seq<byte>, ParseError> {
    var t := if "0x" <= Trim(s) then Trim(s)[2..] else Trim(s);
    match Unhex(t)
    case None => Err(BadHex)
    case Some(bs) => if |bs| != 32 then Err(BadLength) else Ok(bs)
  }

  /** The fixed-width parser takes exactly 64 digits, prefixed or not. */
  lemma Parsed32Exact(s: string)
    ensures var t := if "0x" <= Trim(s) then Trim(s)[2..] else Trim(s);
            && (Parsed32(s).Ok? <==> |t| == 64 && IsHex(t))
            && (Parsed32(s).Ok? ==> |Parsed32(s).value| == 32 && BE(Parsed32(s).value) == HexValue(t))
            && (Parsed32(s) == Err(BadHex) <==> |t| % 2 == 1 || !IsHex(t))
            && (Parsed32(s) == Err(BadLength) <==> |t| % 2 == 0 && IsHex(t) && |t| != 64)
  {
    hide Trim, Unhex, IsHex, HexValue, BE;
    UnhexExact(if "0x" <= Trim(s) then Trim(s)[2..] else Trim(s));
  }

  lemma TrimNothing(s: string)
    requires s == [] || (!IsSpace(s[0]) && !IsSpace(s[|s| - 1]))
    ensures Trim(s) == s
  {
  }

  lemma PrefixedHex(t: string)
    requires IsHex(t)
    ensures Trim("0x" + t) == "0x" + t
  {
    var s := "0x" + t;
    assert s[|s| - 1] == if t == [] then 'x' else t[|t| - 1];
    if t != [] {
      assert DigitValue(t[|t| - 1]).Some?;
    }
    TrimNothing(s);
  }

  /** Printing a field element and parsing it gives it back, with its leading zeros or
      without them, odd digit counts included. */
  lemma ParseUndoesPrint(f: Fr)
    ensures ParsedFr("0x" + Hex(ToBE(f, 32))) == Ok(f)
    ensures ParsedFr("0x" + Stripped(Hex(ToBE(f, 32)))) == Ok(f)
  {
    hide BE, ToBE, Hex, HexValue, Unhex, Trim, Stripped, Pow256, DigitValue, IsHex, IsSpace, ParseU128;
    var t := Hex(ToBE(f, 32));
    WordSizes();
    BEOfToBE(f, 32);
    HexValueOfHex(ToBE(f, 32));
    StrippedValue(t);
    PrefixedHex(t);
    PrefixedHex(Stripped(t));
    assert ("0x" + t)[2..] == t && ("0x" + Stripped(t))[2..] == Stripped(t);
  }

  /** The same for the fixed-width parser the leaves go through. */
  lemma Parse32UndoesPrint(f: Fr)
    ensures Parsed32("0x" + Hex(ToBE(f, 32))) == Ok(ToBE(f, 32))
    ensures FromBeBytesModOrder(ToBE(f, 32)) == f
  {
    hide BE, ToBE, Hex, HexValue, Unhex, Trim, Stripped, Pow256, DigitValue, IsHex, IsSpace, ParseU128;
    var t := Hex(ToBE(f, 32));
    WordSizes();
    BEOfToBE(f, 32);
    PrefixedHex(t);
    UnhexOfHex(ToBE(f, 32));
    assert ("0x" + t)[2..] == t;
  }
}
