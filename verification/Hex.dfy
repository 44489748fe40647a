/** bytesToHex and hexToBytes of the crypto utilities. */
module Hex {
  import opened Digests
  import opened Options
  import opened Text
  import opened Decimal

  type Byte = n: int | 0 <= n < 256

  function HexChar(n: int): char
    requires 0 <= n < 16
  {
    "0123456789abcdef"[n]
  }

  /** The value of a hex digit as std::stoi reads it, in either case. */
  function HexValue(c: char): Option<int> {
    if '0' <= c <= '9' then Some(c as int - '0' as int)
    else if 'a' <= c <= 'f' then Some(c as int - 'a' as int + 10)
    else if 'A' <= c <= 'F' then Some(c as int - 'A' as int + 10)
    else None
  }

  /** std::stoi in base 16 on one or two characters, cast to a byte: optional white space or sign,
      then as many digits as there are; no digit at all throws. */
  function ParseByte(s: string): Option<Byte>
    requires 1 <= |s| <= 2
  {
    var first := HexValue(s[0]);
    if |s| == 1 then
      if first.Some? then Some(first.value) else None
    else
      var second := HexValue(s[1]);
      if first.Some? then
        Some(if second.Some? then 16 * first.value + second.value else first.value)
      else if second.Some? && (IsSpace(s[0]) || s[0] == '+') then Some(second.value)
      else if second.Some? && s[0] == '-' then Some((256 - second.value) % 256)
      else None
  }

  function HexDigitPrefix(s: string): (d: string)
    ensures forall i :: 0 <= i < |d| ==> HexValue(d[i]).Some?
  {
    if s != [] && HexValue(s[0]).Some? then [s[0]] + HexDigitPrefix(s[1..]) else []
  }

  function HexDigitsValue(s: string): nat
    requires forall i :: 0 <= i < |s| ==> HexValue(s[i]).Some?
  {
    if s == [] then 0 else 16 * HexDigitsValue(s[..|s| - 1]) + HexValue(s[|s| - 1]).value
  }

  /** An optional "0x" before a digit, and then the digits. */
  function Unsigned16(s: string): Option<nat> {
    var t := if |s| > 2 && s[0] == '0' && s[1] in "xX" && HexValue(s[2]).Some? then s[2..] else s;
    var digits := HexDigitPrefix(t);
    if digits == [] then None else Some(HexDigitsValue(digits))
  }

  /** std::stoi in base 16 on any text: white space, an optional sign, and a number. (Its range does not
      matter here: two digits always fit.) */
  function Stoi16(s: string): Option<int> {
    var t := SkipSpaces(s);
    if t == [] then None
    else if t[0] == '+' then Unsigned16(t[1..])
    else if t[0] == '-' then
      match Unsigned16(t[1..])
      case None => None
      case Some(n) => Some(Signed("-", n))
    else Unsigned16(t)
  }

  function Chunk(h: string, k: nat): (s: string)
    requires 2 * k < |h|
    ensures 1 <= |s| <= 2
  {
    h[2 * k .. if 2 * k + 2 <= |h| then 2 * k + 2 else |h|]
  }

  ghost predicate Parses(h: string) {
    forall k :: 0 <= 2 * k < |h| ==> ParseByte(Chunk(h, k)).Some?
  }

  function ToHex(bytes: seq<Byte>): string {
    seq(2 * |bytes|, i requires 0 <= i < 2 * |bytes| =>
      HexChar(if i % 2 == 0 then bytes[i / 2] / 16 else bytes[i / 2] % 16))
  }

  ghost function FromHex(h: string): seq<Byte>
    requires Parses(h)
  {
    seq((|h| + 1) / 2, k requires 0 <= k < (|h| + 1) / 2 => ParseByte(Chunk(h, k)).value)
  }

  method BytesToHex(bytes: seq<Byte>) returns (text: string)
    ensures text == ToHex(bytes)
  {
    text := "";
    for k := 0 to |bytes|
      invariant text == ToHex(bytes)[..2 * k]
    {
      text := text + [HexChar(bytes[k] / 16), HexChar(bytes[k] % 16)];
    }
  }

  /** None stands for the exception that std::stoi throws. */
  method HexToBytes(h: string) returns (bytes: Option<seq<Byte>>)
    ensures bytes.Some? <==> Parses(h)
    ensures bytes.Some? ==> bytes.value == FromHex(h)
  {
    var acc: seq<Byte> := [];
    var i := 0;
    while i < |h|
      invariant 0 <= i <= |h| + 1 && i == 2 * |acc|
      invariant forall k :: 0 <= k < |acc| ==>
        ParseByte(Chunk(h, k)).Some? && acc[k] == ParseByte(Chunk(h, k)).value
    {
      var b := ParseByte(Chunk(h, i / 2));
      if b.None? {
        return None;
      }
      acc := acc + [b.value];
      i := i + 2;
    }
    return Some(acc);
  }

  lemma HexCharValue(n: int)
    requires 0 <= n < 16
    ensures HexValue(HexChar(n)) == Some(n) && IsLowerHex(HexChar(n))
  {
  }

  lemma TwoCharsOfByte(b: Byte)
    ensures ParseByte([HexChar(b / 16), HexChar(b % 16)]) == Some(b)
  {
    HexCharValue(b / 16);
    HexCharValue(b % 16);
  }

  lemma ByteOfTwoChars(c: char, d: char)
    requires IsLowerHex(c) && IsLowerHex(d)
    ensures ParseByte([c, d]).Some?
    ensures var b := ParseByte([c, d]).value; HexChar(b / 16) == c && HexChar(b % 16) == d
  {
    var b := ParseByte([c, d]).value;
    assert b / 16 == HexValue(c).value && b % 16 == HexValue(d).value;
  }

  /** Decoding what was encoded gives the bytes back, for every byte sequence. */
  lemma DecodeEncode(bytes: seq<Byte>)
    ensures Parses(ToHex(bytes)) && FromHex(ToHex(bytes)) == bytes
  {
    var h := ToHex(bytes);
    forall k | 0 <= 2 * k < |h|
      ensures ParseByte(Chunk(h, k)) == Some(bytes[k])
    {
      assert Chunk(h, k) == [HexChar(bytes[k] / 16), HexChar(bytes[k] % 16)];
      TwoCharsOfByte(bytes[k]);
    }
  }

  predicate EvenLowerHex(h: string) {
    |h| % 2 == 0 && forall i :: 0 <= i < |h| ==> IsLowerHex(h[i])
  }

  /** Re-encoding what was decoded gives the text back exactly when the text was even-length
      lowercase hex; the decoder accepts more than that. */
  lemma EncodeDecode(h: string)
    ensures (Parses(h) && ToHex(FromHex(h)) == h) <==> EvenLowerHex(h)
  {
    if EvenLowerHex(h) {
      forall k | 0 <= 2 * k < |h|
        ensures ParseByte(Chunk(h, k)).Some?
        ensures var b := ParseByte(Chunk(h, k)).value; HexChar(b / 16) == h[2 * k] && HexChar(b % 16) == h[2 * k + 1]
      {
        assert Chunk(h, k) == [h[2 * k], h[2 * k + 1]];
        ByteOfTwoChars(h[2 * k], h[2 * k + 1]);
      }
      EncodedDigits(h);
    } else if Parses(h) && ToHex(FromHex(h)) == h {
      EncodedIsLowerHex(FromHex(h));
    }
  }

  lemma HexAt(bytes: seq<Byte>, k: nat)
    requires k < |bytes|
    ensures ToHex(bytes)[2 * k] == HexChar(bytes[k] / 16) && ToHex(bytes)[2 * k + 1] == HexChar(bytes[k] % 16)
  {
  }

  lemma EncodedDigits(h: string)
    requires Parses(h) && |h| % 2 == 0
    requires forall k :: 0 <= 2 * k < |h| ==>
      var b := ParseByte(Chunk(h, k)).value; HexChar(b / 16) == h[2 * k] && HexChar(b % 16) == h[2 * k + 1]
    ensures ToHex(FromHex(h)) == h
  {
    forall i | 0 <= i < |h|
      ensures ToHex(FromHex(h))[i] == h[i]
    {
      var k := i / 2;
      assert i == 2 * k || i == 2 * k + 1;
      HexAt(FromHex(h), k);
    }
  }

  lemma EncodedIsLowerHex(bytes: seq<Byte>)
    ensures EvenLowerHex(ToHex(bytes))
  {
    forall i | 0 <= i < 2 * |bytes|
      ensures IsLowerHex(ToHex(bytes)[i])
    {
      HexCharValue(bytes[i / 2] / 16);
      HexCharValue(bytes[i / 2] % 16);
    }
  }

  /** The hex text of 32 bytes is a digest, each digest comes from 32 bytes, and different bytes
      give different digests. So `Sha` says exactly what sha256's code guarantees. */
  lemma DigestsAreHexOf32Bytes(s: string)
    ensures IsDigest(s) <==> exists bytes: seq<Byte> :: |bytes| == 32 && ToHex(bytes) == s
    ensures forall x: seq<Byte>, y: seq<Byte> :: ToHex(x) == ToHex(y) ==> x == y
  {
    if IsDigest(s) {
      EncodeDecode(s);
      assert |FromHex(s)| == 32;
    }
    forall bytes: seq<Byte> | |bytes| == 32 && ToHex(bytes) == s
      ensures IsDigest(s)
    {
      EncodedIsLowerHex(bytes);
    }
    forall x: seq<Byte>, y: seq<Byte> | ToHex(x) == ToHex(y)
      ensures x == y
    {
      DecodeEncode(x);
      DecodeEncode(y);
    }
  }

  // ---------- the byte parser is the general one, on short texts ----------

  /** The value of a hex digit is its position among the digits of either case. */
  lemma HexDigits(c: char, n: int)
    ensures HexValue(c) == Some(n) <==> 0 <= n < 16 && (c == "0123456789abcdef"[n] || c == "0123456789ABCDEF"[n])
  {
  }

  lemma UnsignedOfOne(c: char)
    ensures Unsigned16([]) == None
    ensures HexDigitPrefix([c]) == if HexValue(c).Some? then [c] else []
    ensures HexValue(c).Some? ==> HexDigitsValue([c]) == HexValue(c).value
    ensures Unsigned16([c]) == if HexValue(c).Some? then Some(HexValue(c).value) else None
  {
    assert [c][1..] == [] && [c][..0] == [];
  }

  lemma UnsignedOfTwo(c: char, d: char)
    ensures Unsigned16([c, d]) ==
      if HexValue(c).None? then None
      else if HexValue(d).None? then Some(HexValue(c).value)
      else Some(16 * HexValue(c).value + HexValue(d).value)
  {
    UnsignedOfOne(d);
    UnsignedOfOne(c);
    assert [c, d][1..] == [d] && [c, d][..1] == [c];
    if HexValue(c).Some? && HexValue(d).Some? {
      assert HexDigitPrefix([c, d]) == [c, d];
    }
  }

  lemma SkipSpacesOfTwo(c: char, d: char)
    ensures SkipSpaces([d]) == if IsSpace(d) then [] else [d]
    ensures SkipSpaces([c, d]) == if IsSpace(c) then SkipSpaces([d]) else [c, d]
  {
    assert [c, d][1..] == [d] && [d][1..] == [];
  }

  lemma StoiOfOne(c: char)
    ensures Stoi16([c]) == if HexValue(c).Some? then Some(HexValue(c).value) else None
  {
    SkipSpacesOfTwo(c, c);
    UnsignedOfOne(c);
    assert [c][1..] == [];
  }

  lemma StoiOfTwo(c: char, d: char)
    ensures Stoi16([c, d]) ==
      if IsSpace(c) then Stoi16([d])
      else if c == '+' then Unsigned16([d])
      else if c == '-' then (match Unsigned16([d]) case None => None case Some(n) => Some(Signed("-", n)))
      else Unsigned16([c, d])
  {
    SkipSpacesOfTwo(c, d);
    assert [c, d][1..] == [d];
  }

  lemma NegatedDigit(c: char)
    requires HexValue(c).Some?
    ensures Signed("-", HexValue(c).value) % 256 == (256 - HexValue(c).value) % 256
    ensures 0 <= HexValue(c).value < 16
  {
  }

  /** The byte parser reads one or two characters exactly as stoi does, cut down to a byte. */
  lemma ParseByteIsStoi(s: string)
    requires 1 <= |s| <= 2
    ensures ParseByte(s) == match Stoi16(s) case None => None case Some(n) => Some(n % 256)
  {
    if |s| == 1 {
      assert s == [s[0]];
      StoiOfOne(s[0]);
    } else {
      assert s == [s[0], s[1]];
      StoiOfOne(s[1]);
      UnsignedOfOne(s[1]);
      UnsignedOfTwo(s[0], s[1]);
      StoiOfTwo(s[0], s[1]);
      if HexValue(s[1]).Some? {
        NegatedDigit(s[1]);
      }
    }
  }
}
