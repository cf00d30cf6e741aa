/** `CryptoUtil.toHex` / `CryptoUtil.fromHex`: base16 (section 8 of RFC 4648), lowercase on
    output, used to store salts and cipher blobs as text. */
module Hex {
  import opened Wrappers
  import Text

  /** A Java `byte`, by its unsigned bit pattern. */
  type byte = x: int | 0 <= x < 256

  /** The digit `%x` prints for a value below 16. */
  function HexChar(d: nat): (c: char)
    requires d < 16
    ensures IsLowerHex(c)
  {
    if d < 10 then ('0' as int + d) as char else ('a' as int + d - 10) as char
  }

  predicate IsLowerHex(c: char) {
    '0' <= c <= '9' || 'a' <= c <= 'f'
  }

  /** `Character.digit(c, 16)`: the digit's value, or -1 when `c` is no hex digit
      (non-ASCII digits are outside this model). */
  function Digit(c: char): (d: int)
    ensures -1 <= d < 16
    ensures IsLowerHex(c) ==> 0 <= d && HexChar(d) == c
    ensures forall v: nat :: v < 16 && c == HexChar(v) ==> d == v
  {
    if '0' <= c <= '9' then c as int - '0' as int
    else if 'a' <= c <= 'f' then c as int - 'a' as int + 10
    else if 'A' <= c <= 'F' then c as int - 'A' as int + 10
    else -1
  }

  /** `(byte) ((hi << 4) | lo)` on Java's 32-bit two's complement ints, where either digit
      may be -1: a -1 low digit sets every bit, a -1 high digit sets the top four bits. */
  function Pack(hi: int, lo: int): byte
    requires -1 <= hi < 16 && -1 <= lo < 16
  {
    if lo < 0 then 255
    else if hi < 0 then 0xF0 + lo
    else hi * 16 + lo
  }

  /** `String.format("%02x", b)` for each byte, concatenated. */
  function ToHex(bytes: seq<byte>): (s: string)
    ensures |s| == 2 * |bytes|
    ensures forall i :: 0 <= i < |s| ==> IsLowerHex(s[i])
  {
    seq(2 * |bytes|, i requires 0 <= i < 2 * |bytes| =>
      if i % 2 == 0 then HexChar(bytes[i / 2] / 16) else HexChar(bytes[i / 2] % 16))
  }

  /** `Character.digit(ch, 16)` on one UTF-16 code unit: half of a surrogate pair is no
      digit. */
  function UnitDigit(u: int): (d: int)
    ensures -1 <= d < 16
    ensures 0xD800 <= u < 0xE000 ==> d == -1
  {
    if 0 <= u < 0xD800 || 0xE000 <= u < 0x11_0000 then Digit(u as char) else -1
  }

  /** `fromHex`: an odd number of UTF-16 units is an `IllegalArgumentException`; otherwise
      every pair of units becomes one byte, whatever the units are. */
  function FromHex(s: string): (r: Result<seq<byte>>)
    ensures r.Err? <==> Text.Utf16Length(s) % 2 != 0
    ensures r.Err? ==> r.error.IllegalArgument?
    ensures r.Ok? ==> 2 * |r.value| == Text.Utf16Length(s)
  {
    Text.Utf16LengthUnits(s);
    var u := Text.Utf16(s);
    if |u| % 2 != 0 then Err(IllegalArgument("Odd hex string length"))
    else Ok(seq(|u| / 2, i requires 0 <= i < |u| / 2 => Pack(UnitDigit(u[2 * i]), UnitDigit(u[2 * i + 1]))))
  }

  /** Below U+10000 units are characters, so each pair of characters makes one byte. */
  lemma FromHexBmp(s: string)
    requires Text.InBmp(s)
    ensures FromHex(s).Err? <==> |s| % 2 != 0
    ensures FromHex(s).Ok? ==> 2 * |FromHex(s).value| == |s|
    ensures FromHex(s).Ok? ==> forall i :: 0 <= i < |s| / 2 ==>
      FromHex(s).value[i] == Pack(Digit(s[2 * i]), Digit(s[2 * i + 1]))
  {
    Text.Utf16Bmp(s);
    var u := Text.Utf16(s);
    forall k | 0 <= k < |s| ensures UnitDigit(u[k]) == Digit(s[k]) {
      assert u[k] == s[k] as int;
    }
  }

  /** A character beyond U+FFFF is a surrogate pair of non-digits: alone it decodes to 0xFF,
      after one more character the length is odd. */
  lemma FromHexCountsUnits()
    ensures FromHex("\U{1F600}") == Ok([0xFF])
    ensures FromHex("a\U{1F600}").Err?
  {
    var e := "\U{1F600}";
    var u := Text.Utf16(e);
    assert u == Text.Units(e[0]);
    assert u == [0xD83D, 0xDE00];
    var b := FromHex(e).value;
    assert |b| == 1 && b[0] == Pack(-1, -1) == 0xFF;
    assert b == [0xFF];
    Text.Utf16Append("a", e);
    assert "a" + e == "a\U{1F600}";
    assert Text.Utf16("a") == ['a' as int];
  }

  /** The two digits `ToHex` prints for a byte decode to that byte. */
  lemma HexPair(bytes: seq<byte>, i: nat)
    requires i < |bytes|
    ensures Pack(Digit(ToHex(bytes)[2 * i]), Digit(ToHex(bytes)[2 * i + 1])) == bytes[i]
  {
    var hi, lo := bytes[i] / 16, bytes[i] % 16;
    assert Digit(HexChar(hi)) == hi && Digit(HexChar(lo)) == lo;
  }

  /** Every byte string survives encoding and decoding. */
  lemma FromHexToHex(bytes: seq<byte>)
    ensures FromHex(ToHex(bytes)) == Ok(bytes)
  {
    var s := ToHex(bytes);
    assert Text.InBmp(s);
    FromHexBmp(s);
    var back := FromHex(s).value;
    forall i | 0 <= i < |bytes| ensures back[i] == bytes[i] {
      HexPair(bytes, i);
    }
    assert back == bytes;
  }

  /** Every even-length lowercase hex string survives decoding and encoding. */
  lemma ToHexFromHex(s: string)
    requires |s| % 2 == 0
    requires forall i :: 0 <= i < |s| ==> IsLowerHex(s[i])
    ensures FromHex(s).Ok? && ToHex(FromHex(s).value) == s
  {
    assert Text.InBmp(s);
    FromHexBmp(s);
    var bytes := FromHex(s).value;
    var back := ToHex(bytes);
    forall i | 0 <= i < |s| ensures back[i] == s[i] {
      var b := bytes[i / 2];
      var hi := Digit(s[2 * (i / 2)]);
      var lo := Digit(s[2 * (i / 2) + 1]);
      assert b == Pack(hi, lo);
      assert b == hi * 16 + lo;
      assert b / 16 == hi && b % 16 == lo;
    }
  }

  /** Characters that are no hex digits are not rejected: "zz" decodes to the byte 0xFF and
      "g0" to 0xF0. */
  lemma FromHexAcceptsNonHex()
    ensures FromHex("zz") == Ok([255])
    ensures FromHex("g0") == Ok([0xF0])
  {
    FromHexBmp("zz");
    FromHexBmp("g0");
    var zz := FromHex("zz").value;
    assert zz[0] == Pack(Digit('z'), Digit('z'));
    assert |zz| == 1 && zz[0] == Pack(-1, -1) == 255;
    assert zz == [255];
    var g0 := FromHex("g0").value;
    assert g0[0] == Pack(Digit('g'), Digit('0'));
    assert |g0| == 1 && g0[0] == Pack(-1, 0) == 0xF0;
    assert g0 == [0xF0];
  }

  /** Upper-case input decodes like lower-case, so encoding canonicalises it. */
  lemma FromHexIgnoresCase()
    ensures FromHex("AB") == FromHex("ab") == Ok([0xAB])
  {
    FromHexBmp("AB");
    FromHexBmp("ab");
    assert FromHex("AB").Ok? && FromHex("ab").Ok?;
    var abU := FromHex("AB").value;
    assert Digit('A') == 10 && Digit('B') == 11;
    assert abU[0] == Pack(Digit('A'), Digit('B'));
    assert |abU| == 1 && abU[0] == Pack(10, 11) == 0xAB;
    assert abU == [0xAB];
    var ab := FromHex("ab").value;
    assert ab[0] == Pack(Digit('a'), Digit('b'));
    assert |ab| == 1 && ab[0] == Pack(10, 11);
    assert ab == [0xAB];
  }
}
