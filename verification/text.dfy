/** The pieces of `java.lang.String`, `Character` and `Integer` the vault code relies on. */
module Text {
  import opened Wrappers

  const IntMin: int := -0x8000_0000
  const IntMax: int := 0x7FFF_FFFF

  predicate InInt32(n: int) {
    IntMin <= n <= IntMax
  }

  /** The `(int)` cast of a wider integer: its low 32 bits, read as two's complement. */
  function ToInt32(n: int): (r: int)
    ensures InInt32(r)
    ensures (n - r) % 0x1_0000_0000 == 0
    ensures InInt32(n) ==> r == n
  {
    var low := (n - IntMin) % 0x1_0000_0000;
    assert n - IntMin == 0x1_0000_0000 * ((n - IntMin) / 0x1_0000_0000) + low;
    low + IntMin
  }

  /** `Character.isWhitespace`: the ASCII separators and controls, and the Unicode space,
      line and paragraph separators other than the non-breaking ones. */
  predicate IsWhitespace(c: char) {
    || '\U{0009}' <= c <= '\U{000D}'
    || '\U{001C}' <= c <= '\U{0020}'
    || c == '\U{1680}'
    || '\U{2000}' <= c <= '\U{2006}'
    || '\U{2008}' <= c <= '\U{200A}'
    || c == '\U{2028}' || c == '\U{2029}' || c == '\U{205F}' || c == '\U{3000}'
  }

  /** `String.isBlank`: empty or whitespace only. */
  predicate IsBlank(s: string) {
    forall i :: 0 <= i < |s| ==> IsWhitespace(s[i])
  }

  /** `isBlank` and `trim` disagree beyond ASCII: a blank ASCII string trims to "", while
      U+2000 (en quad) is blank yet survives `trim`, and U+0000 trims away yet is not blank. */
  lemma BlankVersusTrim(s: string)
    requires forall i :: 0 <= i < |s| ==> s[i] < '\U{0080}'
    ensures IsBlank(s) ==> Trim(s) == ""
    ensures IsBlank("\U{2000}") && Trim("\U{2000}") == "\U{2000}"
    ensures !IsBlank("\U{0000}") && Trim("\U{0000}") == ""
  {
    if IsBlank(s) {
      assert AllTrimmable(s);
    }
    assert !IsTrimmable("\U{2000}"[0]);
    assert IsWhitespace("\U{2000}"[0]);
    assert IsTrimmable("\U{0000}"[0]) && "\U{0000}"[1..] == "";
    assert !IsWhitespace("\U{0000}"[0]);
  }

  /** The UTF-16 code units of one character: itself below U+10000, else a surrogate pair. */
  function Units(c: char): (u: seq<int>)
    ensures 1 <= |u| <= 2
    ensures |u| == 1 <==> c as int < 0x10000
  {
    if c as int < 0x10000 then [c as int]
    else
      var v := c as int - 0x10000;
      [0xD800 + v / 0x400, 0xDC00 + v % 0x400]
  }

  /** A Java string's `char` sequence: the code units `charAt` and `length` count. */
  function Utf16(s: string): (u: seq<int>)
    ensures |s| <= |u| <= 2 * |s|
  {
    if |s| == 0 then [] else Units(s[0]) + Utf16(s[1..])
  }

  /** `String.length`: one unit per character, two beyond U+FFFF. */
  function Utf16Length(s: string): (n: nat)
    ensures |s| <= n <= 2 * |s|
  {
    if |s| == 0 then 0 else (if s[0] as int < 0x10000 then 1 else 2) + Utf16Length(s[1..])
  }

  /** `length` counts the units `charAt` reads. */
  lemma {:induction false} Utf16LengthUnits(s: string)
    ensures |Utf16(s)| == Utf16Length(s)
  {
    if |s| > 0 {
      Utf16LengthUnits(s[1..]);
    }
  }

  predicate InBmp(s: string) {
    forall i :: 0 <= i < |s| ==> s[i] as int < 0x10000
  }

  /** Encoding distributes over concatenation. */
  lemma {:induction false} Utf16Append(a: string, b: string)
    ensures Utf16(a + b) == Utf16(a) + Utf16(b)
    ensures Utf16Length(a + b) == Utf16Length(a) + Utf16Length(b)
  {
    if |a| == 0 {
      assert a + b == b;
    } else {
      assert (a + b)[1..] == a[1..] + b;
      Utf16Append(a[1..], b);
    }
  }

  /** Below U+10000 every character is one unit, its own code point. */
  lemma {:induction false} Utf16Bmp(s: string)
    requires InBmp(s)
    ensures Utf16(s) == seq(|s|, i requires 0 <= i < |s| => s[i] as int)
    ensures Utf16Length(s) == |s|
  {
    if |s| > 0 {
      Utf16Bmp(s[1..]);
    }
  }

  /** A character beyond U+FFFF counts twice: four emoji and a letter make nine units. */
  lemma SurrogatesCountTwice()
    ensures Utf16Length("\U{1F600}") == 2
    ensures Utf16Length("\U{1F600}\U{1F600}\U{1F600}\U{1F600}A") == 9
  {
    var e := "\U{1F600}";
    assert Utf16(e) == Units(e[0]);
    var s := "\U{1F600}\U{1F600}\U{1F600}\U{1F600}A";
    assert s == e + e + e + e + "A";
    Utf16Append(e + e + e + e, "A");
    Utf16Append(e + e + e, e);
    Utf16Append(e + e, e);
    Utf16Append(e, e);
    assert Utf16("A") == ['A' as int];
  }

  /** The characters `String.trim` removes: everything up to and including U+0020. */
  predicate IsTrimmable(c: char) {
    c <= ' '
  }

  function TrimStart(s: string): (r: string)
    ensures |r| <= |s| && r == s[|s| - |r|..]
    ensures |r| == 0 || !IsTrimmable(r[0])
    ensures forall i :: 0 <= i < |s| - |r| ==> IsTrimmable(s[i])
  {
    if |s| > 0 && IsTrimmable(s[0]) then TrimStart(s[1..]) else s
  }

  function TrimEnd(s: string): (r: string)
    ensures |r| <= |s| && r == s[..|r|]
    ensures |r| == 0 || !IsTrimmable(r[|r| - 1])
    ensures forall i :: |r| <= i < |s| ==> IsTrimmable(s[i])
  {
    if |s| > 0 && IsTrimmable(s[|s| - 1]) then TrimEnd(s[..|s| - 1]) else s
  }

  /** `String.trim`: strips leading and trailing characters up to U+0020. */
  function Trim(s: string): (r: string)
    ensures |r| <= |s|
  {
    TrimEnd(TrimStart(s))
  }

  /** Neither end of a trimmed string is trimmable. */
  lemma TrimEnds(s: string)
    ensures var r := Trim(s);
      |r| == 0 || (!IsTrimmable(r[0]) && !IsTrimmable(r[|r| - 1]))
  {
    var t := TrimStart(s);
    var r := TrimEnd(t);
    assert r == t[..|r|];
  }

  /** What `trim` returns is the slice of `s` that starts where the trimmable prefix
      `TrimStart` removes ends. */
  lemma TrimSlice(s: string)
    ensures var r := Trim(s);
      var a := |s| - |TrimStart(s)|;
      a + |r| <= |s| && r == s[a..a + |r|]
  {
    var t := TrimStart(s);
    var r := TrimEnd(t);
    var a := |s| - |t|;
    assert t == s[a..] && r == t[..|r|];
    assert s[a..][..|r|] == s[a..a + |r|];
  }

  /** Everything in `s` after what `trim` returns is trimmable. */
  lemma TrimSuffix(s: string)
    ensures var r := Trim(s);
      var a := |s| - |TrimStart(s)|;
      forall i :: a + |r| <= i < |s| ==> IsTrimmable(s[i])
  {
    var t := TrimStart(s);
    var r := TrimEnd(t);
    var a := |s| - |t|;
    assert t == s[a..];
    forall i | a + |r| <= i < |s| ensures IsTrimmable(s[i]) {
      assert |r| <= i - a < |t|;
      assert IsTrimmable(t[i - a]);
    }
  }

  predicate AllTrimmable(s: string) {
    forall i :: 0 <= i < |s| ==> IsTrimmable(s[i])
  }

  lemma {:induction false} TrimStartPadded(a: string, m: string)
    requires AllTrimmable(a)
    requires |m| > 0 && !IsTrimmable(m[0])
    ensures TrimStart(a + m) == m
    decreases |a|
  {
    if |a| > 0 {
      assert (a + m)[1..] == a[1..] + m;
      TrimStartPadded(a[1..], m);
    } else {
      assert a + m == m;
    }
  }

  lemma {:induction false} TrimEndPadded(m: string, b: string)
    requires AllTrimmable(b)
    requires |m| > 0 && !IsTrimmable(m[|m| - 1])
    ensures TrimEnd(m + b) == m
    decreases |b|
  {
    if |b| > 0 {
      assert (m + b)[..|m + b| - 1] == m + b[..|b| - 1];
      TrimEndPadded(m, b[..|b| - 1]);
    } else {
      assert m + b == m;
    }
  }

  /** `Trim` removes exactly the padding around a text that neither starts nor ends with a
      trimmable character. */
  lemma TrimPadded(a: string, m: string, b: string)
    requires AllTrimmable(a) && AllTrimmable(b)
    requires |m| > 0 && !IsTrimmable(m[0]) && !IsTrimmable(m[|m| - 1])
    ensures Trim(a + m + b) == m
  {
    assert a + m + b == a + (m + b);
    TrimStartPadded(a, m + b);
    TrimEndPadded(m, b);
  }

  predicate IsAsciiLower(c: char) {
    'a' <= c <= 'z'
  }

  predicate IsAsciiUpper(c: char) {
    'A' <= c <= 'Z'
  }

  /** `Character.isDigit`, restricted to ASCII. */
  predicate IsDigit(c: char) {
    '0' <= c <= '9'
  }

  function UpperChar(c: char): (r: char)
    ensures !IsAsciiLower(r)
    ensures !IsAsciiLower(c) ==> r == c
  {
    if IsAsciiLower(c) then (c as int - 32) as char else c
  }

  /** `String.toUpperCase`, restricted to ASCII letters. */
  function ToUpper(s: string): (r: string)
    ensures |r| == |s|
    ensures forall i :: 0 <= i < |s| ==> r[i] == UpperChar(s[i])
  {
    seq(|s|, i requires 0 <= i < |s| => UpperChar(s[i]))
  }

  function DigitValue(c: char): (d: nat)
    requires IsDigit(c)
    ensures d < 10
  {
    c as int - '0' as int
  }

  function DigitChar(d: nat): (c: char)
    requires d < 10
    ensures IsDigit(c) && DigitValue(c) == d
  {
    ('0' as int + d) as char
  }

  predicate AllDigits(s: string) {
    forall i :: 0 <= i < |s| ==> IsDigit(s[i])
  }

  /** The value of a string of decimal digits, most significant first. */
  function DigitsValue(s: string): nat
    requires AllDigits(s)
  {
    if |s| == 0 then 0 else DigitsValue(s[..|s| - 1]) * 10 + DigitValue(s[|s| - 1])
  }

  /** The shortest decimal spelling of `n`. */
  function NatToDigits(n: nat): (s: string)
    ensures |s| > 0 && AllDigits(s)
  {
    if n < 10 then [DigitChar(n)] else NatToDigits(n / 10) + [DigitChar(n % 10)]
  }

  lemma {:induction false} DigitsRoundTrip(n: nat)
    ensures DigitsValue(NatToDigits(n)) == n
  {
    if n >= 10 {
      var s := NatToDigits(n);
      assert s[..|s| - 1] == NatToDigits(n / 10);
      DigitsRoundTrip(n / 10);
    }
  }

  /** `String.valueOf(int)` / `Integer.toString`. */
  function IntToString(n: int): string {
    if n < 0 then "-" + NatToDigits(-n) else NatToDigits(n)
  }

  /** `String.format("%0<width>d", n)` for a non-negative `n`. */
  function ZeroPad(n: nat, width: nat): (s: string)
    ensures |s| >= width && AllDigits(s)
  {
    var digits := NatToDigits(n);
    if |digits| >= width then digits else seq(width - |digits|, _ => '0') + digits
  }

  /** A sign-free digit string with leading zeros has the value of its digits. */
  lemma {:induction false} LeadingZerosValue(z: nat, s: string)
    requires AllDigits(s)
    ensures AllDigits(seq(z, _ => '0') + s)
    ensures DigitsValue(seq(z, _ => '0') + s) == DigitsValue(s)
    decreases |s|
  {
    var t := seq(z, _ => '0') + s;
    assert AllDigits(t) by {
      forall i | 0 <= i < |t| ensures IsDigit(t[i]) {
        if i >= z { assert t[i] == s[i - z]; }
      }
    }
    if |s| == 0 {
      assert t == seq(z, _ => '0');
      ZerosValue(z);
    } else {
      assert t[..|t| - 1] == seq(z, _ => '0') + s[..|s| - 1];
      LeadingZerosValue(z, s[..|s| - 1]);
    }
  }

  lemma {:induction false} ZerosValue(z: nat)
    ensures AllDigits(seq(z, _ => '0'))
    ensures DigitsValue(seq(z, _ => '0')) == 0
  {
    if z > 0 {
      assert seq(z, _ => '0')[..z - 1] == seq(z - 1, _ => '0');
      ZerosValue(z - 1);
    }
  }

  /** `%04d` of a value below 10000 is exactly four digits that read back as the value. */
  lemma ZeroPadFour(n: nat)
    requires n < 10000
    ensures |ZeroPad(n, 4)| == 4
    ensures DigitsValue(ZeroPad(n, 4)) == n
  {
    var digits := NatToDigits(n);
    DigitsRoundTrip(n);
    NatToDigitsLength(n);
    if |digits| < 4 {
      LeadingZerosValue(4 - |digits|, digits);
    }
  }

  lemma {:induction false} NatToDigitsLength(n: nat)
    ensures n < 10 ==> |NatToDigits(n)| == 1
    ensures n < 100 ==> |NatToDigits(n)| <= 2
    ensures n < 1000 ==> |NatToDigits(n)| <= 3
    ensures n < 10000 ==> |NatToDigits(n)| <= 4
  {
    if n >= 10 {
      NatToDigitsLength(n / 10);
    }
  }

  /** `Integer.parseInt(s)`: an optional `+` or `-`, then at least one decimal digit, and a
      value that fits in 32 bits; anything else is a `NumberFormatException`. */
  function ParseInt(s: string): (r: Result<int>)
    ensures r.Ok? ==> InInt32(r.value)
    ensures r.Err? ==> r.error == NumberFormat
  {
    if |s| == 0 then Err(NumberFormat)
    else
      var signed := s[0] == '-' || s[0] == '+';
      var body := if signed then s[1..] else s;
      if |body| == 0 || !AllDigits(body) then Err(NumberFormat)
      else
        var v: int := if s[0] == '-' then 0 - DigitsValue(body) else DigitsValue(body);
        if InInt32(v) then Ok(v) else Err(NumberFormat)
  }

  /** Every 32-bit integer survives printing and parsing back. */
  lemma ParseIntRoundTrip(n: int)
    requires InInt32(n)
    ensures ParseInt(IntToString(n)) == Ok(n)
  {
    if n < 0 {
      var s := IntToString(n);
      assert s[1..] == NatToDigits(-n);
      DigitsRoundTrip(-n);
    } else {
      DigitsRoundTrip(n);
    }
  }

  /** A string accepted by `ParseInt` carries no sign other than `+`/`-` in front and only
      digits after it. */
  lemma ParseIntAcceptsOnlyNumerals(s: string)
    requires ParseInt(s).Ok?
    ensures |s| > 0
    ensures forall i :: 0 < i < |s| ==> IsDigit(s[i])
    ensures IsDigit(s[0]) || s[0] == '-' || s[0] == '+'
  {
    if s[0] == '-' || s[0] == '+' {
      assert forall i :: 0 < i < |s| ==> s[i] == s[1..][i - 1];
    }
  }
}
