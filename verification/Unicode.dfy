// Rust strings: sequences of Unicode scalar values, with their UTF-8 and UTF-16 forms.
module Unicode {
  import opened Bytes

  type Unit = u: int | 0 <= u < 0x1_0000

  // ---------- UTF-8 ----------

  function Utf8Char(c: char): (b: seq<Byte>)
    ensures 0 < |b| <= 4
  {
    var n := c as int;
    if n < 0x80 then [n]
    else if n < 0x800 then [0xC0 + n / 0x40, 0x80 + n % 0x40]
    else if n < 0x1_0000 then [0xE0 + n / 0x1000, 0x80 + n / 0x40 % 0x40, 0x80 + n % 0x40]
    else [0xF0 + n / 0x4_0000, 0x80 + n / 0x1000 % 0x40, 0x80 + n / 0x40 % 0x40, 0x80 + n % 0x40]
  }

  function Utf8(s: string): (b: seq<Byte>)
    ensures |s| <= |b|
  {
    if s == [] then [] else Utf8Char(s[0]) + Utf8(s[1..])
  }

  predicate IsScalar(n: int)
  {
    0 <= n < 0xD800 || 0xE000 <= n < 0x11_0000
  }

  predicate Tail(b: Byte)
  {
    0x80 <= b < 0xC0
  }

  // The first scalar of well-formed UTF-8.
  function FirstUtf8(b: seq<Byte>): (r: Option<char>)
    ensures r.Some? ==> |Utf8Char(r.value)| <= |b| && b[..|Utf8Char(r.value)|] == Utf8Char(r.value)
  {
    var n: int :=
      if b == [] then -1
      else if b[0] < 0x80 then b[0] as int
      else if 0xC0 <= b[0] < 0xE0 && |b| >= 2 && Tail(b[1]) then (b[0] as int - 0xC0) * 0x40 + (b[1] as int - 0x80)
      else if 0xE0 <= b[0] < 0xF0 && |b| >= 3 && Tail(b[1]) && Tail(b[2]) then
        (b[0] as int - 0xE0) * 0x1000 + (b[1] as int - 0x80) * 0x40 + (b[2] as int - 0x80)
      else if 0xF0 <= b[0] < 0xF8 && |b| >= 4 && Tail(b[1]) && Tail(b[2]) && Tail(b[3]) then
        (b[0] as int - 0xF0) * 0x4_0000 + (b[1] as int - 0x80) * 0x1000 + (b[2] as int - 0x80) * 0x40 + (b[3] as int - 0x80)
      else -1;
    if !IsScalar(n) then None
    else
      var c := n as char;
      // Overlong forms are not well-formed.
      if Utf8Char(c) <= b then Some(c) else None
  }

  function DecodeUtf8(b: seq<Byte>): (r: Option<string>)
    decreases |b|
  {
    if b == [] then Some([])
    else
      match FirstUtf8(b)
      case None => None
      case Some(c) =>
        match DecodeUtf8(b[|Utf8Char(c)|..])
        case None => None
        case Some(rest) => Some([c] + rest)
  }

  // The six-bit digits of a scalar add up to it again.
  lemma SixBitDigits(n: nat)
    ensures n / 0x40 * 0x40 + n % 0x40 == n
    ensures n / 0x1000 * 0x1000 + n / 0x40 % 0x40 * 0x40 + n % 0x40 == n
    ensures n / 0x4_0000 * 0x4_0000 + n / 0x1000 % 0x40 * 0x1000 + n / 0x40 % 0x40 * 0x40 + n % 0x40 == n
  {
    var a, b := n / 0x40, n / 0x1000;
    assert b == a / 0x40 && n / 0x4_0000 == b / 0x40;
    assert a == b * 0x40 + a % 0x40 && b == b / 0x40 * 0x40 + b % 0x40;
  }

  lemma FirstOfOne(c: char, b: seq<Byte>)
    requires c as int < 0x80 && b != [] && b[0] == c as int && Utf8Char(c) <= b
    ensures FirstUtf8(b) == Some(c)
  {
  }

  lemma FirstOfTwo(c: char, b: seq<Byte>)
    requires 0x80 <= c as int < 0x800 && |b| >= 2 && Utf8Char(c) <= b
    requires b[0] == 0xC0 + c as int / 0x40 && b[1] == 0x80 + c as int % 0x40
    ensures FirstUtf8(b) == Some(c)
  {
    SixBitDigits(c as int);
  }

  lemma FirstOfThree(c: char, b: seq<Byte>)
    requires 0x800 <= c as int < 0x1_0000 && |b| >= 3 && Utf8Char(c) <= b
    requires b[0] == 0xE0 + c as int / 0x1000 && b[1] == 0x80 + c as int / 0x40 % 0x40 && b[2] == 0x80 + c as int % 0x40
    ensures FirstUtf8(b) == Some(c)
  {
    SixBitDigits(c as int);
  }

  lemma FirstOfFour(c: char, b: seq<Byte>)
    requires 0x1_0000 <= c as int && |b| >= 4 && Utf8Char(c) <= b
    requires b[0] == 0xF0 + c as int / 0x4_0000 && b[1] == 0x80 + c as int / 0x1000 % 0x40
    requires b[2] == 0x80 + c as int / 0x40 % 0x40 && b[3] == 0x80 + c as int % 0x40
    ensures FirstUtf8(b) == Some(c)
  {
    SixBitDigits(c as int);
  }

  lemma FirstUtf8Of(c: char, rest: seq<Byte>)
    ensures FirstUtf8(Utf8Char(c) + rest) == Some(c)
  {
    hide FirstUtf8;
    var b, n := Utf8Char(c) + rest, c as int;
    assert b[0] == Utf8Char(c)[0];
    if n < 0x80 {
      FirstOfOne(c, b);
    } else if n < 0x800 {
      assert b[1] == Utf8Char(c)[1];
      FirstOfTwo(c, b);
    } else if n < 0x1_0000 {
      assert b[1] == Utf8Char(c)[1] && b[2] == Utf8Char(c)[2];
      FirstOfThree(c, b);
    } else {
      assert b[1] == Utf8Char(c)[1] && b[2] == Utf8Char(c)[2] && b[3] == Utf8Char(c)[3];
      FirstOfFour(c, b);
    }
  }

  lemma {:induction false} Utf8RoundTrip(s: string)
    ensures DecodeUtf8(Utf8(s)) == Some(s)
  {
    if s != [] {
      FirstUtf8Of(s[0], Utf8(s[1..]));
      assert Utf8(s)[|Utf8Char(s[0])|..] == Utf8(s[1..]);
      Utf8RoundTrip(s[1..]);
      assert [s[0]] + s[1..] == s;
    }
  }

  // Bytes decode to s exactly when they are its UTF-8: overlong forms, surrogates and loose tails do not.
  lemma {:induction false} Utf8Iff(b: seq<Byte>, s: string)
    ensures DecodeUtf8(b) == Some(s) <==> b == Utf8(s)
    decreases |b|
  {
    Utf8RoundTrip(s);
    if b != [] && DecodeUtf8(b) == Some(s) {
      var k := |Utf8Char(s[0])|;
      Utf8Iff(b[k..], s[1..]);
      assert b == b[..k] + b[k..];
    }
  }

  lemma Utf8Examples()
    ensures Utf8Char('A') == [0x41] && Utf8Char('\U{E9}') == [0xC3, 0xA9]
    ensures Utf8Char('\U{20AC}') == [0xE2, 0x82, 0xAC] && Utf8Char('\U{1F600}') == [0xF0, 0x9F, 0x98, 0x80]
  {
  }

  // `String::from_utf8_lossy`; the replacement of ill-formed input is not modelled further.
  function FromUtf8(b: seq<Byte>): string
  {
    match DecodeUtf8(b) case Some(s) => s case None => ['\U{FFFD}']
  }

  // ---------- UTF-16 ----------

  function Utf16Char(c: char): (u: seq<Unit>)
    ensures 0 < |u| <= 2
  {
    var n := c as int;
    if n < 0x1_0000 then [n]
    else [0xD800 + (n - 0x1_0000) / 0x400, 0xDC00 + (n - 0x1_0000) % 0x400]
  }

  function Utf16(s: string): (u: seq<Unit>)
    ensures |s| <= |u|
  {
    if s == [] then [] else Utf16Char(s[0]) + Utf16(s[1..])
  }

  function FirstUtf16(u: seq<Unit>): (r: Option<char>)
    ensures r.Some? ==> |Utf16Char(r.value)| <= |u|
  {
    if u == [] then None
    else if IsScalar(u[0]) then Some(u[0] as char)
    else if 0xD800 <= u[0] < 0xDC00 && |u| >= 2 && 0xDC00 <= u[1] < 0xE000 then
      Some((0x1_0000 + (u[0] as int - 0xD800) * 0x400 + (u[1] as int - 0xDC00)) as char)
    else None
  }

  function DecodeUtf16(u: seq<Unit>): (r: Option<string>)
    decreases |u|
  {
    if u == [] then Some([])
    else
      match FirstUtf16(u)
      case None => None
      case Some(c) =>
        match DecodeUtf16(u[|Utf16Char(c)|..])
        case None => None
        case Some(rest) => Some([c] + rest)
  }

  lemma {:induction false} Utf16RoundTrip(s: string)
    ensures DecodeUtf16(Utf16(s)) == Some(s)
  {
    if s != [] {
      var u := Utf16Char(s[0]) + Utf16(s[1..]);
      assert FirstUtf16(u) == Some(s[0]);
      assert u[|Utf16Char(s[0])|..] == Utf16(s[1..]);
      Utf16RoundTrip(s[1..]);
      assert [s[0]] + s[1..] == s;
    }
  }

  // Units decode to s exactly when they are its UTF-16.
  lemma {:induction false} Utf16Iff(u: seq<Unit>, s: string)
    ensures DecodeUtf16(u) == Some(s) <==> u == Utf16(s)
    decreases |u|
  {
    Utf16RoundTrip(s);
    if u != [] && DecodeUtf16(u) == Some(s) {
      var k := |Utf16Char(s[0])|;
      Utf16Iff(u[k..], s[1..]);
      assert u[..k] == Utf16Char(s[0]);
      assert u == u[..k] + u[k..];
    }
  }

  lemma Utf16Examples()
    ensures Utf16Char('A') == [0x41] && Utf16Char('\U{20AC}') == [0x20AC] && Utf16Char('\U{1F600}') == [0xD83D, 0xDE00]
  {
  }

  // `String::from_utf16_lossy`
  function FromUtf16(u: seq<Unit>): string
  {
    match DecodeUtf16(u) case Some(s) => s case None => ['\U{FFFD}']
  }

  // Units as little-endian bytes.
  function UnitBytes(u: seq<Unit>): (b: seq<Byte>)
    ensures |b| == 2 * |u|
  {
    if u == [] then [] else U16(u[0]) + UnitBytes(u[1..])
  }
}
