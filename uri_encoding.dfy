/**
 * ECMAScript `encodeURI` and `encodeURIComponent`.
 *
 * A character that the function leaves alone is copied; every other
 * character is written as its UTF-8 bytes, each as `%` followed by two
 * upper-case hexadecimal digits (percent-encoding, section 2.1 of RFC 3986).
 * Both leave alone the letters, the digits and `-_.!~*'()`; `encodeURI`
 * also leaves alone `;/?:@&=+$,#`, most of the reserved characters of
 * section 2.2 of RFC 3986 (it escapes `[` and `]`).  Dafny characters are Unicode
 * scalar values, so the lone surrogates on which the JavaScript functions
 * throw cannot occur.
 *
 * The decoder at the end of the module is the partner of the encoder: it
 * undoes the escapes and the UTF-8 encoding, and `DecodeEncode` proves that
 * it recovers every encoded string.
 */
module UriEncoding {
  import opened Wrappers

  /** Which of the two ECMAScript functions is meant. */
  datatype Mode = Uri | Component

  predicate IsAlphaNum(c: char) {
    ('A' <= c <= 'Z') || ('a' <= c <= 'z') || ('0' <= c <= '9')
  }

  /** The characters a function copies unescaped. */
  predicate Keeps(mode: Mode, c: char) {
    || IsAlphaNum(c)
    || c in "-_.!~*'()"
    || (mode == Uri && c in ";/?:@&=+$,#")
  }

  lemma KeptIsAscii(mode: Mode, c: char)
    ensures Keeps(mode, c) ==> (c as int) < 128 && c != '%'
  {
  }

  predicate IsByte(b: int) {
    0 <= b < 256
  }

  predicate IsScalar(v: int) {
    (0 <= v < 0xD800) || (0xE000 <= v < 0x11_0000)
  }

  /** The UTF-8 encoding of one character (section 3 of RFC 3629). */
  function Utf8(c: char): (bs: seq<int>)
    ensures 1 <= |bs| <= 4
    ensures forall i :: 0 <= i < |bs| ==> IsByte(bs[i])
    ensures (c as int) < 128 ==> bs == [c as int]
  {
    var n := c as int;
    if n < 0x80 then [n]
    else if n < 0x800 then [0xC0 + n / 64, 0x80 + n % 64]
    else if n < 0x1_0000 then [0xE0 + n / 4096, 0x80 + (n / 64) % 64, 0x80 + n % 64]
    else [0xF0 + n / 262144, 0x80 + (n / 4096) % 64, 0x80 + (n / 64) % 64, 0x80 + n % 64]
  }

  /** The bytes of a whole string. */
  function Utf8String(s: string): (bs: seq<int>)
    ensures forall i :: 0 <= i < |bs| ==> IsByte(bs[i])
  {
    if s == [] then [] else Utf8(s[0]) + Utf8String(s[1..])
  }

  predicate IsHexDigit(c: char) {
    ('0' <= c <= '9') || ('A' <= c <= 'F') || ('a' <= c <= 'f')
  }

  /** The upper-case hexadecimal digit for `d`. */
  function HexDigit(d: int): (c: char)
    requires 0 <= d < 16
    ensures IsHexDigit(c)
  {
    if d < 10 then ('0' as int + d) as char else ('A' as int + d - 10) as char
  }

  function HexValue(c: char): (d: int)
    requires IsHexDigit(c)
    ensures 0 <= d < 16
  {
    if c <= '9' then c as int - '0' as int
    else if c <= 'F' then c as int - 'A' as int + 10
    else c as int - 'a' as int + 10
  }

  lemma HexValueOfDigit(d: int)
    requires 0 <= d < 16
    ensures HexValue(HexDigit(d)) == d
  {
  }

  /** `%XY` for one byte. */
  function Escape(b: int): (t: string)
    requires IsByte(b)
    ensures |t| == 3 && t[0] == '%' && IsHexDigit(t[1]) && IsHexDigit(t[2])
  {
    ['%', HexDigit(b / 16), HexDigit(b % 16)]
  }

  /** The escapes of a byte sequence: only `%` and hexadecimal digits. */
  function EscapeAll(bs: seq<int>): (t: string)
    requires forall i :: 0 <= i < |bs| ==> IsByte(bs[i])
    ensures forall i :: 0 <= i < |t| ==> t[i] == '%' || IsHexDigit(t[i])
  {
    if bs == [] then []
    else
      var head, tail := Escape(bs[0]), EscapeAll(bs[1..]);
      assert forall i :: |head| <= i < |head + tail| ==> (head + tail)[i] == tail[i - |head|];
      head + tail
  }

  /** The characters the result of an encoding consists of. */
  predicate InEncodedAlphabet(mode: Mode, c: char) {
    Keeps(mode, c) || c == '%' || IsHexDigit(c)
  }

  function EncodeChar(mode: Mode, c: char): (t: string)
    ensures forall i :: 0 <= i < |t| ==> InEncodedAlphabet(mode, t[i])
  {
    if Keeps(mode, c) then [c] else EscapeAll(Utf8(c))
  }

  /**
   * `encodeURI(s)` (mode `Uri`) or `encodeURIComponent(s)` (mode
   * `Component`).  The result is made only of the kept characters, `%` and
   * hexadecimal digits, and a string of kept characters is its own encoding.
   */
  function Encode(mode: Mode, s: string): (t: string)
    ensures forall i :: 0 <= i < |t| ==> InEncodedAlphabet(mode, t[i])
    ensures (forall i :: 0 <= i < |s| ==> Keeps(mode, s[i])) ==> t == s
    ensures |t| >= |s|
  {
    if s == [] then []
    else
      var head, tail := EncodeChar(mode, s[0]), Encode(mode, s[1..]);
      AlphabetAppend(mode, head, tail);
      assert (forall i :: 0 <= i < |s| ==> Keeps(mode, s[i])) ==>
        head == [s[0]] && (forall i :: 0 <= i < |s[1..]| ==> Keeps(mode, s[1..][i]));
      assert [s[0]] + s[1..] == s;
      head + tail
  }

  /** Two strings over the encoded alphabet concatenate to one. */
  lemma AlphabetAppend(mode: Mode, a: string, b: string)
    requires forall i :: 0 <= i < |a| ==> InEncodedAlphabet(mode, a[i])
    requires forall i :: 0 <= i < |b| ==> InEncodedAlphabet(mode, b[i])
    ensures forall i :: 0 <= i < |a + b| ==> InEncodedAlphabet(mode, (a + b)[i])
  {
    forall i | 0 <= i < |a + b|
      ensures InEncodedAlphabet(mode, (a + b)[i])
    {
      if i >= |a| {
        assert (a + b)[i] == b[i - |a|];
      }
    }
  }

  function EncodeUri(s: string): string {
    Encode(Uri, s)
  }

  /** Encoding works character by character, so it distributes over concatenation. */
  lemma {:induction false} EncodeAppend(mode: Mode, a: string, b: string)
    ensures Encode(mode, a + b) == Encode(mode, a) + Encode(mode, b)
  {
    if a == [] {
      assert a + b == b;
    } else {
      assert (a + b)[0] == a[0];
      assert (a + b)[1..] == a[1..] + b;
      EncodeAppend(mode, a[1..], b);
    }
  }

  /** A character that is neither alphanumeric nor `%`. */
  predicate IsDelimiter(p: char) {
    !IsAlphaNum(p) && p != '%'
  }

  /**
   * A delimiter such as `/`, `?`, `&` or `=` shows up in an encoding exactly
   * when it was in the input and the function keeps it: `encodeURI` passes
   * `?` and `&` through, `encodeURIComponent` never lets them appear.
   */
  lemma {:induction false} DelimiterInEncoding(mode: Mode, s: string, p: char)
    requires IsDelimiter(p)
    ensures p in Encode(mode, s) <==> Keeps(mode, p) && p in s
  {
    if s != [] {
      DelimiterInEncoding(mode, s[1..], p);
      var head, tail := EncodeChar(mode, s[0]), Encode(mode, s[1..]);
      assert Encode(mode, s) == head + tail;
      assert p in head <==> p == s[0] && Keeps(mode, p);
      assert s == [s[0]] + s[1..];
    }
  }

  // ---------------------------------------------------------------------
  // The partner: percent-decoding followed by UTF-8 decoding.
  // ---------------------------------------------------------------------

  /** Replaces each `%XY` by its byte and each other ASCII character by its code. */
  function Unescape(t: string): Option<seq<int>>
  {
    if t == [] then Some([])
    else if t[0] == '%' then
      if |t| >= 3 && IsHexDigit(t[1]) && IsHexDigit(t[2]) then
        match Unescape(t[3..])
        case None => None
        case Some(rest) => Some([HexValue(t[1]) * 16 + HexValue(t[2])] + rest)
      else None
    else if (t[0] as int) < 128 then
      match Unescape(t[1..])
      case None => None
      case Some(rest) => Some([t[0] as int] + rest)
    else None
  }

  /** The length of the UTF-8 sequence a lead byte announces, 0 for a byte that cannot lead. */
  function SequenceLength(b: int): nat {
    if 0 <= b < 0x80 then 1
    else if 0xC0 <= b < 0xE0 then 2
    else if 0xE0 <= b < 0xF0 then 3
    else if 0xF0 <= b < 0xF8 then 4
    else 0
  }

  predicate IsContinuation(b: int) {
    0x80 <= b < 0xC0
  }

  /** The code point a lead byte and its continuation bytes stand for. */
  function CodePoint(bs: seq<int>): int
    requires 1 <= |bs| <= 4
  {
    if |bs| == 1 then bs[0]
    else if |bs| == 2 then (bs[0] - 0xC0) * 64 + (bs[1] - 0x80)
    else if |bs| == 3 then (bs[0] - 0xE0) * 4096 + (bs[1] - 0x80) * 64 + (bs[2] - 0x80)
    else (bs[0] - 0xF0) * 262144 + (bs[1] - 0x80) * 4096 + (bs[2] - 0x80) * 64 + (bs[3] - 0x80)
  }

  function DecodeUtf8(bs: seq<int>): Option<string>
    decreases |bs|
  {
    if bs == [] then Some([])
    else
      var n := SequenceLength(bs[0]);
      if n == 0 || |bs| < n then None
      else if !(forall i :: 1 <= i < n ==> IsContinuation(bs[i])) then None
      else
        var v := CodePoint(bs[..n]);
        if !IsScalar(v) then None
        else
          match DecodeUtf8(bs[n..])
          case None => None
          case Some(rest) => Some([v as char] + rest)
  }

  /** Undoes `Encode` in either mode. */
  function Decode(t: string): Option<string> {
    match Unescape(t)
    case None => None
    case Some(bs) => DecodeUtf8(bs)
  }

  lemma {:induction false} UnescapeEscapeAll(bs: seq<int>, t: string)
    requires forall i :: 0 <= i < |bs| ==> IsByte(bs[i])
    ensures Unescape(EscapeAll(bs) + t) ==
      match Unescape(t)
      case None => None
      case Some(rest) => Some(bs + rest)
  {
    if bs != [] {
      var b := bs[0];
      var e := Escape(b);
      assert EscapeAll(bs) + t == e + (EscapeAll(bs[1..]) + t);
      var u := e + (EscapeAll(bs[1..]) + t);
      assert u[0] == '%' && u[1] == e[1] && u[2] == e[2];
      assert u[3..] == EscapeAll(bs[1..]) + t;
      HexValueOfDigit(b / 16);
      HexValueOfDigit(b % 16);
      assert HexValue(u[1]) * 16 + HexValue(u[2]) == b;
      UnescapeEscapeAll(bs[1..], t);
      match Unescape(t)
      case None =>
      case Some(rest) =>
        assert [b] + (bs[1..] + rest) == bs + rest;
    } else {
      assert EscapeAll(bs) + t == t;
      match Unescape(t)
      case None =>
      case Some(rest) => assert bs + rest == rest;
    }
  }

  lemma UnescapeEncodeChar(mode: Mode, c: char, t: string)
    ensures Unescape(EncodeChar(mode, c) + t) ==
      match Unescape(t)
      case None => None
      case Some(rest) => Some(Utf8(c) + rest)
  {
    if Keeps(mode, c) {
      KeptIsAscii(mode, c);
      assert ([c] + t)[1..] == t;
    } else {
      UnescapeEscapeAll(Utf8(c), t);
    }
  }

  /** Percent-decoding an encoding gives back the UTF-8 bytes of the input. */
  lemma {:induction false} UnescapeEncode(mode: Mode, s: string)
    ensures Unescape(Encode(mode, s)) == Some(Utf8String(s))
  {
    if s != [] {
      UnescapeEncode(mode, s[1..]);
      UnescapeEncodeChar(mode, s[0], Encode(mode, s[1..]));
    }
  }

  lemma Div64(n: int)
    requires n >= 0
    ensures n == (n / 64) * 64 + n % 64
    ensures (n / 64) / 64 == n / 4096
    ensures (n / 4096) / 64 == n / 262144
  {
  }

  /** Decoding the UTF-8 bytes of one character yields that character. */
  lemma Utf8CodePoint(c: char)
    ensures SequenceLength(Utf8(c)[0]) == |Utf8(c)|
    ensures forall i :: 1 <= i < |Utf8(c)| ==> IsContinuation(Utf8(c)[i])
    ensures CodePoint(Utf8(c)) == c as int
  {
    var n := c as int;
    Div64(n);
    Div64(n / 64);
    Div64(n / 4096);
    if n < 0x80 {
    } else if n < 0x800 {
      assert CodePoint(Utf8(c)) == (n / 64) * 64 + n % 64;
    } else if n < 0x1_0000 {
      assert n / 4096 < 16;
      assert CodePoint(Utf8(c)) == (n / 4096) * 4096 + ((n / 64) % 64) * 64 + n % 64;
      assert (n / 64) == (n / 4096) * 64 + (n / 64) % 64;
    } else {
      assert n / 262144 < 8;
      assert CodePoint(Utf8(c)) == (n / 262144) * 262144 + ((n / 4096) % 64) * 4096 + ((n / 64) % 64) * 64 + n % 64;
      assert (n / 4096) == (n / 262144) * 64 + (n / 4096) % 64;
      assert (n / 64) == (n / 4096) * 64 + (n / 64) % 64;
    }
  }

  lemma DecodeUtf8Char(c: char, bs: seq<int>)
    ensures DecodeUtf8(Utf8(c) + bs) ==
      match DecodeUtf8(bs)
      case None => None
      case Some(rest) => Some([c] + rest)
  {
    var u := Utf8(c);
    var w := u + bs;
    Utf8CodePoint(c);
    assert w[..|u|] == u && w[|u|..] == bs;
    assert w[0] == u[0];
    assert forall i :: 1 <= i < |u| ==> IsContinuation(w[i]) by {
      forall i | 1 <= i < |u| ensures IsContinuation(w[i]) { assert w[i] == u[i]; }
    }
  }

  /** UTF-8 decoding inverts UTF-8 encoding on every string. */
  lemma {:induction false} DecodeUtf8String(s: string)
    ensures DecodeUtf8(Utf8String(s)) == Some(s)
  {
    if s != [] {
      DecodeUtf8String(s[1..]);
      DecodeUtf8Char(s[0], Utf8String(s[1..]));
      assert [s[0]] + s[1..] == s;
    }
  }

  /** Round trip: every encoding, in either mode, decodes to the string encoded. */
  lemma DecodeEncode(mode: Mode, s: string)
    ensures Decode(Encode(mode, s)) == Some(s)
  {
    UnescapeEncode(mode, s);
    DecodeUtf8String(s);
  }

  /** Hence encoding is injective: two strings with the same encoding are equal. */
  lemma EncodeInjective(mode: Mode, a: string, b: string)
    ensures Encode(mode, a) == Encode(mode, b) ==> a == b
  {
    DecodeEncode(mode, a);
    DecodeEncode(mode, b);
  }
}
