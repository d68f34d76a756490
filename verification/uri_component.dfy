/**
 * `encodeURIComponent` as ECMA-262 defines it (section 19.2.6.4, with the
 * Encode abstract operation of section 19.2.6.5), worked over Unicode
 * scalar values, and `decodeURIComponent` (the Decode operation of section
 * 19.2.6.6 with an empty reserved set), which the round-trip lemma pairs
 * it with.
 */
module UriComponent {
  import opened Wrappers

  predicate IsAsciiAlphanumeric(c: char) {
    ('a' <= c <= 'z') || ('A' <= c <= 'Z') || ('0' <= c <= '9')
  }

  /** The code points encodeURIComponent copies unchanged: ASCII letters,
      digits and `- _ . ! ~ * ' ( )`. */
  predicate IsUnescaped(c: char) {
    || IsAsciiAlphanumeric(c)
    || c == '-' || c == '_' || c == '.' || c == '!' || c == '~'
    || c == '*' || c == '\'' || c == '(' || c == ')'
  }

  /** A Unicode scalar value: what a `char` holds and what well-formed UTF-8 decodes to. */
  predicate IsScalar(cp: int) {
    (0 <= cp < 0xD800) || (0xE000 <= cp < 0x11_0000)
  }

  predicate IsByte(b: int) {
    0 <= b < 0x100
  }

  predicate AllBytes(bs: seq<int>) {
    forall i :: 0 <= i < |bs| ==> IsByte(bs[i])
  }

  /** A UTF-8 continuation byte, `10xxxxxx`. */
  predicate IsContinuation(b: int) {
    0x80 <= b < 0xC0
  }

  /** The length of the UTF-8 sequence a lead byte opens (the count of its
      leading one bits, or 1 for `0xxxxxxx`); 0 for a byte no sequence may
      start with. */
  function LeadLength(b: int): (n: nat)
    ensures n <= 4
  {
    if b < 0x80 then 1
    else if b < 0xC0 then 0
    else if b < 0xE0 then 2
    else if b < 0xF0 then 3
    else if b < 0xF8 then 4
    else 0
  }

  /** Value of a hexadecimal digit of either case. */
  function HexValue(c: char): (r: Option<int>)
    ensures r.Some? <==> IsAsciiAlphanumeric(c) && (c <= '9' || 'A' <= c <= 'F' || 'a' <= c <= 'f')
    ensures r.Some? ==> 0 <= r.value < 16
  {
    if '0' <= c <= '9' then Some(c as int - '0' as int)
    else if 'A' <= c <= 'F' then Some(c as int - 'A' as int + 10)
    else if 'a' <= c <= 'f' then Some(c as int - 'a' as int + 10)
    else None
  }

  /** The uppercase hexadecimal digit for `d`. */
  function HexDigit(d: int): (c: char)
    requires 0 <= d < 16
    ensures IsAsciiAlphanumeric(c) && !('a' <= c <= 'z')
    ensures HexValue(c) == Some(d)
  {
    if d < 10 then ('0' as int + d) as char else ('A' as int + d - 10) as char
  }

  /** `%XX` for one byte, with uppercase digits. */
  function EscapeByte(b: int): (r: string)
    requires IsByte(b)
    ensures |r| == 3 && r[0] == '%'
    ensures IsUnescaped(r[1]) && IsUnescaped(r[2])
  {
    ['%', HexDigit(b / 16), HexDigit(b % 16)]
  }

  function EscapeBytes(bs: seq<int>): (r: string)
    requires AllBytes(bs)
    ensures |r| == 3 * |bs|
    ensures forall i :: 0 <= i < |r| ==> IsUnescaped(r[i]) || r[i] == '%'
    ensures |bs| > 0 ==> r[0] == '%'
  {
    if |bs| == 0 then [] else EscapeByte(bs[0]) + EscapeBytes(bs[1..])
  }

  /** The UTF-8 encoding of a scalar value (RFC 3629). */
  function Utf8(cp: int): (bs: seq<int>)
    requires IsScalar(cp)
    ensures 1 <= |bs| <= 4 && AllBytes(bs)
    ensures LeadLength(bs[0]) == |bs|
    ensures forall i :: 1 <= i < |bs| ==> IsContinuation(bs[i])
    ensures |bs| == 1 <==> cp < 0x80
  {
    if cp < 0x80 then [cp]
    else if cp < 0x800 then [0xC0 + cp / 64, 0x80 + cp % 64]
    else if cp < 0x1_0000 then [0xE0 + cp / 4096, 0x80 + (cp / 64) % 64, 0x80 + cp % 64]
    else [0xF0 + cp / 0x4_0000, 0x80 + (cp / 4096) % 64, 0x80 + (cp / 64) % 64, 0x80 + cp % 64]
  }

  /** One code point as encodeURIComponent writes it. */
  function EncodeChar(c: char): (r: string)
    ensures |r| > 0
    ensures forall i :: 0 <= i < |r| ==> IsUnescaped(r[i]) || r[i] == '%'
    ensures IsUnescaped(c) ==> r == [c]
    ensures !IsUnescaped(c) ==> r[0] == '%'
  {
    if IsUnescaped(c) then [c] else EscapeBytes(Utf8(c as int))
  }

  /** `encodeURIComponent(s)`: every code point is either copied, when it
      is unescaped, or replaced by its UTF-8 bytes as `%XX`; so the result
      holds only unescaped code points and `%`. */
  function Encode(s: string): (r: string)
    ensures forall i :: 0 <= i < |r| ==> IsUnescaped(r[i]) || r[i] == '%'
    ensures |r| >= |s|
    decreases |s|
  {
    if |s| == 0 then [] else EncodeChar(s[0]) + Encode(s[1..])
  }

  /** Reads one `%XX` escape at the start of `s`. */
  function ReadByte(s: string): (r: Option<int>)
    ensures r.Some? ==> |s| >= 3 && s[0] == '%' && IsByte(r.value)
  {
    if |s| < 3 || s[0] != '%' then None
    else
      match (HexValue(s[1]), HexValue(s[2]))
      case (Some(hi), Some(lo)) => Some(hi * 16 + lo)
      case _ => None
  }

  /** Reads `n` consecutive `%XX` escapes at the start of `s`. */
  function ReadBytes(s: string, n: nat): (r: Option<seq<int>>)
    ensures r.Some? ==> |r.value| == n && 3 * n <= |s| && AllBytes(r.value)
    decreases n
  {
    if n == 0 then Some([])
    else
      match ReadByte(s)
      case None => None
      case Some(b) =>
        match ReadBytes(s[3..], n - 1)
        case None => None
        case Some(bs) => Some([b] + bs)
  }

  /** Decodes one UTF-8 sequence whose length its lead byte announces;
      rejects bad continuation bytes, overlong forms, surrogates and values
      above U+10FFFF. */
  function Utf8Decode(bs: seq<int>): (r: Option<int>)
    requires 1 <= |bs| <= 4 && AllBytes(bs) && LeadLength(bs[0]) == |bs|
    ensures r.Some? ==> IsScalar(r.value)
  {
    if exists i :: 1 <= i < |bs| && !IsContinuation(bs[i]) then None
    else
      var cp :=
        if |bs| == 1 then bs[0]
        else if |bs| == 2 then (bs[0] - 0xC0) * 64 + (bs[1] - 0x80)
        else if |bs| == 3 then (bs[0] - 0xE0) * 4096 + (bs[1] - 0x80) * 64 + (bs[2] - 0x80)
        else (bs[0] - 0xF0) * 0x4_0000 + (bs[1] - 0x80) * 4096 + (bs[2] - 0x80) * 64 + (bs[3] - 0x80);
      var least := if |bs| == 1 then 0 else if |bs| == 2 then 0x80 else if |bs| == 3 then 0x800 else 0x1_0000;
      if least <= cp && IsScalar(cp) then Some(cp) else None
  }

  /** Decodes the escaped UTF-8 sequence at the start of `s`: the code point
      and how many characters of `s` it took. */
  function DecodeEscape(s: string): (r: Option<(char, nat)>)
    ensures r.Some? ==> 3 <= r.value.1 <= |s|
  {
    match ReadByte(s)
    case None => None
    case Some(b0) =>
      var n := LeadLength(b0);
      if n == 0 then None
      else
        match ReadBytes(s[3..], n - 1)
        case None => None
        case Some(rest) =>
          match Utf8Decode([b0] + rest)
          case None => None
          case Some(cp) => Some((cp as char, 3 * n))
  }

  function Cons(c: char, r: Option<string>): Option<string> {
    match r
    case None => None
    case Some(t) => Some([c] + t)
  }

  /** `decodeURIComponent(s)`; `None` where it throws URIError. */
  function Decode(s: string): (r: Option<string>)
    ensures r.Some? ==> |r.value| <= |s|
    ensures '%' !in s ==> r == Some(s)
    decreases |s|
  {
    if |s| == 0 then Some([])
    else if s[0] != '%' then
      assert [s[0]] + s[1..] == s;
      Cons(s[0], Decode(s[1..]))
    else
      match DecodeEscape(s)
      case None => None
      case Some((c, len)) => Cons(c, Decode(s[len..]))
  }

  lemma Utf8RoundTrip(cp: int)
    requires IsScalar(cp)
    ensures Utf8Decode(Utf8(cp)) == Some(cp)
  {
    var bs := Utf8(cp);
    if cp >= 0x1_0000 {
      var q := cp / 64;
      var q2 := q / 64;
      assert q2 == cp / 4096;
      assert q2 / 64 == cp / 0x4_0000;
      assert cp == q * 64 + cp % 64;
      assert q == q2 * 64 + q % 64;
      assert q2 == (q2 / 64) * 64 + q2 % 64;
    } else if cp >= 0x800 {
      var q := cp / 64;
      assert q / 64 == cp / 4096;
      assert cp == q * 64 + cp % 64;
      assert q == (q / 64) * 64 + q % 64;
    }
  }

  lemma ReadEscapedByte(b: int, t: string)
    requires IsByte(b)
    ensures ReadByte(EscapeByte(b) + t) == Some(b)
  {
  }

  /** Reading back escaped bytes recovers them, whatever follows. */
  lemma {:induction false} ReadEscapedBytes(bs: seq<int>, t: string)
    requires AllBytes(bs)
    ensures ReadBytes(EscapeBytes(bs) + t, |bs|) == Some(bs)
    decreases |bs|
  {
    if |bs| > 0 {
      var s := EscapeBytes(bs) + t;
      assert s == EscapeByte(bs[0]) + (EscapeBytes(bs[1..]) + t);
      ReadEscapedByte(bs[0], EscapeBytes(bs[1..]) + t);
      assert s[3..] == EscapeBytes(bs[1..]) + t;
      ReadEscapedBytes(bs[1..], t);
      assert [bs[0]] + bs[1..] == bs;
    }
  }

  /** Decoding the encoding of one code point yields that code point and
      leaves whatever follows to be decoded next. */
  lemma DecodeEncodeChar(c: char, t: string)
    ensures Decode(EncodeChar(c) + t) == Cons(c, Decode(t))
  {
    var s := EncodeChar(c) + t;
    if IsUnescaped(c) {
      assert s[1..] == t;
    } else {
      var n := 3 * |Utf8(c as int)|;
      assert DecodeEscape(s) == Some((c, n)) && s[n..] == t by {
        DecodeEscapedChar(c, t);
      }
    }
  }

  /** An escaped code point, whatever follows, decodes to that code point
      and spans three characters per byte. */
  lemma DecodeEscapedChar(c: char, t: string)
    requires !IsUnescaped(c)
    ensures DecodeEscape(EncodeChar(c) + t) == Some((c, 3 * |Utf8(c as int)|))
    ensures (EncodeChar(c) + t)[3 * |Utf8(c as int)|..] == t
  {
    var s := EncodeChar(c) + t;
    var bs := Utf8(c as int);
    var rest := EscapeBytes(bs[1..]) + t;
    assert s == EscapeByte(bs[0]) + rest by {
      assert s == EscapeBytes(bs) + t;
    }
    assert ReadByte(s) == Some(bs[0]) && s[3..] == rest by {
      ReadEscapedByte(bs[0], rest);
    }
    assert ReadBytes(rest, |bs| - 1) == Some(bs[1..]) by {
      ReadEscapedBytes(bs[1..], t);
    }
    assert [bs[0]] + bs[1..] == bs;
    Utf8RoundTrip(c as int);
    assert s[3 * |bs|..] == t by {
      assert |EscapeBytes(bs)| == 3 * |bs|;
    }
  }

  /** decodeURIComponent undoes encodeURIComponent, so distinct values never
      share an encoding. */
  lemma {:induction false} DecodeEncode(s: string)
    ensures Decode(Encode(s)) == Some(s)
    decreases |s|
  {
    if |s| > 0 {
      DecodeEncode(s[1..]);
      DecodeEncodeChar(s[0], Encode(s[1..]));
      assert [s[0]] + s[1..] == s;
    }
  }

  /** encodeURIComponent distributes over concatenation. */
  lemma {:induction false} EncodeAppend(a: string, b: string)
    ensures Encode(a + b) == Encode(a) + Encode(b)
    decreases |a|
  {
    if |a| == 0 {
      assert a + b == b;
    } else {
      var ab := a + b;
      assert ab[0] == a[0];
      assert ab[1..] == a[1..] + b;
      calc {
        Encode(ab);
        EncodeChar(a[0]) + Encode(a[1..] + b);
        { EncodeAppend(a[1..], b); }
        EncodeChar(a[0]) + (Encode(a[1..]) + Encode(b));
      }
    }
  }

  /** A value made only of unescaped code points (ASCII letters and digits
      among them) is copied unchanged. */
  lemma {:induction false} EncodeUnescaped(s: string)
    requires forall i :: 0 <= i < |s| ==> IsUnescaped(s[i])
    ensures Encode(s) == s
    decreases |s|
  {
    if |s| > 0 {
      EncodeUnescaped(s[1..]);
      assert [s[0]] + s[1..] == s;
    }
  }

  /** An encoded value holds none of the characters that delimit a URL or
      its query: `&`, `=`, `?`, `#`, `/`, `+` and space. */
  lemma EncodedIsQuerySafe(s: string)
    ensures '&' !in Encode(s) && '=' !in Encode(s) && '?' !in Encode(s)
    ensures '#' !in Encode(s) && '/' !in Encode(s) && '+' !in Encode(s) && ' ' !in Encode(s)
  {
    QueryDelimiterFree(Encode(s));
  }

  lemma QueryDelimiterFree(r: string)
    requires forall i :: 0 <= i < |r| ==> IsUnescaped(r[i]) || r[i] == '%'
    ensures '&' !in r && '=' !in r && '?' !in r
    ensures '#' !in r && '/' !in r && '+' !in r && ' ' !in r
  {
  }
}
