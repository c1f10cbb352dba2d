/**
 * Node's `querystring.escape`, which `qs.stringify({ token })` applies to the
 * token in an email link: characters outside the unreserved set become the
 * upper-case `%XX` escapes of their UTF-8 bytes. `Unescape` is the decoder a
 * link consumer applies; `UnescapeEscape` proves the two inverse.
 */
module QueryString {
  import opened Wrappers

  type Byte = b: int | 0 <= b < 256

  /** Characters `querystring.escape` leaves unchanged. */
  predicate Unreserved(c: char)
  {
    || ('A' <= c <= 'Z')
    || ('a' <= c <= 'z')
    || ('0' <= c <= '9')
    || c in "-._~!'()*"
  }

  /** Code points that are Unicode scalar values, i.e. valid `char`s. */
  predicate IsScalar(cp: int)
  {
    (0 <= cp < 0xD800) || (0xE000 <= cp < 0x11_0000)
  }

  /** The UTF-8 encoding of one character. */
  function Utf8(c: char): (bs: seq<Byte>)
    ensures 1 <= |bs| <= 4
  {
    var cp := c as int;
    if cp < 0x80 then [cp]
    else if cp < 0x800 then [0xC0 + cp / 64, 0x80 + cp % 64]
    else if cp < 0x1_0000 then [0xE0 + cp / 4096, 0x80 + (cp / 64) % 64, 0x80 + cp % 64]
    else [0xF0 + cp / 262144, 0x80 + (cp / 4096) % 64, 0x80 + (cp / 64) % 64, 0x80 + cp % 64]
  }

  function HexDigit(d: nat): char
    requires d < 16
  {
    "0123456789ABCDEF"[d]
  }

  /** `%XX` with upper-case hexadecimal digits. */
  function PercentByte(b: Byte): (s: string)
    ensures |s| == 3
  {
    ['%', HexDigit(b / 16), HexDigit(b % 16)]
  }

  function PercentBytes(bs: seq<Byte>): (s: string)
    ensures |s| == 3 * |bs|
    decreases |bs|
  {
    if bs == [] then "" else PercentByte(bs[0]) + PercentBytes(bs[1..])
  }

  function EscapeChar(c: char): (s: string)
    ensures 1 <= |s|
  {
    if Unreserved(c) then [c] else PercentBytes(Utf8(c))
  }

  /** `querystring.escape(s)`. */
  function Escape(s: string): string
    decreases |s|
  {
    if s == [] then "" else EscapeChar(s[0]) + Escape(s[1..])
  }

  function HexValue(c: char): Option<nat>
  {
    if '0' <= c <= '9' then Some(c as int - '0' as int)
    else if 'A' <= c <= 'F' then Some(c as int - 'A' as int + 10)
    else if 'a' <= c <= 'f' then Some(c as int - 'a' as int + 10)
    else None
  }

  /** Reads one `%XX` escape at the front of `s`. */
  function ReadByte(s: string): (r: Option<Byte>)
    ensures r.Some? ==> 3 <= |s|
  {
    if |s| < 3 || s[0] != '%' then None
    else
      match (HexValue(s[1]), HexValue(s[2]))
      case (Some(hi), Some(lo)) => if hi < 16 && lo < 16 then Some(hi * 16 + lo) else None
      case _ => None
  }

  /** Reads `n` consecutive `%XX` escapes at the front of `s`. */
  function ReadBytes(s: string, n: nat): (r: Option<seq<Byte>>)
    ensures r.Some? ==> |r.value| == n && 3 * n <= |s|
    decreases n
  {
    if n == 0 then Some([])
    else
      match ReadByte(s)
      case None => None
      case Some(b) =>
        match ReadBytes(s[3..], n - 1)
        case None => None
        case Some(bs) => Some([b] + bs)
  }

  /** Number of bytes a UTF-8 sequence starting with `lead` has; 0 when `lead` cannot start one. */
  function Utf8Length(lead: Byte): nat
  {
    if lead < 0x80 then 1
    else if 0xC0 <= lead < 0xE0 then 2
    else if 0xE0 <= lead < 0xF0 then 3
    else if 0xF0 <= lead < 0xF8 then 4
    else 0
  }

  predicate Continuation(b: Byte)
  {
    0x80 <= b < 0xC0
  }

  /** Decodes one complete UTF-8 sequence, rejecting overlong forms and non-scalar code points. */
  function FromUtf8(bs: seq<Byte>): Option<char>
  {
    if |bs| == 1 && bs[0] < 0x80 then Some(bs[0] as char)
    else if |bs| == 2 && 0xC0 <= bs[0] < 0xE0 && Continuation(bs[1]) then
      var cp := Payload2(bs[0], bs[1]);
      if 0x80 <= cp then Some(cp as char) else None
    else if |bs| == 3 && 0xE0 <= bs[0] < 0xF0 && Continuation(bs[1]) && Continuation(bs[2]) then
      var cp := Payload3(bs[0], bs[1], bs[2]);
      if 0x800 <= cp && IsScalar(cp) then Some(cp as char) else None
    else if |bs| == 4 && 0xF0 <= bs[0] < 0xF8 && Continuation(bs[1]) && Continuation(bs[2]) && Continuation(bs[3]) then
      var cp := Payload4(bs[0], bs[1], bs[2], bs[3]);
      if 0x1_0000 <= cp && IsScalar(cp) then Some(cp as char) else None
    else None
  }

  function Payload2(b0: int, b1: int): (cp: int)
    requires 0xC0 <= b0 < 0xE0 && 0x80 <= b1 < 0xC0
    ensures 0 <= cp < 0x800
  {
    (b0 - 0xC0) * 64 + (b1 - 0x80)
  }

  function Payload3(b0: int, b1: int, b2: int): (cp: int)
    requires 0xE0 <= b0 < 0xF0 && 0x80 <= b1 < 0xC0 && 0x80 <= b2 < 0xC0
    ensures 0 <= cp < 0x1_0000
  {
    (b0 - 0xE0) * 4096 + (b1 - 0x80) * 64 + (b2 - 0x80)
  }

  function Payload4(b0: int, b1: int, b2: int, b3: int): (cp: int)
    requires 0xF0 <= b0 < 0xF8 && 0x80 <= b1 < 0xC0 && 0x80 <= b2 < 0xC0 && 0x80 <= b3 < 0xC0
    ensures 0 <= cp
  {
    (b0 - 0xF0) * 262144 + (b1 - 0x80) * 4096 + (b2 - 0x80) * 64 + (b3 - 0x80)
  }

  /** Decodes the character at the front of `s`, with the number of input characters it used. */
  function DecodeOne(s: string): (r: Option<(char, nat)>)
    ensures r.Some? ==> 1 <= r.value.1 <= |s|
  {
    if s == [] then None
    else if s[0] != '%' then Some((s[0], 1))
    else
      match ReadByte(s)
      case None => None
      case Some(lead) =>
        var n := Utf8Length(lead);
        if n == 0 then None
        else
          match ReadBytes(s, n)
          case None => None
          case Some(bs) =>
            match FromUtf8(bs)
            case None => None
            case Some(c) => Some((c, 3 * n))
  }

  /** Percent-decoding (`querystring.unescape` on well-formed input); `None` on a malformed escape. */
  function Unescape(s: string): Option<string>
    decreases |s|
  {
    if s == [] then Some("")
    else
      match DecodeOne(s)
      case None => None
      case Some((c, k)) =>
        match Unescape(s[k..])
        case None => None
        case Some(rest) => Some([c] + rest)
  }

  lemma HexDigitValue(d: nat)
    requires d < 16
    ensures HexValue(HexDigit(d)) == Some(d)
  {
  }

  lemma ReadPercentByte(b: Byte, rest: string)
    ensures ReadByte(PercentByte(b) + rest) == Some(b)
  {
    HexDigitValue(b / 16);
    HexDigitValue(b % 16);
  }

  lemma {:induction false} ReadPercentBytes(bs: seq<Byte>, rest: string)
    ensures ReadBytes(PercentBytes(bs) + rest, |bs|) == Some(bs)
    decreases |bs|
  {
    if bs != [] {
      var tail := PercentBytes(bs[1..]) + rest;
      var s := PercentBytes(bs) + rest;
      assert s == PercentByte(bs[0]) + tail;
      assert ReadByte(s) == Some(bs[0]) by {
        ReadPercentByte(bs[0], tail);
      }
      assert s[3..] == tail;
      assert ReadBytes(tail, |bs| - 1) == Some(bs[1..]) by {
        ReadPercentBytes(bs[1..], rest);
      }
      assert [bs[0]] + bs[1..] == bs;
    }
  }

  lemma Split2(cp: int)
    requires 0x80 <= cp < 0x800
    ensures Payload2(0xC0 + cp / 64, 0x80 + cp % 64) == cp
  {
  }

  lemma Split3(cp: int)
    requires 0x800 <= cp < 0x1_0000
    ensures Payload3(0xE0 + cp / 4096, 0x80 + (cp / 64) % 64, 0x80 + cp % 64) == cp
  {
    var q := cp / 64;
    assert cp == q * 64 + cp % 64;
    assert q == (q / 64) * 64 + q % 64;
    assert q / 64 == cp / 4096;
  }

  lemma Split4(cp: int)
    requires 0x1_0000 <= cp < 0x11_0000
    ensures Payload4(0xF0 + cp / 262144, 0x80 + (cp / 4096) % 64, 0x80 + (cp / 64) % 64, 0x80 + cp % 64) == cp
  {
    var q := cp / 64;
    var r := q / 64;
    assert cp == q * 64 + cp % 64;
    assert q == r * 64 + q % 64;
    assert r == (r / 64) * 64 + r % 64;
    assert q % 64 == (cp / 64) % 64;
    assert r == cp / 4096;
    assert r / 64 == cp / 262144;
  }

  /** The UTF-8 encoding of a character decodes to that character, and its lead byte announces its length. */
  lemma Utf8RoundTrip(c: char)
    ensures Utf8Length(Utf8(c)[0]) == |Utf8(c)|
    ensures FromUtf8(Utf8(c)) == Some(c)
  {
    var cp := c as int;
    assert IsScalar(cp);
    if cp < 0x80 {
    } else if cp < 0x800 {
      Split2(cp);
    } else if cp < 0x1_0000 {
      Split3(cp);
    } else {
      Split4(cp);
    }
  }

  /** `DecodeOne` on an escape run whose bytes form one UTF-8 sequence. */
  lemma DecodeOneOfEscapes(s: string, bs: seq<Byte>, c: char)
    requires bs != [] && s != [] && s[0] == '%'
    requires ReadByte(s) == Some(bs[0])
    requires Utf8Length(bs[0]) == |bs|
    requires ReadBytes(s, |bs|) == Some(bs)
    requires FromUtf8(bs) == Some(c)
    ensures DecodeOne(s) == Some((c, 3 * |bs|))
  {
  }

  /** A reserved character's escapes decode back to it. */
  lemma DecodePercentEscapes(c: char, rest: string)
    requires !Unreserved(c)
    ensures DecodeOne(PercentBytes(Utf8(c)) + rest) == Some((c, 3 * |Utf8(c)|))
  {
    var bs := Utf8(c);
    var s := PercentBytes(bs) + rest;
    assert s == PercentByte(bs[0]) + (PercentBytes(bs[1..]) + rest);
    assert ReadByte(s) == Some(bs[0]) by {
      ReadPercentByte(bs[0], PercentBytes(bs[1..]) + rest);
    }
    assert Utf8Length(bs[0]) == |bs| && FromUtf8(bs) == Some(c) by {
      Utf8RoundTrip(c);
    }
    assert ReadBytes(s, |bs|) == Some(bs) by {
      ReadPercentBytes(bs, rest);
    }
    DecodeOneOfEscapes(s, bs, c);
  }

  lemma DecodeEscapedChar(c: char, rest: string)
    ensures DecodeOne(EscapeChar(c) + rest) == Some((c, |EscapeChar(c)|))
  {
    if !Unreserved(c) {
      DecodePercentEscapes(c, rest);
    }
  }

  /** Decoding an escaped string gives back the original string. */
  lemma {:induction false} UnescapeEscape(s: string)
    ensures Unescape(Escape(s)) == Some(s)
    decreases |s|
  {
    if s != [] {
      var e := EscapeChar(s[0]);
      var t := Escape(s[1..]);
      assert Escape(s) == e + t;
      assert DecodeOne(e + t) == Some((s[0], |e|)) by {
        DecodeEscapedChar(s[0], t);
      }
      assert (e + t)[|e|..] == t;
      assert Unescape(t) == Some(s[1..]) by {
        UnescapeEscape(s[1..]);
      }
      assert [s[0]] + s[1..] == s;
    }
  }

  /** A string of unreserved characters is left as it is. */
  lemma {:induction false} EscapeUnreserved(s: string)
    requires forall i :: 0 <= i < |s| ==> Unreserved(s[i])
    ensures Escape(s) == s
    decreases |s|
  {
    if s != [] {
      EscapeUnreserved(s[1..]);
      assert [s[0]] + s[1..] == s;
    }
  }

  /**
   * Every character is unreserved or the `%` that opens an escape: nothing a
   * query string gives a meaning to (`&`, `=`, `#`, `+`, space, ...) appears raw.
   */
  predicate QuerySafe(s: string)
  {
    forall i :: 0 <= i < |s| ==> Unreserved(s[i]) || s[i] == '%'
  }

  lemma QuerySafeConcat(a: string, b: string)
    requires QuerySafe(a) && QuerySafe(b)
    ensures QuerySafe(a + b)
  {
    forall i | 0 <= i < |a + b|
      ensures Unreserved((a + b)[i]) || (a + b)[i] == '%'
    {
      if i >= |a| {
        assert (a + b)[i] == b[i - |a|];
      }
    }
  }

  lemma {:induction false} PercentBytesQuerySafe(bs: seq<Byte>)
    ensures QuerySafe(PercentBytes(bs))
    decreases |bs|
  {
    if bs != [] {
      PercentBytesQuerySafe(bs[1..]);
      var e := PercentByte(bs[0]);
      assert Unreserved(e[1]) && Unreserved(e[2]);
      QuerySafeConcat(e, PercentBytes(bs[1..]));
    }
  }

  /** What `querystring.escape` returns never carries a reserved character raw. */
  lemma {:induction false} EscapeIsQuerySafe(s: string)
    ensures QuerySafe(Escape(s))
    decreases |s|
  {
    if s != [] {
      EscapeIsQuerySafe(s[1..]);
      if !Unreserved(s[0]) {
        PercentBytesQuerySafe(Utf8(s[0]));
      }
      QuerySafeConcat(EscapeChar(s[0]), Escape(s[1..]));
    }
  }
}
