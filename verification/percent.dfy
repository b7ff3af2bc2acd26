/** Percent-encoding as `urllib.parse.quote(s)` performs it with its default
    safe set "/": the string is UTF-8 encoded, the unreserved characters of
    section 2.3 of RFC 3986 and "/" are kept, and every other byte becomes
    "%" followed by two upper-case hexadecimal digits (section 2.1). */
module Percent {
  import opened Wrappers
  import Utf8

  /** The unreserved set of RFC 3986 section 2.3 (Python's `_ALWAYS_SAFE`). */
  predicate IsUnreserved(c: char) {
    || ('A' <= c <= 'Z')
    || ('a' <= c <= 'z')
    || ('0' <= c <= '9')
    || c == '_' || c == '.' || c == '-' || c == '~'
  }

  /** A byte `quote` copies as a character: unreserved ASCII or "/". */
  predicate IsSafeByte(b: Utf8.Byte) {
    b < 0x80 && (IsUnreserved(b as char) || b == '/' as int)
  }

  /** The upper-case hexadecimal digit `'%02X'` writes for `n`. */
  function HexDigit(n: int): (c: char)
    requires 0 <= n < 16
    ensures IsUnreserved(c)
    ensures HexValue(c) == Some(n) && !('a' <= c <= 'z')
  {
    "0123456789ABCDEF"[n]
  }

  /** The value of a hexadecimal digit of either case. */
  function HexValue(c: char): Option<int>
  {
    if '0' <= c <= '9' then Some(c as int - '0' as int)
    else if 'A' <= c <= 'F' then Some(c as int - 'A' as int + 10)
    else if 'a' <= c <= 'f' then Some(c as int - 'a' as int + 10)
    else None
  }

  /** One byte of the encoding: a safe byte stays as its character, any
      other becomes "%" and its two upper-case hexadecimal digits, high
      nibble first. */
  function QuoteByte(b: Utf8.Byte): (s: string)
    ensures IsSafeByte(b) ==> s == [b as char]
    ensures !IsSafeByte(b) ==>
      && |s| == 3 && s[0] == '%'
      && HexValue(s[1]) == Some(b / 16) && HexValue(s[2]) == Some(b % 16)
      && !('a' <= s[1] <= 'z') && !('a' <= s[2] <= 'z')
  {
    if IsSafeByte(b) then [b as char] else ['%', HexDigit(b / 16), HexDigit(b % 16)]
  }

  /** Percent-encodes a byte sequence; the result is built only from
      unreserved characters, "/" and "%". */
  function QuoteBytes(bs: seq<Utf8.Byte>): (s: string)
    ensures |s| >= |bs|
    ensures forall i :: 0 <= i < |s| ==> IsUnreserved(s[i]) || s[i] == '/' || s[i] == '%'
    ensures (forall i :: 0 <= i < |bs| ==> IsSafeByte(bs[i])) ==>
      |s| == |bs| && forall i :: 0 <= i < |bs| ==> s[i] == bs[i] as char
  {
    if |bs| == 0 then [] else QuoteByte(bs[0]) + QuoteBytes(bs[1..])
  }

  /** `urllib.parse.quote(s)`, safe set "/". */
  function Quote(s: string): (r: string)
    ensures forall i :: 0 <= i < |r| ==> IsUnreserved(r[i]) || r[i] == '/' || r[i] == '%'
    ensures |r| >= |s|
  {
    Utf8.EncodeLengthBound(s);
    QuoteBytes(Utf8.Encode(s))
  }

  /** Strict percent-decoding into bytes: "%" must be followed by two
      hexadecimal digits and any other character must be ASCII. */
  function Unquote(s: string): Option<seq<Utf8.Byte>>
    decreases |s|
  {
    if |s| == 0 then Some([])
    else if s[0] == '%' then
      if |s| >= 3 && HexValue(s[1]).Some? && HexValue(s[2]).Some? then
        match Unquote(s[3..])
        case None => None
        case Some(rest) => Some([HexValue(s[1]).value * 16 + HexValue(s[2]).value] + rest)
      else None
    else if (s[0] as int) < 0x80 then
      match Unquote(s[1..])
      case None => None
      case Some(rest) => Some([s[0] as int] + rest)
    else None
  }

  /** Decoding the encoding of one byte in front of `rest` yields that byte
      in front of the decoding of `rest`. */
  lemma UnquoteQuoteByte(b: Utf8.Byte, rest: string)
    ensures Unquote(QuoteByte(b) + rest) ==
      (match Unquote(rest) case None => None case Some(r) => Some([b] + r))
  {
    var s := QuoteByte(b) + rest;
    if IsSafeByte(b) {
      assert s[1..] == rest;
    } else {
      assert s[3..] == rest;
    }
  }

  /** Percent-decoding inverts percent-encoding. */
  lemma {:induction false} UnquoteQuoteBytes(bs: seq<Utf8.Byte>)
    ensures Unquote(QuoteBytes(bs)) == Some(bs)
    decreases |bs|
  {
    if |bs| > 0 {
      UnquoteQuoteBytes(bs[1..]);
      UnquoteQuoteByte(bs[0], QuoteBytes(bs[1..]));
      assert bs == [bs[0]] + bs[1..];
    }
  }

  /** Percent-decoding a quoted string gives back its UTF-8 bytes, and
      UTF-8-decoding those gives back the string. */
  lemma QuoteRoundTrip(s: string)
    ensures Unquote(Quote(s)) == Some(Utf8.Encode(s))
    ensures Utf8.Decode(Unquote(Quote(s)).value) == Some(s)
  {
    UnquoteQuoteBytes(Utf8.Encode(s));
    Utf8.DecodeEncode(s);
  }

  lemma {:induction false} QuoteBytesAppend(a: seq<Utf8.Byte>, b: seq<Utf8.Byte>)
    ensures QuoteBytes(a + b) == QuoteBytes(a) + QuoteBytes(b)
    decreases |a|
  {
    if |a| == 0 {
      assert a + b == b;
    } else {
      assert (a + b)[1..] == a[1..] + b;
      QuoteBytesAppend(a[1..], b);
    }
  }

  /** Percent-encoding distributes over concatenation. */
  lemma QuoteAppend(a: string, b: string)
    ensures Quote(a + b) == Quote(a) + Quote(b)
  {
    Utf8.EncodeAppend(a, b);
    QuoteBytesAppend(Utf8.Encode(a), Utf8.Encode(b));
  }

  lemma QuoteEmpty()
    ensures Quote([]) == []
  {
    assert Utf8.Encode([]) == [];
  }

  /** Text made only of unreserved characters and "/" is left as it is. */
  lemma {:induction false} QuoteSafe(s: string)
    requires forall i :: 0 <= i < |s| ==> IsUnreserved(s[i]) || s[i] == '/'
    ensures Quote(s) == s
    decreases |s|
  {
    if |s| == 0 {
      QuoteEmpty();
    } else {
      var c := s[0];
      QuoteSafe(s[1..]);
      assert s == [c] + s[1..];
      QuoteAppend([c], s[1..]);
      var bs := Utf8.EncodeChar(c);
      assert Utf8.Encode([c]) == bs + Utf8.Encode([]);
      assert bs == [c as int];
      assert IsSafeByte(bs[0]);
      assert QuoteBytes(bs) == QuoteByte(bs[0]) + QuoteBytes([]);
    }
  }
}
