/**
 * `encodeURIComponent` (ECMA-262, section 19.2.6.5) and what a URL parser
 * makes of a query string built from its output.
 *
 * A Dafny `char` is a Unicode scalar value, so a string here is always
 * well-formed UTF-16 and the URIError the built-in throws on a lone
 * surrogate cannot arise.
 */
module Uri {
  import opened Types
  import opened Seqs

  type Byte = b: int | 0 <= b < 256

  /**
   * The characters left as they are: the unreserved set of section 2.3 of
   * RFC 3986 (letters, digits, `-`, `.`, `_`, `~`) plus `!`, `*`, `'`, `(`, `)`.
   */
  predicate Unescaped(c: char)
  {
    || ('A' <= c <= 'Z')
    || ('a' <= c <= 'z')
    || ('0' <= c <= '9')
    || c in "-_.!~*'()"
  }

  /** The UTF-8 encoding of one scalar value (RFC 3629, section 3). */
  function Utf8(c: char): (r: seq<Byte>)
    ensures 1 <= |r| <= 4
    ensures (c as int < 0x80) <==> |r| == 1
  {
    var n := c as int;
    if n < 0x80 then [n]
    else if n < 0x800 then [0xC0 + n / 0x40, 0x80 + n % 0x40]
    else if n < 0x10000 then [0xE0 + n / 0x1000, 0x80 + (n / 0x40) % 0x40, 0x80 + n % 0x40]
    else [0xF0 + n / 0x40000, 0x80 + (n / 0x1000) % 0x40, 0x80 + (n / 0x40) % 0x40, 0x80 + n % 0x40]
  }

  /** The UTF-8 encoding of a string. */
  function Utf8String(s: string): seq<Byte>
  {
    if s == [] then [] else Utf8(s[0]) + Utf8String(s[1..])
  }

  const HexDigits: string := "0123456789ABCDEF"

  /** `%HH` for one byte, with upper-case hexadecimal digits (section 2.1 of RFC 3986). */
  function PercentByte(b: Byte): (r: string)
    ensures |r| == 3 && r[0] == '%'
    ensures HexValue(r[1]) == Some(b / 16) && HexValue(r[2]) == Some(b % 16)
  {
    HexDigitValue(b / 16);
    HexDigitValue(b % 16);
    ['%', HexDigits[b / 16], HexDigits[b % 16]]
  }

  function PercentBytes(bs: seq<Byte>): (r: string)
    ensures forall c :: c in r ==> c == '%' || c in HexDigits
  {
    if bs == [] then [] else PercentByte(bs[0]) + PercentBytes(bs[1..])
  }

  function EncodeChar(c: char): string
  {
    if Unescaped(c) then [c] else PercentBytes(Utf8(c))
  }

  /**
   * `encodeURIComponent(s)`. Its output holds only unescaped characters and
   * `%`, so none of the characters that give a URL or a query its structure.
   */
  function Encode(s: string): (r: string)
    ensures forall c :: c in r ==> Unescaped(c) || c == '%'
  {
    if s == [] then "" else EncodeChar(s[0]) + Encode(s[1..])
  }

  /** The characters that delimit a URL's parts or a query's parameters, a space, and the waypoint separator `|`. */
  predicate Delimiter(c: char)
  {
    c == '&' || c == '=' || c == '?' || c == '#' || c == '/' || c == '|' || c == ' ' || c == '+'
  }

  lemma DelimiterIsEscaped(c: char)
    requires Delimiter(c)
    ensures !Unescaped(c) && c != '%'
  {
  }

  /** An encoded value holds no delimiter, so it cannot change the structure of the URL it is put into. */
  lemma EncodeHasNoDelimiters(s: string)
    ensures forall c :: Delimiter(c) ==> c !in Encode(s)
  {
    forall c | Delimiter(c) ensures c !in Encode(s) {
      DelimiterIsEscaped(c);
    }
  }

  /** A string made only of unescaped characters is encoded as itself. */
  lemma {:induction false} EncodeKeepsUnescaped(s: string)
    requires forall i :: 0 <= i < |s| ==> Unescaped(s[i])
    ensures Encode(s) == s
  {
    if s != [] {
      EncodeKeepsUnescaped(s[1..]);
      assert [s[0]] + s[1..] == s;
    }
  }

  /** The value of a hexadecimal digit of either case. */
  function HexValue(c: char): Option<int>
  {
    if '0' <= c <= '9' then Some(c as int - '0' as int)
    else if 'A' <= c <= 'F' then Some(c as int - 'A' as int + 10)
    else if 'a' <= c <= 'f' then Some(c as int - 'a' as int + 10)
    else None
  }

  /**
   * Percent-decoding to bytes, as the first step of `decodeURIComponent`:
   * `%HH` is one byte, any other character its UTF-8 encoding; a `%` not
   * followed by two hexadecimal digits is an error.
   */
  function PercentDecode(s: string): Option<seq<Byte>>
  {
    if s == [] then Some([])
    else if s[0] == '%' then
      if |s| < 3 then None
      else
        match (HexValue(s[1]), HexValue(s[2]), PercentDecode(s[3..]))
        case (Some(hi), Some(lo), Some(rest)) => Some([hi * 16 + lo] + rest)
        case _ => None
    else
      match PercentDecode(s[1..])
      case Some(rest) => Some(Utf8(s[0]) + rest)
      case None => None
  }

  lemma HexDigitValue(k: int)
    requires 0 <= k < 16
    ensures HexValue(HexDigits[k]) == Some(k)
  {
  }

  /** A `%` followed by two hexadecimal digits decodes to the byte they spell, in front of whatever follows decodes to. */
  lemma DecodeTriple(p: string, t: string, hi: int, lo: int, v: int)
    requires |p| == 3 && p[0] == '%'
    requires HexValue(p[1]) == Some(hi) && HexValue(p[2]) == Some(lo) && v == hi * 16 + lo
    ensures PercentDecode(t).Some? ==> PercentDecode(p + t) == Some([v] + PercentDecode(t).value)
    ensures PercentDecode(t).None? ==> PercentDecode(p + t).None?
  {
    assert (p + t)[3..] == t;
  }

  /** A byte is its high half times sixteen plus its low half. */
  lemma ByteHalves(b: Byte)
    ensures (b / 16) * 16 + b % 16 == b
  {
  }

  /** One `%HH` triple decodes to its byte, in front of whatever the rest decodes to. */
  lemma DecodePercentByte(b: Byte, t: string)
    ensures PercentDecode(t).Some? ==> PercentDecode(PercentByte(b) + t) == Some([b] + PercentDecode(t).value)
    ensures PercentDecode(t).None? ==> PercentDecode(PercentByte(b) + t).None?
  {
    ByteHalves(b);
    DecodeTriple(PercentByte(b), t, b / 16, b % 16, b);
  }

  lemma ConsAppend(bs: seq<Byte>, v: seq<Byte>)
    requires bs != []
    ensures [bs[0]] + (bs[1..] + v) == bs + v
  {
    assert [bs[0]] + bs[1..] == bs;
  }

  /** `%HH` triples decode to their bytes, in front of whatever the rest decodes to. */
  lemma {:induction false} DecodePercentBytes(bs: seq<Byte>, t: string)
    ensures PercentDecode(t).Some? ==> PercentDecode(PercentBytes(bs) + t) == Some(bs + PercentDecode(t).value)
    ensures PercentDecode(t).None? ==> PercentDecode(PercentBytes(bs) + t).None?
  {
    if bs != [] {
      var u := PercentBytes(bs[1..]) + t;
      assert PercentBytes(bs) + t == PercentByte(bs[0]) + u;
      DecodePercentBytes(bs[1..], t);
      DecodePercentByte(bs[0], u);
      if PercentDecode(t).Some? {
        ConsAppend(bs, PercentDecode(t).value);
      }
    } else {
      assert PercentBytes(bs) + t == t;
      if PercentDecode(t).Some? {
        assert bs + PercentDecode(t).value == PercentDecode(t).value;
      }
    }
  }

  lemma DecodeEncodeChar(c: char, t: string)
    ensures PercentDecode(t).Some? ==> PercentDecode(EncodeChar(c) + t) == Some(Utf8(c) + PercentDecode(t).value)
    ensures PercentDecode(t).None? ==> PercentDecode(EncodeChar(c) + t).None?
  {
    if Unescaped(c) {
      assert ([c] + t)[1..] == t;
    } else {
      DecodePercentBytes(Utf8(c), t);
    }
  }

  /** Percent-decoding undoes `encodeURIComponent`: it yields exactly the UTF-8 bytes of the input. */
  lemma {:induction false} DecodeEncode(s: string)
    ensures PercentDecode(Encode(s)) == Some(Utf8String(s))
  {
    if s != [] {
      DecodeEncode(s[1..]);
      DecodeEncodeChar(s[0], Encode(s[1..]));
    }
  }

  /** `key=value` pairs joined with `&`: the query part of a URL. */
  function QueryString(params: seq<(string, string)>): string
  {
    if params == [] then ""
    else if |params| == 1 then params[0].0 + "=" + params[0].1
    else params[0].0 + "=" + params[0].1 + "&" + QueryString(params[1..])
  }

  /** A query string with more than one parameter is its first `key=value`, an `&`, and the rest. */
  lemma QueryStringCons(p: (string, string), rest: seq<(string, string)>)
    requires rest != []
    ensures QueryString([p] + rest) == p.0 + "=" + p.1 + "&" + QueryString(rest)
  {
    assert ([p] + rest)[1..] == rest;
  }

  /** How a URL parser reads a query: pieces between `&`, each cut at its first `=`. */
  function QueryParams(q: string): seq<(string, string)>
  {
    KeyValues(Split(q, '&'))
  }

  function KeyValues(pieces: seq<string>): (r: seq<(string, string)>)
    ensures |r| == |pieces|
    ensures forall i :: 0 <= i < |r| ==> r[i] == Cut(pieces[i], '=')
  {
    if pieces == [] then [] else [Cut(pieces[0], '=')] + KeyValues(pieces[1..])
  }

  /** A parameter whose key holds neither `&` nor `=` and whose value holds no `&` survives a round trip. */
  predicate WellFormedParam(p: (string, string))
  {
    '&' !in p.0 && '=' !in p.0 && '&' !in p.1
  }

  /** Parsing a query string gives back the parameters it was built from. */
  lemma {:induction false} ParseQueryString(params: seq<(string, string)>)
    requires |params| >= 1
    requires forall i :: 0 <= i < |params| ==> WellFormedParam(params[i])
    ensures QueryParams(QueryString(params)) == params
  {
    var p := params[0];
    var piece := p.0 + "=" + p.1;
    assert piece == p.0 + ['='] + p.1;
    CutAfterPrefix(p.0, '=', p.1);
    if |params| == 1 {
      SplitNoSeparator(piece, '&');
    } else {
      assert WellFormedParam(params[1]);
      ParseQueryString(params[1..]);
      SplitAfterPrefix(piece, '&', QueryString(params[1..]));
      assert QueryString(params) == piece + ['&'] + QueryString(params[1..]);
      assert [params[0]] + params[1..] == params;
    }
  }

  /**
   * A URL made of a page without `?`, a `?` and a query of well-formed
   * parameters splits back into that page and those parameters.
   */
  lemma ParseUrl(page: string, params: seq<(string, string)>)
    requires '?' !in page
    requires |params| >= 1
    requires forall i :: 0 <= i < |params| ==> WellFormedParam(params[i])
    ensures Cut(page + ['?'] + QueryString(params), '?') == (page, QueryString(params))
    ensures QueryParams(Cut(page + ['?'] + QueryString(params), '?').1) == params
  {
    CutAfterPrefix(page, '?', QueryString(params));
    ParseQueryString(params);
  }
}
