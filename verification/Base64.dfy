/**
Base64 with the padded URL-safe alphabet (section 5 of RFC 4648), and a decoder that falls back to the
padded standard alphabet (section 4). Decoding is strict: padding must be there, and unused bits zero.
*/
module Base64 {
  import opened Wrappers

  type byte = x: int | 0 <= x < 256

  type sextet = x: int | 0 <= x < 64

  datatype Alphabet = UrlSafe | Standard

  function Symbol(a: Alphabet, n: sextet): char {
    if n < 26 then 'A' + n as char
    else if n < 52 then 'a' + (n - 26) as char
    else if n < 62 then '0' + (n - 52) as char
    else if n == 62 then (if a.UrlSafe? then '-' else '+')
    else (if a.UrlSafe? then '_' else '/')
  }

  function Lookup(a: Alphabet, c: char): Option<sextet> {
    if 'A' <= c <= 'Z' then Some((c - 'A') as int)
    else if 'a' <= c <= 'z' then Some((c - 'a') as int + 26)
    else if '0' <= c <= '9' then Some((c - '0') as int + 52)
    else if c == (if a.UrlSafe? then '-' else '+') then Some(62)
    else if c == (if a.UrlSafe? then '_' else '/') then Some(63)
    else None
  }

  /** The sextet that ends `x` and starts `y`. */
  function Second(x: byte, y: byte): sextet {
    x % 4 * 16 + y / 16
  }

  /** The sextet that ends `y` and starts `z`. */
  function Third(y: byte, z: byte): sextet {
    y % 16 * 4 + z / 64
  }

  function Encode(a: Alphabet, b: seq<byte>): (t: string)
    ensures |t| % 4 == 0
  {
    if |b| == 0 then ""
    else if |b| == 1 then [Symbol(a, b[0] / 4), Symbol(a, Second(b[0], 0)), '=', '=']
    else if |b| == 2 then [Symbol(a, b[0] / 4), Symbol(a, Second(b[0], b[1])), Symbol(a, Third(b[1], 0)), '=']
    else
      [Symbol(a, b[0] / 4), Symbol(a, Second(b[0], b[1])), Symbol(a, Third(b[1], b[2])), Symbol(a, b[2] % 64)]
      + Encode(a, b[3..])
  }

  function FirstByte(p: sextet, q: sextet): byte {
    p * 4 + q / 16
  }

  function SecondByte(q: sextet, r: sextet): byte {
    q % 16 * 16 + r / 4
  }

  function ThirdByte(r: sextet, s: sextet): byte {
    r % 4 * 64 + s
  }

  /** The last four symbols, with their padding. */
  function DecodeLast(a: Alphabet, t: string): Option<seq<byte>>
    requires |t| == 4
  {
    var p, q := Lookup(a, t[0]), Lookup(a, t[1]);
    var r, s := Lookup(a, t[2]), Lookup(a, t[3]);
    if p.None? || q.None? then None
    else if t[2] == '=' && t[3] == '=' then
      if q.value % 16 == 0 then Some([FirstByte(p.value, q.value)]) else None
    else if r.None? then None
    else if t[3] == '=' then
      if r.value % 4 == 0 then Some([FirstByte(p.value, q.value), SecondByte(q.value, r.value)]) else None
    else if s.None? then None
    else Some(Three(p.value, q.value, r.value, s.value))
  }

  function Three(p: sextet, q: sextet, r: sextet, s: sextet): seq<byte> {
    [FirstByte(p, q), SecondByte(q, r), ThirdByte(r, s)]
  }

  /** Four symbols that are followed by more: padding is refused. */
  function DecodeQuad(a: Alphabet, t: string): Option<seq<byte>>
    requires |t| == 4
  {
    var p, q := Lookup(a, t[0]), Lookup(a, t[1]);
    var r, s := Lookup(a, t[2]), Lookup(a, t[3]);
    if p.Some? && q.Some? && r.Some? && s.Some? then Some(Three(p.value, q.value, r.value, s.value)) else None
  }

  function Decode(a: Alphabet, t: string): Option<seq<byte>> {
    if |t| == 0 then Some([])
    else if |t| < 4 then None
    else if |t| == 4 then DecodeLast(a, t)
    else
      match DecodeQuad(a, t[..4])
      case None => None
      case Some(b) =>
        match Decode(a, t[4..])
        case None => None
        case Some(rest) => Some(b + rest)
  }

  /******* One decoder undoes one encoder, and accepts nothing else *******/

  lemma SymbolRoundTrip(a: Alphabet, n: sextet)
    ensures Lookup(a, Symbol(a, n)) == Some(n) && Symbol(a, n) != '='
  {
  }

  lemma LookupRoundTrip(a: Alphabet, c: char)
    requires Lookup(a, c).Some?
    ensures Symbol(a, Lookup(a, c).value) == c && c != '='
  {
  }

  /** Three bytes into four sextets and back. */
  lemma SplitBytes(x: byte, y: byte, z: byte)
    ensures FirstByte(x / 4, Second(x, y)) == x && Second(x, 0) % 16 == 0
    ensures SecondByte(Second(x, y), Third(y, z)) == y && Third(y, 0) % 4 == 0
    ensures ThirdByte(Third(y, z), z % 64) == z
  {
  }

  lemma JoinSextets(p: sextet, q: sextet, r: sextet, s: sextet)
    ensures p == FirstByte(p, q) / 4 && q == Second(FirstByte(p, q), SecondByte(q, r))
    ensures r == Third(SecondByte(q, r), ThirdByte(r, s)) && s == ThirdByte(r, s) % 64
    ensures q % 16 == 0 ==> q == Second(FirstByte(p, q), 0)
    ensures r % 4 == 0 ==> r == Third(SecondByte(q, r), 0)
  {
  }

  lemma DecodeQuadOfEncode(a: Alphabet, b: seq<byte>)
    requires |b| == 3
    ensures |Encode(a, b)| == 4 && DecodeQuad(a, Encode(a, b)) == Some(b)
  {
    hide Symbol, Lookup, Second, Third, FirstByte, SecondByte, ThirdByte;
    var x, y, z := b[0], b[1], b[2];
    SymbolRoundTrip(a, x / 4); SymbolRoundTrip(a, Second(x, y)); SymbolRoundTrip(a, Third(y, z)); SymbolRoundTrip(a, z % 64);
    SplitBytes(x, y, z);
    assert b == [x, y, z];
  }

  /** Without padding, the last four symbols are read like any others. */
  lemma LastIsQuad(a: Alphabet, t: string)
    requires |t| == 4 && DecodeQuad(a, t).Some?
    ensures DecodeLast(a, t) == DecodeQuad(a, t)
  {
  }

  lemma OneByte(a: Alphabet, x: byte)
    ensures DecodeLast(a, Encode(a, [x])) == Some([x])
  {
    hide Symbol, Lookup, Second, Third, FirstByte, SecondByte, ThirdByte;
    SymbolRoundTrip(a, x / 4); SymbolRoundTrip(a, Second(x, 0));
    SplitBytes(x, 0, 0);
  }

  lemma TwoBytes(a: Alphabet, x: byte, y: byte)
    ensures DecodeLast(a, Encode(a, [x, y])) == Some([x, y])
  {
    hide Symbol, Lookup, Second, Third, FirstByte, SecondByte, ThirdByte;
    SymbolRoundTrip(a, x / 4); SymbolRoundTrip(a, Second(x, y)); SymbolRoundTrip(a, Third(y, 0));
    SplitBytes(x, y, 0);
  }

  lemma DecodeLastOfEncode(a: Alphabet, b: seq<byte>)
    requires 1 <= |b| <= 3
    ensures |Encode(a, b)| == 4 && DecodeLast(a, Encode(a, b)) == Some(b)
  {
    hide Symbol, Lookup, Three, DecodeQuad, DecodeLast;
    if |b| == 3 {
      DecodeQuadOfEncode(a, b);
      LastIsQuad(a, Encode(a, b));
    } else if |b| == 2 {
      TwoBytes(a, b[0], b[1]);
      assert b == [b[0], b[1]];
    } else {
      OneByte(a, b[0]);
      assert b == [b[0]];
    }
  }

  lemma EncodeSplits(a: Alphabet, b: seq<byte>)
    requires |b| > 3
    ensures |Encode(a, b[..3])| == 4 && |Encode(a, b)| > 4
    ensures Encode(a, b)[..4] == Encode(a, b[..3]) && Encode(a, b)[4..] == Encode(a, b[3..])
  {
  }

  /** For all bytes: decoding undoes encoding. */
  lemma {:induction false} DecodeOfEncode(a: Alphabet, b: seq<byte>)
    ensures Decode(a, Encode(a, b)) == Some(b)
    decreases |b|
  {
    hide Encode, DecodeQuad, DecodeLast;
    if |b| == 0 {
      EncodeEmpty(a);
    } else if |b| <= 3 {
      DecodeLastOfEncode(a, b);
    } else {
      EncodeSplits(a, b);
      DecodeQuadOfEncode(a, b[..3]);
      DecodeOfEncode(a, b[3..]);
      assert b == b[..3] + b[3..];
    }
  }

  lemma EncodeEmpty(a: Alphabet)
    ensures Encode(a, []) == ""
  {
  }

  lemma EncodeOfDecodeLast(a: Alphabet, t: string)
    requires |t| == 4 && DecodeLast(a, t).Some?
    ensures Encode(a, DecodeLast(a, t).value) == t && DecodeLast(a, t).value != []
  {
    hide Symbol, Lookup, Second, Third, FirstByte, SecondByte, ThirdByte;
    LookupRoundTrip(a, t[0]);
    LookupRoundTrip(a, t[1]);
    var p, q := Lookup(a, t[0]).value, Lookup(a, t[1]).value;
    if t[2] == '=' && t[3] == '=' {
      JoinSextets(p, q, 0, 0);
    } else {
      LookupRoundTrip(a, t[2]);
      if t[3] == '=' {
        JoinSextets(p, q, Lookup(a, t[2]).value, 0);
      } else {
        LookupRoundTrip(a, t[3]);
        EncodeOfDecodeQuad(a, t);
        LastIsQuad(a, t);
      }
    }
  }

  lemma EncodeOfDecodeQuad(a: Alphabet, t: string)
    requires |t| == 4 && DecodeQuad(a, t).Some?
    ensures Encode(a, DecodeQuad(a, t).value) == t && |DecodeQuad(a, t).value| == 3
  {
    hide Symbol, Lookup, Second, Third, FirstByte, SecondByte, ThirdByte;
    LookupRoundTrip(a, t[0]); LookupRoundTrip(a, t[1]); LookupRoundTrip(a, t[2]); LookupRoundTrip(a, t[3]);
    JoinSextets(Lookup(a, t[0]).value, Lookup(a, t[1]).value, Lookup(a, t[2]).value, Lookup(a, t[3]).value);
    EncodeEmpty(a);
  }

  lemma EncodeJoins(a: Alphabet, b: seq<byte>, rest: seq<byte>)
    requires |b| == 3
    ensures Encode(a, b + rest) == Encode(a, b) + Encode(a, rest)
  {
  }

  /** For all texts: what decodes is the encoding of what it decodes to. */
  lemma {:induction false} EncodeOfDecode(a: Alphabet, t: string)
    requires Decode(a, t).Some?
    ensures Encode(a, Decode(a, t).value) == t
    decreases |t|
  {
    hide Encode, DecodeQuad, DecodeLast;
    if |t| == 0 {
      EncodeEmpty(a);
    } else if |t| == 4 {
      EncodeOfDecodeLast(a, t);
    } else {
      EncodeOfDecodeQuad(a, t[..4]);
      EncodeOfDecode(a, t[4..]);
      EncodeJoins(a, DecodeQuad(a, t[..4]).value, Decode(a, t[4..]).value);
      assert t == t[..4] + t[4..];
    }
  }

  /** For all texts and bytes: a text decodes to some bytes exactly when it is their encoding. */
  lemma DecodesIff(a: Alphabet, t: string, b: seq<byte>)
    ensures Decode(a, t) == Some(b) <==> t == Encode(a, b)
  {
    hide Decode, Encode;
    DecodeOfEncode(a, b);
    if Decode(a, t).Some? { EncodeOfDecode(a, t); }
  }

  /******* The fallback *******/

  lemma QuadAgrees(t: string)
    requires |t| == 4 && DecodeQuad(UrlSafe, t).Some? && DecodeQuad(Standard, t).Some?
    ensures DecodeQuad(UrlSafe, t) == DecodeQuad(Standard, t)
  {
  }

  lemma LastAgrees(t: string)
    requires |t| == 4 && DecodeLast(UrlSafe, t).Some? && DecodeLast(Standard, t).Some?
    ensures DecodeLast(UrlSafe, t) == DecodeLast(Standard, t)
  {
  }

  /** For all texts that both decoders accept, both give the same bytes. */
  lemma {:induction false} DecodersAgree(t: string)
    requires Decode(UrlSafe, t).Some? && Decode(Standard, t).Some?
    ensures Decode(UrlSafe, t) == Decode(Standard, t)
    decreases |t|
  {
    hide DecodeQuad, DecodeLast;
    if |t| == 4 {
      LastAgrees(t);
    } else if |t| > 4 {
      QuadAgrees(t[..4]);
      DecodersAgree(t[4..]);
    }
  }

  function DecodeEither(t: string): Option<seq<byte>> {
    var first := Decode(UrlSafe, t);
    if first.Some? then first else Decode(Standard, t)
  }

  /** For all texts and bytes: the fallback decodes exactly the two encodings, so its order does not matter. */
  lemma EitherIff(t: string, b: seq<byte>)
    ensures DecodeEither(t) == Some(b) <==> t == Encode(UrlSafe, b) || t == Encode(Standard, b)
    ensures DecodeEither(t) == (if Decode(Standard, t).Some? then Decode(Standard, t) else Decode(UrlSafe, t))
  {
    hide Decode, Encode;
    DecodesIff(UrlSafe, t, b);
    DecodesIff(Standard, t, b);
    if Decode(UrlSafe, t).Some? && Decode(Standard, t).Some? { DecodersAgree(t); }
  }

  /******* The tables of RFC 4648 *******/

  /** Tables 1 and 2: capitals, small letters and digits in their order, then the two symbols that differ. */
  lemma SymbolTable(a: Alphabet, n: sextet)
    ensures Symbol(a, 0) == 'A' && Symbol(a, 25) == 'Z' && Symbol(a, 26) == 'a' && Symbol(a, 51) == 'z'
    ensures Symbol(a, 52) == '0' && Symbol(a, 61) == '9'
    ensures n < 61 && n != 25 && n != 51 ==> Symbol(a, n + 1) as int == Symbol(a, n) as int + 1
    ensures Symbol(UrlSafe, 62) == '-' && Symbol(UrlSafe, 63) == '_'
    ensures Symbol(Standard, 62) == '+' && Symbol(Standard, 63) == '/'
  {
  }

  /** Three bytes and their four sextets are the same 24 bits, the highest first. */
  lemma SameBits(x: byte, y: byte, z: byte)
    ensures (x * 256 + y) * 256 + z == ((x / 4 * 64 + Second(x, y)) * 64 + Third(y, z)) * 64 + z % 64
  {
    var p, q, r := x / 4, y / 16, z / 64;
    assert x == 4 * p + x % 4 && y == 16 * q + y % 16 && z == 64 * r + z % 64;
  }

  lemma EncodeThree(a: Alphabet, x: byte, y: byte, z: byte)
    ensures Encode(a, [x, y, z]) == [Symbol(a, x / 4), Symbol(a, Second(x, y)), Symbol(a, Third(y, z)), Symbol(a, z % 64)]
  {
    hide Symbol, Second, Third;
    EncodeEmpty(a);
  }

  /** For every group of three bytes: its four symbols stand for its bits, six by six. */
  lemma GroupBits(a: Alphabet, x: byte, y: byte, z: byte)
    ensures exists p: sextet, q: sextet, r: sextet, s: sextet ::
      Encode(a, [x, y, z]) == [Symbol(a, p), Symbol(a, q), Symbol(a, r), Symbol(a, s)]
      && (x * 256 + y) * 256 + z == ((p * 64 + q) * 64 + r) * 64 + s
  {
    hide Symbol, Second, Third;
    var p, q, r, s := x / 4, Second(x, y), Third(y, z), z % 64;
    SameBits(x, y, z);
    EncodeThree(a, x, y, z);
    hide Encode;
  }

  /** The rest of a text is encoded as a text of its own, and the last one or two bytes as if zeros followed. */
  lemma GroupByGroup(a: Alphabet, b: seq<byte>, rest: seq<byte>, x: byte, y: byte)
    requires |b| == 3
    ensures Encode(a, b + rest) == Encode(a, b) + Encode(a, rest)
    ensures Encode(a, [x]) == Encode(a, [x, 0, 0])[..2] + "==" && Encode(a, [x, y]) == Encode(a, [x, y, 0])[..3] + "="
  {
    hide Symbol, Second, Third;
    EncodeJoins(a, b, rest);
  }
}
