/** Page tokens as URL parameters: JSON text in base64. The JSON printer and parser are given. */
module PageTokens {
  import opened Wrappers
  import opened Base64
  import opened Utf8

  function EncodeBase64(data: seq<byte>): string {
    Encode(UrlSafe, data)
  }

  function DecodeBase64(data: string): Option<string> {
    match DecodeEither(data)
    case None => None
    case Some(b) => Some(Lossy(b))
  }

  /** For every string: decoding undoes encoding, in the alphabet used and in the one fallen back to. */
  lemma DecodeUndoesEncode(s: string)
    ensures DecodeBase64(EncodeBase64(Encoded(s))) == Some(s)
    ensures DecodeBase64(Encode(Standard, Encoded(s))) == Some(s)
  {
    hide Encode, DecodeEither, Lossy;
    EitherIff(Encode(UrlSafe, Encoded(s)), Encoded(s));
    EitherIff(Encode(Standard, Encoded(s)), Encoded(s));
    LossyOfEncoded(s);
  }

  /** For all texts: decoding succeeds exactly on the encodings, and answers the lossy reading. */
  lemma DecodesExactlyEncodings(t: string, s: string)
    ensures DecodeBase64(t) == Some(s) <==>
            exists b :: Lossy(b) == s && (t == Encode(UrlSafe, b) || t == Encode(Standard, b))
  {
    hide Encode, DecodeEither, Lossy;
    forall b | t == Encode(UrlSafe, b) || t == Encode(Standard, b) ensures DecodeEither(t) == Some(b) {
      EitherIff(t, b);
    }
    if DecodeEither(t).Some? { EitherIff(t, DecodeEither(t).value); }
  }

  /** For all bytes: they can be recovered from the decoded string exactly when they are UTF-8. */
  lemma BytesSurviveIff(b: seq<byte>)
    ensures DecodeBase64(EncodeBase64(b)).Some?
    ensures Encoded(DecodeBase64(EncodeBase64(b)).value) == b <==> IsUtf8(b)
  {
    hide Encode, DecodeEither, Lossy, Encoded, IsUtf8;
    EitherIff(Encode(UrlSafe, b), b);
    NothingLostIff(b);
  }

  datatype PageToken = Before(at: int) | After(at: int) | Offset(offset: nat)

  /** The JSON form of tokens: what is printed is parsed back. */
  datatype Json = Json(toText: PageToken -> string, fromText: string -> Option<PageToken>)

  ghost predicate Faithful(json: Json) {
    forall t :: json.fromText(json.toText(t)) == Some(t)
  }

  function ToUrlParameter(json: Json, t: PageToken): string {
    EncodeBase64(Encoded(json.toText(t)))
  }

  function FromUrlParameter(json: Json, data: string): Option<PageToken> {
    match DecodeBase64(data)
    case None => None
    case Some(text) => json.fromText(text)
  }

  predicate IsUrlSafe(t: string) {
    forall i :: 0 <= i < |t| ==>
      'A' <= t[i] <= 'Z' || 'a' <= t[i] <= 'z' || '0' <= t[i] <= '9' || t[i] in "-_="
  }

  lemma {:induction false} EncodingIsUrlSafe(b: seq<byte>)
    ensures IsUrlSafe(Encode(UrlSafe, b))
    decreases |b|
  {
    if |b| > 3 { EncodingIsUrlSafe(b[3..]); }
  }

  /** For every token: its parameter reads back as the token, and distinct tokens have distinct parameters. */
  lemma TokenRoundTrip(json: Json, t: PageToken, u: PageToken)
    requires Faithful(json)
    ensures FromUrlParameter(json, ToUrlParameter(json, t)) == Some(t)
    ensures ToUrlParameter(json, t) == ToUrlParameter(json, u) ==> t == u
    ensures IsUrlSafe(ToUrlParameter(json, t)) && !('+' in ToUrlParameter(json, t)) && !('/' in ToUrlParameter(json, t))
  {
    hide EncodeBase64, DecodeBase64, Encoded, IsUrlSafe;
    DecodeUndoesEncode(json.toText(t));
    DecodeUndoesEncode(json.toText(u));
    EncodeIsUrlSafe(Encoded(json.toText(t)));
  }

  lemma EncodeIsUrlSafe(b: seq<byte>)
    ensures IsUrlSafe(EncodeBase64(b)) && !('+' in EncodeBase64(b)) && !('/' in EncodeBase64(b))
  {
    EncodingIsUrlSafe(b);
  }
}
