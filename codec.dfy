/**
 * A stand-in for the JSON Web Token codec (RFC 7519, compact serialization of
 * RFC 7515) that the token functions call. A token is three segments joined by
 * '.': the escaped algorithm name, the claims payload (five fields joined by
 * ','), and a signature over "header.payload". The signature is a symbolic
 * MAC: an encoding of the algorithm, the signing input and the key, which is
 * injective in the key. It has none of HMAC-SHA256's secrecy, and unlike HMAC
 * it never treats two different keys as one (HMAC zero-pads short keys and
 * hashes long ones); what the token functions rely on are the codec laws
 * proved at the end of this module.
 */
module Codec {
  import opened Wrappers
  import opened Text

  newtype byte = b: int | 0 <= b < 256

  /**
   * The registered claims the token functions use, as the JWT library's
   * standard claims record holds them: a zero time or an empty string means
   * the claim is absent from the token.
   */
  datatype Claims = Claims(iat: int, exp: int, nbf: int, iss: string, sub: string)

  /** The HS256 algorithm name of section 3.2 of RFC 7518. */
  const HS256 := "HS256"

  /** The HMAC algorithms of section 3.2 of RFC 7518: the family the verifier accepts. */
  const HmacFamily: set<string> := {"HS256", "HS384", "HS512"}

  function EncodeClaims(c: Claims): (r: string)
    ensures '.' !in r
  {
    var fields := [IntToDec(c.iat), IntToDec(c.exp), IntToDec(c.nbf), Escape(c.iss), Escape(c.sub)];
    JoinAvoids(',', fields, '.');
    Join(',', fields)
  }

  function DecodeClaims(s: string): Option<Claims>
  {
    var f := Split(',', s);
    if |f| != 5 then None
    else
      match (DecToInt(f[0]), DecToInt(f[1]), DecToInt(f[2]), Unescape(f[3]), Unescape(f[4]))
      case (Some(iat), Some(exp), Some(nbf), Some(iss), Some(sub)) => Some(Claims(iat, exp, nbf, iss, sub))
      case _ => None
  }

  lemma DecodeEncodeClaims(c: Claims)
    ensures DecodeClaims(EncodeClaims(c)) == Some(c)
  {
    var fields := [IntToDec(c.iat), IntToDec(c.exp), IntToDec(c.nbf), Escape(c.iss), Escape(c.sub)];
    SplitJoin(',', fields);
    DecToIntToDec(c.iat);
    DecToIntToDec(c.exp);
    DecToIntToDec(c.nbf);
    UnescapeEscape(c.iss);
    UnescapeEscape(c.sub);
  }

  lemma EncodeDecodeClaims(s: string, c: Claims)
    requires DecodeClaims(s) == Some(c)
    ensures EncodeClaims(c) == s
  {
    var f := Split(',', s);
    IntToDecToInt(f[0], c.iat);
    IntToDecToInt(f[1], c.exp);
    IntToDecToInt(f[2], c.nbf);
    EscapeUnescape(f[3], c.iss);
    EscapeUnescape(f[4], c.sub);
    assert f == [IntToDec(c.iat), IntToDec(c.exp), IntToDec(c.nbf), Escape(c.iss), Escape(c.sub)];
    JoinSplit(',', s);
  }

  /** The key bytes as characters, one per byte. */
  function KeyText(key: seq<byte>): (r: string)
    ensures |r| == |key|
  {
    seq(|key|, i requires 0 <= i < |key| => (key[i] as int) as char)
  }

  /** The symbolic MAC of the signing input under key with algorithm alg. */
  function Mac(alg: string, key: seq<byte>, input: string): (r: string)
    ensures '.' !in r
  {
    Escape(alg + "." + input + "." + KeyText(key))
  }

  /** Two different keys never give the same MAC of one input. */
  lemma MacKeyInjective(alg: string, k1: seq<byte>, k2: seq<byte>, input: string)
    requires Mac(alg, k1, input) == Mac(alg, k2, input)
    ensures k1 == k2
  {
    var prefix := alg + "." + input + ".";
    EscapeInjective(prefix + KeyText(k1), prefix + KeyText(k2));
    assert KeyText(k1) == (prefix + KeyText(k1))[|prefix|..];
    assert KeyText(k2) == (prefix + KeyText(k2))[|prefix|..];
    assert |k1| == |k2|;
    forall i | 0 <= i < |k1| ensures k1[i] == k2[i] {
      assert KeyText(k1)[i] == KeyText(k2)[i];
    }
  }

  /**
   * The compact token for claims c, signed under key with algorithm alg. It
   * splits back into exactly its header, payload and signature segments.
   */
  function Sign(alg: string, key: seq<byte>, c: Claims): (r: string)
    ensures Split('.', r) == [Escape(alg), EncodeClaims(c), Mac(alg, key, Escape(alg) + "." + EncodeClaims(c))]
  {
    var header := Escape(alg);
    var payload := EncodeClaims(c);
    SplitJoin('.', [header, payload, Mac(alg, key, header + "." + payload)]);
    Join('.', [header, payload, Mac(alg, key, header + "." + payload)])
  }

  /** The token splits into exactly three '.'-separated segments, as a compact JWS must. */
  predicate ThreeSegments(token: string)
  {
    |Split('.', token)| == 3
  }

  /** The algorithm a token's header declares, if the token has three segments and a readable header. */
  function HeaderAlg(token: string): (r: Option<string>)
    ensures r.Some? ==> ThreeSegments(token)
  {
    var segs := Split('.', token);
    if |segs| != 3 then None else Unescape(segs[0])
  }

  /**
   * Parses a token and checks its signature under key. A header that does not
   * declare an HMAC algorithm is refused before the signature is looked at,
   * whatever the signature segment holds: the algorithm is pinned by the
   * verifier, not chosen by the token.
   */
  function Parse(key: seq<byte>, token: string): (r: Option<Claims>)
    ensures r.Some? ==> HeaderAlg(token).Some? && HeaderAlg(token).value in HmacFamily
  {
    var segs := Split('.', token);
    if |segs| != 3 then None
    else
      match Unescape(segs[0])
      case None => None
      case Some(alg) =>
        if alg !in HmacFamily then None
        else
          match DecodeClaims(segs[1])
          case None => None
          case Some(c) =>
            if segs[2] != Mac(alg, key, segs[0] + "." + segs[1]) then None else Some(c)
  }

  /** The token with its header replaced by one declaring alg; payload and signature kept. */
  function WithAlg(token: string, alg: string): string
  {
    var segs := Split('.', token);
    Join('.', [Escape(alg)] + segs[1..])
  }

  /** A signed token's header declares the algorithm it was signed with. */
  lemma SignDeclares(alg: string, key: seq<byte>, c: Claims)
    ensures HeaderAlg(Sign(alg, key, c)) == Some(alg)
  {
    UnescapeEscape(alg);
  }

  // ---------------------------------------------------------------------------
  // The codec laws.
  // ---------------------------------------------------------------------------

  /** Round trip: a token signed with an HMAC algorithm parses back, under the same key, to its claims. */
  lemma ParseSign(alg: string, key: seq<byte>, c: Claims)
    requires alg in HmacFamily
    ensures Parse(key, Sign(alg, key, c)) == Some(c)
    ensures HeaderAlg(Sign(alg, key, c)) == Some(alg)
  {
    UnescapeEscape(alg);
    DecodeEncodeClaims(c);
  }

  /**
   * A token signed under one key is refused under any other key. This rests
   * on the stand-in MAC being injective in the key, which HMAC is not.
   */
  lemma ParseOtherKey(alg: string, k1: seq<byte>, k2: seq<byte>, c: Claims)
    requires k1 != k2
    ensures Parse(k2, Sign(alg, k1, c)) == None
  {
    var header := Escape(alg);
    var payload := EncodeClaims(c);
    UnescapeEscape(alg);
    if Mac(alg, k1, header + "." + payload) == Mac(alg, k2, header + "." + payload) {
      MacKeyInjective(alg, k1, k2, header + "." + payload);
    }
  }

  /** Rewriting the header of a three-segment token makes it declare exactly the new algorithm. */
  lemma WithAlgDeclares(token: string, alg: string)
    requires ThreeSegments(token)
    ensures HeaderAlg(WithAlg(token, alg)) == Some(alg)
  {
    var segs := Split('.', token);
    var parts := [Escape(alg)] + segs[1..];
    SplitJoin('.', parts);
    UnescapeEscape(alg);
  }

  /**
   * What any JWT parser guarantees, canonical encoding or not: a token that
   * parses under key has three segments, declares an HMAC algorithm, and its
   * signature segment is the MAC of its own header and payload under key.
   */
  lemma ParseChecksMac(key: seq<byte>, token: string, c: Claims)
    requires Parse(key, token) == Some(c)
    ensures ThreeSegments(token) && HeaderAlg(token).Some? && HeaderAlg(token).value in HmacFamily
    ensures var segs := Split('.', token);
      segs[2] == Mac(HeaderAlg(token).value, key, segs[0] + "." + segs[1])
  {
  }

  /**
   * Nothing but the signer's output is accepted: a token that parses under key
   * to c is exactly the token Sign produces for c under key, with the HMAC
   * algorithm its header declares.
   */
  lemma ParseOnlySigned(key: seq<byte>, token: string, c: Claims)
    requires Parse(key, token) == Some(c)
    ensures HeaderAlg(token).Some? && HeaderAlg(token).value in HmacFamily
    ensures token == Sign(HeaderAlg(token).value, key, c)
  {
    var segs := Split('.', token);
    var alg := HeaderAlg(token).value;
    EscapeUnescape(segs[0], alg);
    EncodeDecodeClaims(segs[1], c);
    JoinSplit('.', token);
    assert segs == [Escape(alg), EncodeClaims(c), Mac(alg, key, Escape(alg) + "." + EncodeClaims(c))];
  }

  /** Parsing succeeds exactly on the tokens signed under the same key with an HMAC algorithm. */
  lemma ParseIffSigned(key: seq<byte>, token: string, c: Claims)
    ensures Parse(key, token) == Some(c) <==> exists alg :: alg in HmacFamily && token == Sign(alg, key, c)
  {
    if Parse(key, token) == Some(c) {
      ParseOnlySigned(key, token, c);
    }
    if alg :| alg in HmacFamily && token == Sign(alg, key, c) {
      ParseSign(alg, key, c);
    }
  }
}
