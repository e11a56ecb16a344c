/**
 * The strings the `/login` routes of src/server.ts build: the demo access
 * token of the POST handler, shaped like a JWS compact serialization
 * (section 7.1 of RFC 7515) but with a fixed header, a padded standard
 * base64 payload and a fixed, unrelated signature; and the two redirect
 * targets.
 */
module Server {
  import opened Wrappers
  import opened JsString
  import opened Utf8
  import Base64
  import opened Config
  import opened Passport

  /** `jwtObject.alg`, the first segment of every token: the units of "eyJhbGciOiJIUzI1NiJ9". */
  const HEADER: Text :=
    [0x65, 0x79, 0x4A, 0x68, 0x62, 0x47, 0x63, 0x69, 0x4F, 0x69, 0x4A, 0x49, 0x55, 0x7A, 0x49, 0x31, 0x4E, 0x69, 0x4A, 0x39]

  /** `jwtObject.signature`, the last segment of every token: the units of "3Yr6cayJai6LPPYe85i_WWx3cU". */
  const SIGNATURE: Text :=
    [0x33, 0x59, 0x72, 0x36, 0x63, 0x61, 0x79, 0x4A, 0x61, 0x69, 0x36, 0x4C, 0x50, 0x50, 0x59, 0x65, 0x38, 0x35, 0x69, 0x5F, 0x57, 0x57, 0x78, 0x33, 0x63, 0x55]

  /** `redirectionURL`. */
  const REDIRECTION_URL: Text := Lit("complete")

  /** The status of both redirects (Express's default for `res.redirect`). */
  const FOUND: nat := 302

  datatype Redirect = Redirect(status: nat, location: Text)

  /**
   * `Buffer.from(JSON.stringify({ custom: { email: nameID } }))`: how the
   * name identifier becomes payload octets is left to a parameter.
   */
  type PayloadEncoder = Text -> seq<Byte>

  /** `${alg}.${payload}.${signature}` with the payload octets in base64. */
  function AccessToken(payload: seq<Byte>): Text
  {
    HEADER + [DOT] + Base64.Encode(payload) + [DOT] + SIGNATURE
  }

  /** The token the POST handler builds for a user's `nameID`. */
  function LoginToken(encode: PayloadEncoder, nameID: Text): Text
  {
    AccessToken(encode(nameID))
  }

  /** The GET `/login` success target: `${baseURL}/${loginRoute}`. */
  function LoginStartRedirect(baseURL: Option<Text>): Redirect
  {
    Redirect(FOUND, Interpolate(baseURL) + [SLASH] + LOGIN_ROUTE)
  }

  /** `${redirectionURL}?frontend=${config.frontend.baseURL}`, up to the first '&' of the POST target. */
  function FrontendParameter(baseURL: Option<Text>): Text {
    REDIRECTION_URL + Lit("?frontend=") + Interpolate(baseURL)
  }

  /** `saml=${config.frontend.samlRoute}`. */
  function SamlParameter(): Text {
    Lit("saml=") + SAML_ROUTE
  }

  /** `access_token=${access_token}`. */
  function TokenParameter(token: Text): Text {
    Lit("access_token=") + token
  }

  /** The POST `/login` target: `complete?frontend=${baseURL}&saml=${samlRoute}&access_token=${access_token}`. */
  function LoginCompleteRedirect(baseURL: Option<Text>, encode: PayloadEncoder, user: Profile): Redirect
  {
    var token := LoginToken(encode, user.nameID);
    Redirect(FOUND, FrontendParameter(baseURL) + [AMPERSAND] + SamlParameter() + [AMPERSAND] + TokenParameter(token))
  }

  /** The fixed segments are the literals of the source. */
  lemma FixedSegmentsAreLiterals()
    ensures HEADER == Lit("eyJhbGciOiJIUzI1NiJ9")
    ensures SIGNATURE == Lit("3Yr6cayJai6LPPYe85i_WWx3cU")
  {
  }
  /**
   * The token has exactly two dots, and splitting on them gives the fixed
   * header, the base64 payload and the fixed signature, whatever the payload.
   */
  lemma TokenSegments(payload: seq<Byte>)
    ensures Split(AccessToken(payload), DOT) == [HEADER, Base64.Encode(payload), SIGNATURE]
    ensures Count(AccessToken(payload), DOT) == 2
  {
    assert Lacks(HEADER, DOT) && Lacks(SIGNATURE, DOT);
    Base64.EncodeLacksSeparators(payload);
    SplitThree(HEADER, Base64.Encode(payload), SIGNATURE, DOT);
  }

  /**
   * The middle segment has `4 * ceil(n / 3)` units from the RFC 4648
   * section 4 alphabet and '=', and decodes back to the payload octets.
   */
  lemma PayloadSegment(payload: seq<Byte>)
    ensures |Split(AccessToken(payload), DOT)| == 3
    ensures var p := Split(AccessToken(payload), DOT)[1];
      && |p| == 4 * ((|payload| + 2) / 3)
      && (forall i | 0 <= i < |p| :: Base64.IsEncodingUnit(p[i]))
      && Base64.Decode(p) == Some(payload)
  {
    TokenSegments(payload);
    Base64.EncodeLength(payload);
    Base64.EncodeAlphabet(payload);
    Base64.DecodeEncode(payload);
  }

  /** The encoder is injective: distinct name identifiers give distinct payloads. */
  ghost predicate Injective(encode: PayloadEncoder) {
    forall a, b :: encode(a) == encode(b) ==> a == b
  }

  /**
   * Equal name identifiers give equal tokens; under an injective encoder,
   * distinct name identifiers give distinct payload segments.
   */
  lemma LoginTokenDistinguishesUsers(encode: PayloadEncoder, a: Text, b: Text)
    ensures a == b ==> LoginToken(encode, a) == LoginToken(encode, b)
    ensures |Split(LoginToken(encode, a), DOT)| == 3 && |Split(LoginToken(encode, b), DOT)| == 3
    ensures Injective(encode) && a != b ==>
      Split(LoginToken(encode, a), DOT)[1] != Split(LoginToken(encode, b), DOT)[1]
  {
    TokenSegments(encode(a));
    TokenSegments(encode(b));
    if Injective(encode) && a != b && Base64.Encode(encode(a)) == Base64.Encode(encode(b)) {
      Base64.EncodeInjective(encode(a), encode(b));
    }
  }

  /** A token contains no '&', so it cannot break the query string into extra parameters. */
  lemma TokenLacksAmpersand(payload: seq<Byte>)
    ensures Lacks(AccessToken(payload), AMPERSAND)
  {
    var p := Base64.Encode(payload);
    Base64.EncodeLacksSeparators(payload);
    assert Lacks(HEADER, AMPERSAND) && Lacks(SIGNATURE, AMPERSAND);
    forall i | 0 <= i < |AccessToken(payload)|
      ensures AccessToken(payload)[i] != AMPERSAND
    {
      if i < |HEADER| {
        assert AccessToken(payload)[i] == HEADER[i];
      } else if i == |HEADER| || i == |HEADER| + 1 + |p| {
        assert AccessToken(payload)[i] == DOT;
      } else if i < |HEADER| + 1 + |p| {
        assert AccessToken(payload)[i] == p[i - |HEADER| - 1];
      } else {
        assert AccessToken(payload)[i] == SIGNATURE[i - |HEADER| - 2 - |p|];
      }
    }
  }

  lemma FrontendParameterLacksAmpersand(baseURL: Option<Text>)
    requires Lacks(Interpolate(baseURL), AMPERSAND)
    ensures Lacks(FrontendParameter(baseURL), AMPERSAND)
  {
    LitLacks("complete", '&');
    LitLacks("?frontend=", '&');
    LacksConcat(REDIRECTION_URL, Lit("?frontend="), AMPERSAND);
    LacksConcat(REDIRECTION_URL + Lit("?frontend="), Interpolate(baseURL), AMPERSAND);
  }

  lemma SamlParameterLacksAmpersand()
    ensures Lacks(SamlParameter(), AMPERSAND)
  {
    LitLacks("saml=", '&');
    LitLacks("login", '&');
    LacksConcat(Lit("saml="), SAML_ROUTE, AMPERSAND);
  }

  lemma TokenParameterLacksAmpersand(token: Text)
    requires Lacks(token, AMPERSAND)
    ensures Lacks(TokenParameter(token), AMPERSAND)
  {
    LitLacks("access_token=", '&');
    LacksConcat(Lit("access_token="), token, AMPERSAND);
  }

  /**
   * When the base URL contains no '&', splitting the POST target on '&'
   * gives its three parameters, the last carrying the token unescaped; the
   * token's middle segment decodes to the user's payload.
   */
  lemma LoginCompleteParameters(baseURL: Option<Text>, encode: PayloadEncoder, user: Profile)
    requires Lacks(Interpolate(baseURL), AMPERSAND)
    ensures LoginCompleteRedirect(baseURL, encode, user).status == FOUND
    ensures Split(LoginCompleteRedirect(baseURL, encode, user).location, AMPERSAND) ==
      [REDIRECTION_URL + Lit("?frontend=") + Interpolate(baseURL),
       Lit("saml=") + SAML_ROUTE,
       Lit("access_token=") + LoginToken(encode, user.nameID)]
    ensures |Split(LoginToken(encode, user.nameID), DOT)| == 3
    ensures Base64.Decode(Split(LoginToken(encode, user.nameID), DOT)[1]) == Some(encode(user.nameID))
  {
    var token := LoginToken(encode, user.nameID);
    TokenLacksAmpersand(encode(user.nameID));
    FrontendParameterLacksAmpersand(baseURL);
    SamlParameterLacksAmpersand();
    TokenParameterLacksAmpersand(token);
    SplitThree(FrontendParameter(baseURL), SamlParameter(), TokenParameter(token), AMPERSAND);
    PayloadSegment(encode(user.nameID));
  }

  /** The GET target is the base URL followed by "/login"; "undefined/login" when none is configured. */
  lemma LoginStartTarget(baseURL: Option<Text>)
    ensures LoginStartRedirect(baseURL).status == FOUND
    ensures baseURL.Some? ==> LoginStartRedirect(baseURL).location == baseURL.value + Lit("/login")
    ensures baseURL.None? ==> LoginStartRedirect(baseURL).location == Lit("undefined/login")
  {
    LitConcat("/", "login");
    assert [SLASH] == Lit("/");
    LitConcat("undefined", "/login");
  }
}
