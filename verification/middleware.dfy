/** The API's authentication guard: it finds a bearer token in the
    `Authorization` header and decodes it to learn the caller's user id.
    Decoding the token is a library call and is a parameter here. */
module Middleware {
  import opened Common
  import opened Text

  /** The outcomes of decoding a token: its claims (of which only the
      subject is read), an expired token, or any other invalid token. */
  datatype Decoded = Claims(sub: Option<string>) | Expired | Invalid

  /** Either the request goes through with the caller's user id and the token
      it presented, or it is answered with an error status and message. */
  datatype AuthResult =
    | Authorized(userId: Option<string>, token: string)
    | Rejected(status: int, message: string)

  const MissingToken: string := "Authorization token is missing"

  /** The scheme and token of a header: split on whitespace, exactly two
      pieces, the first one `bearer` in any letter case. */
  function BearerToken(header: Option<string>): (t: Option<string>)
    ensures t.Some? <==>
              && header.Some?
              && |Split(header.value)| == 2
              && Lower(Split(header.value)[0]) == "bearer"
    ensures t.Some? ==> t.value == Split(header.value)[1]
    ensures t.Some? ==> |t.value| > 0 && NoSpace(t.value)
  {
    if header.Some? && |header.value| > 0 then
      var parts := Split(header.value);
      if |parts| == 2 && Lower(parts[0]) == "bearer" then Some(parts[1]) else None
    else
      None
  }

  /** `require_auth`: a missing or malformed header is refused before the
      token is looked at; otherwise the decoder's verdict decides. */
  function RequireAuth(header: Option<string>, decode: string -> Decoded): (r: AuthResult)
    ensures BearerToken(header).None? ==> r == Rejected(401, MissingToken)
    ensures r.Rejected? ==> r.status == 401
    ensures r.Authorized? <==> BearerToken(header).Some? && decode(BearerToken(header).value).Claims?
    ensures r.Authorized? ==>
              && r.token == BearerToken(header).value
              && r.userId == decode(r.token).sub
    ensures BearerToken(header).Some? && decode(BearerToken(header).value).Expired? ==>
              r == Rejected(401, "Token expired")
    ensures BearerToken(header).Some? && decode(BearerToken(header).value).Invalid? ==>
              r == Rejected(401, "Invalid token")
  {
    var token := BearerToken(header);
    if token.None? then Rejected(401, MissingToken)
    else
      match decode(token.value)
      case Claims(sub) => Authorized(sub, token.value)
      case Expired => Rejected(401, "Token expired")
      case Invalid => Rejected(401, "Invalid token")
  }

  /** A well-formed header, however it is padded: any whitespace before the
      scheme and after the token, at least one whitespace character between
      them, and the scheme `bearer` in any letter case. The token comes back
      verbatim. */
  lemma BearerTokenOfPaddedHeader(lead: string, scheme: string, gap: string, token: string, trail: string)
    requires AllSpace(lead) && AllSpace(trail)
    requires |gap| > 0 && AllSpace(gap)
    requires |scheme| > 0 && NoSpace(scheme) && Lower(scheme) == "bearer"
    requires |token| > 0 && NoSpace(token)
    ensures BearerToken(Some(lead + scheme + gap + token + trail)) == Some(token)
  {
    SplitTwoWords(lead, scheme, gap, token, trail);
  }

  /** The spellings of the scheme the application's own clients use. */
  lemma BearerSpellings()
    ensures IsWord("Bearer") && Lower("Bearer") == "bearer"
    ensures IsWord("BEARER") && Lower("BEARER") == "bearer"
  {
    LettersAreWord("Bearer");
    LettersAreWord("BEARER");
    assert Lower("Bearer") == "bearer";
    assert Lower("BEARER") == "bearer";
  }

  /** A scheme and a token separated by whitespace, with no padding. */
  lemma BearerTokenOfWords(scheme: string, gap: string, token: string)
    requires |gap| > 0 && AllSpace(gap)
    requires IsWord(scheme) && Lower(scheme) == "bearer"
    requires IsWord(token)
    ensures BearerToken(Some(scheme + gap + token)) == Some(token)
  {
    SplitWordGapWord(scheme, gap, token);
  }

  /** The usual header `Bearer <token>` yields the token, and so does its
      all upper-case spelling: the scheme is compared without regard to
      letter case. */
  lemma CanonicalHeader(token: string)
    requires |token| > 0 && NoSpace(token)
    ensures BearerToken(Some("Bearer " + token)) == Some(token)
    ensures BearerToken(Some("BEARER " + token)) == Some(token)
  {
    BearerSpellings();
    assert "Bearer" + " " == "Bearer ";
    BearerTokenOfWords("Bearer", " ", token);
    assert "BEARER" + " " == "BEARER ";
    BearerTokenOfWords("BEARER", " ", token);
  }

  /** A header with one piece, or with three or more, carries no token. */
  lemma WrongPieceCountRejected(header: string, decode: string -> Decoded)
    requires |Split(header)| != 2
    ensures RequireAuth(Some(header), decode) == Rejected(401, MissingToken)
  {
  }

  /** A scheme other than `bearer` (in any case) carries no token. */
  lemma OtherSchemeRejected(scheme: string, token: string, decode: string -> Decoded)
    requires |scheme| > 0 && NoSpace(scheme) && Lower(scheme) != "bearer"
    requires |token| > 0 && NoSpace(token)
    ensures RequireAuth(Some(scheme + " " + token), decode) == Rejected(401, MissingToken)
  {
    OtherSchemeHasNoToken(scheme, token);
  }

  lemma OtherSchemeHasNoToken(scheme: string, token: string)
    requires IsWord(scheme) && Lower(scheme) != "bearer"
    requires IsWord(token)
    ensures BearerToken(Some(scheme + " " + token)).None?
  {
    SplitWordGapWord(scheme, " ", token);
  }

  /** An absent header is refused as a missing token. */
  lemma AbsentHeaderRejected(decode: string -> Decoded)
    ensures RequireAuth(None, decode) == Rejected(401, MissingToken)
  {
  }
}
