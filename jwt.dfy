/** JwtProvider.getTokenFromRequest: the token of an `Authorization` header of
    the bearer scheme (section 2.1 of RFC 6750), matched case-sensitively.
    Signing, validating and parsing tokens are not part of this model. */
module Jwt {
  import opened Wrappers
  import opened Strings

  const Bearer := "Bearer "

  /** `Character.isWhitespace`: the Unicode space, line and paragraph
      separators except the no-break spaces U+00A0, U+2007 and U+202F, and
      the controls U+0009-U+000D and U+001C-U+001F. */
  predicate IsJavaWhitespace(c: char)
  {
    || c == ' ' || c == '\U{1680}' || ('\U{2000}' <= c <= '\U{2006}') || ('\U{2008}' <= c <= '\U{200A}')
    || c == '\U{2028}' || c == '\U{2029}' || c == '\U{205F}' || c == '\U{3000}'
    || ('\U{0009}' <= c <= '\U{000D}') || ('\U{001C}' <= c <= '\U{001F}')
  }

  /** `StringUtils.hasText`: present, and holding a character that is not
      whitespace. */
  predicate HasText(s: Option<string>)
  {
    s.Some? && exists i :: 0 <= i < |s.value| && !IsJavaWhitespace(s.value[i])
  }

  /** A header of the bearer scheme starts with 'B', which is not whitespace. */
  lemma BearerHasText(authorization: Option<string>)
    ensures authorization.Some? && StartsWith(authorization.value, Bearer) ==> HasText(authorization)
  {
    if authorization.Some? && StartsWith(authorization.value, Bearer) {
      assert authorization.value[0] == 'B';
    }
  }

  /** The header value after "Bearer ", or `None` (null) when there is no
      header, a blank one, or one of another scheme. */
  function GetTokenFromRequest(authorization: Option<string>): (r: Option<string>)
    // the text test adds nothing to the prefix test
    ensures r.Some? <==> authorization.Some? && StartsWith(authorization.value, Bearer)
    ensures r.Some? ==> authorization.value == Bearer + r.value
  {
    BearerHasText(authorization);
    if HasText(authorization) && StartsWith(authorization.value, Bearer) then
      Some(authorization.value[|Bearer|..])
    else None
  }

  /** Whatever token is sent after "Bearer ", it comes back unchanged. */
  lemma BearerRoundTrip(token: string)
    ensures GetTokenFromRequest(Some(Bearer + token)) == Some(token)
  {
    assert (Bearer + token)[..|Bearer|] == Bearer;
    assert (Bearer + token)[|Bearer|..] == token;
  }

  /** A missing header, or one of whitespace only, yields no token. */
  lemma BlankHeaderHasNoToken(header: string)
    requires forall i :: 0 <= i < |header| ==> IsJavaWhitespace(header[i])
    ensures GetTokenFromRequest(None) == None
    ensures GetTokenFromRequest(Some(header)) == None
  {
    if |header| >= |Bearer| {
      assert IsJavaWhitespace(header[0]);
    }
  }

  /** The scheme name is compared case-sensitively, and the space after it is
      required. */
  lemma OtherSchemesHaveNoToken()
    ensures GetTokenFromRequest(Some("bearer x")) == None
    ensures GetTokenFromRequest(Some("Bearer")) == None
  {
    assert "bearer x"[0] != Bearer[0];
  }
}
