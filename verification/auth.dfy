/** Request authentication: reading the bearer token from the `Authorization`
    header and asking the identity provider who it belongs to. */
module Auth {
  import opened Wrappers

  /** The identity provider's user: its id (stored as `authUserId`), email and
      `user_metadata.full_name`. */
  datatype AuthUser = AuthUser(id: string, email: Option<string>, fullName: Option<string>)

  /** What the identity provider's `getUser(token)` answers. */
  datatype Verification = Verification(user: Option<AuthUser>, failed: bool)

  datatype AuthError = MissingToken | InvalidToken

  datatype AuthResult = AuthResult(user: Option<AuthUser>, error: Option<AuthError>)

  function LowerChar(c: char): char {
    if 'A' <= c <= 'Z' then (c as int - 'A' as int + 'a' as int) as char else c
  }

  /** `toLowerCase()` */
  function ToLower(s: string): (r: string)
    ensures |r| == |s|
    ensures forall i :: 0 <= i < |s| ==> r[i] == LowerChar(s[i])
  {
    if s == [] then [] else [LowerChar(s[0])] + ToLower(s[1..])
  }

  lemma {:induction false} ToLowerPrefix(s: string, n: nat)
    requires n <= |s|
    ensures ToLower(s)[..n] == ToLower(s[..n])
  {
    if n > 0 {
      ToLowerPrefix(s[1..], n - 1);
      assert s[..n] == [s[0]] + s[1..][..n - 1];
    }
  }

  /** The token the request carries: the header minus its first seven characters,
      when those are "bearer " in any letter case. */
  function BearerToken(header: Option<string>): (token: Option<string>)
    ensures token.Some? <==> var h := header.GetOr("");
      |h| >= 7 && ToLower(h[..7]) == "bearer "
    ensures token.Some? ==> token.value == header.value[7..]
  {
    var h := header.GetOr("");
    ToLowerPrefix(h, if |h| < 7 then |h| else 7);
    if |ToLower(h)| >= 7 && ToLower(h)[..7] == "bearer " then Some(h[7..]) else None
  }

  /** `getUserFromRequest`, with the identity provider as the function `verify`. */
  function GetUserFromRequest(header: Option<string>, verify: string -> Verification): (r: AuthResult)
    ensures r.user.Some? <==> r.error.None?
    ensures r.error == Some(MissingToken) <==> BearerToken(header) in {None, Some("")}
    ensures r.user.Some? ==> var token := BearerToken(header).value;
      !verify(token).failed && verify(token).user == r.user
    ensures r.error == Some(InvalidToken) ==> var token := BearerToken(header).value;
      verify(token).failed || verify(token).user.None?
  {
    var token := BearerToken(header);
    if token.None? || token.value == "" then AuthResult(None, Some(MissingToken))
    else
      var answer := verify(token.value);
      if answer.failed || answer.user.None? then AuthResult(None, Some(InvalidToken))
      else AuthResult(answer.user, None)
  }

  /** The scheme is matched in any letter case and the token keeps its own case. */
  lemma BearerAnyCase(scheme: string, token: string)
    requires |scheme| == 7 && ToLower(scheme) == "bearer "
    ensures BearerToken(Some(scheme + token)) == Some(token)
  {
    assert (scheme + token)[..7] == scheme;
    assert (scheme + token)[7..] == token;
  }

  /** "Bearer " with nothing after it carries no token. */
  lemma EmptyBearerIsMissing(verify: string -> Verification)
    ensures GetUserFromRequest(Some("Bearer "), verify) == AuthResult(None, Some(MissingToken))
  {
    assert ToLower("Bearer ") == "bearer ";
    assert "Bearer "[7..] == "";
  }

  /** The name a user row gets when a team handler creates it:
      `user_metadata.full_name ?? email ?? "사용자"` ("user"). */
  function DisplayName(user: AuthUser): (name: string)
    ensures user.fullName.Some? ==> name == user.fullName.value
    ensures user.fullName.None? && user.email.Some? ==> name == user.email.value
    ensures user.fullName.None? && user.email.None? ==> name == "\U{C0AC}\U{C6A9}\U{C790}"
  {
    if user.fullName.Some? then user.fullName.value
    else if user.email.Some? then user.email.value
    else "\U{C0AC}\U{C6A9}\U{C790}"
  }
}
