/**
 The input check of `POST /api/auth/login` (backend/server.js:67-96): a request
 without a name or an email is refused with status 400 and nothing is stored;
 otherwise a profile is built, with a generated avatar URL when no photo was
 sent, and recorded under the token issued for it. The user id and the signed
 token, which the server draws from the clock, the random generator and the
 JWT library, are parameters.
 */
module Login {
  import opened Wrappers
  import opened UriComponent

  /** The request body's fields; `None` is a field that was not sent. */
  datatype LoginRequest = LoginRequest(name: Option<string>, email: Option<string>, photo: Option<string>)

  datatype Profile = Profile(id: string, name: string, email: string, photo: string)

  datatype Response =
    | Refused(status: int, error: string)
    | LoggedIn(token: string, user: Profile)

  /** The response, and the token table (`userTokens`) after the request. */
  datatype Outcome = Outcome(tokens: map<string, Profile>, response: Response)

  const MissingFields := "Name and email are required"
  const AvatarPrefix := "https://ui-avatars.com/api/?name="
  const AvatarSuffix := "&background=random"

  /** JavaScript truthiness of an optional string field: absent and empty are both falsy. */
  predicate Truthy(v: Option<string>) {
    v.Some? && v.value != ""
  }

  function DefaultAvatar(name: string): string {
    AvatarPrefix + Encode(name) + AvatarSuffix
  }

  /** The name an avatar URL was generated for, read back from its query parameter. */
  function AvatarName(url: string): Option<string> {
    var p := |AvatarPrefix|;
    var q := |AvatarSuffix|;
    if |url| >= p + q && url[..p] == AvatarPrefix && url[|url| - q..] == AvatarSuffix then
      Decode(url[p..|url| - q])
    else None
  }

  function HandleLogin(tokens: map<string, Profile>, req: LoginRequest, userId: string, token: string): (o: Outcome)
    ensures o.response.Refused? <==> !Truthy(req.name) || !Truthy(req.email)
    ensures o.response.Refused? ==> o.response == Refused(400, MissingFields) && o.tokens == tokens
    ensures o.response.LoggedIn? ==>
              && o.response.token == token
              && o.response.user.id == userId
              && Some(o.response.user.name) == req.name
              && Some(o.response.user.email) == req.email
              && (Truthy(req.photo) ==> Some(o.response.user.photo) == req.photo)
              && (!Truthy(req.photo) ==> AvatarName(o.response.user.photo) == req.name)
              && (!Truthy(req.photo) ==>
                    && |AvatarPrefix| + |AvatarSuffix| <= |o.response.user.photo|
                    && Canonical(o.response.user.photo[|AvatarPrefix|..|o.response.user.photo| - |AvatarSuffix|]))
              && o.tokens.Keys == tokens.Keys + {token}
              && o.tokens[token] == o.response.user
              && (forall k | k in tokens && k != token :: o.tokens[k] == tokens[k])
  {
    if !Truthy(req.name) || !Truthy(req.email) then
      Outcome(tokens, Refused(400, MissingFields))
    else
      var name := req.name.value;
      var photo := if Truthy(req.photo) then req.photo.value else DefaultAvatar(name);
      AvatarNameRoundTrip(name);
      AvatarNamePart(name);
      var user := Profile(userId, name, req.email.value, photo);
      Outcome(tokens[token := user], LoggedIn(token, user))
  }

  /** The generated avatar URL names the user it was made for, so two names never share one. */
  lemma AvatarNameRoundTrip(name: string)
    ensures AvatarName(DefaultAvatar(name)) == Some(name)
  {
    var url := DefaultAvatar(name);
    var p := |AvatarPrefix|;
    var q := |AvatarSuffix|;
    assert url[..p] == AvatarPrefix;
    assert url[|url| - q..] == AvatarSuffix;
    AvatarNamePart(name);
    DecodeEncode(name);
  }

  /**
   An avatar URL that reads back to `name` and whose query value is canonical
   is the one `DefaultAvatar` builds: `HandleLogin`'s avatar clauses leave no
   other URL.
   */
  lemma AvatarIsDetermined(url: string, name: string)
    requires AvatarName(url) == Some(name)
    requires |AvatarPrefix| + |AvatarSuffix| <= |url|
    requires Canonical(url[|AvatarPrefix|..|url| - |AvatarSuffix|])
    ensures url == DefaultAvatar(name)
  {
    var p := |AvatarPrefix|;
    var q := |AvatarSuffix|;
    var middle := url[p..|url| - q];
    assert url[..p] == AvatarPrefix && url[|url| - q..] == AvatarSuffix && Decode(middle) == Some(name);
    CanonicalIsEncode(middle, name);
    assert url == url[..p] + middle + url[|url| - q..];
  }

  /** Between the fixed prefix and suffix, the avatar URL holds `encodeURIComponent(name)`. */
  lemma AvatarNamePart(name: string)
    ensures var url := DefaultAvatar(name);
            && |AvatarPrefix| + |AvatarSuffix| <= |url|
            && url[|AvatarPrefix|..|url| - |AvatarSuffix|] == Encode(name)
  {
  }
}
