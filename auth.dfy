/** Authentication: the local email/password strategy, the find-or-create of OAuth users over
    the Users table, the session (de)serialisation by user id, and the bearer-token check. */
module Auth {
  import opened Js

  /** The Users columns this code reads or writes. NULL columns are None. */
  datatype UserRow = UserRow(
    userId: int, email: string, firstName: string, lastName: string, password: Option<string>,
    oauthProvider: Option<string>, oauthId: Option<string>,
    oauthToken: Option<string>, oauthRefreshToken: Option<string>,
    picture: Option<string>, userType: string, role: string)

  /** The lookups the code makes: `WHERE oauth_provider = ? AND oauth_id = ?`,
      `WHERE email = ?` and `WHERE user_id = ?`. */
  datatype Query = ByOAuth(provider: string, oauthId: string) | ByEmail(email: string) | ById(id: int)

  predicate Matches(u: UserRow, q: Query) {
    match q
    case ByOAuth(provider, oauthId) => u.oauthProvider == Some(provider) && u.oauthId == Some(oauthId)
    case ByEmail(email) => u.email == email
    case ById(id) => u.userId == id
  }

  /** The index of the first matching row (`db.get` answers one row; the model takes the first). */
  function FirstMatch(rows: seq<UserRow>, q: Query): (r: Option<nat>)
    ensures r.None? <==> forall i :: 0 <= i < |rows| ==> !Matches(rows[i], q)
    ensures r.Some? ==> r.value < |rows| && Matches(rows[r.value], q)
                        && forall i :: 0 <= i < r.value ==> !Matches(rows[i], q)
  {
    if rows == [] then None
    else if Matches(rows[0], q) then Some(0)
    else match FirstMatch(rows[1..], q) case None => None case Some(i) => Some(i + 1)
  }

  /** A matching row with no match before it is the first match. */
  lemma {:induction false} FirstMatchIs(rows: seq<UserRow>, q: Query, i: nat)
    requires i < |rows| && Matches(rows[i], q)
    requires forall j :: 0 <= j < i ==> !Matches(rows[j], q)
    ensures FirstMatch(rows, q) == Some(i)
  {
    if i > 0 {
      assert !Matches(rows[0], q);
      assert forall j :: 0 <= j < i - 1 ==> rows[1..][j] == rows[j + 1];
      FirstMatchIs(rows[1..], q, i - 1);
    }
  }

  // ------------------------------------------------------------ local strategy

  const UserNotFound := "User not found"
  const InvalidPassword := "Invalid password"

  datatype LocalResult = LocalError | Rejected(message: string) | Accepted(user: UserRow)

  /** The LocalStrategy callback: the first row with the email; no row, or a password that is
      not that row's (a NULL password never matches), is rejected. */
  function LocalVerify(rows: seq<UserRow>, email: string, password: string, lookupFails: bool): (r: LocalResult)
    ensures lookupFails <==> r == LocalError
    ensures !lookupFails && (forall i :: 0 <= i < |rows| ==> rows[i].email != email) ==> r == Rejected(UserNotFound)
    ensures r.Accepted? ==> r.user in rows && r.user.email == email && r.user.password == Some(password)
    ensures !lookupFails && (exists i :: 0 <= i < |rows| && rows[i].email == email) ==>
              var i := FirstMatch(rows, ByEmail(email)).value;
              r == if rows[i].password == Some(password) then Accepted(rows[i]) else Rejected(InvalidPassword)
  {
    if lookupFails then LocalError
    else match FirstMatch(rows, ByEmail(email))
      case None => Rejected(UserNotFound)
      case Some(i) =>
        if rows[i].password != Some(password) then Rejected(InvalidPassword) else Accepted(rows[i])
  }

  // ------------------------------------------------------------ OAuth profile

  /** `profile.photos[0]`: an object with an optional `value`, or a bare string. */
  datatype Photo = PhotoObject(value: Option<string>) | PhotoText(text: string)

  /** The profile fields findOrCreateOAuthUser reads; `emails` holds the `value`s. */
  datatype Profile = Profile(id: string, emails: seq<string>, displayName: Option<string>,
                             givenName: Option<string>, photos: seq<Photo>)

  /** The first email, else `${provider}-${profile.id}@oauth.local`. */
  function OAuthEmail(provider: string, p: Profile): (r: string)
    ensures p.emails != [] ==> r == p.emails[0]
    ensures p.emails == [] ==> r == provider + "-" + p.id + "@oauth.local"
  {
    if p.emails != [] then p.emails[0] else provider + "-" + p.id + "@oauth.local"
  }

  /** Two profiles of one provider that share no email get different placeholder emails, so
      the email lookup never merges them into one account. */
  lemma PlaceholderEmailsDistinct(provider: string, p: Profile, q: Profile)
    requires p.emails == [] && q.emails == [] && p.id != q.id
    ensures OAuthEmail(provider, p) != OAuthEmail(provider, q)
  {
    var head, tail := provider + "-", "@oauth.local";
    var a, b := OAuthEmail(provider, p), OAuthEmail(provider, q);
    assert a[|head|..|a| - |tail|] == p.id;
    assert b[|head|..|b| - |tail|] == q.id;
  }

  /** `profile.displayName || profile.name?.givenName || 'User'` */
  function DisplayName(p: Profile): (r: string)
    ensures r != ""
    ensures Present(p.displayName) ==> r == p.displayName.value
    ensures !Present(p.displayName) && Present(p.givenName) ==> r == p.givenName.value
  {
    OrElse(p.displayName, OrElse(p.givenName, "User"))
  }

  predicate Present(x: Option<string>) { x.Some? && x.value != "" }

  /** `[first_name, last_name]`: the first two space-separated words when there is a space,
      otherwise the whole name and "". */
  function SplitName(name: string): (r: (string, string))
    ensures ' ' !in r.0 && ' ' !in r.1
    ensures ' ' !in name ==> r == (name, "")
  {
    var words := Split(name, ' ');
    assert ' ' !in name ==> |words| == 1 by { if ' ' !in name { SplitWithout(name, ' '); } }
    if |words| > 1 then (words[0], words[1])
    else
      assert ' ' !in name by { if ' ' in name { SplitWith(name, ' '); } }
      (name, "")
  }

  /** A first word, a space and the rest give that word and the rest's first word: a third
      word is dropped. */
  lemma SplitNameWords(first: string, rest: string)
    requires ' ' !in first
    ensures SplitName(first + " " + rest) == (first, Split(rest, ' ')[0])
  {
    assert first + " " + rest == first + [' '] + rest;
    SplitAfter(first, ' ', rest);
  }

  /** `photos[0].value || (typeof photos[0] === 'string' ? photos[0] : null)`, null when there
      is no truthy first photo. */
  function Picture(p: Profile): (r: Option<string>)
    ensures r.Some? ==> r.value != ""
    ensures p.photos == [] ==> r.None?
    // Which value is taken: the object's `value`, or the bare string itself.
    ensures p.photos != [] && p.photos[0].PhotoObject? && Present(p.photos[0].value) ==> r == p.photos[0].value
    ensures p.photos != [] && p.photos[0].PhotoText? && p.photos[0].text != "" ==> r == Some(p.photos[0].text)
    ensures r.None? ==> p.photos == [] || !Present(if p.photos[0].PhotoObject? then p.photos[0].value
                                                  else Some(p.photos[0].text))
  {
    if p.photos == [] then None
    else match p.photos[0]
      case PhotoObject(v) => if Present(v) then v else None
      case PhotoText(t) => if t != "" then Some(t) else None
  }

  /** `refreshToken || user.oauth_refresh_token` */
  function RefreshOr(x: Option<string>, fallback: Option<string>): (r: Option<string>)
    ensures Present(x) ==> r == x
    ensures !Present(x) ==> r == fallback
    // A stored token is never lost: it is replaced only by a new one.
    ensures r == x || r == fallback
    ensures Present(fallback) ==> Present(r)
  {
    if Present(x) then x else fallback
  }

  /** SQL `COALESCE(?, column)`: NULL keeps the column, anything else replaces it. */
  function Coalesce(x: Option<string>, column: Option<string>): (r: Option<string>)
    ensures x.Some? ==> r == x
    ensures x.None? ==> r == column
    // A stored value is never cleared: NULL only ever keeps what is there.
    ensures r == x || r == column
    ensures column.Some? ==> r.Some?
  {
    if x.Some? then x else column
  }

  /** The row of a returning OAuth user after its tokens are refreshed. */
  function Refreshed(u: UserRow, p: Profile, accessToken: string, refreshToken: Option<string>): (r: UserRow)
    ensures r.oauthToken == Some(accessToken)
    ensures Present(u.oauthRefreshToken) ==> Present(r.oauthRefreshToken)
    ensures u.picture.Some? ==> r.picture.Some?
    ensures r.(oauthToken := u.oauthToken, oauthRefreshToken := u.oauthRefreshToken, picture := u.picture) == u
  {
    u.(oauthToken := Some(accessToken), oauthRefreshToken := RefreshOr(refreshToken, u.oauthRefreshToken),
       picture := Coalesce(Picture(p), u.picture))
  }

  /** The row of an existing email account once linked to the provider. */
  function LinkedRow(u: UserRow, provider: string, p: Profile, accessToken: string, refreshToken: Option<string>): (r: UserRow)
    ensures r.oauthProvider == Some(provider) && r.oauthId == Some(p.id)
    ensures r.oauthToken == Some(accessToken) && r.oauthRefreshToken == refreshToken
    ensures u.picture.Some? ==> r.picture.Some?
    ensures r.(oauthProvider := u.oauthProvider, oauthId := u.oauthId, oauthToken := u.oauthToken,
               oauthRefreshToken := u.oauthRefreshToken, picture := u.picture) == u
  {
    u.(oauthProvider := Some(provider), oauthId := Some(p.id), oauthToken := Some(accessToken),
       oauthRefreshToken := refreshToken, picture := Coalesce(Picture(p), u.picture))
  }

  /** The row inserted for a new OAuth user: no password, user_type 'visitor', role 'user'. */
  function NewOAuthRow(id: int, provider: string, p: Profile, accessToken: string, refreshToken: Option<string>): (r: UserRow)
    ensures r.password.None? && r.userType == "visitor" && r.role == "user"
    ensures r.email == OAuthEmail(provider, p) && r.oauthProvider == Some(provider) && r.oauthId == Some(p.id)
    ensures r.firstName == SplitName(DisplayName(p)).0 && r.lastName == SplitName(DisplayName(p)).1
  {
    var (first, last) := SplitName(DisplayName(p));
    UserRow(id, OAuthEmail(provider, p), first, last, None, Some(provider), Some(p.id),
            Some(accessToken), refreshToken, Picture(p), "visitor", "user")
  }

  /** Passport's `done`: an error, or the user the session is opened for. */
  datatype Done = Failed | Authenticated(user: UserRow)

  /** Distinct ids, all below the next id to hand out. */
  ghost predicate IdsBelow(rows: seq<UserRow>, nextId: int) {
    0 < nextId
    && (forall i :: 0 <= i < |rows| ==> 0 < rows[i].userId < nextId)
    && (forall i, j :: 0 <= i < j < |rows| ==> rows[i].userId != rows[j].userId)
  }

  /** Replacing a row by one with the same id keeps the ids distinct and below the counter. */
  lemma UpdateKeepsIds(rows: seq<UserRow>, nextId: int, i: nat, r: UserRow)
    requires IdsBelow(rows, nextId) && i < |rows| && r.userId == rows[i].userId
    ensures IdsBelow(rows[i := r], nextId)
  {
  }

  /** Appending a row with the next id keeps the ids distinct and below the advanced counter. */
  lemma AppendKeepsIds(rows: seq<UserRow>, nextId: int, r: UserRow)
    requires IdsBelow(rows, nextId) && r.userId == nextId
    ensures IdsBelow(rows + [r], nextId + 1)
  {
    var s := rows + [r];
    forall i, j | 0 <= i < j < |s| ensures s[i].userId != s[j].userId {
      assert s[i] == rows[i];
    }
  }

  /** A matching row placed where no earlier row matches becomes the first match. */
  lemma FirstMatchAfterUpdate(rows: seq<UserRow>, q: Query, i: nat, r: UserRow)
    requires i < |rows| && Matches(r, q)
    requires forall j :: 0 <= j < i ==> !Matches(rows[j], q)
    ensures FirstMatch(rows[i := r], q) == Some(i)
  {
    FirstMatchIs(rows[i := r], q, i);
  }

  /** The Users table, as the rows in insertion order and the next AUTOINCREMENT id. */
  class UserStore {
    var rows: seq<UserRow>
    var nextId: int

    ghost predicate Valid()
      reads this
    {
      IdsBelow(rows, nextId)
    }

    constructor ()
      ensures Valid() && rows == [] && nextId == 1
    {
      rows := [];
      nextId := 1;
    }

    /** findOrCreateOAuthUser. A row already linked to (provider, profile.id) gets fresh tokens
        and is answered as it was read before the update; otherwise a row with the derived email
        is linked and answered as re-read; otherwise one user is inserted. `lookupFails` and
        `writeFails` stand for the database errors, which abort with no change. */
    method FindOrCreateOAuthUser(provider: string, p: Profile, accessToken: string, refreshToken: Option<string>,
                                 lookupFails: bool, writeFails: bool) returns (done: Done)
      requires Valid()
      modifies this
      ensures Valid()
      ensures lookupFails || writeFails ==> done == Failed && rows == old(rows) && nextId == old(nextId)
      ensures !lookupFails && !writeFails ==> done.Authenticated?
      ensures !lookupFails && !writeFails && FirstMatch(old(rows), ByOAuth(provider, p.id)).Some? ==>
                var i := FirstMatch(old(rows), ByOAuth(provider, p.id)).value;
                rows == old(rows)[i := Refreshed(old(rows)[i], p, accessToken, refreshToken)]
                && nextId == old(nextId) && done == Authenticated(old(rows)[i])
      ensures !lookupFails && !writeFails && FirstMatch(old(rows), ByOAuth(provider, p.id)).None?
              && FirstMatch(old(rows), ByEmail(OAuthEmail(provider, p))).Some? ==>
                var j := FirstMatch(old(rows), ByEmail(OAuthEmail(provider, p))).value;
                rows == old(rows)[j := LinkedRow(old(rows)[j], provider, p, accessToken, refreshToken)]
                && nextId == old(nextId) && done == Authenticated(rows[j])
      ensures !lookupFails && !writeFails && FirstMatch(old(rows), ByOAuth(provider, p.id)).None?
              && FirstMatch(old(rows), ByEmail(OAuthEmail(provider, p))).None? ==>
                rows == old(rows) + [NewOAuthRow(old(nextId), provider, p, accessToken, refreshToken)]
                && nextId == old(nextId) + 1 && done == Authenticated(rows[|rows| - 1])
      ensures done.Authenticated? ==>
                FirstMatch(rows, ByOAuth(provider, p.id)).Some?
                && rows[FirstMatch(rows, ByOAuth(provider, p.id)).value].userId == done.user.userId
    {
      if lookupFails || writeFails {
        return Failed;
      }
      var q := ByOAuth(provider, p.id);
      var match1 := FirstMatch(rows, q);
      if match1.Some? {
        var i := match1.value;
        var user := rows[i];
        var updated := Refreshed(user, p, accessToken, refreshToken);
        UpdateKeepsIds(rows, nextId, i, updated);
        FirstMatchAfterUpdate(rows, q, i, updated);
        rows := rows[i := updated];
        return Authenticated(user);
      }
      var email := OAuthEmail(provider, p);
      var match2 := FirstMatch(rows, ByEmail(email));
      if match2.Some? {
        var j := match2.value;
        var linked := LinkedRow(rows[j], provider, p, accessToken, refreshToken);
        UpdateKeepsIds(rows, nextId, j, linked);
        FirstMatchAfterUpdate(rows, q, j, linked);
        rows := rows[j := linked];
        return Authenticated(linked);
      }
      var row := NewOAuthRow(nextId, provider, p, accessToken, refreshToken);
      AppendKeepsIds(rows, nextId, row);
      FirstMatchIs(rows + [row], q, |rows|);
      rows := rows + [row];
      nextId := nextId + 1;
      return Authenticated(row);
    }

    /** A second sign-in with the same provider and profile finds the row the first one
        answered: no second insert, and the same user id. */
    method SignInTwice(provider: string, p: Profile, accessToken: string, refreshToken: Option<string>)
      returns (first: Done, second: Done)
      requires Valid()
      modifies this
      ensures Valid()
      ensures first.Authenticated? && second.Authenticated?
      ensures second.user.userId == first.user.userId
      ensures |rows| <= |old(rows)| + 1 && nextId <= old(nextId) + 1
    {
      first := FindOrCreateOAuthUser(provider, p, accessToken, refreshToken, false, false);
      second := FindOrCreateOAuthUser(provider, p, accessToken, refreshToken, false, false);
    }
  }

  // ------------------------------------------------------------ sessions

  /** serializeUser keeps the user id only. */
  function Serialize(u: UserRow): (r: int)
    ensures r == u.userId
  {
    u.userId
  }

  /** deserializeUser: the row with that id, or none. */
  function Deserialize(rows: seq<UserRow>, id: int): (r: Option<UserRow>)
    ensures r.Some? ==> r.value in rows && r.value.userId == id
    ensures r.None? <==> forall i :: 0 <= i < |rows| ==> rows[i].userId != id
  {
    match FirstMatch(rows, ById(id))
    case None => None
    case Some(i) => Some(rows[i])
  }

  /** With distinct ids, deserialising a serialised user gives that user back. */
  lemma SessionRoundTrip(rows: seq<UserRow>, nextId: int, i: nat)
    requires IdsBelow(rows, nextId) && i < |rows|
    ensures Deserialize(rows, Serialize(rows[i])) == Some(rows[i])
  {
    FirstMatchIs(rows, ById(rows[i].userId), i);
  }

  /** A user created through OAuth has no password, so the local strategy always rejects
      their email with "Invalid password". */
  lemma OAuthUserRejectedLocally(rows: seq<UserRow>, id: int, provider: string, p: Profile,
                                 accessToken: string, refreshToken: Option<string>, password: string)
    requires forall i :: 0 <= i < |rows| ==> rows[i].email != OAuthEmail(provider, p)
    ensures var row := NewOAuthRow(id, provider, p, accessToken, refreshToken);
            LocalVerify(rows + [row], row.email, password, false) == Rejected(InvalidPassword)
  {
    var row := NewOAuthRow(id, provider, p, accessToken, refreshToken);
    var all := rows + [row];
    assert all[|rows|] == row;
    FirstMatchIs(all, ByEmail(row.email), |rows|);
  }

  // ------------------------------------------------------------ bearer tokens

  /** The decoded JWT payload. */
  datatype Payload = Payload(userId: int, email: string)

  datatype AuthResult = Unauthorized(error: string) | Authorized(payload: Payload)

  const NoToken := "No token provided"
  const BadToken := "Invalid token"

  /** `req.headers.authorization?.split(' ')[1]`: None for a missing header or a header with
      no space. */
  function BearerToken(header: Option<string>): (r: Option<string>)
    ensures r.Some? ==> ' ' !in r.value
    ensures header.None? ==> r.None?
  {
    if header.None? then None
    else
      var parts := Split(header.value, ' ');
      if |parts| > 1 then Some(parts[1]) else None
  }

  /** requireAuth, with `jwt.verify` under the server's secret given as `verify` (None when it
      throws). */
  function RequireAuth(header: Option<string>, verify: string -> Option<Payload>): (r: AuthResult)
    ensures r == Unauthorized(NoToken) <==> !Present(BearerToken(header))
    ensures r.Authorized? <==> Present(BearerToken(header)) && verify(BearerToken(header).value).Some?
    ensures r.Authorized? ==> r.payload == verify(BearerToken(header).value).value
    ensures Present(BearerToken(header)) && verify(BearerToken(header).value).None? ==> r == Unauthorized(BadToken)
  {
    var token := BearerToken(header);
    if !Present(token) then Unauthorized(NoToken)
    else match verify(token.value)
      case None => Unauthorized(BadToken)
      case Some(payload) => Authorized(payload)
  }

  /** `Bearer <token>` yields the token; anything after a further space is ignored. */
  lemma BearerHeader(scheme: string, token: string, rest: string)
    requires ' ' !in scheme && ' ' !in token
    ensures BearerToken(Some(scheme + " " + token)) == Some(token)
    ensures BearerToken(Some(scheme + " " + token + " " + rest)) == Some(token)
  {
    assert scheme + " " + token == scheme + [' '] + token;
    SplitAfter(scheme, ' ', token);
    SplitWithout(token, ' ');
    assert scheme + " " + token + " " + rest == scheme + [' '] + (token + [' '] + rest);
    SplitAfter(scheme, ' ', token + [' '] + rest);
    SplitAfter(token, ' ', rest);
  }

  /** A bare token with no scheme carries no token at all. */
  lemma NoSchemeNoToken(token: string, verify: string -> Option<Payload>)
    requires ' ' !in token
    ensures RequireAuth(Some(token), verify) == Unauthorized(NoToken)
  {
    SplitWithout(token, ' ');
  }
}
