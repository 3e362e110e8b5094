/**
  The auth part of the service: the user table (keyed by email), the token
  table (token to email, in insertion order), signup, login, and the
  resolution of a bearer header to a user. Each handler is a function from
  the tables before the request to the tables after it and the answer; a
  failing request leaves the tables as they were.
 */
module Auth {
  import opened Results
  import opened Decimal
  import opened OrderedDict
  import opened TextReplace
  import opened Records

  /** The token table, token to email, in insertion order. */
  type TokenTable = seq<(string, string)>

  datatype AuthState = AuthState(users: map<string, User>, tokens: TokenTable)

  const EmailInUse := HttpError(400, "Email already in use")
  const BadCredentials := HttpError(401, "Invalid email or password")
  const InvalidToken := HttpError(401, "Invalid token")
  const UserNotFound := HttpError(401, "User not found")
  const MissingHeader := HttpError(401, "Missing Authorization header")

  const TokenPrefix: string := "mocktoken_"

  /** The id of the one seeded user. */
  const SeedUserId: string := "u_demo_1"

  /** An id of the shape `u_<digits>`, which signup hands out. */
  predicate IsNumberedId(id: string) {
    |id| > 2 && id[..2] == "u_" && AllDigits(id[2..])
  }

  function IdNumber(id: string): nat
    requires IsNumberedId(id)
  {
    ParseNat(id[2..])
  }

  /** `f"u_{n}"`: the number can be read back from the id. */
  function UserId(n: nat): (id: string)
    ensures IsNumberedId(id) && IdNumber(id) == n
  {
    var id := "u_" + NatToString(n);
    assert id[..2] == "u_" && id[2..] == NatToString(n);
    assert ParseNat(id[2..]) == n by { ParseNatToString(n); }
    id
  }

  /** `f"mocktoken_{id}"`: the id can be read back after the prefix. */
  function MintToken(id: string): (token: string)
    ensures |token| == |TokenPrefix| + |id|
    ensures token[..|TokenPrefix|] == TokenPrefix && token[|TokenPrefix|..] == id
  {
    TokenPrefix + id
  }

  /** Tokens minted from different ids differ. */
  lemma MintTokenInjective(a: string, b: string)
    requires MintToken(a) == MintToken(b)
    ensures a == b
  {
    assert a == MintToken(a)[|TokenPrefix|..];
    assert b == MintToken(b)[|TokenPrefix|..];
  }

  /** A minted token survives the header stripping when its id has no `'B'`. */
  lemma MintedTokenHasNoBearer(id: string)
    requires 'B' !in id
    ensures !Occurs(Bearer, MintToken(id))
  {
    assert 'B' !in TokenPrefix;
    AbsentFirstChar(Bearer, MintToken(id));
  }

  /** A `u_<digits>` id has no `'B'` in it. */
  lemma NumberedIdHasNoB(id: string)
    requires IsNumberedId(id)
    ensures 'B' !in id
  {
    forall i | 0 <= i < |id|
      ensures id[i] != 'B'
    {
      if i < 2 {
        assert id[i] == id[..2][i];
      } else {
        assert id[i] == id[2..][i - 2];
      }
    }
  }

  // ---------------------------------------------------------------
  // Token resolution and the Authorization header
  // ---------------------------------------------------------------

  /**
    `get_user_from_token`: token to email, then email to user. A missing
    token, or one mapped to the empty (falsy) email, is an invalid token;
    an email without a user is a missing user.
   */
  function ResolveToken(s: AuthState, token: string): (r: Result<User>)
    ensures r.Err? ==> r.error == InvalidToken || r.error == UserNotFound
    ensures r == Err(InvalidToken) <==> Get(s.tokens, token) == None || Get(s.tokens, token) == Some("")
    ensures r == Err(UserNotFound) <==>
              Get(s.tokens, token).Some? && Get(s.tokens, token).value != "" && Get(s.tokens, token).value !in s.users
    ensures r.Ok? ==> Get(s.tokens, token).Some? && r.value == s.users[Get(s.tokens, token).value]
  {
    match Get(s.tokens, token)
    case None => Err(InvalidToken)
    case Some(email) =>
      if email == "" then Err(InvalidToken)
      else if email !in s.users then Err(UserNotFound)
      else Ok(s.users[email])
  }

  /**
    `current_user`: an absent or empty header is refused before any lookup;
    otherwise every `"Bearer "` is deleted and the rest is resolved as a token.
   */
  function CurrentUser(s: AuthState, authorization: Option<string>): (r: Result<User>)
    ensures r == Err(MissingHeader) <==> authorization == None || authorization == Some("")
  {
    if authorization.None? || authorization.value == "" then Err(MissingHeader)
    else ResolveToken(s, StripBearer(authorization.value))
  }

  /** A header `Bearer <token>`, or the bare token, is resolved as that token when the token has no `"Bearer "` inside. */
  lemma BearerHeaderResolves(s: AuthState, token: string)
    requires !Occurs(Bearer, token)
    ensures CurrentUser(s, Some(Bearer + token)) == ResolveToken(s, token)
    ensures token != "" ==> CurrentUser(s, Some(token)) == ResolveToken(s, token)
  {
    BearerRoundTrip(token);
  }

  /** `me`: the public fields of the caller. */
  function Me(u: User): Profile {
    Profile(u.name, u.email, u.id)
  }

  // ---------------------------------------------------------------
  // Signup and login
  // ---------------------------------------------------------------

  /** `signup`. */
  function Signup(s: AuthState, req: SignupRequest): (out: (AuthState, Result<AuthResponse>))
    ensures out.1.Err? <==> req.email in s.users
    ensures out.1.Err? ==> out.1.error == EmailInUse && out.0 == s
  {
    if req.email in s.users then (s, Err(EmailInUse))
    else
      var id := UserId(|s.users| + 1);
      var token := MintToken(id);
      (AuthState(s.users[req.email := User(req.name, req.email, req.password, id)],
                 Put(s.tokens, token, req.email)),
       Ok(AuthResponse(token, req.name, req.email, id)))
  }

  /**
    The token login hands out: the first token, in insertion order, already
    mapped to the email; when there is none, or it is the empty (falsy)
    string, `mocktoken_<id>`.
   */
  function LoginToken(tokens: TokenTable, email: string, id: string): (token: string)
    ensures FirstKeyFor(tokens, email).Some? && FirstKeyFor(tokens, email).value != "" ==>
              token == FirstKeyFor(tokens, email).value && Get(tokens, token).Some?
    ensures FirstKeyFor(tokens, email) == Some("") ==> token == MintToken(id)
    ensures FirstKeyFor(tokens, email).None? ==> token == MintToken(id)
    ensures token != ""
  {
    match FirstKeyFor(tokens, email)
    case Some(t) => if t != "" then t else MintToken(id)
    case None => MintToken(id)
  }

  /** `login`. */
  function Login(s: AuthState, req: LoginRequest): (out: (AuthState, Result<AuthResponse>))
    ensures out.1.Err? <==> req.email !in s.users || s.users[req.email].password != req.password
    ensures out.1.Err? ==> out.1.error == BadCredentials && out.0 == s
    ensures out.0.users == s.users
    ensures out.1.Ok? ==>
              var u := s.users[req.email];
              out.1.value.name == u.name && out.1.value.email == u.email && out.1.value.userId == u.id
  {
    if req.email !in s.users || s.users[req.email].password != req.password then (s, Err(BadCredentials))
    else
      var u := s.users[req.email];
      var token := LoginToken(s.tokens, req.email, u.id);
      (s.(tokens := Put(s.tokens, token, req.email)), Ok(AuthResponse(token, u.name, u.email, u.id)))
  }

  /**
    A successful signup adds exactly one user, under the given email, with
    id `u_<old user count + 1>` and the password as given, maps
    `mocktoken_<id>` to the email, touches no other token, and answers with
    that token, name, email and id.
   */
  lemma SignupSucceeds(s: AuthState, req: SignupRequest)
    requires req.email !in s.users
    ensures var (s', r) := Signup(s, req);
            var id := UserId(|s.users| + 1);
            && r == Ok(AuthResponse(MintToken(id), req.name, req.email, id))
            && s'.users == s.users[req.email := User(req.name, req.email, req.password, id)]
            && |s'.users| == |s.users| + 1
            && Get(s'.tokens, MintToken(id)) == Some(req.email)
            && forall t :: t != MintToken(id) ==> Get(s'.tokens, t) == Get(s.tokens, t)
  {
    var id := UserId(|s.users| + 1);
    var token := MintToken(id);
    var tokens' := Put(s.tokens, token, req.email);
    assert Signup(s, req).0.tokens == tokens';
    PutGet(s.tokens, token, req.email, token);
    forall t | t != token
      ensures Get(tokens', t) == Get(s.tokens, t)
    {
      PutGet(s.tokens, token, req.email, t);
    }
  }

  /** Two signups in a row hand out different ids, since the user count grows in between. */
  lemma SignupIdsDiffer(s: AuthState, first: SignupRequest, second: SignupRequest)
    requires Signup(s, first).1.Ok? && Signup(Signup(s, first).0, second).1.Ok?
    ensures Signup(s, first).1.value.userId != Signup(Signup(s, first).0, second).1.value.userId
  {
    SignupSucceeds(s, first);
  }

  /** The token of a successful signup resolves, also through a bearer header, to the new user, whose profile is the one signup answered with. */
  lemma SignupTokenResolves(s: AuthState, req: SignupRequest)
    requires req.email !in s.users && req.email != ""
    ensures var (s', r) := Signup(s, req);
            var u := User(req.name, req.email, req.password, r.value.userId);
            && ResolveToken(s', r.value.token) == Ok(u)
            && CurrentUser(s', Some(Bearer + r.value.token)) == Ok(u)
            && Me(u) == Profile(r.value.name, r.value.email, r.value.userId)
  {
    SignupSucceeds(s, req);
    var id := UserId(|s.users| + 1);
    NumberedIdHasNoB(id);
    MintedTokenHasNoBearer(id);
    BearerHeaderResolves(Signup(s, req).0, MintToken(id));
  }

  /**
    A successful login returns the first token, in insertion order, mapped
    to the email when that token is not empty, and `mocktoken_<id>` when that
    token is empty or no token maps to the email; afterwards the returned
    token maps to the email.
   */
  lemma LoginReturnsFirstToken(s: AuthState, req: LoginRequest, i: nat)
    requires Login(s, req).1.Ok?
    requires i <= |s.tokens|
    requires forall j :: 0 <= j < i ==> s.tokens[j].1 != req.email
    requires i < |s.tokens| ==> s.tokens[i].1 == req.email
    ensures var token := Login(s, req).1.value.token;
            && token == (if i < |s.tokens| && s.tokens[i].0 != "" then s.tokens[i].0
                         else MintToken(s.users[req.email].id))
            && Get(Login(s, req).0.tokens, token) == Some(req.email)
  {
    if i < |s.tokens| {
      FirstKeyForIsFirst(s.tokens, req.email, i);
    } else {
      assert forall p :: p in s.tokens ==> p.1 != req.email;
    }
    var token := Login(s, req).1.value.token;
    PutGet(s.tokens, token, req.email, token);
  }

  /** The token of a successful login resolves to the user who logged in, whose profile is the one login answered with. */
  lemma LoginTokenResolves(s: AuthState, req: LoginRequest)
    requires Login(s, req).1.Ok? && req.email != ""
    ensures var (s', r) := Login(s, req);
            && ResolveToken(s', r.value.token) == Ok(s.users[req.email])
            && Me(s.users[req.email]) == Profile(r.value.name, r.value.email, r.value.userId)
  {
    var token := Login(s, req).1.value.token;
    PutGet(s.tokens, token, req.email, token);
  }

  /** Logging in again with the same credentials gives the same answer and leaves the tables as the first login left them. */
  lemma LoginTwice(s: AuthState, req: LoginRequest)
    requires Login(s, req).1.Ok?
    ensures Login(Login(s, req).0, req) == Login(s, req)
  {
    var u := s.users[req.email];
    var token := LoginToken(s.tokens, req.email, u.id);
    var tokens' := Put(s.tokens, token, req.email);
    FirstKeyAfterPut(s.tokens, token, req.email);
    assert LoginToken(tokens', req.email, u.id) == token;
    PutTwice(s.tokens, token, req.email);
  }

  // ---------------------------------------------------------------
  // The invariant of the auth tables
  // ---------------------------------------------------------------

  /** Every user is stored under its own email. */
  predicate UsersKeyedByEmail(users: map<string, User>) {
    forall e :: e in users ==> users[e].email == e
  }

  /** Every id is the seeded one or `u_<n>` with n at most the number of users. */
  predicate IdsIssued(users: map<string, User>) {
    forall e :: e in users ==>
      users[e].id == SeedUserId || (IsNumberedId(users[e].id) && IdNumber(users[e].id) <= |users|)
  }

  predicate IdsDistinct(users: map<string, User>) {
    forall e1, e2 :: e1 in users && e2 in users && e1 != e2 ==> users[e1].id != users[e2].id
  }

  /** Every token is `mocktoken_<id>` of the user its email belongs to. */
  predicate TokensMinted(s: AuthState) {
    forall p :: p in s.tokens ==> p.1 in s.users && p.0 == MintToken(s.users[p.1].id)
  }

  predicate ValidAuth(s: AuthState) {
    && UsersKeyedByEmail(s.users)
    && IdsIssued(s.users)
    && IdsDistinct(s.users)
    && DistinctKeys(s.tokens)
    && TokensMinted(s)
  }

  lemma SeedIdNotNumbered()
    ensures !IsNumberedId(SeedUserId)
  {
    assert SeedUserId[2..][0] == 'd';
  }

  /** In a valid state the id signup is about to hand out belongs to nobody yet. */
  lemma NextIdIsFresh(s: AuthState)
    requires ValidAuth(s)
    ensures forall e :: e in s.users ==> s.users[e].id != UserId(|s.users| + 1)
  {
    SeedIdNotNumbered();
  }

  /** Signup keeps the invariant. */
  lemma SignupPreservesValid(s: AuthState, req: SignupRequest)
    requires ValidAuth(s)
    ensures ValidAuth(Signup(s, req).0)
  {
    if req.email !in s.users {
      NextIdIsFresh(s);
      SignupSucceeds(s, req);
    }
  }

  /**
    In a valid state a successful signup appends its token to the token
    table, and no token that existed before changes its email.
   */
  lemma SignupKeepsTokenBindings(s: AuthState, req: SignupRequest)
    requires ValidAuth(s) && req.email !in s.users
    ensures var token := MintToken(UserId(|s.users| + 1));
            Signup(s, req).0.tokens == s.tokens + [(token, req.email)]
    ensures forall t :: Get(s.tokens, t).Some? ==> Get(Signup(s, req).0.tokens, t) == Get(s.tokens, t)
  {
    var id := UserId(|s.users| + 1);
    NextIdIsFresh(s);
    forall p | p in s.tokens
      ensures p.0 != MintToken(id)
    {
      if p.0 == MintToken(id) {
        MintTokenInjective(s.users[p.1].id, id);
      }
    }
    SignupSucceeds(s, req);
  }

  /** In a valid state login hands out `mocktoken_<id>` of the user logging in. */
  lemma LoginTokenIsMinted(s: AuthState, email: string)
    requires ValidAuth(s) && email in s.users
    ensures LoginToken(s.tokens, email, s.users[email].id) == MintToken(s.users[email].id)
  {
    match FirstKeyFor(s.tokens, email)
    case None =>
    case Some(t) =>
      assert (t, email) in s.tokens;
  }

  /** Login keeps the invariant, and no token changes its email. */
  lemma LoginPreservesValid(s: AuthState, req: LoginRequest)
    requires ValidAuth(s)
    ensures ValidAuth(Login(s, req).0)
    ensures forall t :: Get(s.tokens, t).Some? ==> Get(Login(s, req).0.tokens, t) == Get(s.tokens, t)
  {
    if Login(s, req).1.Ok? {
      var id := s.users[req.email].id;
      LoginTokenIsMinted(s, req.email);
      forall t | Get(s.tokens, t).Some?
        ensures Get(Login(s, req).0.tokens, t) == Get(s.tokens, t)
      {
        var e := Get(s.tokens, t).value;
        assert (t, e) in s.tokens;
        if t == MintToken(id) {
          MintTokenInjective(s.users[e].id, id);
        }
        PutGet(s.tokens, MintToken(id), req.email, t);
      }
    }
  }

  /**
    In a valid state "User not found" never happens, and a token resolves
    only to the stored user whose id it was minted from.
   */
  lemma ResolveInValidState(s: AuthState, token: string)
    requires ValidAuth(s)
    ensures ResolveToken(s, token) != Err(UserNotFound)
    ensures ResolveToken(s, token).Ok? ==>
              var u := ResolveToken(s, token).value;
              token == MintToken(u.id) && u.email in s.users && s.users[u.email] == u
  {
    if Get(s.tokens, token).Some? {
      assert (token, Get(s.tokens, token).value) in s.tokens;
    }
  }

  /** In a valid state every stored token resolves the same way through a `Bearer` header as on its own. */
  lemma StoredTokenSurvivesHeader(s: AuthState, token: string)
    requires ValidAuth(s) && Get(s.tokens, token).Some?
    ensures CurrentUser(s, Some(Bearer + token)) == ResolveToken(s, token)
  {
    var e := Get(s.tokens, token).value;
    assert (token, e) in s.tokens;
    var id := s.users[e].id;
    if id == SeedUserId {
      assert 'B' !in id;
    } else {
      NumberedIdHasNoB(id);
    }
    MintedTokenHasNoBearer(id);
    BearerHeaderResolves(s, token);
  }
}
