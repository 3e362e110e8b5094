/**
  The in-memory store of the service: the user table, the token table and
  the event list, seeded with one demo user and one event, and the three
  handlers that change them in place.
 */
module MockStore {
  import opened Results
  import opened Decimal
  import opened OrderedDict
  import opened TextReplace
  import opened Records
  import opened Auth
  import opened Events

  const SeedEmail: string := "demo@giftflow.app"

  function SeedUsers(): map<string, User> {
    map[SeedEmail := User("Demo User", SeedEmail, "demo123", SeedUserId)]
  }

  function SeedEvents(): seq<Event> {
    [Event("evt_1", "Holiday Gift Swap", "2025-12-15", Some(40.0), ["Alice", "Bob", "Charlie"],
           SeedUserId, DraftStatus, Some(DefaultEventType), Some(true), Some(false),
           Some("Welcome to our annual swap!"))]
  }

  function SeedAuth(): AuthState {
    AuthState(SeedUsers(), [])
  }

  /** The seed satisfies the store invariant. */
  lemma SeedIsValid()
    ensures ValidAuth(SeedAuth()) && PositionalIds(SeedEvents())
  {
    assert NatToString(1) == "1";
  }

  class Store {
    var users: map<string, User>
    var tokens: TokenTable
    var events: seq<Event>

    function AuthView(): AuthState
      reads this
    {
      AuthState(users, tokens)
    }

    ghost predicate Valid()
      reads this
    {
      ValidAuth(AuthView()) && PositionalIds(events)
    }

    /** The tables as the service starts: one user, no token, one event. */
    constructor ()
      ensures Valid()
      ensures AuthView() == SeedAuth() && events == SeedEvents()
    {
      users := SeedUsers();
      tokens := [];
      events := SeedEvents();
      SeedIsValid();
    }

    /** `signup`, in place. */
    method Signup(req: SignupRequest) returns (r: Result<AuthResponse>)
      requires Valid()
      modifies this
      ensures Valid()
      ensures (AuthView(), r) == Auth.Signup(old(AuthView()), req)
      ensures events == old(events)
    {
      if req.email in users {
        return Err(EmailInUse);
      }
      var id := UserId(|users| + 1);
      users := users[req.email := User(req.name, req.email, req.password, id)];
      var token := MintToken(id);
      tokens := Put(tokens, token, req.email);
      r := Ok(AuthResponse(token, req.name, req.email, id));
      SignupPreservesValid(old(AuthView()), req);
    }

    /** `login`, in place: the token table is scanned front to back and the scan stops at the first token of the email. */
    method Login(req: LoginRequest) returns (r: Result<AuthResponse>)
      requires Valid()
      modifies this
      ensures Valid()
      ensures (AuthView(), r) == Auth.Login(old(AuthView()), req)
      ensures events == old(events)
    {
      if req.email !in users || users[req.email].password != req.password {
        return Err(BadCredentials);
      }
      var user := users[req.email];
      var existing: Option<string> := None;
      var i := 0;
      while i < |tokens|
        invariant i <= |tokens|
        invariant existing == None
        invariant FirstKeyFor(tokens[i..], req.email) == FirstKeyFor(tokens, req.email)
      {
        if tokens[i].1 == req.email {
          existing := Some(tokens[i].0);
          assert tokens[i..][0] == tokens[i];
          break;
        }
        assert tokens[i..][1..] == tokens[i + 1..];
        i := i + 1;
      }
      assert existing == FirstKeyFor(tokens, req.email);
      var token := if existing.Some? && existing.value != "" then existing.value else MintToken(user.id);
      tokens := Put(tokens, token, req.email);
      r := Ok(AuthResponse(token, user.name, user.email, user.id));
      LoginPreservesValid(old(AuthView()), req);
    }

    /** `create_event`, in place: the new event goes on the end of the list. */
    method CreateEvent(payload: EventCreate, user: User) returns (e: Event)
      requires Valid()
      modifies this
      ensures Valid()
      ensures e == NewEvent(old(events), payload, user) && events == old(events) + [e]
      ensures AuthView() == old(AuthView())
    {
      e := NewEvent(events, payload, user);
      events := events + [e];
      CreateEventKeepsIds(old(events), payload, user);
    }
  }

  /**
    `list_events` and `create_event` behind `current_user`: in a valid state a
    stored token, sent as a bearer header, identifies a caller exactly when
    its email is not empty. That caller is the user the token was minted
    for. Its listing holds exactly the stored events it owns and none owned
    by another user, and the event it creates joins its listing at the end.
   */
  lemma HeaderListsOwnEvents(s: AuthState, events: seq<Event>, token: string, payload: EventCreate)
    requires ValidAuth(s) && Get(s.tokens, token).Some?
    ensures CurrentUser(s, Some(Bearer + token)).Ok? <==> Get(s.tokens, token).value != ""
    ensures CurrentUser(s, Some(Bearer + token)).Ok? ==>
              var u := CurrentUser(s, Some(Bearer + token)).value;
              && token == MintToken(u.id)
              && (forall e :: e in ListEvents(events, u) <==> e in events && e.ownerId == u.id)
              && (forall other :: other in s.users && other != u.email ==>
                    forall e :: e in ListEvents(events, u) ==> e.ownerId != s.users[other].id)
              && ListEvents(events + [NewEvent(events, payload, u)], u)
                 == ListEvents(events, u) + [NewEvent(events, payload, u)]
  {
    StoredTokenSurvivesHeader(s, token);
    ResolveInValidState(s, token);
    if CurrentUser(s, Some(Bearer + token)).Ok? {
      var u := CurrentUser(s, Some(Bearer + token)).value;
      forall e | e in events && e.ownerId == u.id
        ensures e in ListEvents(events, u)
      {
        ListEventsComplete(events, u, e);
      }
      CreateEventListing(events, payload, u, u);
    }
  }

  const NewUser: User := User("A", "a@x.com", "p", "u_2")

  /** The auth tables after `a@x.com` has signed up on the seed. */
  function AfterFirstSignup(): AuthState {
    AuthState(SeedUsers()["a@x.com" := NewUser], [("mocktoken_u_2", "a@x.com")])
  }

  /** From the seed, signing up `a@x.com` gives id `u_2` and token `mocktoken_u_2`. */
  lemma FirstSignupFromSeed()
    ensures Auth.Signup(SeedAuth(), SignupRequest("A", "a@x.com", "p"))
         == (AfterFirstSignup(), Ok(AuthResponse("mocktoken_u_2", "A", "a@x.com", "u_2")))
    ensures ValidAuth(AfterFirstSignup())
  {
    var req := SignupRequest("A", "a@x.com", "p");
    assert NatToString(2) == "2";
    assert UserId(2) == "u_2";
    assert MintToken("u_2") == "mocktoken_u_2";
    assert |SeedAuth().users| == 1;
    SeedIsValid();
    SignupKeepsTokenBindings(SeedAuth(), req);
    SignupPreservesValid(SeedAuth(), req);
  }

  /** After that signup, logging in as `a@x.com` gives the same answer and changes nothing. */
  lemma FirstLoginRepeatsSignup()
    ensures Auth.Login(AfterFirstSignup(), LoginRequest("a@x.com", "p"))
         == (AfterFirstSignup(), Ok(AuthResponse("mocktoken_u_2", "A", "a@x.com", "u_2")))
  {
    var s1 := AfterFirstSignup();
    var lreq := LoginRequest("a@x.com", "p");
    assert s1.users["a@x.com"] == NewUser;
    LoginReturnsFirstToken(s1, lreq, 0);
    assert Put(s1.tokens, "mocktoken_u_2", "a@x.com") == s1.tokens;
  }

  /** The signup token, sent as a bearer header, identifies the new user. */
  lemma FirstTokenIdentifiesNewUser()
    ensures CurrentUser(AfterFirstSignup(), Some(Bearer + "mocktoken_u_2")) == Ok(NewUser)
  {
    var s1 := AfterFirstSignup();
    var token := "mocktoken_u_2";
    assert token == MintToken("u_2");
    NumberedIdHasNoB(UserId(2));
    assert UserId(2) == "u_2" by { assert NatToString(2) == "2"; }
    MintedTokenHasNoBearer("u_2");
    BearerHeaderResolves(s1, token);
    assert Get(s1.tokens, token) == Some("a@x.com");
    assert ResolveToken(s1, token) == Ok(NewUser);
  }

  /** The new user owns no event yet; the one it creates with only a name and a date is `evt_2`, owned by `u_2`, a draft. */
  lemma NewUserFirstEvent()
    ensures ListEvents(SeedEvents(), NewUser) == []
    ensures var e := NewEvent(SeedEvents(), EventCreateWithDefaults("Trip", "2025-01-01"), NewUser);
            e.id == "evt_2" && e.ownerId == "u_2" && e.status == "draft"
  {
    assert NatToString(2) == "2";
    assert ListEvents(SeedEvents()[1..], NewUser) == [];
  }
}
