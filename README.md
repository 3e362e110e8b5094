# GiftFlow mock API: a Dafny model of its in-memory store

GiftFlow's backend is a mock service for a gift-exchange planner. Under its
HTTP routes sits a small in-memory store:

- a user table keyed by email, holding name, email, plaintext password and id;
- a token table mapping `mocktoken_<id>` tokens to emails, in insertion order;
- an event list.

Signup, login, header-to-user resolution, `me`, event listing and event
creation read and change these tables. This project models that store and
proves what the handlers promise about it.

Modules, one per concern:

- `Results`: `Option`, the `HttpError` (status and detail) and a handler
  `Result`.
- `Decimal`: Python's `f"{n}"` for the ids `u_<n>` and `evt_<n>`. It comes
  with the parse that reads the number back.
- `OrderedDict`: a Python `dict` as a sequence of key/value pairs. `Get` is
  `d.get(k)`. `Put` is `d[k] = v`: an existing key keeps its place and a new
  key goes on the end. `FirstKeyFor` is the first entry of `d.items()` that
  holds a given value.
- `TextReplace`: Python's `str.replace`, and `StripBearer`, which is
  `authorization.replace("Bearer ", "")`.
- `Records`: the request, response, user and event shapes.
- `Auth`: `get_user_from_token` (`ResolveToken`), `current_user`
  (`CurrentUser`), `me` (`Me`), and signup and login. Signup and login are
  pure transition functions: the tables before the request go to the tables
  after it plus the answer. A failing request returns the tables unchanged.
  The module also holds the auth-table invariant `ValidAuth`:
  - each user is stored under its own email;
  - each id is the seeded `u_demo_1` or some `u_<n>` with n no larger than
    the user count;
  - ids are distinct, and so are token keys;
  - each token is `mocktoken_` followed by the id of the user its email
    belongs to.
- `Events`: `list_events` (`ListEvents`), the record `create_event` builds
  (`NewEvent`), and the invariant that the event at position i has id
  `evt_<i+1>`.
- `MockStore`: the seed tables and the class `Store`. It holds the three
  tables as fields. Its methods `Signup`, `Login` and `CreateEvent` change
  them in place. `Login` scans the token table with a loop that stops at the
  first token of the email, as the source does. Each method is proved equal
  to the matching transition function and keeps the store invariant `Valid()`.
  The constructor sets up the seed and establishes `Valid()`. Each method
  requires `Valid()` as its object invariant, so every state the store can
  reach satisfies it.

Behaviours of the code that the model keeps as written:

- `current_user` deletes every `"Bearer "` in the header in one left-to-right
  pass, not only a leading one (`StripBearerInside`, `ReplaceAtLeftmost`).
  A bare token without the prefix is accepted too (`BearerHeaderResolves`).
- `get_user_from_token` tests `if not email`, so a token mapped to the empty
  email is reported as an invalid token.
- `login` uses `existing_token or ...`, so an empty first-match token is
  replaced by a freshly minted `mocktoken_<id>`.
- `payload.participants or []` never changes the list: the request type does
  not allow `null` there.

## Model

| member | source | states |
|---|---|---|
| `Decimal.NatToString` | main.py:141 | rendering a count gives one or more digits with no leading zero |
| `Decimal.ParseNatToString` | main.py:141 | reading back a rendered count gives the count |
| `Decimal.NatToStringInjective` | main.py:141 | different counts render differently, so `u_<n>` and `evt_<n>` ids from different counts differ |
| `OrderedDict.Get` | main.py:96 | `d.get(k)` is some value only when that entry is in the table, and `None` exactly when no entry has the key |
| `OrderedDict.Put` | main.py:149 | `d[k] = v` appends a new key at the end, keeps an existing key in its place, adds no entry but `(k, v)`, and keeps keys distinct |
| `OrderedDict.PutGet` | main.py:164 | after `d[k] = v`, `k` maps to `v` and every other key maps to what it did before |
| `OrderedDict.PutTwice` | main.py:164 | assigning the same entry twice equals assigning it once |
| `OrderedDict.FirstKeyFor` | main.py:158-162 | the scan returns a key whose entry holds the value, and finds nothing exactly when no entry holds it |
| `OrderedDict.FirstKeyForIsFirst` | main.py:159-162 | an entry holding the value with no earlier entry holding it is the one the scan returns |
| `OrderedDict.FirstKeyAfterPut` | main.py:158-164 | after `d[k] = v`, the first key holding `v` is `k` or the first key that already held `v` |
| `TextReplace.ReplaceAll` | main.py:107 | `str.replace` returns a string in which the pattern does not occur unchanged; `ReplaceAtLeftmost` covers every other string |
| `TextReplace.ReplaceLeading` | main.py:107 | an occurrence at the front is replaced and the scan resumes after it |
| `TextReplace.ReplaceFirstOccurrence` | main.py:107 | when no occurrence starts inside `a`, `(a + pat + b).replace(pat, rep)` is `a + rep + b.replace(pat, rep)` |
| `TextReplace.LeftmostOccurrence` | main.py:107 | a string containing the pattern has a leftmost position where it starts |
| `TextReplace.ReplaceAtLeftmost` | main.py:107 | a string containing the pattern keeps the part before its leftmost occurrence, has that occurrence replaced, and the rest replaced in turn, so every occurrence is replaced left to right without overlap |
| `TextReplace.NotOccursAt` | main.py:107 | a pattern that does not occur in a string starts at no position of it |
| `TextReplace.ReplaceAfterPlainPrefix` | main.py:107 | a prefix without the pattern's first character is copied, and what follows is replaced as on its own |
| `TextReplace.StripBearer` | main.py:107 | a header without `"Bearer "` in it is taken as the token unchanged |
| `TextReplace.BearerRoundTrip` | main.py:107 | stripping `"Bearer " + token` gives back the token, when the token has no `"Bearer "` inside |
| `TextReplace.StripBearerInside` | main.py:107 | the first `"Bearer "` of a header is deleted wherever it stands, not only at the start, and stripping goes on after it |
| `TextReplace.StripBearerSinglePass` | main.py:107 | stripping is one pass: `"BeBearer arer "` becomes `"Bearer "`, not the empty token |
| `Auth.UserId` | main.py:141 | the id `u_<n>` has the numbered shape, and n can be read back from it |
| `Auth.MintToken` | main.py:148 | a minted token is `mocktoken_` followed by the id, which can be read back from it |
| `Auth.MintTokenInjective` | main.py:148 | tokens minted from different ids differ |
| `Auth.MintedTokenHasNoBearer` | main.py:148 | a token minted from an id without `'B'` has no `"Bearer "` in it |
| `Auth.ResolveToken` | main.py:95-102 | a missing token, or one mapped to the empty email, fails with 401 "Invalid token"; a token whose email has no user fails with 401 "User not found"; otherwise the user stored under the mapped email is returned |
| `Auth.CurrentUser` | main.py:104-108 | fails with 401 "Missing Authorization header" exactly when the header is absent or empty |
| `Auth.BearerHeaderResolves` | main.py:104-108 | `Bearer <token>`, or a non-empty bare token, resolves as that token when the token has no `"Bearer "` inside |
| `Auth.LoginToken` | main.py:158-163 | the first token mapped to the email is handed out when it is not empty, and it is then a stored token; when it is empty or none maps, `mocktoken_<id>` is; the result is never empty |
| `Auth.Signup` | main.py:137-150 | fails exactly when the email is already a key; it then fails with 400 "Email already in use" and leaves both tables unchanged |
| `Auth.Login` | main.py:152-165 | fails exactly when the email is unknown or the stored password differs; it then fails with 401 "Invalid email or password" and leaves the tables unchanged; a successful login answers with the stored user's name, email and id; login never changes the user table |
| `Auth.SignupSucceeds` | main.py:141-150 | a successful signup adds one user under the email with id `u_<count+1>` and the password verbatim, maps `mocktoken_<id>` to the email, keeps every other token, and returns that token, name, email and id |
| `Auth.SignupIdsDiffer` | main.py:141 | two signups in a row return different ids |
| `Auth.SignupTokenResolves` | main.py:148-150 | the signup token resolves, alone or in a bearer header, to exactly the new user, whose `me` profile is the signup answer |
| `Auth.LoginReturnsFirstToken` | main.py:158-164 | login returns the first token mapped to the email in insertion order when it is not empty, and `mocktoken_<id>` when it is empty or none maps; afterwards the returned token maps to the email |
| `Auth.LoginTokenResolves` | main.py:158-165 | the token a successful login returns resolves to the user who logged in, whose `me` profile is the login answer |
| `Auth.LoginTwice` | main.py:158-165 | a second login with the same credentials gives the same answer and the same tables as the first |
| `Auth.NextIdIsFresh` | main.py:141 | in a valid state no stored user already has the id signup is about to mint |
| `Auth.SignupPreservesValid` | main.py:139-149 | signup keeps the auth-table invariant, so user ids stay distinct |
| `Auth.SignupKeepsTokenBindings` | main.py:148-149 | in a valid state signup appends its token at the end and no existing token changes its email |
| `Auth.LoginTokenIsMinted` | main.py:158-163 | in a valid state the token login returns is `mocktoken_<id>` of the user logging in |
| `Auth.LoginPreservesValid` | main.py:158-164 | login keeps the auth-table invariant, and no existing token changes its email |
| `Auth.ResolveInValidState` | main.py:95-102 | in a valid state "User not found" never occurs, and a token resolves only to the stored user whose id it was minted from |
| `Auth.StoredTokenSurvivesHeader` | main.py:104-108 | in a valid state every stored token sent as `Bearer <token>` resolves the same as the token itself |
| `Events.EventId` | main.py:181 | an event id is `evt_` followed by digits from which the position can be read back |
| `Events.EventIdInjective` | main.py:181 | two positions give the same `evt_<n>` id exactly when they are equal |
| `Events.ListEvents` | main.py:174-177 | every listed event is a stored event owned by the caller |
| `Events.ListEventsComplete` | main.py:176 | every stored event owned by the caller is listed |
| `Events.ListEventsInStoreOrder` | main.py:176 | the listing is a subsequence of the store, so it keeps store order |
| `Events.ListEventsAppend` | main.py:176 | appending an event extends its owner's listing by that event at the end and no other listing |
| `Events.NewEvent` | main.py:180-194 | the new event has id `evt_<len+1>`, the caller as owner and status `draft`. Event type defaults to `Secret Santa` when absent or empty. Wishlists default to true and addresses to false when `None`. Other fields come from the request |
| `Events.DefaultsApplied` | main.py:68-76 | a request with only name and date yields no participants, `Secret Santa`, wishlists on, addresses off, no budget and no message |
| `Events.CreateEventKeepsIds` | main.py:181 | appending the new event keeps every event's id equal to `evt_<position+1>` |
| `Events.CreateEventListing` | main.py:195 | a created event appears at the end of its owner's listing and in nobody else's |
| `Events.PositionalIdsUnique` | main.py:181 | with positional ids no two events share an id |
| `MockStore.SeedIsValid` | main.py:21-48 | the seed tables satisfy the store invariant |
| `MockStore.Store.constructor` | main.py:21-48 | the store starts with the demo user, no token and the `evt_1` event, and is valid |
| `MockStore.Store.Signup` | main.py:137-150 | the in-place signup leaves tables and answer as `Auth.Signup` says, keeps `Valid()` and leaves events alone |
| `MockStore.Store.Login` | main.py:152-165 | the in-place login scans the token table to its first match. It leaves tables and answer as `Auth.Login` says, keeps `Valid()` and leaves events alone |
| `MockStore.Store.CreateEvent` | main.py:179-196 | appends exactly `NewEvent` at the end, leaves earlier events and the auth tables as they were, and keeps `Valid()` |
| `MockStore.HeaderListsOwnEvents` | main.py:173-195 | in a valid state a stored token sent as `Bearer <token>` identifies a caller exactly when its email is not empty; that caller is the user the token was minted for, sees exactly its own stored events and none of another user's, and finds the event it creates at the end of its listing |
| `MockStore.FirstSignupFromSeed` | main.py:137-150 | from the seed, signing up `a@x.com` yields id `u_2` and token `mocktoken_u_2` |
| `MockStore.FirstLoginRepeatsSignup` | main.py:152-165 | logging in right after that signup returns the same token and changes nothing |
| `MockStore.FirstTokenIdentifiesNewUser` | main.py:104-108 | `Bearer mocktoken_u_2` then identifies the new user |
| `MockStore.NewUserFirstEvent` | main.py:174-195 | the new user has no events. The first event it creates with only name and date is `evt_2`, owned by `u_2`, status `draft` |

## Left out

- FastAPI app construction, CORS middleware, `Depends`/`Header` injection,
  `HTTPException` and the uvicorn startup (main.py:7-15, 198-201): framework
  plumbing. Errors are `Result` values carrying status and detail.
- The injection of `current_user` before `me`, `list_events` and
  `create_event` is not a member of its own. Those handlers take the resolved
  user, as their Python signatures do. `SignupTokenResolves` composes `Me`
  with `CurrentUser`, and `HeaderListsOwnEvents` composes `ListEvents` and
  `NewEvent` with it.
- The static routes `/`, `/api/hello` and `/test` (main.py:113-132): constant
  responses.
- Pydantic validation, that is `EmailStr` format checks, body parsing,
  `model_dump` and `Event(**e)` on listing. Emails are plain strings and
  records are datatypes. Because `EmailStr` rejects the empty email, the
  lemmas that resolve a signup token assume a non-empty email.
- The `budget` value is carried as an optional number and never computed
  with. The seed's integer 40 is written as 40.0.
- `async` and concurrency: the model is sequential, one request at a time.
- `Auth.Me` has no contract of its own. It only copies three fields, and
  `Auth.SignupTokenResolves` states what it returns for a signed-up user.
