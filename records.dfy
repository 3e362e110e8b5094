/** The record shapes the service stores, receives and answers with. */
module Records {
  import opened Results

  /** A row of the user table; the table is keyed by `email`. The password is stored verbatim. */
  datatype User = User(name: string, email: string, password: string, id: string)

  /** Body of `POST /api/auth/signup`. */
  datatype SignupRequest = SignupRequest(name: string, email: string, password: string)

  /** Body of `POST /api/auth/login`. */
  datatype LoginRequest = LoginRequest(email: string, password: string)

  /** Answer of signup and login. */
  datatype AuthResponse = AuthResponse(token: string, name: string, email: string, userId: string)

  /** Answer of `GET /api/me`. */
  datatype Profile = Profile(name: string, email: string, userId: string)

  /**
    Body of `POST /api/events`. An optional field the client leaves out takes
    the default of the record declaration; one sent as `null` is `None`. The
    budget is carried along as an uninterpreted number.
   */
  datatype EventCreate = EventCreate(
    name: string,
    date: string,
    budget: Option<real>,
    participants: seq<string>,
    eventType: Option<string>,
    allowWishlists: Option<bool>,
    collectAddresses: Option<bool>,
    customMessage: Option<string>)

  /** A stored event, as listed and as returned on creation. */
  datatype Event = Event(
    id: string,
    name: string,
    date: string,
    budget: Option<real>,
    participants: seq<string>,
    ownerId: string,
    status: string,
    eventType: Option<string>,
    allowWishlists: Option<bool>,
    collectAddresses: Option<bool>,
    customMessage: Option<string>)

  /** The body a client sends when it gives only the two required fields: every other field takes its declared default. */
  function EventCreateWithDefaults(name: string, date: string): EventCreate {
    EventCreate(name, date, None, [], Some("Secret Santa"), Some(true), Some(false), None)
  }
}
