/** The three authentication flows: register, login and me, together with the
    password comparison and token signing they share. Each flow is a pure
    transition from a store and a request to a settled result and the store it
    leaves behind. */
module Auth {
  import opened Results
  import opened Json
  import opened Validation
  import opened UserStore

  type Token = JsString

  /** The libraries the flows call, as opaque functions.
      - `hash(plaintext, rounds, random)`: bcrypt hashing; the salt comes from `random`.
      - `compare(plaintext, hash)`: bcrypt comparison of a possibly missing plaintext.
      - `sign(id, expiresIn, now)`: a JSON Web Token for `{ id }` under the
        configured secret, issued at clock time `now`.
      Each may reject, which the flows pass on unchanged. */
  datatype Collaborators = Collaborators(
    hash: (JValue, nat, nat) -> Result<JsString>,
    compare: (Option<JValue>, JsString) -> Result<bool>,
    sign: (Id, nat, nat) -> Result<Token>)

  /** bcrypt cost factor used at registration. */
  const BcryptRounds: nat := 8

  /** Token lifetime in seconds. */
  const TokenTtl: nat := 86400

  /** The one property assumed of bcrypt: a hash it produced matches its plaintext. */
  ghost predicate HashVerifies(x: Collaborators)
  {
    forall p, rounds, random :: x.hash(p, rounds, random).Ok? ==>
      x.compare(Some(p), x.hash(p, rounds, random).value) == Ok(true)
  }

  /** The body a successful register or login resolves with. */
  datatype Session = Session(auth: bool, userId: Id, token: Token)

  /** A settled result and the store after the flow. */
  datatype Step<T> = Step(result: Result<T>, store: Store)

  const DuplicateEmailError := "User with that email exists."
  const UnknownEmailError := "User with that email does not exits."
  const CredentialsError := "The credentials do not match."
  const NoUserError := "No user found."

  /** `signToken(id)`: a token for `id` that expires `TokenTtl` seconds (24 hours) after `now`. */
  function SignToken(x: Collaborators, id: Id, now: nat): Result<Token>
  {
    x.sign(id, TokenTtl, now)
  }

  /** `comparePassword`: a token for `id` when the plaintext matches the stored hash. */
  function ComparePassword(x: Collaborators, password: Option<JValue>, hash: JsString, id: Id, now: nat): (r: Result<Token>)
    ensures r.Ok? <==> x.compare(password, hash) == Ok(true) && x.sign(id, TokenTtl, now).Ok?
    ensures r.Ok? ==> r == x.sign(id, TokenTtl, now)
    ensures x.compare(password, hash) == Ok(false) ==> r == Err(CredentialsError)
    ensures x.compare(password, hash).Err? ==> r == Err(x.compare(password, hash).msg)
  {
    match x.compare(password, hash)
    case Err(m) => Err(m)
    case Ok(valid) => if !valid then Err(CredentialsError) else SignToken(x, id, now)
  }

  /** `register`: validate, refuse a taken email, hash, create, sign. The record
      is created before the token is signed, so a signing failure still leaves it. */
  function Register(x: Collaborators, s: Store, b: Body, random: nat, now: nat): (r: Step<Session>)
    // validation failures, in check order, leave the store alone
    ensures Validate(b).Fail? ==> r == Step(Err(Validate(b).msg), s)
    // a taken email is refused once the body is valid
    ensures WellFormed(s) && Validate(b).Pass? && EmailTaken(s, b.email.value) ==> r == Step(Err(DuplicateEmailError), s)
    // a hashing failure leaves the store alone
    ensures Validate(b).Pass? && x.hash(b.password.value, BcryptRounds, random).Err? ==> r.store == s && r.result.Err?
    // the store either stays as it was or gains exactly the new record under the next key
    ensures r.store == s || (
              && Validate(b).Pass?
              && x.hash(b.password.value, BcryptRounds, random).Ok?
              && r.store == Store(s.users[s.nextId := User(s.nextId, b.name.value.s, b.email.value,
                                                           x.hash(b.password.value, BcryptRounds, random).value)],
                                  s.nextId + 1))
    ensures WellFormed(s) ==> forall k :: k in s.users ==> k in r.store.users && r.store.users[k] == s.users[k]
    // success: a fresh user, whose session is signed for its new id
    ensures r.result.Ok? ==>
              && Validate(b).Pass?
              && (WellFormed(s) ==> !EmailTaken(s, b.email.value) && s.nextId !in s.users)
              && r.store.nextId == s.nextId + 1
              && r.result.value.auth
              && r.result.value.userId == s.nextId
              && x.sign(s.nextId, TokenTtl, now) == Ok(r.result.value.token)
    // a valid body with a free email whose hash succeeds always creates the record;
    // the result then succeeds exactly when signing does
    ensures WellFormed(s) && Validate(b).Pass? && !EmailTaken(s, b.email.value)
            && x.hash(b.password.value, BcryptRounds, random).Ok? ==>
              && r.store.users.Keys == s.users.Keys + {s.nextId}
              && (r.result.Ok? <==> x.sign(s.nextId, TokenTtl, now).Ok?)
    // bcrypt's and jwt's rejections are passed on unchanged
    ensures WellFormed(s) && Validate(b).Pass? && !EmailTaken(s, b.email.value)
            && x.hash(b.password.value, BcryptRounds, random).Err? ==>
              r.result == Err(x.hash(b.password.value, BcryptRounds, random).msg)
    ensures WellFormed(s) && Validate(b).Pass? && !EmailTaken(s, b.email.value)
            && x.hash(b.password.value, BcryptRounds, random).Ok? && x.sign(s.nextId, TokenTtl, now).Err? ==>
              r.result == Err(x.sign(s.nextId, TokenTtl, now).msg)
    // a signing failure after creation keeps the created record
    ensures r.result.Err? && r.store != s ==> x.sign(s.nextId, TokenTtl, now).Err? && s.nextId in r.store.users
    ensures WellFormed(s) ==> WellFormed(r.store)
    ensures WellFormed(s) && UniqueEmails(s) ==> UniqueEmails(r.store)
  {
    match Validate(b)
    case Fail(m) => Step(Err(m), s)
    case Pass =>
      if FindByEmail(s, b.email).Some? then Step(Err(DuplicateEmailError), s)
      else
        match x.hash(b.password.value, BcryptRounds, random)
        case Err(m) => Step(Err(m), s)
        case Ok(h) =>
          var c := Create(s, b.name.value.s, b.email.value, h);
          match SignToken(x, c.user.id, now)
          case Err(m) => Step(Err(m), c.store)
          case Ok(t) => Step(Ok(Session(true, c.user.id, t)), c.store)
  }

  /** `login`: find the user by email, compare the password, sign a token for that user. */
  function Login(x: Collaborators, s: Store, b: Body, now: nat): (r: Step<Session>)
    ensures r.store == s
    ensures WellFormed(s) && !(b.email.Some? && EmailTaken(s, b.email.value)) ==> r.result == Err(UnknownEmailError)
    // with unique emails, the user holding the email decides the outcome through its hash
    ensures WellFormed(s) && UniqueEmails(s) ==>
              forall k :: k in s.users && b.email == Some(s.users[k].email) ==>
                var c := x.compare(b.password, s.users[k].passwordHash);
                && (c == Ok(false) ==> r.result == Err(CredentialsError))
                && (c.Err? ==> r.result == Err(c.msg))
                && (c == Ok(true) && x.sign(k, TokenTtl, now).Err? ==> r.result == Err(x.sign(k, TokenTtl, now).msg))
                && (c == Ok(true) && x.sign(k, TokenTtl, now).Ok? ==>
                      r.result == Ok(Session(true, k, x.sign(k, TokenTtl, now).value)))
    // success names a stored user with that email whose hash matched, and signs for it
    ensures r.result.Ok? ==>
              && b.email.Some?
              && r.result.value.auth
              && (WellFormed(s) ==> r.result.value.userId in s.users
                                    && s.users[r.result.value.userId].email == b.email.value
                                    && x.compare(b.password, s.users[r.result.value.userId].passwordHash) == Ok(true))
              && x.sign(r.result.value.userId, TokenTtl, now) == Ok(r.result.value.token)
  {
    match FindByEmail(s, b.email)
    case None => Step(Err(UnknownEmailError), s)
    case Some(u) =>
      match ComparePassword(x, b.password, u.passwordHash, u.id, now)
      case Err(m) => Step(Err(m), s)
      case Ok(t) => Step(Ok(Session(true, u.id, t)), s)
  }

  /** `me`: the stored record for an id, password hash included. */
  function Me(s: Store, id: Id): (r: Step<User>)
    ensures r.store == s
    ensures r.result.Ok? <==> id in s.users
    ensures r.result.Ok? ==> r.result.value == s.users[id] && (WellFormed(s) ==> r.result.value.id == id)
    ensures r.result.Err? ==> r.result.msg == NoUserError
  {
    match FindById(s, id)
    case None => Step(Err(NoUserError), s)
    case Some(u) => Step(Ok(u), s)
  }
}
