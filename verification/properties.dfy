/** Properties that relate several calls of the flows: the register-then-login
    round trip, refusing a second registration, and the store invariants kept
    by any sequence of requests. */
module AuthProperties {
  import opened Results
  import opened Json
  import opened Validation
  import opened UserStore
  import opened Auth

  /** The invariant of the user table: well-formed keys and unique emails. */
  ghost predicate Valid(s: Store)
  {
    WellFormed(s) && UniqueEmails(s)
  }

  /** One request served against the store. */
  datatype Request =
    | RegisterRequest(body: Body, random: nat, now: nat)
    | LoginRequest(body: Body, now: nat)
    | MeRequest(id: Id)

  /** The store after serving one request. */
  function Serve(x: Collaborators, s: Store, q: Request): Store
  {
    match q
    case RegisterRequest(b, random, now) => Register(x, s, b, random, now).store
    case LoginRequest(b, now) => Login(x, s, b, now).store
    case MeRequest(id) => Me(s, id).store
  }

  /** The store after serving the requests one after another. */
  function Run(x: Collaborators, s: Store, qs: seq<Request>): Store
    decreases |qs|
  {
    if |qs| == 0 then s else Run(x, Serve(x, s, qs[0]), qs[1..])
  }

  lemma EmptyIsValid()
    ensures Valid(Empty)
  {
  }

  /** Any sequence of requests keeps the table valid, so emails stay unique. */
  lemma {:induction false} RunKeepsValid(x: Collaborators, s: Store, qs: seq<Request>)
    requires Valid(s)
    ensures Valid(Run(x, s, qs))
    decreases |qs|
  {
    if |qs| > 0 {
      var s' := Serve(x, s, qs[0]);
      assert Valid(s');
      RunKeepsValid(x, s', qs[1..]);
    }
  }

  /** Records are never changed or deleted: every record present before a
      sequence of requests is present, unchanged, after it. */
  lemma {:induction false} RunKeepsRecords(x: Collaborators, s: Store, qs: seq<Request>)
    requires WellFormed(s)
    ensures WellFormed(Run(x, s, qs))
    ensures forall k :: k in s.users ==> k in Run(x, s, qs).users && Run(x, s, qs).users[k] == s.users[k]
    decreases |qs|
  {
    if |qs| > 0 {
      var s' := Serve(x, s, qs[0]);
      assert WellFormed(s') && forall k :: k in s.users ==> k in s'.users && s'.users[k] == s.users[k];
      RunKeepsRecords(x, s', qs[1..]);
    }
  }

  /** Logging in with the email and password just registered finds the new user:
      it succeeds whenever a token can be signed, with the registered id. */
  lemma RegisterThenLogin(x: Collaborators, s: Store, b: Body, random: nat, now: nat, later: nat)
    requires WellFormed(s) && HashVerifies(x)
    requires Register(x, s, b, random, now).result.Ok?
    ensures var r := Register(x, s, b, random, now);
            var l := Login(x, r.store, b, later);
            && (l.result.Ok? <==> x.sign(r.result.value.userId, TokenTtl, later).Ok?)
            && (l.result.Ok? ==> l.result.value.auth && l.result.value.userId == r.result.value.userId)
  {
    var r := Register(x, s, b, random, now);
    var id := s.nextId;
    var e := b.email.value;
    var p := b.password.value;
    var h := x.hash(p, BcryptRounds, random).value;
    assert r.store.users[id] == User(id, b.name.value.s, e, h);
    // the new record is the only one holding the email
    assert EmailTaken(r.store, e);
    var found := FindByEmail(r.store, b.email);
    assert found.value.id == id;
    assert x.compare(Some(p), h) == Ok(true);
  }

  /** After a successful registration, `me` with the new id returns the record
      just created: the registered name and email, and the hash of the password. */
  lemma RegisterThenMe(x: Collaborators, s: Store, b: Body, random: nat, now: nat)
    requires Register(x, s, b, random, now).result.Ok?
    ensures var r := Register(x, s, b, random, now);
            var m := Me(r.store, r.result.value.userId);
            && m.result.Ok?
            && m.result.value == User(r.result.value.userId, b.name.value.s, b.email.value,
                                      x.hash(b.password.value, BcryptRounds, random).value)
  {
  }

  /** A second registration with the same email, however valid, is refused and
      leaves the store as the first one left it. */
  lemma RegisterTwiceRefused(x: Collaborators, s: Store, b: Body, b2: Body, random: nat, now: nat, random2: nat, now2: nat)
    requires WellFormed(s)
    requires Register(x, s, b, random, now).result.Ok?
    requires Validate(b2).Pass? && b2.email == b.email
    ensures var r := Register(x, s, b, random, now);
            Register(x, r.store, b2, random2, now2) == Step(Err(DuplicateEmailError), r.store)
  {
    var r := Register(x, s, b, random, now);
    assert r.store.users[s.nextId].email == b.email.value;
  }

  /** Validation runs before the email lookup: a taken email with a short
      password is reported as a password error, not as a duplicate. */
  lemma ValidationPrecedesDuplicateCheck(x: Collaborators, s: Store, b: Body, random: nat, now: nat)
    requires WellFormed(s) && b.email.Some? && EmailTaken(s, b.email.value)
    requires !PasswordOk(b)
    ensures Register(x, s, b, random, now) == Step(Err(PasswordError), s)
  {
  }

  /** Login answers an unknown email and a wrong password with different
      messages, so a caller learns whether the email is registered. */
  lemma LoginDistinguishesUnknownEmail(x: Collaborators, s: Store, unknown: Body, known: Body, now: nat)
    requires Valid(s)
    requires !(unknown.email.Some? && EmailTaken(s, unknown.email.value))
    requires known.email.Some? && FindByEmail(s, known.email).Some?
    requires x.compare(known.password, FindByEmail(s, known.email).value.passwordHash) == Ok(false)
    ensures Login(x, s, unknown, now).result == Err(UnknownEmailError)
    ensures Login(x, s, known, now).result == Err(CredentialsError)
  {
  }
}
