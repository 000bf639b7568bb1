/** The user table as the flows see it through the ORM: records keyed by an
    auto-incremented primary key, searched by email (`findOne`), by key
    (`findByPk`), and extended by `create`. */
module UserStore {
  import opened Results
  import opened Json

  type Id = nat

  /** A user row. The email is whatever truthy value registration let through. */
  datatype User = User(id: Id, name: JsString, email: JValue, passwordHash: JsString)

  /** The table and the next value of its auto-increment counter. */
  datatype Store = Store(users: map<Id, User>, nextId: Id)

  /** Auto-increment keys start at 1. */
  const FirstId: Id := 1

  const Empty := Store(map[], FirstId)

  /** Every key lies below the counter and is the id of the record stored under it. */
  ghost predicate WellFormed(s: Store)
  {
    forall k :: k in s.users ==> k < s.nextId && s.users[k].id == k
  }

  ghost predicate EmailTaken(s: Store, e: JValue)
  {
    exists k :: k in s.users && s.users[k].email == e
  }

  /** No two records share an email. */
  ghost predicate UniqueEmails(s: Store)
  {
    forall j, k :: j in s.users && k in s.users && s.users[j].email == s.users[k].email ==> j == k
  }

  /** Scans keys `i .. bound-1` upwards for the first record with email `e`. */
  function FindFrom(users: map<Id, User>, e: JValue, i: nat, bound: nat): (r: Option<Id>)
    decreases bound - i
    ensures r.Some? ==> i <= r.value < bound && r.value in users && users[r.value].email == e
    ensures r.Some? ==> forall k :: i <= k < r.value && k in users ==> users[k].email != e
    ensures r.None? ==> forall k :: i <= k < bound && k in users ==> users[k].email != e
  {
    if i >= bound then None
    else if i in users && users[i].email == e then Some(i)
    else FindFrom(users, e, i + 1, bound)
  }

  /** `User.findOne({ where: { email } })`: the record with that email and the
      lowest key; a missing email matches nothing. */
  function FindByEmail(s: Store, e: Option<JValue>): (r: Option<User>)
    ensures r.Some? ==> e.Some? && r.value in s.users.Values && r.value.email == e.value
    ensures WellFormed(s) ==> (r.Some? <==> e.Some? && EmailTaken(s, e.value))
    ensures WellFormed(s) && r.Some? ==> r.value.id in s.users && s.users[r.value.id] == r.value
    ensures WellFormed(s) && r.Some? ==> forall k :: k in s.users && k < r.value.id ==> s.users[k].email != e.value
  {
    if e.None? then None
    else
      match FindFrom(s.users, e.value, 0, s.nextId)
      case None => None
      case Some(k) => Some(s.users[k])
  }

  /** `User.findByPk(id)`. */
  function FindById(s: Store, id: Id): (r: Option<User>)
    ensures r.Some? <==> id in s.users
    ensures r.Some? ==> r.value == s.users[id] && (WellFormed(s) ==> r.value.id == id)
  {
    if id in s.users then Some(s.users[id]) else None
  }

  /** The store after `create` and the record it made. */
  datatype Created = Created(store: Store, user: User)

  /** `User.create({ name, email, password })`: a new record under the next
      auto-increment key. */
  function Create(s: Store, name: JsString, email: JValue, hash: JsString): (r: Created)
    ensures r.user.name == name && r.user.email == email && r.user.passwordHash == hash
    ensures r.store.users == s.users[r.user.id := r.user]
    ensures r.store.users.Keys == s.users.Keys + {r.user.id}
    ensures WellFormed(s) ==> r.user.id !in s.users && WellFormed(r.store)
    ensures WellFormed(s) ==> |r.store.users| == |s.users| + 1
    ensures WellFormed(s) ==> forall k :: k in s.users ==> r.store.users[k] == s.users[k]
  {
    var id := s.nextId;
    var u := User(id, name, email, hash);
    Created(Store(s.users[id := u], id + 1), u)
  }
}
