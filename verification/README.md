# Authentication core of a serverless user service

This project models the authentication core of a small serverless service in Dafny:
- the registration input validator (`checkIfInputIsValid`);
- the `register`, `login` and `me` flows, with their helpers `comparePassword` and `signToken`.

The flows run against an abstract user table. The table is a map from auto-incremented ids to records `{id, name, email, passwordHash}`. It is searched by email (`findOne`) and by key (`findByPk`), and it grows through `create`.

Each flow is a pure transition: it takes a store and a request and returns a settled result (`Ok` value or `Err` message) together with the store it leaves behind.

The libraries the flows call are opaque functions held in a `Collaborators` value:
- bcrypt hashing and comparison;
- JSON Web Token signing.

The model assumes one thing about them, `HashVerifies`: bcrypt's comparison accepts the plaintext a hash was made from.

Request fields are parsed JSON values (`JValue`). Missing fields are modelled, so "truthy", `typeof … === 'string'` and `.length` (counted in UTF-16 code units) mean what they mean in JavaScript.

The code has two quirks, and the model keeps both:
- The email check's type test reads `name`, not `email`. So once the name check has passed, any truthy email is accepted, even one that is not a string.
- The password message says "longer than 8 characters", but the check accepts length 7.

Behaviours of the code a reader might not expect, all kept by the model:
- `me` returns the whole stored record, password hash included.
- A duplicate email is only detected after validation has passed. An invalid body with a taken email gets a validation message (`ValidationPrecedesDuplicateCheck`).
- `login` answers an unknown email and a wrong password with different messages (`LoginDistinguishesUnknownEmail`).
- `register` creates the record before it signs the token. A signing failure therefore leaves the new user in the table.
- Email format is not validated.

Files:
- `results.dfy`: `Option`, `Result`, `Outcome`.
- `json.dfy`: JSON values and the JavaScript semantics the validator uses.
- `validation.dfy`: the validator.
- `store.dfy`: the user table.
- `auth.dfy`: the flows.
- `properties.dfy`: properties that relate several calls.

## Model

| member | source | states |
|---|---|---|
| Validation.Validate | auth/AuthHandler.js:82-102 | The checks run in order: password, then name, then email. The first failing check decides the message. A missing password fails, and a string password fails exactly when it is shorter than 7. A passing password followed by a non-string name gives the name error, whatever the name's length. A string name fails exactly when its length is at most 5. After those two checks pass, the body passes exactly when the email is truthy. A passing body has a password, a string name longer than 5 and a truthy email. |
| Validation.PasswordBoundary | auth/AuthHandler.js:83-87 | A string password of length 6 is rejected with the password message. One of length 7 is not, even though the message says "longer than 8". |
| Validation.NameBoundary | auth/AuthHandler.js:90-94 | With a valid password, a name of length 5 is rejected and one of length 6 passes the name check. An array of more than 5 elements is rejected as a name. |
| Validation.EmailTypeIgnored | auth/AuthHandler.js:96-99 | Two emails that are equally truthy get the same verdict. Once password and name pass, a truthy number is accepted as an email. |
| Validation.StringBodies | auth/AuthHandler.js:82-102 | For an all-string body, validation passes exactly when the password has at least 7 code units, the name at least 6 and the email at least 1. |
| UserStore.FindFrom | auth/AuthHandler.js:107 | The scan returns the first key in range that holds the email, or none when no key in range holds it. |
| UserStore.FindByEmail | auth/AuthHandler.js:122 | A found record is stored and has the email searched for. In a well-formed table, a record is found exactly when the email is present and taken. The record found has the lowest id among those with that email. A missing email finds nothing. |
| UserStore.FindById | auth/AuthHandler.js:142 | A record is found exactly when the key is present. The record found is the one stored under that key, and in a well-formed table its id is the key. |
| UserStore.Create | auth/AuthHandler.js:115 | The new record holds the given name, email and hash. Its key is fresh, the table gains exactly that key, and every other record is unchanged. A well-formed table stays well-formed. |
| Auth.ComparePassword | auth/AuthHandler.js:132-139 | The result succeeds exactly when bcrypt reports a match and signing succeeds, and it is then the token for the id. A mismatch gives "The credentials do not match.". A bcrypt error is passed on unchanged. |
| Auth.Register | auth/AuthHandler.js:104-118 | A validation failure returns that check's message and leaves the store alone. So does a taken email, with "User with that email exists.". A hashing failure also leaves the store alone, and its message is passed on unchanged. Otherwise the store either stays as it was or gains exactly `{nextId, name, email, hash(password)}`, and existing records are unchanged. A valid body with a free email and a successful hash always creates the record, and the result then succeeds exactly when signing does. Success returns `{auth: true, userId: nextId, token}`, where the token is signed for nextId with a lifetime of 86400 seconds (24 hours). A signing failure keeps the created record, and its message is passed on unchanged. Well-formedness and unique emails are preserved. |
| Auth.Login | auth/AuthHandler.js:120-130 | The store is never modified. An unknown email gives "User with that email does not exits.". With unique emails, the user holding the email decides the outcome: a password mismatch gives the credentials error, a bcrypt or signing error is passed on, and otherwise the result is `{auth: true, userId: that id, token}`, where the token is signed for that id with a lifetime of 86400 seconds (24 hours). A success always names a stored user with that email whose hash matched. |
| Auth.Me | auth/AuthHandler.js:141-149 | The store is never modified. The result succeeds exactly when the id is stored, and is then the stored record itself, password hash included. Otherwise the error is "No user found.". |
| AuthProperties.EmptyIsValid | auth/AuthHandler.js:104-117 | The empty table satisfies the invariant that registration maintains. |
| AuthProperties.RunKeepsValid | auth/AuthHandler.js:104-149 | Any sequence of register, login and me requests keeps the table well-formed with unique emails. |
| AuthProperties.RunKeepsRecords | auth/AuthHandler.js:104-149 | Any sequence of requests leaves every existing record in place and unchanged. |
| AuthProperties.RegisterThenLogin | auth/AuthHandler.js:112-137 | Assume bcrypt's comparison accepts its own hashes. Then logging in with the body just registered succeeds whenever a token can be signed, and it returns the registered userId with `auth: true`. |
| AuthProperties.RegisterThenMe | auth/AuthHandler.js:112-117 | After a successful registration, `me` with the returned userId finds the record just created: the registered name and email, and the hash of the password. |
| AuthProperties.RegisterTwiceRefused | auth/AuthHandler.js:105-111 | After a successful registration, registering again with the same email is refused with "User with that email exists.", however valid the second body is, and the store is unchanged. |
| AuthProperties.ValidationPrecedesDuplicateCheck | auth/AuthHandler.js:105-111 | Registering with a taken email and a failing password reports the password error, not the duplicate. |
| AuthProperties.LoginDistinguishesUnknownEmail | auth/AuthHandler.js:120-139 | An unknown email and a known email with a wrong password produce different errors. |

## Left out

- The Lambda entry points (auth/AuthHandler.js:9-70) are I/O plumbing: `JSON.parse` of the body, `callbackWaitsForEmptyEventLoop`, CORS headers and the response envelope. Their status mapping `err.statusCode || 500` always gives 500, because no error in the core sets a status code.
- `getUsers` in user/UserHandler.js is a thin wrapper over `findAll` with no logic.
- The internals of bcrypt and jsonwebtoken are foreign libraries. They are opaque functions here. The only assumption is that a hash matches its own plaintext.
- The model does not assume that a hash rejects every other plaintext.
- The randomness of bcrypt's salt is an explicit `random` input. The token's issue time is an explicit `now` input.
- The JWT secret from the process environment is captured inside the `sign` collaborator.
- Database connection, ORM schema and database failures are not modelled. `findOne`, `findByPk` and `create` always settle normally.
- Sequelize translates a non-string `where` value into SQL in its own way: arrays become `IN` lists and objects become operators. The model does not do this. A lookup compares the parsed value for equality, and a missing email matches no record.
- When several records share an email, which one `findOne` returns depends on the database. The model returns the lowest id.
- `me` receives the authorizer's principal id. The model takes it as a natural-number key and does not model coercion of other values.
- Json.ToNumber: JavaScript's numeric coercion of a string, array or object used as a `length` property value is not modelled. Such a value is read as NaN, so it fails the length comparison.
- `Body` models object request bodies only. A body that parses to JSON `null` makes `register` and `login` throw a TypeError on the first field read, instead of settling with a message.
- A number literal too large for a double parses to Infinity. It is not represented; it would be truthy and have no `length`, like any other non-zero number.
- Promise sequencing and concurrency are left out. This includes two registrations with the same email racing at the database. The flows are modelled as sequential transitions.
