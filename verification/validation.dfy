/** The registration input validator: three checks run in a fixed order
    (password, name, email), and the first one that fails decides the message. */
module Validation {
  import opened Results
  import opened Json

  /** The fields of a parsed request body that the flows read; `None` is a missing field. */
  datatype Body = Body(name: Option<JValue>, email: Option<JValue>, password: Option<JValue>)

  const PasswordError := "Password error. Password needs to be longer than 8 characters."
  const NameError := "Username error. Username needs to longer than 5 characters"
  const EmailError := "Email error. Email must have valid characters."

  /** The password check: present, truthy and `password.length >= 7`. The message
      speaks of 8 characters; the comparison admits 7. */
  predicate PasswordOk(b: Body)
  {
    Truthy(b.password) && LengthAtLeast(b.password.value, 7.0)
  }

  /** The name check: truthy, `name.length > 5` and of type string. */
  predicate NameOk(b: Body)
  {
    Truthy(b.name) && LengthAbove(b.name.value, 5.0) && IsString(b.name)
  }

  /** The email check: a truthy email, and a type test that reads `name`, not `email`. */
  predicate EmailOk(b: Body)
  {
    Truthy(b.email) && IsString(b.name)
  }

  function Validate(b: Body): (r: Outcome)
    // a missing password, and a string password, are judged by length 7 alone
    ensures b.password.None? ==> r == Fail(PasswordError)
    ensures IsString(b.password) ==> (r == Fail(PasswordError) <==> |b.password.value.s| < 7)
    // the password check comes first, whatever the other fields hold
    ensures r == Fail(PasswordError) <==> !PasswordOk(b)
    // once the password passes: a name that is not a string fails, whatever its length
    ensures PasswordOk(b) && !IsString(b.name) ==> r == Fail(NameError)
    ensures PasswordOk(b) && IsString(b.name) ==> (r == Fail(NameError) <==> |b.name.value.s| <= 5)
    // once password and name pass, only the email's truthiness is examined
    ensures PasswordOk(b) && NameOk(b) ==> (r == Pass <==> Truthy(b.email))
    ensures PasswordOk(b) && NameOk(b) && !Truthy(b.email) ==> r == Fail(EmailError)
    // what a passing body is known to hold
    ensures r.Pass? ==> b.password.Some? && IsString(b.name) && |b.name.value.s| > 5 && Truthy(b.email)
    ensures r.Fail? ==> r.msg in {PasswordError, NameError, EmailError}
  {
    if !PasswordOk(b) then Fail(PasswordError)
    else if !NameOk(b) then Fail(NameError)
    else if !EmailOk(b) then Fail(EmailError)
    else Pass
  }

  /** Length 6 is the longest string password rejected, length 7 the shortest accepted. */
  lemma PasswordBoundary(name: Option<JValue>, email: Option<JValue>, p6: JsString, p7: JsString)
    requires |p6| == 6 && |p7| == 7
    ensures Validate(Body(name, email, Some(JStr(p6)))) == Fail(PasswordError)
    ensures Validate(Body(name, email, Some(JStr(p7)))) != Fail(PasswordError)
  {
  }

  /** With a valid password, length 5 is the longest name rejected and length 6
      the shortest accepted; a non-string with a longer `length` is rejected too. */
  lemma NameBoundary(email: Option<JValue>, password: JsString, n5: JsString, n6: JsString, items: seq<JValue>)
    requires |password| >= 7 && |n5| == 5 && |n6| == 6 && |items| > 5
    ensures Validate(Body(Some(JStr(n5)), email, Some(JStr(password)))) == Fail(NameError)
    ensures Validate(Body(Some(JStr(n6)), email, Some(JStr(password)))) != Fail(NameError)
    ensures Validate(Body(Some(JArr(items)), email, Some(JStr(password)))) == Fail(NameError)
  {
  }

  /** Once password and name pass, the email's type is never looked at: any two
      emails of equal truthiness get the same verdict, and a truthy non-string is accepted. */
  lemma EmailTypeIgnored(b: Body, e1: Option<JValue>, e2: Option<JValue>)
    requires Truthy(e1) == Truthy(e2)
    ensures Validate(b.(email := e1)) == Validate(b.(email := e2))
    ensures PasswordOk(b) && NameOk(b) ==> Validate(b.(email := Some(JNum(1.0)))) == Pass
  {
  }

  /** For bodies whose three fields are strings, validation is a plain length
      condition on each: password at least 7, name at least 6, email non-empty. */
  lemma StringBodies(name: JsString, email: JsString, password: JsString)
    ensures Validate(Body(Some(JStr(name)), Some(JStr(email)), Some(JStr(password)))) == Pass
        <==> |password| >= 7 && |name| >= 6 && |email| >= 1
  {
  }
}
