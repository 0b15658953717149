/**
 * The account handlers of src/controllers/authController.js: the field,
 * email and phone checks of registration, the duplicate-email refusal, login's
 * failure paths, and account deletion with its cascade over appointments.
 * Password hashing and token signing are opaque: login takes the password
 * comparison as a parameter, and the token it would sign is not modelled.
 */
module Accounts {
  import opened Common
  import opened Strings
  import opened UserModel
  import AppointmentModel
  import AppointmentStore

  /** A character `[^\s@]` accepts. */
  predicate Plain(c: char)
  {
    !IsSpace(c) && c != '@'
  }

  /**
   * The strings `/^[^\s@]+@[^\s@]+\.[^\s@]+$/` matches, read off the pattern:
   * an `@` after a non-empty first part, a `.` with at least one character
   * between it and the `@` and at least one after it, and no white space and
   * no other `@` anywhere.
   */
  ghost predicate EmailPattern(s: string)
  {
    exists at, dot ::
      && 0 < at && at + 1 < dot && dot + 1 < |s|
      && s[at] == '@' && s[dot] == '.'
      && forall i :: 0 <= i < |s| && i != at ==> Plain(s[i])
  }

  /** `emailRegex.test(s)`: accepts exactly the strings the pattern matches. */
  function IsEmail(s: string): (b: bool)
    ensures b <==> EmailPattern(s)
  {
    ScanEmailMatchesPattern(s);
    ScanEmail(s)
  }

  /** The email check run as scans: one for the `@`, one for a `.` in the part after it. */
  predicate ScanEmail(s: string)
  {
    && '@' in s
    && var at := IndexOf(s, '@');
    && 0 < at && at + 2 < |s|
    && (forall i :: 0 <= i < |s| && i != at ==> Plain(s[i]))
    && '.' in s[at + 2..|s| - 1]
  }

  /** The scans accept exactly what the pattern matches. */
  lemma ScanEmailMatchesPattern(s: string)
    ensures ScanEmail(s) <==> EmailPattern(s)
  {
    if ScanEmail(s) {
      var at := IndexOf(s, '@');
      var tail := s[at + 2..|s| - 1];
      var k := IndexOf(tail, '.');
      assert s[at + 2 + k] == '.';
      assert 0 < at && at + 1 < at + 2 + k && at + 2 + k + 1 < |s|;
    }
    if EmailPattern(s) {
      var at, dot :| && 0 < at && at + 1 < dot && dot + 1 < |s|
                     && s[at] == '@' && s[dot] == '.'
                     && forall i :: 0 <= i < |s| && i != at ==> Plain(s[i]);
      assert '@' in s;
      var first := IndexOf(s, '@');
      assert first == at;
      assert s[at + 2..|s| - 1][dot - at - 2] == '.';
    }
  }

  /** `/^[0-9]{10,11}$/`: ten or eleven ASCII digits and nothing else. */
  function IsPhone(s: string): (b: bool)
    ensures b <==> 10 <= |s| <= 11 && forall i :: 0 <= i < |s| ==> IsDigit(s[i])
  {
    10 <= |s| <= 11 && DigitRun(s) == |s|
  }

  lemma PhoneExamples()
    ensures IsPhone("05551234567") && IsPhone("5551234567")
  {
    var s := "05551234567";
    assert forall i :: 0 <= i < |s| ==> IsDigit(s[i]);
    assert forall i :: 0 <= i < |s[1..]| ==> IsDigit(s[1..][i]);
    assert s[1..] == "5551234567";
  }

  lemma NotPhoneExamples()
    ensures !IsPhone("+905551234567") && !IsPhone("0555 123 45") && !IsPhone("555123456")
  {
    assert "+905551234567"[0] == '+';
    assert "0555 123 45"[4] == ' ';
  }

  /** The answers the account handlers give other than success. */
  datatype AuthError = MissingFields | InvalidEmail | InvalidPhone | EmailTaken | InvalidCredentials | ServerError
  {
    function Code(): int
    {
      match this
      case InvalidCredentials => 401
      case ServerError => 500
      case _ => 400
    }
  }

  /** Which check refuses a registration, in the order the handler runs them; `None` when all pass. */
  function RegisterFailure(users: seq<User>, name: Option<string>, email: Option<string>,
                           phone: Option<string>, password: Option<string>): (e: Option<AuthError>)
    ensures e.None? <==> && Filled(name, email, phone, password)
                         && EmailPattern(email.value) && IsPhone(phone.value)
                         && forall u :: u in users ==> u.email != email.value
    ensures e == Some(MissingFields) <==> !Filled(name, email, phone, password)
    ensures e == Some(InvalidEmail) <==> Filled(name, email, phone, password) && !EmailPattern(email.value)
    ensures e == Some(InvalidPhone) <==>
              Filled(name, email, phone, password) && EmailPattern(email.value) && !IsPhone(phone.value)
    ensures e == Some(EmailTaken) <==>
              && Filled(name, email, phone, password) && EmailPattern(email.value) && IsPhone(phone.value)
              && exists u :: u in users && u.email == email.value
    ensures e.Some? ==> e.value.Code() == 400
  {
    if !Filled(name, email, phone, password) then Some(MissingFields)
    else if !IsEmail(email.value) then Some(InvalidEmail)
    else if !IsPhone(phone.value) then Some(InvalidPhone)
    else if FindByEmail(users, email.value).Some? then Some(EmailTaken)
    else None
  }

  /** The four required fields are all truthy. */
  predicate Filled(name: Option<string>, email: Option<string>, phone: Option<string>, password: Option<string>)
  {
    Truthy(name) && Truthy(email) && Truthy(phone) && Truthy(password)
  }

  /** The field checks run before the format checks: a missing field is reported whatever the other fields hold. */
  lemma MissingFieldsFirst(users: seq<User>, name: Option<string>, email: Option<string>,
                           phone: Option<string>, password: Option<string>)
    requires !Truthy(name) || !Truthy(email) || !Truthy(phone) || !Truthy(password)
    ensures RegisterFailure(users, name, email, phone, password) == Some(MissingFields)
  {
  }

  /** No two users share an id, and no two share an email. */
  predicate UniqueUsers(users: seq<User>)
  {
    forall i, j :: 0 <= i < j < |users| ==> users[i].id != users[j].id && users[i].email != users[j].email
  }

  /**
   * `login`: the user with that email, provided `matches` (the stored hash
   * compared with the password) accepts. An unknown email and a wrong password
   * give the same answer.
   */
  function Login(users: seq<User>, email: string, password: string, matches: (User, string) -> bool): (r: Result<User, AuthError>)
    ensures (forall u :: u in users ==> u.email != email) ==> r == Err(InvalidCredentials)
    ensures UniqueUsers(users) ==> (r.Ok? <==> exists u :: u in users && u.email == email && matches(u, password))
    ensures r.Ok? ==> r.value in users && r.value.email == email && matches(r.value, password)
    ensures r.Err? ==> r.error == InvalidCredentials && r.error.Code() == 401
  {
    match FindByEmail(users, email)
    case None => Err(InvalidCredentials)
    case Some(u) =>
      assert UniqueUsers(users) ==> forall v :: v in users && v.email == email ==> v == u by {
        if UniqueUsers(users) {
          forall v | v in users && v.email == email ensures v == u {
            var i :| 0 <= i < |users| && users[i] == v;
            var j :| 0 <= j < |users| && users[j] == u;
            assert i == j;
          }
        }
      }
      if matches(u, password) then Ok(u) else Err(InvalidCredentials)
  }

  /** Both failure paths of login give one and the same answer. */
  lemma LoginFailuresAlike(users: seq<User>, email: string, password: string, matches: (User, string) -> bool)
    requires (forall u :: u in users ==> u.email != email)
             || (FindByEmail(users, email).Some? && !matches(FindByEmail(users, email).value, password))
    ensures Login(users, email, password, matches) == Err(InvalidCredentials)
  {
  }

  /** Every user except the one with id `id`, in the same order: `User.findByIdAndDelete(id)`. */
  function WithoutUser(users: seq<User>, id: UserId): (r: seq<User>)
    ensures forall u :: u in r <==> u in users && u.id != id
    ensures UniqueUsers(users) ==> UniqueUsers(r)
  {
    if users == [] then []
    else
      var rest := WithoutUser(users[1..], id);
      assert forall u :: u in users[1..] ==> u in users;
      if users[0].id == id then rest
      else
        UniqueUsersCons(users, rest);
        [users[0]] + rest
  }

  lemma UniqueUsersCons(users: seq<User>, rest: seq<User>)
    requires users != []
    requires forall u :: u in rest ==> u in users[1..]
    ensures UniqueUsers(users) && UniqueUsers(rest) ==> UniqueUsers([users[0]] + rest)
  {
    if UniqueUsers(users) && UniqueUsers(rest) {
      var s := [users[0]] + rest;
      forall i, j | 0 <= i < j < |s| ensures s[i].id != s[j].id && s[i].email != s[j].email {
        if i == 0 {
          assert s[j] in users[1..];
          var k :| 0 <= k < |users[1..]| && users[1..][k] == s[j];
          assert users[k + 1] == s[j];
        } else {
          assert s[i] == rest[i - 1] && s[j] == rest[j - 1];
        }
      }
    }
  }

  /** The user collection. */
  class UserTable {
    var users: seq<User>
    /** The id the next saved user receives. */
    var nextId: nat

    ghost predicate Valid()
      reads this
    {
      UniqueUsers(users) && forall u :: u in users ==> u.id < nextId
    }

    constructor ()
      ensures Valid() && users == [] && nextId == 0
    {
      users := [];
      nextId := 0;
    }

    /**
     * `register`: run the checks in order, then save a user whose role is
     * always `user`. The password is saved as given: its hashing belongs to
     * the user schema, which is not part of this model.
     */
    method Register(name: Option<string>, email: Option<string>, phone: Option<string>, password: Option<string>)
      returns (r: Result<UserId, AuthError>)
      requires Valid()
      modifies this
      ensures Valid()
      ensures r.Err? <==> RegisterFailure(old(users), name, email, phone, password).Some?
      ensures r.Err? ==> r.error == RegisterFailure(old(users), name, email, phone, password).value
                         && users == old(users) && nextId == old(nextId)
      ensures r.Ok? ==> r.value == old(nextId) && nextId == old(nextId) + 1
      ensures r.Ok? ==> users == old(users) + [User(r.value, name.value, email.value, phone.value, password.value, "user")]
    {
      if !(Truthy(name) && Truthy(email) && Truthy(phone) && Truthy(password)) {
        return Err(MissingFields);
      }
      if !IsEmail(email.value) {
        return Err(InvalidEmail);
      }
      if !IsPhone(phone.value) {
        return Err(InvalidPhone);
      }
      var existing := FindByEmail(users, email.value);
      if existing.Some? {
        return Err(EmailTaken);
      }
      var user := User(nextId, name.value, email.value, phone.value, password.value, "user");
      assert forall i :: 0 <= i < |users| ==> users[i] in users;
      users := users + [user];
      nextId := nextId + 1;
      r := Ok(user.id);
    }
  }

  /**
   * `deleteAccount`: remove every appointment whose `user` is the caller,
   * then the caller's user record. `caller` is `req.user`, which is `null`
   * when the token names a user already deleted; reading its id then throws.
   */
  method DeleteAccount(table: UserTable, store: AppointmentStore.Store, caller: Option<User>)
    returns (r: Result<(), AuthError>)
    requires table.Valid() && store.Valid()
    modifies table, store
    ensures table.Valid() && store.Valid()
    ensures r.Err? <==> caller.None?
    ensures r.Err? ==> r.error == ServerError && table.users == old(table.users) && store.records == old(store.records)
    ensures r.Ok? ==> store.records == AppointmentStore.WithoutOwner(old(store.records), caller.value.id)
    ensures r.Ok? ==> table.users == WithoutUser(old(table.users), caller.value.id)
    ensures r.Ok? ==> forall a :: a in store.records ==> a.owner != AppointmentModel.Member(caller.value.id)
    ensures r.Ok? ==> FindById(table.users, caller.value.id).None?
    ensures table.nextId == old(table.nextId) && store.nextId == old(store.nextId)
  {
    if caller.None? {
      return Err(ServerError);
    }
    var id := caller.value.id;
    store.DeleteOwnedBy(id);
    table.users := WithoutUser(table.users, id);
    r := Ok(());
  }
}
