/**
 * The two gates of src/middleware/authMiddleware.js. `protect` takes the
 * token from an `Authorization: Bearer <token>` header, has it verified and
 * loads the user it names; `admin` lets a request through only for a user
 * whose role is `admin`. Token verification is opaque and is a parameter.
 */
module AuthGate {
  import opened Common
  import opened Strings
  import opened UserModel

  /** Why a gate stops a request. */
  datatype GateError = MissingToken | InvalidToken | NotAdmin
  {
    function Code(): int
    {
      match this
      case NotAdmin => 403
      case _ => 401
    }
  }

  /** What `protect` leaves behind: the loaded user (`null` when it no longer exists) or a refusal. */
  datatype GateResult = Passed(user: Option<User>) | Rejected(reason: GateError)

  /**
   * The token `protect` finds: the second space-separated field of a header
   * that starts with `Bearer`, provided it is there and not empty.
   */
  function BearerToken(header: Option<string>): (token: Option<string>)
    ensures token.Some? ==> header.Some? && StartsWith(header.value, "Bearer")
    ensures token.Some? ==> token.value != "" && ' ' !in token.value && Field(header.value, ' ', 1) == token
    ensures header.Some? && StartsWith(header.value, "Bearer") && Truthy(Field(header.value, ' ', 1)) ==> token.Some?
  {
    if header.Some? && StartsWith(header.value, "Bearer") then
      var field := Field(header.value, ' ', 1);
      if Truthy(field) then field else None
    else None
  }

  /** `Bearer <t>` yields `t`, for any non-empty `t` without spaces, whatever follows it after a space. */
  lemma BearerTokenOf(t: string, rest: seq<string>)
    requires t != "" && ' ' !in t
    requires forall i :: 0 <= i < |rest| ==> ' ' !in rest[i]
    ensures BearerToken(Some(Join(["Bearer", t] + rest, ' '))) == Some(t)
  {
    var parts := ["Bearer", t] + rest;
    AllSpaceFree(t, rest);
    SplitJoin(parts, ' ');
    var header := Join(parts, ' ');
    JoinStartsWithHead(parts, ' ');
    assert Split(header, ' ')[1] == t;
    assert Field(header, ' ', 1) == Some(t);
  }

  lemma AllSpaceFree(t: string, rest: seq<string>)
    requires ' ' !in t
    requires forall i :: 0 <= i < |rest| ==> ' ' !in rest[i]
    ensures var parts := ["Bearer", t] + rest; forall i :: 0 <= i < |parts| ==> ' ' !in parts[i]
  {
    var parts := ["Bearer", t] + rest;
    assert ' ' !in "Bearer";
    assert forall i :: 2 <= i < |parts| ==> parts[i] == rest[i - 2];
  }

  lemma JoinStartsWithHead(parts: seq<string>, sep: char)
    requires |parts| >= 1
    ensures StartsWith(Join(parts, sep), parts[0])
  {
    if |parts| > 1 {
      var s := Join(parts, sep);
      assert s == parts[0] + ([sep] + Join(parts[1..], sep));
    }
  }

  /** A bare `Bearer` header has no second field, so it yields no token. */
  lemma BareBearerHasNoToken()
    ensures BearerToken(Some("Bearer")) == None
  {
    assert Split("Bearer", ' ') == ["Bearer"];
  }

  /** With two spaces after `Bearer` the second field is empty, so no token is read. */
  lemma DoubleSpaceHasNoToken()
    ensures BearerToken(Some("Bearer  x")) == None
  {
    var parts := ["Bearer", "", "x"];
    assert forall i :: 0 <= i < |parts| ==> ' ' !in parts[i];
    assert Join(parts, ' ') == "Bearer  x" by {
      assert Join(parts[1..], ' ') == " x" by {
        assert parts[1..][1..] == ["x"];
      }
    }
    SplitJoin(parts, ' ');
  }

  /** Another scheme yields no token. */
  lemma OtherSchemeHasNoToken()
    ensures BearerToken(Some("Basic abc")) == None
  {
    var header := "Basic abc";
    assert header[..6][1] == 'a' && "Bearer"[1] == 'e';
    assert !StartsWith(header, "Bearer");
  }

  /**
   * `protect`: look for a Bearer token; without one, refuse before any
   * verification. With one, refuse when `verify` rejects it; otherwise load
   * the user whose id it carries (which may no longer exist) and pass.
   */
  method Protect(header: Option<string>, verify: string -> Option<UserId>, users: seq<User>) returns (r: GateResult)
    ensures BearerToken(header).None? <==> r == Rejected(MissingToken)
    ensures r == Rejected(InvalidToken) <==> BearerToken(header).Some? && verify(BearerToken(header).value).None?
    ensures r.Passed? <==> BearerToken(header).Some? && verify(BearerToken(header).value).Some?
    ensures r.Passed? ==> r.user == FindById(users, verify(BearerToken(header).value).value)
    ensures r.Rejected? ==> r.reason.Code() == 401
  {
    var token: Option<string> := None;
    if header.Some? && StartsWith(header.value, "Bearer") {
      token := Field(header.value, ' ', 1);
    }
    if !Truthy(token) {
      return Rejected(MissingToken);
    }
    var decoded := verify(token.value);
    if decoded.None? {
      return Rejected(InvalidToken);
    }
    r := Passed(FindById(users, decoded.value));
  }

  /** `admin`: pass exactly when a user is present and its role is `admin`; otherwise refuse with 403. */
  function Admin(user: Option<User>): (r: Result<(), GateError>)
    ensures r.Ok? <==> user.Some? && user.value.role == "admin"
    ensures r.Err? ==> r.error == NotAdmin && r.error.Code() == 403
  {
    if user.Some? && user.value.role == "admin" then Ok(()) else Err(NotAdmin)
  }
}
