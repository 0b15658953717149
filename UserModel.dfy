/**
 * The user record the handlers read and write. The schema file that declares
 * it is not part of this model; the fields are the ones the handlers set
 * (register) and read (login, populate, admin check).
 */
module UserModel {
  import opened Common

  type UserId = nat

  datatype User = User(id: UserId, name: string, email: string, phone: string, password: string, role: string)

  /** `User.findById(id)`: the user with that id, `None` when there is none. */
  function FindById(users: seq<User>, id: UserId): (r: Option<User>)
    ensures r.Some? ==> r.value in users && r.value.id == id
    ensures r.None? <==> forall u <- users :: u.id != id
  {
    if users == [] then None
    else if users[0].id == id then Some(users[0])
    else FindById(users[1..], id)
  }

  /** `User.findOne({ email })`: the first user with exactly that email, `None` when there is none. */
  function FindByEmail(users: seq<User>, email: string): (r: Option<User>)
    ensures r.Some? ==> r.value in users && r.value.email == email
    ensures r.None? <==> forall u <- users :: u.email != email
  {
    if users == [] then None
    else if users[0].email == email then Some(users[0])
    else FindByEmail(users[1..], email)
  }
}
