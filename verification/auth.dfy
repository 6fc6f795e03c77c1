/** The authentication routes of back/routes/auth.py. Password hashing, the
    hash check and token signing are library code and enter as function
    parameters: `hash` (generate_password_hash), `verify` (check_password_hash)
    and `issue` (create_access_token, from the identity string to a token). */
module Auth {
  import opened Base
  import opened Text
  import opened Models
  import opened Schemas
  import opened Access
  import opened Employees

  const RegisteredMessage: string := "Пользователь зарегистрирован"
  /** The position every self-registered employee gets ("employee"). */
  const RegisteredPosition: string := "Сотрудник"

  /** The values `register` reads with `data[...]` are all present, the NOT
      NULL names are strings, the nullable columns strings or null, and the
      password a string that can be hashed. */
  predicate RegisterFieldsOk(p: Payload)
  {
    && "first_name" in p && p["first_name"].JStr?
    && "last_name" in p && p["last_name"].JStr?
    && "email" in p && (p["email"].JStr? || p["email"].JNull?)
    && "phone" in p && (p["phone"].JStr? || p["phone"].JNull?)
    && "password" in p && p["password"].JStr?
  }

  /** POST /register. A missing key, a value the column or the hasher cannot
      take, ends in an unhandled error; role and position are fixed whatever
      the payload says. */
  function Register(st: Store, p: Payload, hash: string -> string): (r: Handled<string>)
    ensures r.result.Fail? ==> r.store == st
    ensures "email" !in p ==> r.result == Fail(ServerError)
    ensures "email" in p && EmailTaken(st, p["email"]) ==> r.result == Fail(BadRequest)
    ensures "email" in p && !EmailTaken(st, p["email"]) ==> (r.result.Ok? <==> RegisterFieldsOk(p))
    ensures r.result.Ok? ==>
      var id := NextId(st.employees);
      && r.result.value == RegisteredMessage
      && id in r.store.employees
      && r.store == st.(employees := st.employees[id := r.store.employees[id]])
      && r.store.employees[id].role == Some(UserRole)
      && r.store.employees[id].position == Some(RegisteredPosition)
      && r.store.employees[id].password == hash(p["password"].s)
      && TextJson(r.store.employees[id].email) == p["email"]
      && JStr(r.store.employees[id].firstName) == p["first_name"]
      && JStr(r.store.employees[id].lastName) == p["last_name"]
      && TextJson(r.store.employees[id].phone) == p["phone"]
    ensures EmailsUnique(st.employees) ==> EmailsUnique(r.store.employees)
  {
    if "email" !in p then Handled(Fail(ServerError), st)
    else if EmailTaken(st, p["email"]) then Handled(Fail(BadRequest), st)
    else if !RegisterFieldsOk(p) then Handled(Fail(ServerError), st)
    else
      var e := Employee(
        p["first_name"].s, p["last_name"].s, Some(RegisteredPosition),
        if p["email"].JStr? then Some(p["email"].s) else None,
        if p["phone"].JStr? then Some(p["phone"].s) else None,
        Some(UserRole), hash(p["password"].s));
      Handled(Ok(RegisteredMessage), st.(employees := st.employees[NextId(st.employees) := e]))
  }

  /** `Employee.query.filter_by(email=...).first()`, in id order. */
  function FindByEmail(st: Store, email: Json): (r: Option<int>)
    ensures r.None? <==> !EmailTaken(st, email)
    ensures r.Some? ==> r.value in st.employees && TextJson(st.employees[r.value].email) == email
  {
    var found := set k | k in st.employees && TextJson(st.employees[k].email) == email;
    var ids := SortedKeys(found);
    if ids == [] then
      assert forall k :: k in st.employees ==> k !in found;
      None
    else
      assert ids[0] in ids;
      Some(ids[0])
  }

  datatype LoginReply = LoginReply(accessToken: string, userId: int)

  /** POST /login: the same 401 for an unknown email and for a wrong
      password; hashing a password that is not a string fails unhandled; on
      success the token carries `str(user.id)`. */
  function Login(st: Store, p: Payload, verify: (string, string) -> bool, issue: string -> string): (r: Result<LoginReply>)
    ensures !EmailTaken(st, Get(p, "email")) ==> r == Fail(Unauthorized)
    ensures EmailTaken(st, Get(p, "email")) && !Get(p, "password").JStr? ==> r == Fail(ServerError)
    ensures EmailTaken(st, Get(p, "email")) && Get(p, "password").JStr? ==>
      var user := FindByEmail(st, Get(p, "email")).value;
      if verify(st.employees[user].password, Get(p, "password").s)
      then r.Ok? && r.value.userId == user
      else r == Fail(Unauthorized)
    ensures r.Ok? ==>
      && r.value.userId in st.employees
      && TextJson(st.employees[r.value.userId].email) == Get(p, "email")
      && r.value.accessToken == issue(IntToString(r.value.userId))
  {
    match FindByEmail(st, Get(p, "email"))
    case None => Fail(Unauthorized)
    case Some(id) =>
      var password := Get(p, "password");
      if !password.JStr? then Fail(ServerError)
      else if !verify(st.employees[id].password, password.s) then Fail(Unauthorized)
      else Ok(LoginReply(issue(IntToString(id)), id))
  }

  datatype ProfileView = ProfileView(id: int, name: string, email: Option<string>, role: Option<string>)

  /** GET /profile: the identity string is turned back into an int; a string
      `int` refuses ends in an unhandled error. */
  function Profile(st: Store, identity: string): (r: Result<ProfileView>)
    ensures ParseInt(identity).None? ==> r == Fail(ServerError)
    ensures ParseInt(identity).Some? ==>
      if ParseInt(identity).value in st.employees then r.Ok? else r == Fail(NotFound)
    ensures r.Ok? ==>
      && ParseInt(identity) == Some(r.value.id)
      && r.value.id in st.employees
      && r.value.name == st.employees[r.value.id].firstName + " " + st.employees[r.value.id].lastName
      && r.value.email == st.employees[r.value.id].email
      && r.value.role == st.employees[r.value.id].role
  {
    match ParseInt(identity)
    case None => Fail(ServerError)
    case Some(id) =>
      if id !in st.employees then Fail(NotFound)
      else
        var e := st.employees[id];
        Ok(ProfileView(id, e.firstName + " " + e.lastName, e.email, e.role))
  }

  /** The identity a successful login writes into its token leads `profile`
      back to the same employee. */
  lemma LoginThenProfile(st: Store, p: Payload, verify: (string, string) -> bool)
    requires Login(st, p, verify, s => s).Ok?
    ensures var reply := Login(st, p, verify, s => s).value;
      Profile(st, reply.accessToken).Ok? && Profile(st, reply.accessToken).value.id == reply.userId
  {
    var uid := Login(st, p, verify, s => s).value.userId;
    IdentityRoundTrip(uid);
  }

  /** Registering twice with the same email: the second attempt is refused
      and adds nothing. */
  lemma RegisterTwice(st: Store, p: Payload, hash: string -> string)
    requires "email" in p && !EmailTaken(st, p["email"]) && RegisterFieldsOk(p)
    ensures var st1 := Register(st, p, hash).store;
      Register(st1, p, hash) == Handled(Fail(BadRequest), st1)
  {
    var st1 := Register(st, p, hash).store;
    var id := NextId(st.employees);
    assert id in st1.employees && TextJson(st1.employees[id].email) == p["email"];
  }
}
