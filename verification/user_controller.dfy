/** The account handlers: registration, the login decision, lookup, and the
    self-or-privileged update and disable. */
module UserController {
  import opened Base
  import opened Model
  import Auth

  const EMAIL_TAKEN: string := "El email ya está registrado"
  const BAD_CREDENTIALS: string := "Credenciales inválidas"
  const USER_DISABLED: string := "Usuario deshabilitado"
  const USER_NOT_FOUND: string := "Usuario no encontrado"
  const CANNOT_EDIT_USER: string := "No tienes permisos para modificar este usuario"
  const CANNOT_DISABLE_USER: string := "No tienes permisos para deshabilitar este usuario"
  /** What the database or a library reports for a value it cannot take. */
  const VALUE_REJECTED: string := "Validation error"

  /** The body of a registration request. */
  datatype Registration = Registration(
    nombre: Option<string>,
    email: Option<string>,
    password: Option<string>,
    permisos: Option<seq<string>>)

  /** The body of an account update; absent fields are left alone. */
  datatype UserPatch = UserPatch(
    nombre: Option<string>,
    email: Option<string>,
    password: Option<string>,
    permisos: Option<seq<string>>)

  /** The account as registration and login return it: id, name, email and
      permissions. There is no password field to leak. */
  datatype PublicUser = PublicUser(id: int, nombre: string, email: string, permisos: seq<string>)

  /** A registration or login answer: the account and a bearer token. */
  datatype Session = Session(usuario: PublicUser, token: string)

  /** The row without its password column, as lookup and update return it. */
  datatype UserView = UserView(id: int, nombre: string, email: string, permisos: seq<string>, activo: bool)

  function Public(id: int, u: User): (p: PublicUser) {
    PublicUser(id, u.nombre, u.email, u.permisos)
  }

  function View(id: int, u: User): (v: UserView) {
    UserView(id, u.nombre, u.email, u.permisos, u.activo)
  }

  /** The `beforeCreate` hook: a non-empty password is stored hashed. */
  function StoredPassword(env: Env, plain: string): (stored: string) {
    if plain != "" then env.hash(plain) else plain
  }

  // -------------------------------------------------------------- register

  /** `registrarUsuario`: 400 on validation errors or a taken email;
      otherwise a new active account with the requested permissions (none
      when absent), answered without the password and with a token. */
  function Register(env: Env, s: Store, errors: seq<string>, body: Registration): (o: Step<Session>)
    ensures errors != [] ==> o == Step(Err(BAD_REQUEST, Invalid(errors)), s)
    ensures errors == [] && body.email.Some? && IdsInRange(s)
            && (exists k :: k in s.users && s.users[k].email == body.email.value) ==>
      o == Step(Err(BAD_REQUEST, Message(EMAIL_TAKEN)), s)
    ensures IdsInRange(s) ==>
      (o.result.Ok? <==> (&& errors == []
                          && body.nombre.Some? && body.email.Some? && body.password.Some?
                          && env.isEmail(body.email.value)
                          && forall k :: k in s.users ==> s.users[k].email != body.email.value))
    ensures o.result.Err? ==> o.store == s
    ensures o.result.Ok? ==>
      var id := o.result.value.usuario.id;
      && errors == []
      && body.nombre.Some? && body.email.Some? && body.password.Some?
      && o.result.status == CREATED
      && (IdsInRange(s) ==> id !in s.users)
      && (IdsInRange(s) ==> forall k :: k in s.users ==> s.users[k].email != body.email.value)
      && o.store.users == s.users[id := User(body.nombre.value, body.email.value,
                                             StoredPassword(env, body.password.value),
                                             body.permisos.GetOr([]), true)]
      && o.result.value.usuario == PublicUser(id, body.nombre.value, body.email.value, body.permisos.GetOr([]))
      && o.result.value.token == env.sign(id, body.email.value)
      && o.store.books == s.books && o.store.reservations == s.reservations
      && id == s.nextUserId && o.store.nextUserId == id + 1 && o.store.nextBookId == s.nextBookId
    ensures Valid(s) ==> Valid(o.store)
  {
    if errors != [] then Step(Err(BAD_REQUEST, Invalid(errors)), s)
    else if body.email.None? then Step(Err(SERVER_ERROR, Message(VALUE_REJECTED)), s)
    else if FindUserByEmail(s, body.email.value).Some? then Step(Err(BAD_REQUEST, Message(EMAIL_TAKEN)), s)
    else if body.nombre.None? || body.password.None? || !env.isEmail(body.email.value) then
      // the NOT NULL columns or the model's isEmail check reject the row
      Step(Err(SERVER_ERROR, Message(VALUE_REJECTED)), s)
    else
      var id := s.nextUserId;
      var u := NewUser(body.nombre.value, body.email.value,
                       StoredPassword(env, body.password.value), body.permisos.GetOr([]));
      Step(Ok(CREATED, Session(Public(id, u), env.sign(id, u.email))),
           s.(users := s.users[id := u], nextUserId := id + 1))
  }

  /** The registration answer does not depend on the password chosen. */
  lemma RegisterHidesPassword(env: Env, s: Store, errors: seq<string>,
                              body: Registration, other: string)
    requires body.password.Some?
    ensures Register(env, s, errors, body).result == Register(env, s, errors, body.(password := Some(other))).result
  {
  }

  // ----------------------------------------------------------------- login

  /** `login`: 401 with the generic message for an unknown email, 401
      'Usuario deshabilitado' for an inactive account before the password
      is looked at, 401 with the generic message for a wrong password. */
  function Login(env: Env, s: Store, errors: seq<string>, email: Option<string>, password: Option<string>): (r: Result<Session>)
    ensures errors != [] ==> r == Err(BAD_REQUEST, Invalid(errors))
    ensures errors == [] && email.Some? && IdsInRange(s)
            && (forall k :: k in s.users ==> s.users[k].email != email.value) ==>
      r == Err(UNAUTHORIZED, Message(BAD_CREDENTIALS))
    ensures errors == [] && email.Some? && IdsInRange(s) && UniqueEmails(s.users) ==>
      forall k :: k in s.users && s.users[k].email == email.value ==>
        && (!s.users[k].activo ==> r == Err(UNAUTHORIZED, Message(USER_DISABLED)))
        && (s.users[k].activo && password.Some? && !env.compare(password.value, s.users[k].password) ==>
              r == Err(UNAUTHORIZED, Message(BAD_CREDENTIALS)))
        && (s.users[k].activo && password.Some? && env.compare(password.value, s.users[k].password) ==>
              r == Ok(OK, Session(Public(k, s.users[k]), env.sign(k, email.value))))
    ensures r.Ok? ==> exists k :: k in s.users && s.users[k].activo && r.value.usuario == Public(k, s.users[k])
  {
    if errors != [] then Err(BAD_REQUEST, Invalid(errors))
    else if email.None? then Err(SERVER_ERROR, Message(VALUE_REJECTED))
    else
      match FindUserByEmail(s, email.value)
      case None => Err(UNAUTHORIZED, Message(BAD_CREDENTIALS))
      case Some(k) =>
        var u := s.users[k];
        if !u.activo then Err(UNAUTHORIZED, Message(USER_DISABLED))
        else if password.None? then Err(SERVER_ERROR, Message(VALUE_REJECTED))
        else if !env.compare(password.value, u.password) then Err(UNAUTHORIZED, Message(BAD_CREDENTIALS))
        else Ok(OK, Session(Public(k, u), env.sign(k, u.email)))
  }

  /** Registering and then logging in with the same email and password
      succeeds and answers with the registered account. */
  lemma RegisterThenLogin(env: Env, s: Store, body: Registration)
    requires Valid(s)
    requires Register(env, s, [], body).result.Ok?
    requires body.password.value != ""
    requires env.compare(body.password.value, env.hash(body.password.value))
    ensures var o := Register(env, s, [], body);
      Login(env, o.store, [], body.email, body.password)
        == Ok(OK, Session(o.result.value.usuario, o.result.value.token))
  {
    var o := Register(env, s, [], body);
    var id := o.result.value.usuario.id;
    assert id in o.store.users && o.store.users[id].email == body.email.value;
  }

  // ---------------------------------------------------------------- lookup

  /** `obtenerUsuario`: the account without its password, or 404 when it is
      absent or inactive and `includeDisabled` is not exactly `'true'`. */
  function GetUser(s: Store, id: int, includeDisabled: Option<string>): (r: Result<UserView>)
    ensures r.Ok? <==> id in s.users && (s.users[id].activo || includeDisabled == Some("true"))
    ensures r.Ok? ==> r == Ok(OK, UserView(id, s.users[id].nombre, s.users[id].email,
                                          s.users[id].permisos, s.users[id].activo))
    ensures r.Err? ==> r == Err(NOT_FOUND, Message(USER_NOT_FOUND))
  {
    var all := includeDisabled == Some("true");
    if id in s.users && (all || s.users[id].activo) then Ok(OK, View(id, s.users[id]))
    else Err(NOT_FOUND, Message(USER_NOT_FOUND))
  }

  /** The lookup answer does not depend on the stored password. */
  lemma GetUserHidesPassword(s: Store, id: int, includeDisabled: Option<string>, k: int, pw: string)
    requires k in s.users
    ensures GetUser(s.(users := s.users[k := s.users[k].(password := pw)]), id, includeDisabled)
            == GetUser(s, id, includeDisabled)
  {
  }

  // ---------------------------------------------------------------- update

  /** `u` after the update merge: a non-empty name, email and password are
      written (the password hashed), the permissions only by a holder of
      `modificar_usuarios`, and nothing else. */
  function Merge(env: Env, actor: Actor, u: User, p: UserPatch): (u': User) {
    User(if Truthy(p.nombre) then p.nombre.value else u.nombre,
         if Truthy(p.email) then p.email.value else u.email,
         if Truthy(p.password) then env.hash(p.password.value) else u.password,
         if p.permisos.Some? && Auth.MODIFICAR_USUARIOS in actor.user.permisos then p.permisos.value else u.permisos,
         u.activo)
  }

  /** Another account already uses `e`: the unique email column refuses it. */
  predicate EmailTakenByOther(s: Store, id: int, e: string) {
    exists k :: k in s.users && k != id && s.users[k].email == e
  }

  /** `actualizarUsuario`: 400 on validation errors, then 403 when the
      target is someone else and the actor lacks `modificar_usuarios`
      (decided before the account is looked up), then 404; otherwise the
      merged account is stored and returned without its password. */
  function UpdateUser(env: Env, s: Store, actor: Actor, errors: seq<string>, id: int, p: UserPatch): (o: Step<UserView>)
    ensures errors != [] ==> o == Step(Err(BAD_REQUEST, Invalid(errors)), s)
    ensures errors == [] && id != actor.id && Auth.MODIFICAR_USUARIOS !in actor.user.permisos ==>
      o == Step(Err(FORBIDDEN, Message(CANNOT_EDIT_USER)), s)
    ensures id == actor.id ==> o.result.status != FORBIDDEN
    ensures (errors == [] && (id == actor.id || Auth.MODIFICAR_USUARIOS in actor.user.permisos)
             && id !in s.users) ==> o == Step(Err(NOT_FOUND, Message(USER_NOT_FOUND)), s)
    ensures o.result.Ok? <==> (&& errors == []
                               && (id == actor.id || Auth.MODIFICAR_USUARIOS in actor.user.permisos)
                               && id in s.users
                               && !(Truthy(p.email) && (EmailTakenByOther(s, id, p.email.value)
                                                        || !env.isEmail(p.email.value))))
    ensures o.result.Err? ==> o.store == s
    ensures o.result.Ok? ==>
      && o.result.status == OK
      && id in s.users && id in o.store.users
      && o.store.users[id] == Merge(env, actor, s.users[id], p)
      && o.result.value == View(id, o.store.users[id])
      && OnlyUserChanged(s, o.store, id)
    ensures Valid(s) ==> Valid(o.store)
  {
    if errors != [] then Step(Err(BAD_REQUEST, Invalid(errors)), s)
    else if id != actor.id && Auth.MODIFICAR_USUARIOS !in actor.user.permisos then
      Step(Err(FORBIDDEN, Message(CANNOT_EDIT_USER)), s)
    else if id !in s.users then Step(Err(NOT_FOUND, Message(USER_NOT_FOUND)), s)
    else if Truthy(p.email) && (EmailTakenByOther(s, id, p.email.value) || !env.isEmail(p.email.value)) then
      // the unique email column or the model's isEmail check refuses the row
      Step(Err(SERVER_ERROR, Message(VALUE_REJECTED)), s)
    else
      var u := Merge(env, actor, s.users[id], p);
      Step(Ok(OK, View(id, u)), s.(users := s.users[id := u]))
  }

  /** A user without `modificar_usuarios` who updates their own account
      cannot change their own permissions. */
  lemma NoSelfGrant(env: Env, s: Store, actor: Actor, p: UserPatch)
    requires actor.id in s.users
    requires Auth.MODIFICAR_USUARIOS !in actor.user.permisos
    requires UpdateUser(env, s, actor, [], actor.id, p).result.Ok?
    ensures UpdateUser(env, s, actor, [], actor.id, p).store.users[actor.id].permisos
            == s.users[actor.id].permisos
  {
  }

  // --------------------------------------------------------------- disable

  /** `deshabilitarUsuario`: allowed on oneself or with
      `deshabilitar_usuarios`, else 403 (before the lookup); 404 for an
      absent account; otherwise only `activo` becomes false. */
  function DisableUser(s: Store, actor: Actor, id: int): (o: Step<Ack>)
    ensures id != actor.id && Auth.DESHABILITAR_USUARIOS !in actor.user.permisos ==>
      o == Step(Err(FORBIDDEN, Message(CANNOT_DISABLE_USER)), s)
    ensures (id == actor.id || Auth.DESHABILITAR_USUARIOS in actor.user.permisos) && id !in s.users ==>
      o == Step(Err(NOT_FOUND, Message(USER_NOT_FOUND)), s)
    ensures o.result.Ok? <==> (id == actor.id || Auth.DESHABILITAR_USUARIOS in actor.user.permisos) && id in s.users
    ensures o.result.Err? ==> o.store == s
    ensures o.result.Ok? ==>
      && o.result == Ok(OK, Ack)
      && id in o.store.users
      && o.store.users[id] == s.users[id].(activo := false)
      && OnlyUserChanged(s, o.store, id)
    ensures Valid(s) ==> Valid(o.store)
  {
    if id != actor.id && Auth.DESHABILITAR_USUARIOS !in actor.user.permisos then
      Step(Err(FORBIDDEN, Message(CANNOT_DISABLE_USER)), s)
    else if id !in s.users then Step(Err(NOT_FOUND, Message(USER_NOT_FOUND)), s)
    else Step(Ok(OK, Ack), s.(users := s.users[id := s.users[id].(activo := false)]))
  }

  /** A disabled account cannot log in, even with the right password. */
  lemma DisabledCannotLogin(env: Env, s: Store, actor: Actor, id: int, password: string)
    requires Valid(s)
    requires DisableUser(s, actor, id).result.Ok?
    ensures Login(env, DisableUser(s, actor, id).store, [], Some(s.users[id].email), Some(password))
            == Err(UNAUTHORIZED, Message(USER_DISABLED))
  {
    var s1 := DisableUser(s, actor, id).store;
    assert id in s1.users && s1.users[id].email == s.users[id].email;
  }

  /** A disabled account is refused by the authentication middleware, whatever
      token it presents. */
  lemma DisabledCannotAuthenticate(env: Env, s: Store, actor: Actor, id: int, header: Option<string>)
    requires DisableUser(s, actor, id).result.Ok?
    requires Auth.BearerToken(header).Some? && env.verify(Auth.BearerToken(header).value) == Some(id)
    ensures Auth.Authenticate(env, DisableUser(s, actor, id).store, header)
            == Err(UNAUTHORIZED, Message(Auth.USER_REJECTED))
  {
  }
}
