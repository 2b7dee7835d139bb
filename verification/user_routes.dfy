/** The `/api/usuarios` routes: registration, login and lookup are public;
    update and disable run the authentication middleware first. */
module UserRoutes {
  import opened Base
  import opened Model
  import opened Validation
  import Auth
  import UserController

  /** The shortest password the registration and update chains accept. */
  const MIN_PASSWORD: nat := 6

  /** `validarRegistro`: a non-empty name, an email address, and a password
      of at least six characters. */
  function ValidateRegistration(env: Env, b: UserController.Registration): (errors: seq<string>)
    ensures errors == [] <==> NotEmpty(b.nombre) && IsEmail(env, b.email) && MinLength(b.password, MIN_PASSWORD)
    ensures "password" in errors <==> !MinLength(b.password, MIN_PASSWORD)
    ensures forall f :: f in errors ==> f in ["nombre", "email", "password"]
  {
    var checks := [Check(NotEmpty(b.nombre), "nombre"),
                   Check(IsEmail(env, b.email), "email"),
                   Check(MinLength(b.password, MIN_PASSWORD), "password")];
    var errors := Failures(checks);
    assert (forall i :: 0 <= i < |checks| ==> checks[i].passes)
           <==> checks[0].passes && checks[1].passes && checks[2].passes;
    assert forall i :: 0 <= i < |checks| ==> checks[i].field in ["nombre", "email", "password"];
    assert "password" in errors <==> !checks[2].passes;
    errors
  }

  /** `validarLogin`: an email address and a non-empty password. */
  function ValidateLogin(env: Env, email: Option<string>, password: Option<string>): (errors: seq<string>)
    ensures errors == [] <==> IsEmail(env, email) && NotEmpty(password)
    ensures forall f :: f in errors ==> f in ["email", "password"]
  {
    var checks := [Check(IsEmail(env, email), "email"), Check(NotEmpty(password), "password")];
    var errors := Failures(checks);
    assert (forall i :: 0 <= i < |checks| ==> checks[i].passes) <==> checks[0].passes && checks[1].passes;
    assert forall i :: 0 <= i < |checks| ==> checks[i].field in ["email", "password"];
    errors
  }

  /** `validarActualizacion`: the registration rules, each skipped when its
      field is absent; `permisos` is not checked. */
  function ValidatePatch(env: Env, p: UserController.UserPatch): (errors: seq<string>)
    ensures errors == [] <==> (&& Optional(p.nombre, NotEmpty(p.nombre))
                               && Optional(p.email, IsEmail(env, p.email))
                               && Optional(p.password, MinLength(p.password, MIN_PASSWORD)))
    ensures forall f :: f in errors ==> f in ["nombre", "email", "password"]
  {
    var checks := [Check(Optional(p.nombre, NotEmpty(p.nombre)), "nombre"),
                   Check(Optional(p.email, IsEmail(env, p.email)), "email"),
                   Check(Optional(p.password, MinLength(p.password, MIN_PASSWORD)), "password")];
    var errors := Failures(checks);
    assert (forall i :: 0 <= i < |checks| ==> checks[i].passes)
           <==> checks[0].passes && checks[1].passes && checks[2].passes;
    assert forall i :: 0 <= i < |checks| ==> checks[i].field in ["nombre", "email", "password"];
    errors
  }

  /** `POST /api/usuarios/registro`: validation, then `registrarUsuario`. A
      registration that gets through validation is never refused by the
      columns, and its password is always stored hashed. */
  function PostRegister(env: Env, s: Store, body: UserController.Registration): (o: Step<UserController.Session>)
    ensures o.result.status != SERVER_ERROR
    ensures o.result.status == BAD_REQUEST ==> o.store == s
    ensures IdsInRange(s) ==>
      (o.result.Ok? <==> (&& ValidateRegistration(env, body) == []
                          && forall k :: k in s.users ==> s.users[k].email != body.email.value))
    ensures o.result.Ok? ==>
      var id := o.result.value.usuario.id;
      && ValidateRegistration(env, body) == []
      && body.password.Some? && |body.password.value| >= MIN_PASSWORD
      && id in o.store.users
      && o.store.users[id].password == env.hash(body.password.value)
      && o.store.users[id].activo
    ensures Valid(s) ==> Valid(o.store)
  {
    UserController.Register(env, s, ValidateRegistration(env, body), body)
  }

  /** `POST /api/usuarios/login`: validation, then `login`. After validation
      the handler always has an email and a password to work with. */
  function PostLogin(env: Env, s: Store, email: Option<string>, password: Option<string>): (r: Result<UserController.Session>)
    ensures r.status != SERVER_ERROR
    ensures !IsEmail(env, email) ==> r.Err? && r.status == BAD_REQUEST
    ensures r.Ok? ==>
      && email.Some? && password.Some?
      && exists k :: k in s.users && s.users[k].activo && s.users[k].email == email.value
                  && env.compare(password.value, s.users[k].password)
    ensures ValidateLogin(env, email, password) == [] ==> r == UserController.Login(env, s, [], email, password)
  {
    UserController.Login(env, s, ValidateLogin(env, email, password), email, password)
  }

  /** `PUT /api/usuarios/:id`: authenticate, then validation, then
      `actualizarUsuario`. After validation the only server error left is an
      email another account already uses. */
  function PutUser(env: Env, s: Store, header: Option<string>, id: int, p: UserController.UserPatch): (o: Step<UserController.UserView>)
    ensures Auth.Authenticate(env, s, header).Err? ==>
      o == Step(Err(UNAUTHORIZED, Auth.Authenticate(env, s, header).error), s)
    ensures o.result.status == SERVER_ERROR ==>
      Truthy(p.email) && UserController.EmailTakenByOther(s, id, p.email.value)
    ensures var a := Auth.Authenticate(env, s, header);
      o.result.Ok? <==> (&& a.Ok?
                         && ValidatePatch(env, p) == []
                         && (id == a.value.id || Auth.MODIFICAR_USUARIOS in a.value.user.permisos)
                         && id in s.users
                         && !(Truthy(p.email) && UserController.EmailTakenByOther(s, id, p.email.value)))
    ensures o.result.Ok? ==>
      && Auth.Authenticate(env, s, header).Ok?
      && ValidatePatch(env, p) == []
      && (id == Auth.Authenticate(env, s, header).value.id
          || Auth.MODIFICAR_USUARIOS in Auth.Authenticate(env, s, header).value.user.permisos)
    ensures Valid(s) ==> Valid(o.store)
  {
    var a := Auth.Authenticate(env, s, header);
    if a.Err? then Step(Err(a.status, a.error), s)
    else UserController.UpdateUser(env, s, a.value, ValidatePatch(env, p), id, p)
  }

  /** `DELETE /api/usuarios/:id`: authenticate, then `deshabilitarUsuario`. */
  function DeleteUser(env: Env, s: Store, header: Option<string>, id: int): (o: Step<Ack>)
    ensures Auth.Authenticate(env, s, header).Err? ==>
      o == Step(Err(UNAUTHORIZED, Auth.Authenticate(env, s, header).error), s)
    ensures o.result.Ok? ==>
      && Auth.Authenticate(env, s, header).Ok?
      && (id == Auth.Authenticate(env, s, header).value.id
          || Auth.DESHABILITAR_USUARIOS in Auth.Authenticate(env, s, header).value.user.permisos)
      && id in o.store.users && !o.store.users[id].activo
    ensures var a := Auth.Authenticate(env, s, header);
      o.result.Ok? <==> (&& a.Ok?
                         && (id == a.value.id || Auth.DESHABILITAR_USUARIOS in a.value.user.permisos)
                         && id in s.users)
    ensures Valid(s) ==> Valid(o.store)
  {
    var a := Auth.Authenticate(env, s, header);
    if a.Err? then Step(Err(a.status, a.error), s)
    else UserController.DisableUser(s, a.value, id)
  }

  /** The token a registration answers with opens a session for the new
      account: presented as `Bearer <token>`, the middleware admits exactly
      that account (given that the verifier accepts the tokens the signer
      issues and that tokens contain no space). */
  lemma RegisteredTokenAuthenticates(env: Env, s: Store, body: UserController.Registration)
    requires PostRegister(env, s, body).result.Ok?
    requires var sess := PostRegister(env, s, body).result.value;
      && ' ' !in sess.token && sess.token != ""
      && env.verify(sess.token) == Some(sess.usuario.id)
    ensures var o := PostRegister(env, s, body);
      var a := Auth.Authenticate(env, o.store, Some("Bearer " + o.result.value.token));
      && a.Ok?
      && a.value.id == o.result.value.usuario.id
      && a.value.user.email == o.result.value.usuario.email
  {
    var o := PostRegister(env, s, body);
    Auth.BearerTokenOfHeader("Bearer", o.result.value.token);
    assert "Bearer " + o.result.value.token == "Bearer" + " " + o.result.value.token;
  }

  /** Self-service is open: any authenticated user may disable their own
      account, and is locked out by it. */
  lemma SelfDisableLocksOut(env: Env, s: Store, header: Option<string>)
    requires Auth.Authenticate(env, s, header).Ok?
    ensures var id := Auth.Authenticate(env, s, header).value.id;
      var o := DeleteUser(env, s, header, id);
      && o.result.Ok?
      && Auth.Authenticate(env, o.store, header) == Err(UNAUTHORIZED, Message(Auth.USER_REJECTED))
  {
  }
}
