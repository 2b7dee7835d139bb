/** The authentication middleware (bearer token to active user) and the
    any-of permission gate. */
module Auth {
  import opened Base
  import opened Model
  import Text

  /** The capability names the handlers check. */
  const CREAR_LIBROS: string := "crear_libros"
  const MODIFICAR_LIBROS: string := "modificar_libros"
  const DESHABILITAR_LIBROS: string := "deshabilitar_libros"
  const MODIFICAR_USUARIOS: string := "modificar_usuarios"
  const DESHABILITAR_USUARIOS: string := "deshabilitar_usuarios"

  const TOKEN_REQUIRED: string := "Token de autenticación requerido"
  const USER_REJECTED: string := "Usuario no válido o deshabilitado"
  const TOKEN_INVALID: string := "Token inválido"
  const NOT_AUTHENTICATED: string := "Usuario no autenticado"
  const NOT_PERMITTED: string := "No tienes permisos para realizar esta acción"

  /** `t` follows the first space of `h` and runs to the next space or the end. */
  ghost predicate SecondWordOf(h: string, t: string) {
    exists w, rest :: h == w + [' '] + t + rest && ' ' !in w && (rest == [] || rest[0] == ' ')
  }

  /** `authorization?.split(' ')[1]` when it is truthy: the second
      space-separated word of the header. */
  function BearerToken(header: Option<string>): (t: Option<string>)
    ensures t.Some? ==> header.Some? && t.value != "" && ' ' !in t.value
    ensures t.Some? ==> SecondWordOf(header.value, t.value)
    ensures header.Some? && |Text.Split(header.value, ' ')| >= 2 && Text.Split(header.value, ' ')[1] != "" ==>
      t == Some(Text.Split(header.value, ' ')[1])
  {
    if header.None? then None
    else
      var parts := Text.Split(header.value, ' ');
      if |parts| >= 2 && parts[1] != "" then
        TokenPosition(parts, header.value);
        Some(parts[1])
      else None
  }

  /** Where the second piece of a split sits in the original header. */
  lemma TokenPosition(parts: seq<string>, h: string)
    requires |parts| >= 2 && parts == Text.Split(h, ' ')
    ensures SecondWordOf(h, parts[1])
  {
    Text.JoinSplit(h, ' ');
    var rest: string := if |parts| == 2 then [] else [' '] + Text.Join(parts[2..], ' ');
    assert Text.Join(parts[1..], ' ') == parts[1] + rest by {
      if |parts| > 2 {
        assert parts[1..][1..] == parts[2..];
      }
    }
    assert h == parts[0] + [' '] + (parts[1] + rest);
    assert parts[0] + [' '] + (parts[1] + rest) == parts[0] + [' '] + parts[1] + rest;
    assert rest == [] || rest[0] == ' ';
    var w := parts[0];
    assert ' ' !in w;
    assert h == w + [' '] + parts[1] + rest && ' ' !in w && (rest == [] || rest[0] == ' ');
  }

  /** `Authorization: <scheme> <token>` yields exactly the token. */
  lemma BearerTokenOfHeader(scheme: string, token: string)
    requires ' ' !in scheme && ' ' !in token && token != ""
    ensures BearerToken(Some(scheme + " " + token)) == Some(token)
  {
    Text.SplitJoin([scheme, token], ' ');
    assert Text.Join([token], ' ') == token;
    assert Text.Join([scheme, token], ' ') == scheme + " " + token;
  }

  /** A header with no space carries no token. */
  lemma NoSpaceNoToken(h: string)
    requires ' ' !in h
    ensures BearerToken(Some(h)) == None
  {
    Text.SplitNoSep(h, ' ');
  }

  /** The `authenticate` middleware: a missing token, a token the verifier
      rejects, and a token for an absent or disabled user all give 401;
      otherwise the acting user is the stored row. */
  function Authenticate(env: Env, s: Store, header: Option<string>): (r: Result<Actor>)
    ensures r.Err? ==> r.status == UNAUTHORIZED
    ensures BearerToken(header).None? ==> r == Err(UNAUTHORIZED, Message(TOKEN_REQUIRED))
    ensures r.Ok? ==> && BearerToken(header).Some?
                      && env.verify(BearerToken(header).value) == Some(r.value.id)
                      && r.value.id in s.users
                      && r.value.user == s.users[r.value.id]
                      && r.value.user.activo
    ensures (&& BearerToken(header).Some?
             && env.verify(BearerToken(header).value).Some?
             && var id := env.verify(BearerToken(header).value).value;
                id in s.users && s.users[id].activo) ==> r.Ok?
  {
    match BearerToken(header)
    case None => Err(UNAUTHORIZED, Message(TOKEN_REQUIRED))
    case Some(token) =>
      match env.verify(token)
      case None => Err(UNAUTHORIZED, Message(TOKEN_INVALID))
      case Some(id) =>
        if id !in s.users || !s.users[id].activo then Err(UNAUTHORIZED, Message(USER_REJECTED))
        else Ok(OK, Actor(id, s.users[id]))
  }

  /** `permissions.some(perm => usuarioPermisos.includes(perm))`, scanning the
      required list from the front. */
  function SomeIncluded(required: seq<string>, permisos: seq<string>): (b: bool)
    ensures b <==> exists p :: p in required && p in permisos
    decreases |required|
  {
    if |required| == 0 then false
    else
      assert required == [required[0]] + required[1..];
      required[0] in permisos || SomeIncluded(required[1..], permisos)
  }

  /** The `hasPermission(...)` middleware: 401 without an acting user, 403
      when the user holds none of the listed permissions. */
  function HasPermission(actor: Option<Actor>, required: seq<string>): (r: Result<Actor>)
    ensures actor.None? ==> r == Err(UNAUTHORIZED, Message(NOT_AUTHENTICATED))
    ensures actor.Some? ==> (r.Ok? <==> exists p :: p in required && p in actor.value.user.permisos)
    ensures r.Ok? ==> r.value == actor.value
    ensures actor.Some? && r.Err? ==> r == Err(FORBIDDEN, Message(NOT_PERMITTED))
  {
    if actor.None? then Err(UNAUTHORIZED, Message(NOT_AUTHENTICATED))
    else if SomeIncluded(required, actor.value.user.permisos) then Ok(OK, actor.value)
    else Err(FORBIDDEN, Message(NOT_PERMITTED))
  }

  /** An empty permission list admits nobody. */
  lemma EmptyRequirementDenies(a: Actor)
    ensures HasPermission(Some(a), []) == Err(FORBIDDEN, Message(NOT_PERMITTED))
  {
  }

  /** Any-of, not all-of: holding one listed permission is enough. */
  lemma OneOfSuffices(a: Actor, required: seq<string>, p: string)
    requires p in required && p in a.user.permisos
    ensures HasPermission(Some(a), required).Ok?
  {
  }

  /** Granting more permissions never turns an admission into a denial. */
  lemma PermissionMonotone(a: Actor, extra: seq<string>, required: seq<string>)
    requires HasPermission(Some(a), required).Ok?
    ensures HasPermission(Some(Actor(a.id, a.user.(permisos := a.user.permisos + extra))), required).Ok?
  {
    var p :| p in required && p in a.user.permisos;
    assert p in a.user.permisos + extra;
  }
}
