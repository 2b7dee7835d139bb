/** The `/api/libros` routes: which middleware runs before each book handler,
    in which order, and the two validation chains. The listing and the
    lookup by id take no header at all: they are public. */
module BookRoutes {
  import opened Base
  import opened Model
  import opened Validation
  import Auth
  import BookController

  /** `validarCrearLibro`: every descriptive field present and non-empty,
      the publication date an ISO 8601 date. */
  function ValidateCreate(env: Env, b: BookController.BookInput): (errors: seq<string>)
    ensures errors == [] <==> (&& NotEmpty(b.nombre) && NotEmpty(b.autor) && NotEmpty(b.genero)
                               && IsIso8601(env, b.fechaPublicacion) && NotEmpty(b.editorial))
    ensures forall f :: f in errors ==> f in ["nombre", "autor", "genero", "fechaPublicacion", "editorial"]
    ensures "nombre" in errors <==> !NotEmpty(b.nombre)
    ensures "fechaPublicacion" in errors <==> !IsIso8601(env, b.fechaPublicacion)
  {
    var checks := [Check(NotEmpty(b.nombre), "nombre"),
                   Check(NotEmpty(b.autor), "autor"),
                   Check(NotEmpty(b.genero), "genero"),
                   Check(IsIso8601(env, b.fechaPublicacion), "fechaPublicacion"),
                   Check(NotEmpty(b.editorial), "editorial")];
    var errors := Failures(checks);
    assert (forall i :: 0 <= i < |checks| ==> checks[i].passes)
           <==> checks[0].passes && checks[1].passes && checks[2].passes && checks[3].passes && checks[4].passes;
    assert forall i :: 0 <= i < |checks| ==> checks[i].field in ["nombre", "autor", "genero", "fechaPublicacion", "editorial"];
    assert "nombre" in errors <==> !checks[0].passes;
    assert "fechaPublicacion" in errors <==> !checks[3].passes;
    errors
  }

  /** `validarActualizarLibro`: the same rules, each skipped when its field is
      absent, plus a boolean `disponible`. */
  function ValidateUpdate(env: Env, p: BookController.BookPatch): (errors: seq<string>)
    ensures errors == [] <==> (&& Optional(p.nombre, NotEmpty(p.nombre))
                               && Optional(p.autor, NotEmpty(p.autor))
                               && Optional(p.genero, NotEmpty(p.genero))
                               && Optional(p.fechaPublicacion, IsIso8601(env, p.fechaPublicacion))
                               && Optional(p.editorial, NotEmpty(p.editorial))
                               && Optional(p.disponible, p.disponible.Some? && p.disponible.value.Bool?))
    ensures "disponible" in errors <==> (p.disponible.Some? && p.disponible.value.NonBoolean?)
  {
    var checks := [Check(Optional(p.nombre, NotEmpty(p.nombre)), "nombre"),
                   Check(Optional(p.autor, NotEmpty(p.autor)), "autor"),
                   Check(Optional(p.genero, NotEmpty(p.genero)), "genero"),
                   Check(Optional(p.fechaPublicacion, IsIso8601(env, p.fechaPublicacion)), "fechaPublicacion"),
                   Check(Optional(p.editorial, NotEmpty(p.editorial)), "editorial"),
                   Check(Optional(p.disponible, p.disponible.Some? && p.disponible.value.Bool?), "disponible")];
    var errors := Failures(checks);
    assert (forall i :: 0 <= i < |checks| ==> checks[i].passes)
           <==> (&& checks[0].passes && checks[1].passes && checks[2].passes
                 && checks[3].passes && checks[4].passes && checks[5].passes);
    assert "disponible" in errors <==> !checks[5].passes;
    errors
  }

  /** A middleware's refusal, passed on as the route's answer with the
      database untouched. */
  function Refused<T>(s: Store, r: Result<Actor>): (o: Step<T>)
    requires r.Err?
    ensures o.result.Err? && o.result.status == r.status && o.result.error == r.error && o.store == s
  {
    Step(Err(r.status, r.error), s)
  }

  /** `POST /api/libros`: authenticate, then `hasPermission('crear_libros')`,
      then validation, then `crearLibro`. */
  function PostBook(env: Env, s: Store, header: Option<string>, body: BookController.BookInput): (o: Step<BookController.BookOut>)
    ensures Auth.Authenticate(env, s, header).Err? ==>
      o == Step(Err(UNAUTHORIZED, Auth.Authenticate(env, s, header).error), s)
    ensures Auth.Authenticate(env, s, header).Ok? && Auth.CREAR_LIBROS !in Auth.Authenticate(env, s, header).value.user.permisos ==>
      o == Step(Err(FORBIDDEN, Message(Auth.NOT_PERMITTED)), s)
    ensures o.result.status == BAD_REQUEST ==> o.result == Err(BAD_REQUEST, Invalid(ValidateCreate(env, body)))
    ensures o.result.status != SERVER_ERROR
    ensures o.result.Ok? ==>
      && Auth.Authenticate(env, s, header).Ok?
      && Auth.CREAR_LIBROS in Auth.Authenticate(env, s, header).value.user.permisos
      && body.nombre.Some? && o.result.value.book.nombre == body.nombre.value && body.nombre.value != ""
    ensures var a := Auth.Authenticate(env, s, header);
      o.result.Ok? <==> a.Ok? && Auth.CREAR_LIBROS in a.value.user.permisos && ValidateCreate(env, body) == []
    ensures Valid(s) ==> Valid(o.store)
  {
    var a := Auth.Authenticate(env, s, header);
    if a.Err? then Refused(s, a)
    else
      var g := Auth.HasPermission(Some(a.value), [Auth.CREAR_LIBROS]);
      if g.Err? then Refused(s, g)
      else BookController.CreateBook(s, ValidateCreate(env, body), body)
  }

  /** `PUT /api/libros/:id`: authenticate, then validation, then
      `actualizarLibro` (which does its own permission check). */
  function PutBook(env: Env, s: Store, header: Option<string>, id: int, p: BookController.BookPatch): (o: Step<BookController.BookOut>)
    ensures Auth.Authenticate(env, s, header).Err? ==>
      o == Step(Err(UNAUTHORIZED, Auth.Authenticate(env, s, header).error), s)
    ensures o.result.status != SERVER_ERROR
    ensures o.result.Ok? ==>
      && Auth.Authenticate(env, s, header).Ok?
      && ValidateUpdate(env, p) == []
      && id in s.books && id in o.store.books
      && o.store.books[id] == BookController.ApplyPatch(s.books[id], p)
      && (BookController.TouchesInformation(p) ==>
            Auth.MODIFICAR_LIBROS in Auth.Authenticate(env, s, header).value.user.permisos)
    ensures var a := Auth.Authenticate(env, s, header);
      a.Ok? ==> o == BookController.UpdateBook(s, a.value, ValidateUpdate(env, p), id, p)
    ensures Valid(s) ==> Valid(o.store)
  {
    var a := Auth.Authenticate(env, s, header);
    if a.Err? then Refused(s, a)
    else BookController.UpdateBook(s, a.value, ValidateUpdate(env, p), id, p)
  }

  /** `DELETE /api/libros/:id`: authenticate, then
      `hasPermission('deshabilitar_libros')`, then `deshabilitarLibro`. */
  function DeleteBook(env: Env, s: Store, header: Option<string>, id: int): (o: Step<Ack>)
    ensures Auth.Authenticate(env, s, header).Err? ==>
      o == Step(Err(UNAUTHORIZED, Auth.Authenticate(env, s, header).error), s)
    ensures Auth.Authenticate(env, s, header).Ok? && Auth.DESHABILITAR_LIBROS !in Auth.Authenticate(env, s, header).value.user.permisos ==>
      o == Step(Err(FORBIDDEN, Message(Auth.NOT_PERMITTED)), s)
    ensures o.result.Ok? ==>
      && Auth.Authenticate(env, s, header).Ok?
      && Auth.DESHABILITAR_LIBROS in Auth.Authenticate(env, s, header).value.user.permisos
      && id in o.store.books && !o.store.books[id].activo
    ensures var a := Auth.Authenticate(env, s, header);
      o.result.Ok? <==> a.Ok? && Auth.DESHABILITAR_LIBROS in a.value.user.permisos && id in s.books
    ensures Valid(s) ==> Valid(o.store)
  {
    var a := Auth.Authenticate(env, s, header);
    if a.Err? then Refused(s, a)
    else
      var g := Auth.HasPermission(Some(a.value), [Auth.DESHABILITAR_LIBROS]);
      if g.Err? then Refused(s, g)
      else BookController.DisableBook(s, id)
  }

  /** `POST /api/libros/reservar`: authenticate, then `reservarLibro`; the
      reservation is made in the authenticated user's name. */
  function PostReservation(env: Env, s: Store, header: Option<string>, libroId: int, now: int): (o: Step<Reservation>)
    ensures Auth.Authenticate(env, s, header).Err? ==>
      o == Step(Err(UNAUTHORIZED, Auth.Authenticate(env, s, header).error), s)
    ensures o.result.Ok? ==>
      && Auth.Authenticate(env, s, header).Ok?
      && o.result.value.usuarioId == Auth.Authenticate(env, s, header).value.id
      && o.result.value.usuarioId in s.users && s.users[o.result.value.usuarioId].activo
    ensures var a := Auth.Authenticate(env, s, header);
      a.Ok? ==> o == BookController.ReserveBook(s, a.value, libroId, now)
    ensures Valid(s) ==> Valid(o.store)
  {
    var a := Auth.Authenticate(env, s, header);
    if a.Err? then Refused(s, a)
    else BookController.ReserveBook(s, a.value, libroId, now)
  }

  /** Any body that passes `validarCrearLibro` and reaches the handler is
      stored: the validation chain covers every NOT NULL column. */
  lemma ValidBodyIsCreated(env: Env, s: Store, body: BookController.BookInput)
    requires ValidateCreate(env, body) == []
    ensures BookController.CreateBook(s, ValidateCreate(env, body), body).result.Ok?
  {
    assert NotEmpty(body.nombre) && NotEmpty(body.autor) && NotEmpty(body.genero);
    assert IsIso8601(env, body.fechaPublicacion) && NotEmpty(body.editorial);
  }

  /** Authentication is decided before the body is looked at: without a
      valid session two requests get the same answer whatever they carry. */
  lemma AuthenticationFirst(env: Env, s: Store, header: Option<string>,
                            b1: BookController.BookInput, b2: BookController.BookInput,
                            id: int, p1: BookController.BookPatch, p2: BookController.BookPatch)
    requires Auth.Authenticate(env, s, header).Err?
    ensures PostBook(env, s, header, b1) == PostBook(env, s, header, b2)
    ensures PutBook(env, s, header, id, p1) == PutBook(env, s, header, id, p2)
  {
  }
}
