/** The book handlers: create, get by id, the filtered and paginated listing,
    the field-sensitive update, the soft disable and the reservation. */
module BookController {
  import opened Base
  import opened Model
  import Auth
  import Paging
  import Sorting
  import Text

  const BOOK_NOT_FOUND: string := "Libro no encontrado"
  const BOOK_UNAVAILABLE: string := "El libro no está disponible"
  const CANNOT_EDIT_INFO: string := "No tienes permisos para modificar la información del libro"
  /** What the database reports when a row breaks a column constraint. */
  const COLUMN_REJECTED: string := "Validation error"

  /** The body of a create request, field by field as the client sent it. */
  datatype BookInput = BookInput(
    nombre: Option<string>,
    autor: Option<string>,
    genero: Option<string>,
    fechaPublicacion: Option<string>,
    editorial: Option<string>)

  /** A `disponible` value in a request body: a boolean, or anything else. */
  datatype Flag = Bool(value: bool) | NonBoolean

  /** The body of an update request; an absent field is left alone. */
  datatype BookPatch = BookPatch(
    nombre: Option<string>,
    autor: Option<string>,
    genero: Option<string>,
    fechaPublicacion: Option<string>,
    editorial: Option<string>,
    disponible: Option<Flag>)

  /** A book as the API returns it, with its id. */
  datatype BookOut = BookOut(id: int, book: Book)

  /** The query string of the listing. `page` and `limit` are `parseInt` of
      the parameter, None when absent or not a number. */
  datatype ListQuery = ListQuery(
    genero: Option<string>,
    fechaPublicacion: Option<string>,
    editorial: Option<string>,
    autor: Option<string>,
    nombre: Option<string>,
    disponible: Option<string>,
    page: Option<int>,
    limit: Option<int>,
    includeDisabled: Option<string>)

  /** One listed book: only `id` and `nombre` are selected. */
  datatype BookRow = BookRow(id: int, nombre: string)

  datatype Paginacion = Paginacion(
    paginaActual: int,
    paginaMaxima: int,
    librosPorPagina: int,
    totalLibros: int)

  datatype BookPage = BookPage(libros: seq<BookRow>, paginacion: Paginacion)

  // ---------------------------------------------------------------- create

  /** `crearLibro`: a validation failure gives 400; otherwise a new row with
      the supplied fields, available and active, under a fresh id. */
  function CreateBook(s: Store, errors: seq<string>, body: BookInput): (o: Step<BookOut>)
    ensures errors != [] ==> o == Step(Err(BAD_REQUEST, Invalid(errors)), s)
    ensures errors == [] && !(&& body.nombre.Some? && body.autor.Some? && body.genero.Some?
                              && body.fechaPublicacion.Some? && body.editorial.Some?) ==>
      o == Step(Err(SERVER_ERROR, Message(COLUMN_REJECTED)), s)
    ensures o.result.Err? ==> o.store == s
    ensures o.result.Ok? <==> (&& errors == [] && body.nombre.Some? && body.autor.Some?
                               && body.genero.Some? && body.fechaPublicacion.Some? && body.editorial.Some?)
    ensures o.result.Ok? ==>
      var id := o.result.value.id;
      var b := o.result.value.book;
      && o.result.status == CREATED
      && b.disponible && b.activo
      && b.nombre == body.nombre.value && b.autor == body.autor.value && b.genero == body.genero.value
      && b.fechaPublicacion == body.fechaPublicacion.value && b.editorial == body.editorial.value
      && (IdsInRange(s) ==> id !in s.books)
      && o.store.books == s.books[id := b]
      && o.store.users == s.users && o.store.reservations == s.reservations
      && id == s.nextBookId && o.store.nextBookId == id + 1 && o.store.nextUserId == s.nextUserId
    ensures Valid(s) ==> Valid(o.store)
  {
    if errors != [] then Step(Err(BAD_REQUEST, Invalid(errors)), s)
    else if body.nombre.None? || body.autor.None? || body.genero.None?
         || body.fechaPublicacion.None? || body.editorial.None? then
      // the NOT NULL columns reject the row
      Step(Err(SERVER_ERROR, Message(COLUMN_REJECTED)), s)
    else
      var id := s.nextBookId;
      var b := NewBook(body.nombre.value, body.autor.value, body.genero.value,
                       body.fechaPublicacion.value, body.editorial.value);
      Step(Ok(CREATED, BookOut(id, b)),
           s.(books := s.books[id := b], nextBookId := id + 1))
  }

  // ------------------------------------------------------------- get by id

  /** `obtenerLibro`: the book, or 404 when it is absent or inactive and the
      caller did not ask for disabled books with exactly `'true'`. */
  function GetBook(s: Store, id: int, includeDisabled: Option<string>): (r: Result<BookOut>)
    ensures r.Ok? <==> id in s.books && (s.books[id].activo || includeDisabled == Some("true"))
    ensures r.Ok? ==> r == Ok(OK, BookOut(id, s.books[id]))
    ensures r.Err? ==> r == Err(NOT_FOUND, Message(BOOK_NOT_FOUND))
  {
    var all := includeDisabled == Some("true");
    if id in s.books && (all || s.books[id].activo) then Ok(OK, BookOut(id, s.books[id]))
    else Err(NOT_FOUND, Message(BOOK_NOT_FOUND))
  }

  // --------------------------------------------------------------- listing

  /** `!includeDisabled || includeDisabled === 'false'`: the listing hides
      inactive books when the flag is absent, empty or `'false'`. */
  predicate HidesDisabled(q: ListQuery) {
    q.includeDisabled.None? || q.includeDisabled.value == "" || q.includeDisabled.value == "false"
  }

  /** The `where` clause of the listing: exact genre and publisher, author and
      title as substrings, availability as `(value == 'true')`, the same
      calendar day for the publication date; each only when given. */
  predicate Matches(env: Env, q: ListQuery, b: Book) {
    && (HidesDisabled(q) ==> b.activo)
    && (Truthy(q.genero) ==> b.genero == q.genero.value)
    && (Truthy(q.editorial) ==> b.editorial == q.editorial.value)
    && (Truthy(q.autor) ==> Text.Contains(b.autor, q.autor.value))
    && (Truthy(q.nombre) ==> Text.Contains(b.nombre, q.nombre.value))
    && (q.disponible.Some? ==> b.disponible == (q.disponible.value == "true"))
    && (Truthy(q.fechaPublicacion) ==> env.sameDay(b.fechaPublicacion, q.fechaPublicacion.value))
  }

  /** The ids of all matching books. */
  ghost function MatchingSet(env: Env, s: Store, q: ListQuery): set<int> {
    set id | id in s.books && Matches(env, q, s.books[id])
  }

  predicate Increasing(xs: seq<int>) {
    forall i, j :: 0 <= i < j < |xs| ==> xs[i] < xs[j]
  }

  /** The matching ids in [lo, hi), in id order: a scan of the table. */
  function MatchingIds(env: Env, books: map<int, Book>, q: ListQuery, lo: int, hi: int): (ids: seq<int>)
    ensures Increasing(ids)
    ensures forall id :: id in ids <==> lo <= id < hi && id in books && Matches(env, q, books[id])
    decreases hi - lo
  {
    if lo >= hi then []
    else
      var rest := MatchingIds(env, books, q, lo + 1, hi);
      assert forall j :: 0 <= j < |rest| ==> rest[j] in rest;
      if lo in books && Matches(env, q, books[lo]) then [lo] + rest else rest
  }

  /** A list of distinct ids has as many elements as ids. */
  lemma {:induction false} IncreasingCard(xs: seq<int>)
    requires Increasing(xs)
    ensures |set x | x in xs| == |xs|
  {
    if |xs| > 0 {
      var rest := xs[1..];
      IncreasingCard(rest);
      assert (set x | x in xs) == {xs[0]} + (set x | x in rest);
      assert xs[0] !in rest;
    }
  }

  /** The selected columns `id` and `nombre` of the given books. */
  function Rows(books: map<int, Book>, ids: seq<int>): (rows: seq<BookRow>)
    requires forall i :: 0 <= i < |ids| ==> ids[i] in books
  {
    seq(|ids|, i requires 0 <= i < |ids| => BookRow(ids[i], books[ids[i]].nombre))
  }

  /** The selected columns of every matching book, in id order. */
  function MatchingRows(env: Env, s: Store, q: ListQuery): (rows: seq<BookRow>)
  {
    var ids := MatchingIds(env, s.books, q, 1, s.nextBookId);
    assert forall i :: 0 <= i < |ids| ==> ids[i] in ids;
    Rows(s.books, ids)
  }

  /** `ORDER BY nombre ASC`. */
  function ByName(a: BookRow, b: BookRow): bool {
    Text.StrLe(a.nombre, b.nombre)
  }

  lemma ByNameTotal()
    ensures Sorting.Total(ByName)
  {
    forall a, b ensures ByName(a, b) || ByName(b, a) {
      Text.StrLeTotal(a.nombre, b.nombre);
    }
  }

  lemma ByNameTransitive()
    ensures Sorting.Transitive(ByName)
  {
    forall a, b, c | ByName(a, b) && ByName(b, c) ensures ByName(a, c) {
      Text.StrLeTrans(a.nombre, b.nombre, c.nombre);
    }
  }

  /** The `where` clause does not read the page number, so two queries that
      differ in it scan the same ids. */
  lemma {:induction false} SameFilterSameIds(env: Env, books: map<int, Book>, q1: ListQuery, q2: ListQuery,
                                             lo: int, hi: int)
    requires forall b :: Matches(env, q1, b) == Matches(env, q2, b)
    ensures MatchingIds(env, books, q1, lo, hi) == MatchingIds(env, books, q2, lo, hi)
    decreases hi - lo
  {
    if lo < hi {
      SameFilterSameIds(env, books, q1, q2, lo + 1, hi);
    }
  }

  /** `obtenerLibros`: the matching books ordered by name, one page of them,
      and the page numbers, page size and match count. */
  function ListBooks(env: Env, s: Store, q: ListQuery): (r: Result<BookPage>)
    ensures r.Ok? && r.status == OK
    ensures var p := r.value.paginacion;
      && p.paginaActual >= 1
      && 1 <= p.librosPorPagina <= Paging.MAX_LIMIT
      && (IdsInRange(s) ==> p.totalLibros == |MatchingSet(env, s, q)|)
      && p.totalLibros >= 0
      && p.paginaMaxima == Paging.TotalPages(p.totalLibros, p.librosPorPagina)
    ensures |r.value.libros| <= r.value.paginacion.librosPorPagina
    ensures forall row :: row in r.value.libros ==>
      row.id in s.books && s.books[row.id].nombre == row.nombre && Matches(env, q, s.books[row.id])
    ensures HidesDisabled(q) ==> forall row :: row in r.value.libros ==> s.books[row.id].activo
    ensures Sorting.Sorted(r.value.libros, ByName)
    ensures r.value.paginacion.paginaActual > r.value.paginacion.paginaMaxima ==> r.value.libros == []
    ensures IdsInRange(s) && r.value.paginacion.paginaActual == 1
            && r.value.paginacion.totalLibros <= r.value.paginacion.librosPorPagina ==>
      forall id :: id in MatchingSet(env, s, q) ==> BookRow(id, s.books[id].nombre) in r.value.libros
    ensures r.value.paginacion.paginaActual == Paging.PageNumber(q.page)
    ensures r.value.paginacion.librosPorPagina == Paging.PageSize(q.limit)
    ensures WindowOfOrdered(r.value.libros, MatchingRows(env, s, q), Paging.PageNumber(q.page), Paging.PageSize(q.limit))
  {
    PaginationFacts(env, s, q);
    RowFacts(env, s, q);
    ListingWindow(env, s, q);
    Ok(OK, Listing(env, s, q))
  }

  /** The page `obtenerLibros` builds: match, order by name, cut one window. */
  function Listing(env: Env, s: Store, q: ListQuery): (listing: BookPage) {
    var ids := MatchingIds(env, s.books, q, 1, s.nextBookId);
    var sorted := Sorting.Sort(MatchingRows(env, s, q), ByName);
    var page := Paging.PageNumber(q.page);
    var limit := Paging.PageSize(q.limit);
    BookPage(Paging.Window(sorted, page, limit),
             Paginacion(page, Paging.TotalPages(|ids|, limit), limit, |ids|))
  }

  /** `libros` is page `page` of `rows` put in name order: the `ORDER BY`
      is applied to all rows before the `OFFSET` and `LIMIT` cut the page.
      Rows of equal name may come in either order. */
  ghost predicate WindowOfOrdered(libros: seq<BookRow>, rows: seq<BookRow>, page: int, limit: int)
    requires page >= 1 && limit >= 1
  {
    exists sorted ::
      && multiset(sorted) == multiset(rows)
      && Sorting.Sorted(sorted, ByName)
      && libros == Paging.Window(sorted, page, limit)
  }

  lemma ListingWindow(env: Env, s: Store, q: ListQuery)
    ensures WindowOfOrdered(Listing(env, s, q).libros, MatchingRows(env, s, q),
                            Paging.PageNumber(q.page), Paging.PageSize(q.limit))
  {
    var sorted := Sorting.Sort(MatchingRows(env, s, q), ByName);
    ByNameTotal();
    assert Sorting.Sorted(sorted, ByName);
  }

  /** Pages follow each other in name order: each row of an earlier page
      sorts no later than each row of a later page of the same listing. */
  lemma EarlierPagesFirst(env: Env, s: Store, q: ListQuery, p1: int, p2: int)
    requires 1 <= p1 < p2
    ensures var a := ListBooks(env, s, q.(page := Some(p1))).value.libros;
      var b := ListBooks(env, s, q.(page := Some(p2))).value.libros;
      forall x, y :: x in a && y in b ==> ByName(x, y)
  {
    var q1 := q.(page := Some(p1));
    var q2 := q.(page := Some(p2));
    SameFilterSameIds(env, s.books, q, q1, 1, s.nextBookId);
    SameFilterSameIds(env, s.books, q, q2, 1, s.nextBookId);
    assert MatchingRows(env, s, q1) == MatchingRows(env, s, q) == MatchingRows(env, s, q2);
    var sorted := Sorting.Sort(MatchingRows(env, s, q), ByName);
    var limit := Paging.PageSize(q.limit);
    assert ListBooks(env, s, q1).value.libros == Paging.Window(sorted, p1, limit);
    assert ListBooks(env, s, q2).value.libros == Paging.Window(sorted, p2, limit);
    ByNameTotal();
    ByNameTransitive();
    WindowsInOrder(sorted, ByName, p1, p2, limit);
  }

  /** In an ordered list, an earlier window's elements come no later than a
      later window's. */
  lemma WindowsInOrder<T(!new)>(sorted: seq<T>, le: (T, T) -> bool, p1: int, p2: int, limit: int)
    requires Sorting.Sorted(sorted, le) && Sorting.Transitive(le)
    requires 1 <= p1 < p2 && limit >= 1
    ensures forall x, y :: x in Paging.Window(sorted, p1, limit) && y in Paging.Window(sorted, p2, limit) ==> le(x, y)
  {
    var a := Paging.Window(sorted, p1, limit);
    var b := Paging.Window(sorted, p2, limit);
    var o1 := Paging.Offset(p1, limit);
    var o2 := Paging.Offset(p2, limit);
    Paging.OffsetsOrdered(p1, p2, limit);
    forall x, y | x in a && y in b ensures le(x, y) {
      var i :| 0 <= i < |a| && a[i] == x;
      var j :| 0 <= j < |b| && b[j] == y;
      assert a[i] == sorted[o1 + i] && b[j] == sorted[o2 + j];
      Sorting.SortedPairwise(sorted, le, o1 + i, o2 + j);
    }
  }

  lemma PaginationFacts(env: Env, s: Store, q: ListQuery)
    ensures var p := Listing(env, s, q).paginacion;
      && p.paginaActual == Paging.PageNumber(q.page)
      && p.librosPorPagina == Paging.PageSize(q.limit)
      && p.paginaActual >= 1
      && 1 <= p.librosPorPagina <= Paging.MAX_LIMIT
      && (IdsInRange(s) ==> p.totalLibros == |MatchingSet(env, s, q)|)
      && p.totalLibros >= 0
      && p.paginaMaxima == Paging.TotalPages(p.totalLibros, p.librosPorPagina)
  {
    var ids := MatchingIds(env, s.books, q, 1, s.nextBookId);
    var limit := Paging.PageSize(q.limit);
    var pages := Paging.TotalPages(|ids|, limit);
    assert Listing(env, s, q).paginacion == Paginacion(Paging.PageNumber(q.page), pages, limit, |ids|);
    if IdsInRange(s) {
      MatchCount(env, s, q, ids);
    }
  }

  lemma RowFacts(env: Env, s: Store, q: ListQuery)
    ensures var r := Listing(env, s, q);
      && |r.libros| <= r.paginacion.librosPorPagina
      && (forall row :: row in r.libros ==>
            row.id in s.books && s.books[row.id].nombre == row.nombre && Matches(env, q, s.books[row.id]))
      && Sorting.Sorted(r.libros, ByName)
      && (r.paginacion.paginaActual > r.paginacion.paginaMaxima ==> r.libros == [])
      && (IdsInRange(s) && r.paginacion.paginaActual == 1 && r.paginacion.totalLibros <= r.paginacion.librosPorPagina ==>
            forall id :: id in MatchingSet(env, s, q) ==> BookRow(id, s.books[id].nombre) in r.libros)
  {
    var ids := MatchingIds(env, s.books, q, 1, s.nextBookId);
    var rows := Rows(s.books, ids);
    var sorted := Sorting.Sort(rows, ByName);
    var page := Paging.PageNumber(q.page);
    var limit := Paging.PageSize(q.limit);
    var libros := Paging.Window(sorted, page, limit);
    ListBooksFacts(env, s, q, ids, rows, sorted, page, limit, libros);
  }

  lemma ListBooksFacts(env: Env, s: Store, q: ListQuery, ids: seq<int>, rows: seq<BookRow>,
                       sorted: seq<BookRow>, page: int, limit: int, libros: seq<BookRow>)
    requires ids == MatchingIds(env, s.books, q, 1, s.nextBookId)
    requires rows == Rows(s.books, ids)
    requires sorted == Sorting.Sort(rows, ByName)
    requires page >= 1 && limit >= 1
    requires libros == Paging.Window(sorted, page, limit)
    ensures IdsInRange(s) ==> |ids| == |MatchingSet(env, s, q)|
    ensures |sorted| == |ids|
    ensures forall row :: row in libros ==>
      row.id in s.books && s.books[row.id].nombre == row.nombre && Matches(env, q, s.books[row.id])
    ensures Sorting.Sorted(libros, ByName)
    ensures page > Paging.TotalPages(|ids|, limit) ==> libros == []
    ensures IdsInRange(s) && page == 1 && |ids| <= limit ==>
      forall id :: id in MatchingSet(env, s, q) ==> BookRow(id, s.books[id].nombre) in libros
  {
    ByNameTotal();
    assert multiset(sorted) == multiset(rows) && Sorting.Sorted(sorted, ByName);
    assert |sorted| == |multiset(sorted)| == |multiset(rows)| == |rows|;
    if IdsInRange(s) {
      MatchCount(env, s, q, ids);
    }
    RowsSound(env, s, q, ids, rows, sorted, page, limit, libros);
    WindowSorted(sorted, page, limit);
    if page > Paging.TotalPages(|ids|, limit) {
      Paging.PastLastPageEmpty(sorted, page, limit);
    }
    if IdsInRange(s) && page == 1 && |ids| <= limit {
      FirstPageComplete(env, s, q, ids, rows, sorted, limit);
    }
  }

  lemma MatchCount(env: Env, s: Store, q: ListQuery, ids: seq<int>)
    requires IdsInRange(s)
    requires ids == MatchingIds(env, s.books, q, 1, s.nextBookId)
    ensures |ids| == |MatchingSet(env, s, q)|
  {
    assert (set x | x in ids) == MatchingSet(env, s, q);
    IncreasingCard(ids);
  }

  lemma RowsSound(env: Env, s: Store, q: ListQuery, ids: seq<int>, rows: seq<BookRow>,
                  sorted: seq<BookRow>, page: int, limit: int, libros: seq<BookRow>)
    requires ids == MatchingIds(env, s.books, q, 1, s.nextBookId)
    requires rows == Rows(s.books, ids)
    requires multiset(sorted) == multiset(rows)
    requires page >= 1 && limit >= 1
    requires libros == Paging.Window(sorted, page, limit)
    ensures forall row :: row in libros ==>
      row.id in s.books && s.books[row.id].nombre == row.nombre && Matches(env, q, s.books[row.id])
  {
    forall row | row in libros
      ensures row.id in s.books && s.books[row.id].nombre == row.nombre && Matches(env, q, s.books[row.id])
    {
      assert row in sorted;
      assert row in multiset(rows);
      var i :| 0 <= i < |rows| && rows[i] == row;
      assert ids[i] in ids;
    }
  }

  lemma WindowSorted(sorted: seq<BookRow>, page: int, limit: int)
    requires Sorting.Sorted(sorted, ByName)
    requires page >= 1 && limit >= 1
    ensures Sorting.Sorted(Paging.Window(sorted, page, limit), ByName)
  {
    var libros := Paging.Window(sorted, page, limit);
    var off := Paging.Offset(page, limit);
    if off < |sorted| {
      Sorting.SortedSlice(sorted, ByName, off, off + |libros|);
      assert libros == sorted[off..off + |libros|];
    }
  }

  lemma FirstPageComplete(env: Env, s: Store, q: ListQuery, ids: seq<int>, rows: seq<BookRow>,
                          sorted: seq<BookRow>, limit: int)
    requires IdsInRange(s)
    requires ids == MatchingIds(env, s.books, q, 1, s.nextBookId)
    requires rows == Rows(s.books, ids)
    requires multiset(sorted) == multiset(rows)
    requires limit >= 1 && |ids| <= limit
    ensures forall id :: id in MatchingSet(env, s, q) ==>
      BookRow(id, s.books[id].nombre) in Paging.Window(sorted, 1, limit)
  {
    assert |sorted| == |rows|;
    assert Paging.Window(sorted, 1, limit) == sorted;
    forall id | id in MatchingSet(env, s, q)
      ensures BookRow(id, s.books[id].nombre) in sorted
    {
      assert id in ids;
      var i :| 0 <= i < |ids| && ids[i] == id;
      assert rows[i] == BookRow(id, s.books[id].nombre);
      assert rows[i] in multiset(rows);
    }
  }

  /** The listing and the lookup read `includeDisabled` differently: any
      value other than absent, empty or `'false'` lists an inactive book,
      while the lookup shows it only for exactly `'true'`. */
  lemma IncludeDisabledReadDifferently(env: Env, s: Store, id: int, q: ListQuery)
    requires id in s.books && !s.books[id].activo
    requires q.includeDisabled == Some("yes")
    ensures !HidesDisabled(q)
    ensures GetBook(s, id, q.includeDisabled).Err?
  {
  }

  // ---------------------------------------------------------------- update

  /** Whether the update touches a descriptive field (nombre, autor, genero,
      fechaPublicacion, editorial), which needs `modificar_libros`. */
  predicate TouchesInformation(p: BookPatch) {
    p.nombre.Some? || p.autor.Some? || p.genero.Some? || p.fechaPublicacion.Some? || p.editorial.Some?
  }

  /** `b` with exactly the supplied fields overwritten; a `disponible` that
      is not a boolean leaves availability alone. */
  function ApplyPatch(b: Book, p: BookPatch): (b': Book) {
    Book(p.nombre.GetOr(b.nombre), p.autor.GetOr(b.autor), p.genero.GetOr(b.genero),
         p.fechaPublicacion.GetOr(b.fechaPublicacion), p.editorial.GetOr(b.editorial),
         if p.disponible.Some? && p.disponible.value.Bool? then p.disponible.value.value else b.disponible,
         b.activo)
  }

  /** `actualizarLibro`: 400 on validation errors, 404 for an absent book
      (inactive books are found), then 403 if a descriptive field is supplied
      without `modificar_libros`; otherwise the supplied fields are written. */
  function UpdateBook(s: Store, actor: Actor, errors: seq<string>, id: int, p: BookPatch): (o: Step<BookOut>)
    ensures errors != [] ==> o == Step(Err(BAD_REQUEST, Invalid(errors)), s)
    ensures errors == [] && id !in s.books ==> o == Step(Err(NOT_FOUND, Message(BOOK_NOT_FOUND)), s)
    ensures errors == [] && id in s.books && TouchesInformation(p)
            && Auth.MODIFICAR_LIBROS !in actor.user.permisos ==>
      o == Step(Err(FORBIDDEN, Message(CANNOT_EDIT_INFO)), s)
    ensures !TouchesInformation(p) ==> o.result.status != FORBIDDEN
    ensures o.result.Err? ==> o.store == s
    ensures o.result.Ok? <==> (&& errors == [] && id in s.books
                               && (TouchesInformation(p) ==> Auth.MODIFICAR_LIBROS in actor.user.permisos)
                               && !(p.disponible.Some? && p.disponible.value.NonBoolean?))
    ensures o.result.Ok? ==>
      && o.result.status == OK
      && o.result.value.id == id
      && id in o.store.books
      && o.store.books[id] == o.result.value.book
      && o.store.books[id] == ApplyPatch(s.books[id], p)
      && OnlyBookChanged(s, o.store, id)
    ensures Valid(s) ==> Valid(o.store)
  {
    if errors != [] then Step(Err(BAD_REQUEST, Invalid(errors)), s)
    else if id !in s.books then Step(Err(NOT_FOUND, Message(BOOK_NOT_FOUND)), s)
    else if TouchesInformation(p) && Auth.MODIFICAR_LIBROS !in actor.user.permisos then
      Step(Err(FORBIDDEN, Message(CANNOT_EDIT_INFO)), s)
    else if p.disponible.Some? && p.disponible.value.NonBoolean? then
      // the BOOLEAN column rejects the value
      Step(Err(SERVER_ERROR, Message(COLUMN_REJECTED)), s)
    else
      var b := ApplyPatch(s.books[id], p);
      Step(Ok(OK, BookOut(id, b)), s.(books := s.books[id := b]))
  }

  /** Changing only availability never asks for `modificar_libros`: any
      authenticated user may set `disponible` of any existing book. */
  lemma AvailabilityOnlyUpdateUngated(s: Store, actor: Actor, id: int, v: bool)
    requires id in s.books
    ensures var o := UpdateBook(s, actor, [], id, BookPatch(None, None, None, None, None, Some(Bool(v))));
      && o.result.Ok?
      && o.store.books[id] == s.books[id].(disponible := v)
  {
  }

  // --------------------------------------------------------------- disable

  /** `deshabilitarLibro`: 404 for an absent book, else the book becomes
      inactive and unavailable and nothing else changes. */
  function DisableBook(s: Store, id: int): (o: Step<Ack>)
    ensures id !in s.books ==> o == Step(Err(NOT_FOUND, Message(BOOK_NOT_FOUND)), s)
    ensures id in s.books ==>
      && o.result == Ok(OK, Ack)
      && id in o.store.books
      && o.store.books[id] == s.books[id].(activo := false, disponible := false)
      && OnlyBookChanged(s, o.store, id)
    ensures Valid(s) ==> Valid(o.store)
  {
    if id !in s.books then Step(Err(NOT_FOUND, Message(BOOK_NOT_FOUND)), s)
    else Step(Ok(OK, Ack), s.(books := s.books[id := s.books[id].(activo := false, disponible := false)]))
  }

  /** Disabling twice leaves the same database as disabling once. */
  lemma DisableIdempotent(s: Store, id: int)
    ensures DisableBook(DisableBook(s, id).store, id).store == DisableBook(s, id).store
    ensures DisableBook(DisableBook(s, id).store, id).result == DisableBook(s, id).result
  {
    var s1 := DisableBook(s, id).store;
    if id in s.books {
      assert s1.books[id := s1.books[id].(activo := false, disponible := false)] == s1.books;
    }
  }

  /** A disabled book can no longer be found by default, listed by default,
      or reserved. */
  lemma DisabledBookHidden(env: Env, s: Store, id: int, q: ListQuery, actor: Actor, now: int)
    requires id in s.books && HidesDisabled(q)
    ensures var s1 := DisableBook(s, id).store;
      && GetBook(s1, id, None).Err?
      && !Matches(env, q, s1.books[id])
      && ReserveBook(s1, actor, id, now).result == Err(NOT_FOUND, Message(BOOK_NOT_FOUND))
  {
  }

  // --------------------------------------------------------------- reserve

  /** `reservarLibro`: 404 unless the book exists and is active, 400 when it
      is unavailable; otherwise one reservation by the acting user is
      appended and the book becomes unavailable. */
  function ReserveBook(s: Store, actor: Actor, libroId: int, now: int): (o: Step<Reservation>)
    ensures (libroId !in s.books || !s.books[libroId].activo) ==>
      o == Step(Err(NOT_FOUND, Message(BOOK_NOT_FOUND)), s)
    ensures libroId in s.books && s.books[libroId].activo && !s.books[libroId].disponible ==>
      o == Step(Err(BAD_REQUEST, Message(BOOK_UNAVAILABLE)), s)
    ensures o.result.Ok? <==> libroId in s.books && s.books[libroId].activo && s.books[libroId].disponible
    ensures o.result.Ok? ==>
      && o.result.status == CREATED
      && o.result.value == Reservation(actor.id, libroId, now, None)
      && o.store.reservations == s.reservations + [o.result.value]
      && o.store.books == s.books[libroId := s.books[libroId].(disponible := false)]
      && o.store.users == s.users
      && o.store.nextBookId == s.nextBookId && o.store.nextUserId == s.nextUserId
    ensures Valid(s) && actor.id in s.users ==> Valid(o.store)
  {
    if libroId !in s.books || !s.books[libroId].activo then
      Step(Err(NOT_FOUND, Message(BOOK_NOT_FOUND)), s)
    else if !s.books[libroId].disponible then
      Step(Err(BAD_REQUEST, Message(BOOK_UNAVAILABLE)), s)
    else
      var reserva := Reservation(actor.id, libroId, now, None);
      Step(Ok(CREATED, reserva),
           s.(reservations := s.reservations + [reserva],
              books := s.books[libroId := s.books[libroId].(disponible := false)]))
  }

  /** Once reserved, the same book cannot be reserved again, by anyone. */
  lemma SecondReserveRejected(s: Store, a: Actor, b: Actor, libroId: int, t1: int, t2: int)
    requires ReserveBook(s, a, libroId, t1).result.Ok?
    ensures ReserveBook(ReserveBook(s, a, libroId, t1).store, b, libroId, t2).result
            == Err(BAD_REQUEST, Message(BOOK_UNAVAILABLE))
  {
  }
}
