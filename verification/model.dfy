/** The three tables of the library (`libros`, `usuarios`, `reservas`) as an
    immutable in-memory store, the field defaults the table definitions
    declare, and the foreign primitives (password hashing, token signing,
    format validators, calendar days) as uninterpreted oracles. */
module Model {
  import opened Base

  /** A row of `libros`. `fechaPublicacion` is kept as the text the client sent. */
  datatype Book = Book(
    nombre: string,
    autor: string,
    genero: string,
    fechaPublicacion: string,
    editorial: string,
    disponible: bool,
    activo: bool)

  /** A row of `usuarios`; `password` holds the stored hash, never the plain text. */
  datatype User = User(
    nombre: string,
    email: string,
    password: string,
    permisos: seq<string>,
    activo: bool)

  /** A row of `reservas`: who reserved which book and when. `fechaEntrega`
      (the return date) is nullable and no operation ever sets it. */
  datatype Reservation = Reservation(
    usuarioId: int,
    libroId: int,
    fechaReserva: int,
    fechaEntrega: Option<int>)

  /** The database: books and users by primary key, reservations in insertion
      order, and the next value of each auto-increment id. */
  datatype Store = Store(
    books: map<int, Book>,
    users: map<int, User>,
    reservations: seq<Reservation>,
    nextBookId: int,
    nextUserId: int)

  /** What a handler leaves behind: its answer and the database after it. */
  datatype Step<+T> = Step(result: Result<T>, store: Store)

  /** The authenticated user of a request, as loaded by the middleware. */
  datatype Actor = Actor(id: int, user: User)

  /** Primitives the code calls but does not define. `hash` is bcrypt with its
      salt folded in, `compare(plain, stored)` is bcrypt's check, `sign(id,
      email)` issues a 24-hour token, `verify(token)` is the id the token
      asserts or None when it is malformed, expired or badly signed. */
  datatype Env = Env(
    hash: string -> string,
    compare: (string, string) -> bool,
    sign: (int, string) -> string,
    verify: string -> Option<int>,
    isEmail: string -> bool,
    isIso8601: string -> bool,
    sameDay: (string, string) -> bool)

  /** A new book row: available and active unless told otherwise. */
  function NewBook(nombre: string, autor: string, genero: string,
                   fechaPublicacion: string, editorial: string): (b: Book)
    ensures b.disponible && b.activo
    ensures b.nombre == nombre && b.autor == autor && b.genero == genero
    ensures b.fechaPublicacion == fechaPublicacion && b.editorial == editorial
  {
    Book(nombre, autor, genero, fechaPublicacion, editorial, true, true)
  }

  /** A new user row: active, with the permissions given. */
  function NewUser(nombre: string, email: string, password: string, permisos: seq<string>): (u: User)
    ensures u.activo
    ensures u.nombre == nombre && u.email == email && u.password == password && u.permisos == permisos
  {
    User(nombre, email, password, permisos, true)
  }

  /** The empty database; auto-increment ids start at 1. */
  const EmptyStore: Store := Store(map[], map[], [], 1, 1)

  /** Every stored id was handed out by its counter. */
  predicate IdsInRange(s: Store) {
    && s.nextBookId >= 1 && s.nextUserId >= 1
    && (forall id :: id in s.books ==> 1 <= id < s.nextBookId)
    && (forall id :: id in s.users ==> 1 <= id < s.nextUserId)
  }

  /** The `unique: true` constraint on `usuarios.email`. */
  predicate UniqueEmails(users: map<int, User>) {
    forall a, b :: a in users && b in users && users[a].email == users[b].email ==> a == b
  }

  /** Every reservation points at an existing user and book (the foreign keys). */
  predicate ReferencesExist(s: Store) {
    forall i :: 0 <= i < |s.reservations| ==>
      s.reservations[i].libroId in s.books && s.reservations[i].usuarioId in s.users
  }

  /** The database invariants every handler keeps. */
  predicate Valid(s: Store) {
    IdsInRange(s) && UniqueEmails(s.users) && ReferencesExist(s)
  }

  lemma EmptyStoreValid()
    ensures Valid(EmptyStore)
  {
  }

  /** Only the book `id` may differ between `s` and `s'`; no row is added. */
  predicate OnlyBookChanged(s: Store, s': Store, id: int) {
    && s'.users == s.users && s'.reservations == s.reservations
    && s'.nextBookId == s.nextBookId && s'.nextUserId == s.nextUserId
    && s'.books.Keys == s.books.Keys
    && forall k :: k in s.books && k != id ==> s'.books[k] == s.books[k]
  }

  /** Only the user `id` may differ between `s` and `s'`; no row is added. */
  predicate OnlyUserChanged(s: Store, s': Store, id: int) {
    && s'.books == s.books && s'.reservations == s.reservations
    && s'.nextBookId == s.nextBookId && s'.nextUserId == s.nextUserId
    && s'.users.Keys == s.users.Keys
    && forall k :: k in s.users && k != id ==> s'.users[k] == s.users[k]
  }

  /** The lowest id in [lo, hi) whose user has email `e`, scanning like a
      `findOne({ where: { email } })` over the table. */
  function FindEmailFrom(users: map<int, User>, e: string, lo: int, hi: int): (r: Option<int>)
    ensures r.Some? ==> lo <= r.value < hi && r.value in users && users[r.value].email == e
    ensures r.Some? ==> forall id :: lo <= id < r.value && id in users ==> users[id].email != e
    ensures r.None? ==> forall id :: lo <= id < hi && id in users ==> users[id].email != e
    decreases hi - lo
  {
    if lo >= hi then None
    else if lo in users && users[lo].email == e then Some(lo)
    else FindEmailFrom(users, e, lo + 1, hi)
  }

  /** `Usuario.findOne({ where: { email } })`. */
  function FindUserByEmail(s: Store, e: string): (r: Option<int>)
    ensures r.Some? ==> r.value in s.users && s.users[r.value].email == e
    ensures IdsInRange(s) && r.None? ==> forall id :: id in s.users ==> s.users[id].email != e
  {
    FindEmailFrom(s.users, e, 1, s.nextUserId)
  }
}
