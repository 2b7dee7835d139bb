/** The reservation history views: every reservation of a book (or by a user),
    newest first, with the other party's name left-joined in and replaced by
    a sentinel when that party is hidden. */
module ReservationController {
  import opened Base
  import opened Model
  import Sorting
  import BookController

  const USER_REMOVED: string := "Usuario eliminado"
  const BOOK_REMOVED: string := "Libro eliminado"

  /** One history line: the other party's name and the two dates, unchanged. */
  datatype Entry = Entry(nombre: string, fechaReserva: int, fechaEntrega: Option<int>)

  /** The book history answer; each entry's `nombre` is `nombrePersona`. */
  datatype BookHistory = BookHistory(libroId: int, historial: seq<Entry>)

  /** The user history answer; each entry's `nombre` is `nombreLibro`. */
  datatype UserHistory = UserHistory(usuarioId: int, historial: seq<Entry>)

  /** The left join on `usuarios` (restricted to active rows unless all are
      asked for): the user's name, or the sentinel when no row joins. */
  function PersonName(s: Store, usuarioId: int, all: bool): (nombre: string) {
    if usuarioId in s.users && (all || s.users[usuarioId].activo) then s.users[usuarioId].nombre
    else USER_REMOVED
  }

  /** The same left join on `libros`. */
  function TitleName(s: Store, libroId: int, all: bool): (nombre: string) {
    if libroId in s.books && (all || s.books[libroId].activo) then s.books[libroId].nombre
    else BOOK_REMOVED
  }

  /** The positions of the reservations the `where` clause selects. */
  ghost function Selected(rs: seq<Reservation>, keep: Reservation -> bool): set<int> {
    set i | 0 <= i < |rs| && keep(rs[i])
  }

  /** Entry `e` is the projection of a selected reservation. */
  ghost predicate ProjectsSome(rs: seq<Reservation>, keep: Reservation -> bool,
                               name: Reservation -> string, e: Entry) {
    exists i :: 0 <= i < |rs| && keep(rs[i]) && e == Entry(name(rs[i]), rs[i].fechaReserva, rs[i].fechaEntrega)
  }

  /** The positions of the selected reservations whose projection is `e`. */
  ghost function Occurrences(rs: seq<Reservation>, keep: Reservation -> bool,
                             name: Reservation -> string, e: Entry): set<int> {
    set i | 0 <= i < |rs| && keep(rs[i]) && Entry(name(rs[i]), rs[i].fechaReserva, rs[i].fechaEntrega) == e
  }

  /** One entry for each selected reservation, in table order: each entry
      occurs exactly as often as selected reservations project to it. */
  function Project(rs: seq<Reservation>, keep: Reservation -> bool, name: Reservation -> string): (es: seq<Entry>)
    ensures |es| == |Selected(rs, keep)|
    ensures forall e :: e in es <==> ProjectsSome(rs, keep, name, e)
    ensures forall e :: multiset(es)[e] == |Occurrences(rs, keep, name, e)|
    decreases |rs|
  {
    if |rs| == 0 then []
    else
      var n := |rs| - 1;
      var front := Project(rs[..n], keep, name);
      var r := rs[n];
      ProjectStep(rs, keep, name, front);
      ProjectStepOccurrences(rs, keep, name, front);
      if keep(r) then front + [Entry(name(r), r.fechaReserva, r.fechaEntrega)] else front
  }

  lemma ProjectStepOccurrences(rs: seq<Reservation>, keep: Reservation -> bool, name: Reservation -> string,
                               front: seq<Entry>)
    requires |rs| > 0
    requires forall e :: multiset(front)[e] == |Occurrences(rs[..|rs| - 1], keep, name, e)|
    ensures var r := rs[|rs| - 1];
      var es := if keep(r) then front + [Entry(name(r), r.fechaReserva, r.fechaEntrega)] else front;
      forall e :: multiset(es)[e] == |Occurrences(rs, keep, name, e)|
  {
    var n := |rs| - 1;
    var r := rs[n];
    var x := Entry(name(r), r.fechaReserva, r.fechaEntrega);
    var es := if keep(r) then front + [x] else front;
    forall e ensures multiset(es)[e] == |Occurrences(rs, keep, name, e)| {
      OccurrencesStep(rs, keep, name, e);
      if keep(r) {
        assert multiset(es) == multiset(front) + multiset{x};
      }
    }
  }

  /** Extending the table by one row adds that row's position to the
      occurrences of its own projection, and to no other. */
  lemma OccurrencesStep(rs: seq<Reservation>, keep: Reservation -> bool, name: Reservation -> string, e: Entry)
    requires |rs| > 0
    ensures var n := |rs| - 1;
      var r := rs[n];
      |Occurrences(rs, keep, name, e)|
        == |Occurrences(rs[..n], keep, name, e)|
           + (if keep(r) && Entry(name(r), r.fechaReserva, r.fechaEntrega) == e then 1 else 0)
  {
    var n := |rs| - 1;
    var r := rs[n];
    var before := Occurrences(rs[..n], keep, name, e);
    var after := Occurrences(rs, keep, name, e);
    assert forall i :: i in before <==> i in after && i != n;
    if keep(r) && Entry(name(r), r.fechaReserva, r.fechaEntrega) == e {
      assert after == before + {n};
    } else {
      assert after == before;
    }
  }

  lemma ProjectStep(rs: seq<Reservation>, keep: Reservation -> bool, name: Reservation -> string, front: seq<Entry>)
    requires |rs| > 0
    requires |front| == |Selected(rs[..|rs| - 1], keep)|
    requires forall e :: e in front <==> ProjectsSome(rs[..|rs| - 1], keep, name, e)
    ensures var r := rs[|rs| - 1];
      var es := if keep(r) then front + [Entry(name(r), r.fechaReserva, r.fechaEntrega)] else front;
      && |es| == |Selected(rs, keep)|
      && forall e :: e in es <==> ProjectsSome(rs, keep, name, e)
  {
    var n := |rs| - 1;
    var r := rs[n];
    var es := if keep(r) then front + [Entry(name(r), r.fechaReserva, r.fechaEntrega)] else front;
    var before := Selected(rs[..n], keep);
    if keep(r) {
      assert Selected(rs, keep) == before + {n};
      assert n !in before;
    } else {
      assert Selected(rs, keep) == before;
    }
    forall e ensures e in es <==> ProjectsSome(rs, keep, name, e) {
      if e in es {
        if e in front {
          var i :| 0 <= i < n && keep(rs[..n][i]) && e == Entry(name(rs[..n][i]), rs[..n][i].fechaReserva, rs[..n][i].fechaEntrega);
          assert rs[i] == rs[..n][i];
        } else {
          assert keep(rs[n]) && e == Entry(name(rs[n]), rs[n].fechaReserva, rs[n].fechaEntrega);
        }
      }
      if ProjectsSome(rs, keep, name, e) {
        var i :| 0 <= i < |rs| && keep(rs[i]) && e == Entry(name(rs[i]), rs[i].fechaReserva, rs[i].fechaEntrega);
        if i < n {
          assert rs[..n][i] == rs[i];
          assert ProjectsSome(rs[..n], keep, name, e);
        }
      }
    }
  }

  /** `ORDER BY fechaReserva DESC`. */
  function NewestFirst(a: Entry, b: Entry): bool {
    a.fechaReserva >= b.fechaReserva
  }

  lemma NewestFirstTotal()
    ensures Sorting.Total(NewestFirst)
  {
  }

  /** Newest first, one entry per selected reservation, nothing else. */
  function History(rs: seq<Reservation>, keep: Reservation -> bool, name: Reservation -> string): (h: seq<Entry>)
    ensures Sorting.Sorted(h, NewestFirst)
    ensures |h| == |Selected(rs, keep)|
    ensures forall e :: e in h <==> ProjectsSome(rs, keep, name, e)
    ensures forall e :: multiset(h)[e] == |Occurrences(rs, keep, name, e)|
  {
    var es := Project(rs, keep, name);
    var h := Sorting.Sort(es, NewestFirst);
    NewestFirstTotal();
    assert |h| == |multiset(h)| == |multiset(es)| == |es|;
    assert multiset(h) == multiset(es);
    assert forall e :: e in h <==> e in es by {
      forall e ensures e in h <==> e in es {
        assert e in h <==> e in multiset(h);
        assert e in es <==> e in multiset(es);
      }
    }
    h
  }

  /** Instantiates the generic projection facts for the book history. */
  lemma BookSelection(s: Store, libroId: int, all: bool, h: seq<Entry>)
    requires var keep := (r: Reservation) => r.libroId == libroId;
      var name := (r: Reservation) => PersonName(s, r.usuarioId, all);
      && |h| == |Selected(s.reservations, keep)|
      && forall e :: e in h <==> ProjectsSome(s.reservations, keep, name, e)
    ensures |h| == |set i | 0 <= i < |s.reservations| && s.reservations[i].libroId == libroId|
    ensures forall e :: e in h <==>
        exists i :: 0 <= i < |s.reservations| && s.reservations[i].libroId == libroId
                 && e == Entry(PersonName(s, s.reservations[i].usuarioId, all),
                               s.reservations[i].fechaReserva, s.reservations[i].fechaEntrega)
  {
    var rs := s.reservations;
    var keep := (r: Reservation) => r.libroId == libroId;
    var name := (r: Reservation) => PersonName(s, r.usuarioId, all);
    assert Selected(rs, keep) == set i | 0 <= i < |rs| && rs[i].libroId == libroId;
    forall e ensures ProjectsSome(rs, keep, name, e) <==>
        exists i :: 0 <= i < |rs| && rs[i].libroId == libroId
                 && e == Entry(PersonName(s, rs[i].usuarioId, all), rs[i].fechaReserva, rs[i].fechaEntrega)
    {
      if ProjectsSome(rs, keep, name, e) {
        var i :| 0 <= i < |rs| && keep(rs[i]) && e == Entry(name(rs[i]), rs[i].fechaReserva, rs[i].fechaEntrega);
        assert rs[i].libroId == libroId;
      }
      if exists i :: 0 <= i < |rs| && rs[i].libroId == libroId
                 && e == Entry(PersonName(s, rs[i].usuarioId, all), rs[i].fechaReserva, rs[i].fechaEntrega) {
        var i :| 0 <= i < |rs| && rs[i].libroId == libroId
                 && e == Entry(PersonName(s, rs[i].usuarioId, all), rs[i].fechaReserva, rs[i].fechaEntrega);
        assert keep(rs[i]) && name(rs[i]) == PersonName(s, rs[i].usuarioId, all);
      }
    }
  }

  /** Instantiates the generic projection facts for the user history. */
  lemma UserSelection(s: Store, usuarioId: int, all: bool, h: seq<Entry>)
    requires var keep := (r: Reservation) => r.usuarioId == usuarioId;
      var name := (r: Reservation) => TitleName(s, r.libroId, all);
      && |h| == |Selected(s.reservations, keep)|
      && forall e :: e in h <==> ProjectsSome(s.reservations, keep, name, e)
    ensures |h| == |set i | 0 <= i < |s.reservations| && s.reservations[i].usuarioId == usuarioId|
    ensures forall e :: e in h <==>
        exists i :: 0 <= i < |s.reservations| && s.reservations[i].usuarioId == usuarioId
                 && e == Entry(TitleName(s, s.reservations[i].libroId, all),
                               s.reservations[i].fechaReserva, s.reservations[i].fechaEntrega)
  {
    var rs := s.reservations;
    var keep := (r: Reservation) => r.usuarioId == usuarioId;
    var name := (r: Reservation) => TitleName(s, r.libroId, all);
    assert Selected(rs, keep) == set i | 0 <= i < |rs| && rs[i].usuarioId == usuarioId;
    forall e ensures ProjectsSome(rs, keep, name, e) <==>
        exists i :: 0 <= i < |rs| && rs[i].usuarioId == usuarioId
                 && e == Entry(TitleName(s, rs[i].libroId, all), rs[i].fechaReserva, rs[i].fechaEntrega)
    {
      if ProjectsSome(rs, keep, name, e) {
        var i :| 0 <= i < |rs| && keep(rs[i]) && e == Entry(name(rs[i]), rs[i].fechaReserva, rs[i].fechaEntrega);
        assert rs[i].usuarioId == usuarioId;
      }
      if exists i :: 0 <= i < |rs| && rs[i].usuarioId == usuarioId
                 && e == Entry(TitleName(s, rs[i].libroId, all), rs[i].fechaReserva, rs[i].fechaEntrega) {
        var i :| 0 <= i < |rs| && rs[i].usuarioId == usuarioId
                 && e == Entry(TitleName(s, rs[i].libroId, all), rs[i].fechaReserva, rs[i].fechaEntrega);
        assert keep(rs[i]) && name(rs[i]) == TitleName(s, rs[i].libroId, all);
      }
    }
  }

  /** The occurrences of an entry in the book history, as a set of positions
      in the reservations table. */
  lemma BookOccurrences(s: Store, libroId: int, all: bool, e: Entry)
    ensures Occurrences(s.reservations, (r: Reservation) => r.libroId == libroId,
                        (r: Reservation) => PersonName(s, r.usuarioId, all), e)
         == set i | 0 <= i < |s.reservations| && s.reservations[i].libroId == libroId
                    && Entry(PersonName(s, s.reservations[i].usuarioId, all),
                             s.reservations[i].fechaReserva, s.reservations[i].fechaEntrega) == e
  {
  }

  /** The occurrences of an entry in the user history. */
  lemma UserOccurrences(s: Store, usuarioId: int, all: bool, e: Entry)
    ensures Occurrences(s.reservations, (r: Reservation) => r.usuarioId == usuarioId,
                        (r: Reservation) => TitleName(s, r.libroId, all), e)
         == set i | 0 <= i < |s.reservations| && s.reservations[i].usuarioId == usuarioId
                    && Entry(TitleName(s, s.reservations[i].libroId, all),
                             s.reservations[i].fechaReserva, s.reservations[i].fechaEntrega) == e
  {
  }

  /** `historialLibro`: always 200, even for an id no book has. */
  function HistoryForBook(s: Store, libroId: int, includeDisabled: Option<string>): (r: Result<BookHistory>)
    ensures r.Ok? && r.status == OK && r.value.libroId == libroId
    ensures Sorting.Sorted(r.value.historial, NewestFirst)
    ensures |r.value.historial| == |set i | 0 <= i < |s.reservations| && s.reservations[i].libroId == libroId|
    ensures var all := includeDisabled == Some("true");
      forall e :: e in r.value.historial <==>
        exists i :: 0 <= i < |s.reservations| && s.reservations[i].libroId == libroId
                 && e == Entry(PersonName(s, s.reservations[i].usuarioId, all),
                               s.reservations[i].fechaReserva, s.reservations[i].fechaEntrega)
    ensures var all := includeDisabled == Some("true");
      forall e :: multiset(r.value.historial)[e]
        == |set i | 0 <= i < |s.reservations| && s.reservations[i].libroId == libroId
                    && Entry(PersonName(s, s.reservations[i].usuarioId, all),
                             s.reservations[i].fechaReserva, s.reservations[i].fechaEntrega) == e|
  {
    var all := includeDisabled == Some("true");
    var keep := (r: Reservation) => r.libroId == libroId;
    var name := (r: Reservation) => PersonName(s, r.usuarioId, all);
    var h := History(s.reservations, keep, name);
    BookSelection(s, libroId, all, h);
    forall e ensures multiset(h)[e]
        == |set i | 0 <= i < |s.reservations| && s.reservations[i].libroId == libroId
                    && Entry(PersonName(s, s.reservations[i].usuarioId, all),
                             s.reservations[i].fechaReserva, s.reservations[i].fechaEntrega) == e|
    {
      BookOccurrences(s, libroId, all, e);
    }
    Ok(OK, BookHistory(libroId, h))
  }

  /** `historialUsuario`: the same view from the user's side, naming books. */
  function HistoryForUser(s: Store, usuarioId: int, includeDisabled: Option<string>): (r: Result<UserHistory>)
    ensures r.Ok? && r.status == OK && r.value.usuarioId == usuarioId
    ensures Sorting.Sorted(r.value.historial, NewestFirst)
    ensures |r.value.historial| == |set i | 0 <= i < |s.reservations| && s.reservations[i].usuarioId == usuarioId|
    ensures var all := includeDisabled == Some("true");
      forall e :: e in r.value.historial <==>
        exists i :: 0 <= i < |s.reservations| && s.reservations[i].usuarioId == usuarioId
                 && e == Entry(TitleName(s, s.reservations[i].libroId, all),
                               s.reservations[i].fechaReserva, s.reservations[i].fechaEntrega)
    ensures var all := includeDisabled == Some("true");
      forall e :: multiset(r.value.historial)[e]
        == |set i | 0 <= i < |s.reservations| && s.reservations[i].usuarioId == usuarioId
                    && Entry(TitleName(s, s.reservations[i].libroId, all),
                             s.reservations[i].fechaReserva, s.reservations[i].fechaEntrega) == e|
  {
    var all := includeDisabled == Some("true");
    var keep := (r: Reservation) => r.usuarioId == usuarioId;
    var name := (r: Reservation) => TitleName(s, r.libroId, all);
    var h := History(s.reservations, keep, name);
    UserSelection(s, usuarioId, all, h);
    forall e ensures multiset(h)[e]
        == |set i | 0 <= i < |s.reservations| && s.reservations[i].usuarioId == usuarioId
                    && Entry(TitleName(s, s.reservations[i].libroId, all),
                             s.reservations[i].fechaReserva, s.reservations[i].fechaEntrega) == e|
    {
      UserOccurrences(s, usuarioId, all, e);
    }
    Ok(OK, UserHistory(usuarioId, h))
  }

  /** A book id no book has yields an empty history, not a 404. */
  lemma UnknownBookEmptyHistory(s: Store, libroId: int, includeDisabled: Option<string>)
    requires Valid(s) && libroId !in s.books
    ensures HistoryForBook(s, libroId, includeDisabled) == Ok(OK, BookHistory(libroId, []))
  {
    var h := HistoryForBook(s, libroId, includeDisabled).value.historial;
    assert (set i | 0 <= i < |s.reservations| && s.reservations[i].libroId == libroId) == {};
  }

  /** A user id no user has yields an empty history, not a 404. */
  lemma UnknownUserEmptyHistory(s: Store, usuarioId: int, includeDisabled: Option<string>)
    requires Valid(s) && usuarioId !in s.users
    ensures HistoryForUser(s, usuarioId, includeDisabled) == Ok(OK, UserHistory(usuarioId, []))
  {
    var h := HistoryForUser(s, usuarioId, includeDisabled).value.historial;
    assert (set i | 0 <= i < |s.reservations| && s.reservations[i].usuarioId == usuarioId) == {};
  }

  /** A disabled user's reservations stay in the book history, under the
      sentinel name unless disabled accounts are asked for. */
  lemma HiddenUserShownAsRemoved(s: Store, i: int)
    requires 0 <= i < |s.reservations|
    requires var u := s.reservations[i].usuarioId; u in s.users && !s.users[u].activo
    ensures var r := s.reservations[i];
      Entry(USER_REMOVED, r.fechaReserva, r.fechaEntrega) in HistoryForBook(s, r.libroId, None).value.historial
  {
  }

  /** A successful reservation shows up in the book's history under the
      reserving user's name, with its date and no return date. */
  lemma ReservationInHistory(s: Store, actor: Actor, libroId: int, now: int)
    requires actor.id in s.users && s.users[actor.id].activo
    requires BookController.ReserveBook(s, actor, libroId, now).result.Ok?
    ensures var s' := BookController.ReserveBook(s, actor, libroId, now).store;
      Entry(s.users[actor.id].nombre, now, None) in HistoryForBook(s', libroId, None).value.historial
  {
    var s' := BookController.ReserveBook(s, actor, libroId, now).store;
    var n := |s.reservations|;
    assert s'.reservations[n] == Reservation(actor.id, libroId, now, None);
  }
}
