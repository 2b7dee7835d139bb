/** The `/api/reservas` routes: both history views sit behind the
    authentication middleware and nothing else, so any signed-in user may
    read any book's or any user's history. */
module ReservationRoutes {
  import opened Base
  import opened Model
  import Auth
  import ReservationController

  /** `GET /api/reservas/libro/:libroId`. */
  function GetBookHistory(env: Env, s: Store, header: Option<string>, libroId: int,
                          includeDisabled: Option<string>): (r: Result<ReservationController.BookHistory>)
    ensures Auth.Authenticate(env, s, header).Err? ==>
      r == Err(UNAUTHORIZED, Auth.Authenticate(env, s, header).error)
    ensures Auth.Authenticate(env, s, header).Ok? ==>
      r.Ok? && r.value.libroId == libroId
      && |r.value.historial| == |set i | 0 <= i < |s.reservations| && s.reservations[i].libroId == libroId|
    ensures Auth.Authenticate(env, s, header).Ok? ==>
      r == ReservationController.HistoryForBook(s, libroId, includeDisabled)
  {
    var a := Auth.Authenticate(env, s, header);
    if a.Err? then Err(a.status, a.error)
    else ReservationController.HistoryForBook(s, libroId, includeDisabled)
  }

  /** `GET /api/reservas/usuario/:usuarioId`: no check that the caller is
      the user whose history is read. */
  function GetUserHistory(env: Env, s: Store, header: Option<string>, usuarioId: int,
                          includeDisabled: Option<string>): (r: Result<ReservationController.UserHistory>)
    ensures Auth.Authenticate(env, s, header).Err? ==>
      r == Err(UNAUTHORIZED, Auth.Authenticate(env, s, header).error)
    ensures Auth.Authenticate(env, s, header).Ok? ==>
      r.Ok? && r.value.usuarioId == usuarioId
      && |r.value.historial| == |set i | 0 <= i < |s.reservations| && s.reservations[i].usuarioId == usuarioId|
    ensures Auth.Authenticate(env, s, header).Ok? ==>
      r == ReservationController.HistoryForUser(s, usuarioId, includeDisabled)
  {
    var a := Auth.Authenticate(env, s, header);
    if a.Err? then Err(a.status, a.error)
    else ReservationController.HistoryForUser(s, usuarioId, includeDisabled)
  }

  /** The answer does not depend on who asks, only on whether someone is
      signed in. */
  lemma HistoryIgnoresCaller(env: Env, s: Store, h1: Option<string>, h2: Option<string>,
                             usuarioId: int, includeDisabled: Option<string>)
    requires Auth.Authenticate(env, s, h1).Ok? && Auth.Authenticate(env, s, h2).Ok?
    ensures GetUserHistory(env, s, h1, usuarioId, includeDisabled) == GetUserHistory(env, s, h2, usuarioId, includeDisabled)
  {
  }
}
