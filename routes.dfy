/** The access policy of every route: the guards each handler lists in
    `@UseGuards`, run in that order, and the allow-list of `@Roles`. The
    token guard rejects a caller without a valid bearer token; the role
    guard rejects a role outside the allow-list. The role is not in the
    token's claims, so it reaches the policy as its own input. */
module Routes {
  import opened Common

  datatype Role = Regular | Administrador

  /** Who sends a request: nobody with a valid token, or an authenticated
      user whose stored role is `role`. */
  datatype Caller = Anonymous | Bearer(role: Role)

  datatype Guard = JwtAuthGuard | RolesGuard

  datatype Route =
    | AuthLogin
    | UsersCreate | UsersList | UsersGet | UsersDelete
    | MoviesList | MoviesGet | MoviesCreate | MoviesUpdate | MoviesDelete | MoviesSync

  /** The routes of MoviesController. */
  predicate IsMovieRoute(route: Route) {
    route in {MoviesList, MoviesGet, MoviesCreate, MoviesUpdate, MoviesDelete, MoviesSync}
  }

  /** The `@UseGuards` list of each handler; the auth and user routes have none. */
  function Guards(route: Route): (r: seq<Guard>)
    ensures |r| > 0 <==> IsMovieRoute(route)
    ensures |r| > 0 ==> r[0] == JwtAuthGuard
    ensures RolesGuard in r <==> AllowList(route) != {}
  {
    match route
    case MoviesList => [JwtAuthGuard]
    case MoviesGet | MoviesCreate | MoviesUpdate | MoviesDelete | MoviesSync => [JwtAuthGuard, RolesGuard]
    case _ => []
  }

  /** The `@Roles` allow-list of each handler that has one. */
  function AllowList(route: Route): (r: set<Role>)
    ensures r != {} ==> IsMovieRoute(route) && Administrador in r
    ensures Regular in r <==> route == MoviesGet
  {
    match route
    case MoviesGet => {Regular, Administrador}
    case MoviesCreate | MoviesUpdate | MoviesDelete | MoviesSync => {Administrador}
    case _ => {}
  }

  /** One guard's verdict: no error lets the request go on. */
  function Check(guard: Guard, allowed: set<Role>, caller: Caller): (r: Option<Error>)
    ensures guard.JwtAuthGuard? ==> (r.None? <==> caller.Bearer?)
    ensures guard.RolesGuard? ==> (r.None? <==> caller.Bearer? && caller.role in allowed)
    ensures r.Some? ==> r.value == (if guard.JwtAuthGuard? then Unauthenticated else Forbidden)
  {
    match guard
    case JwtAuthGuard => if caller.Anonymous? then Some(Unauthenticated) else None
    case RolesGuard => if caller.Bearer? && caller.role in allowed then None else Some(Forbidden)
  }

  /** The guards run in their declared order; the first rejection ends the request. */
  function RunGuards(guards: seq<Guard>, allowed: set<Role>, caller: Caller): (r: Option<Error>)
    ensures r.None? <==> forall i :: 0 <= i < |guards| ==> Check(guards[i], allowed, caller).None?
    ensures |guards| > 0 && Check(guards[0], allowed, caller).Some? ==> r == Check(guards[0], allowed, caller)
    ensures r.Some? ==> exists i :: 0 <= i < |guards| && r == Check(guards[i], allowed, caller)
                                    && forall j :: 0 <= j < i ==> Check(guards[j], allowed, caller).None?
    ensures r.Some? ==> r == Some(Unauthenticated) || r == Some(Forbidden)
  {
    if |guards| == 0 then None
    else
      var first := Check(guards[0], allowed, caller);
      if first.Some? then
        assert first == Some(Unauthenticated) || first == Some(Forbidden);
        first
      else
        var rest := RunGuards(guards[1..], allowed, caller);
        assert forall i :: 1 <= i < |guards| ==> guards[i] == guards[1..][i - 1];
        if rest.Some? then
          var i :| 0 <= i < |guards| - 1 && rest == Check(guards[1..][i], allowed, caller)
                   && forall j :: 0 <= j < i ==> Check(guards[1..][j], allowed, caller).None?;
          assert rest == Check(guards[i + 1], allowed, caller);
          rest
        else rest
  }

  /** The verdict on a request to `route`; no error means the handler runs. */
  function Authorize(route: Route, caller: Caller): (r: Option<Error>)
    ensures r.None? <==> !IsMovieRoute(route) || (caller.Bearer? && (route == MoviesList || caller.role in AllowList(route)))
    ensures r.Some? ==> (r.value == Unauthenticated <==> caller.Anonymous?)
  {
    RunGuards(Guards(route), AllowList(route), caller)
  }

  /** The policy the decorations declare, stated directly: a movie route
      needs a token, and one with an allow-list also needs a role in it;
      the token is checked first. */
  lemma AuthorizeIsTheDeclaredPolicy(route: Route, caller: Caller)
    ensures var isMovie := IsMovieRoute(route);
      Authorize(route, caller) ==
        if isMovie && caller.Anonymous? then Some(Unauthenticated)
        else if isMovie && route != MoviesList && caller.role !in AllowList(route) then Some(Forbidden)
        else None
  {
  }

  /** Without a valid token every movie route answers Unauthorized, even
      one whose allow-list would reject the caller anyway. */
  lemma MovieRoutesNeedAToken(route: Route)
    requires |Guards(route)| > 0
    ensures Authorize(route, Anonymous) == Some(Unauthenticated)
  {
  }

  /** Listing movies needs only a token; any role passes. */
  lemma ListingNeedsOnlyAToken(role: Role)
    ensures Authorize(MoviesList, Bearer(role)).None?
  {
  }

  /** Both roles may read one movie. */
  lemma BothRolesReadAMovie(role: Role)
    ensures Authorize(MoviesGet, Bearer(role)).None?
  {
  }

  /** Creating, updating, deleting and synchronising movies is for the
      Administrador role: a Regular user is Forbidden, an Administrador passes. */
  lemma WritesAreForAdministrador(route: Route)
    requires route in {MoviesCreate, MoviesUpdate, MoviesDelete, MoviesSync}
    ensures Authorize(route, Bearer(Regular)) == Some(Forbidden)
    ensures Authorize(route, Bearer(Administrador)).None?
  {
  }

  /** No auth or user route is guarded: every caller, with or without a
      token, reaches the handler. */
  lemma UserRoutesAreOpen(route: Route, caller: Caller)
    requires route in {AuthLogin, UsersCreate, UsersList, UsersGet, UsersDelete}
    ensures Authorize(route, caller).None?
  {
  }
}
