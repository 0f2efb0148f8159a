/** The HTTP face of the catalog (MoviesController): each request first
    passes the route's guards, then its handler converts the path id with
    `+id` and returns what the catalog returns. */
module MoviesController {
  import opened Common
  import opened Decimal
  import opened Movies
  import opened Routes

  /** The movie requests with a handler in the model, with their path id
      and body. */
  datatype Request =
    | List
    | Get(id: string)
    | Post(body: CreateMovieDto)
    | Patch(id: string, patch: UpdateMovieDto)
    | Delete(id: string)

  /** What a handler returns. */
  datatype Reply = MovieList(movies: set<Movie>) | OneMovie(movie: Movie) | Removed

  function RouteOf(req: Request): Route {
    match req
    case List => MoviesList
    case Get(_) => MoviesGet
    case Post(_) => MoviesCreate
    case Patch(_, _) => MoviesUpdate
    case Delete(_) => MoviesDelete
  }

  /** Path ids made of decimal digits, the only ones modelled. */
  predicate WellFormed(req: Request) {
    match req
    case Get(id) => IsDecimal(id)
    case Patch(id, _) => IsDecimal(id)
    case Delete(id) => IsDecimal(id)
    case _ => true
  }

  /** The path id as the number the catalog receives: an id written
      without leading zeros is the rendering of that number, and leading
      zeros are ignored. */
  function PathId(req: Request): (n: nat)
    requires WellFormed(req) && (req.Get? || req.Patch? || req.Delete?)
    ensures req.id[0] != '0' || |req.id| == 1 ==> NatToDecimal(n) == req.id
    ensures |req.id| > 1 && req.id[0] == '0' ==> IsDecimal(req.id[1..]) && n == ToNumber(req.id[1..])
  {
    assert req.id[0] != '0' || |req.id| == 1 ==> NatToDecimal(ToNumber(req.id)) == req.id by {
      if req.id[0] != '0' || |req.id| == 1 { DecimalOfToNumber(req.id); }
    }
    ToNumber(req.id)
  }

  /** The handlers: one delegating call each, with `+id` on the path id. */
  function Serve(c: Catalog, req: Request): (r: (Result<Reply>, Catalog))
    requires Invariant(c) && WellFormed(req)
    ensures Invariant(r.1)
    ensures req.List? ==> r == (Ok(MovieList(FindAll(c))), c)
    ensures req.Get? ==>
      && r.1 == c
      && (r.0.Ok? <==> PathId(req) in c.rows)
      && (r.0.Ok? ==> r.0.value == OneMovie(c.rows[PathId(req)]))
      && (r.0.Err? ==> r.0.error == Missing(PathId(req)))
    ensures req.Post? ==> var (m, c') := CreateStep(c, req.body);
      r.1 == c' && (r.0.Ok? <==> m.Ok?) && (m.Ok? ==> r.0.value == OneMovie(m.value)) && (m.Err? ==> r.0.error == m.error)
    ensures req.Patch? ==> var (u, c') := UpdateStep(c, PathId(req), req.patch);
      r.1 == c' && (r.0.Ok? <==> u.Ok?) && (u.Ok? ==> r.0.value == OneMovie(u.value)) && (u.Err? ==> r.0.error == u.error)
    ensures req.Delete? ==> var (d, c') := RemoveStep(c, PathId(req));
      r.1 == c' && (r.0.Ok? <==> d.Ok?) && (r.0.Ok? ==> r.0.value == Removed) && (d.Err? ==> r.0.error == d.error)
  {
    match req
    case List => (Ok(MovieList(FindAll(c))), c)
    case Get(id) =>
      (match FindOne(c, ToNumber(id)) case Ok(m) => Ok(OneMovie(m)) case Err(e) => Err(e), c)
    case Post(body) =>
      var (m, c') := CreateStep(c, body);
      (match m case Ok(m) => Ok(OneMovie(m)) case Err(e) => Err(e), c')
    case Patch(id, patch) =>
      var (u, c') := UpdateStep(c, ToNumber(id), patch);
      (match u case Ok(m) => Ok(OneMovie(m)) case Err(e) => Err(e), c')
    case Delete(id) =>
      var (d, c') := RemoveStep(c, ToNumber(id));
      (match d case Ok(_) => Ok(Removed) case Err(e) => Err(e), c')
  }

  /** A request: the guards first; a rejected request never reaches the
      catalog, an admitted one gets exactly the handler's answer. */
  function Handle(c: Catalog, caller: Caller, req: Request): (r: (Result<Reply>, Catalog))
    requires Invariant(c) && WellFormed(req)
    ensures Invariant(r.1)
    ensures Authorize(RouteOf(req), caller).Some? ==> r == (Err(Authorize(RouteOf(req), caller).value), c)
    ensures Authorize(RouteOf(req), caller).None? ==> r == Serve(c, req)
  {
    match Authorize(RouteOf(req), caller)
    case Some(e) => (Err(e), c)
    case None => Serve(c, req)
  }

  /** A request without a valid token changes nothing and is Unauthorized. */
  lemma AnonymousChangesNothing(c: Catalog, req: Request)
    requires Invariant(c) && WellFormed(req)
    ensures Handle(c, Anonymous, req) == (Err(Unauthenticated), c)
  {
    MovieRoutesNeedAToken(RouteOf(req));
  }

  /** A Regular user cannot create, update or delete: the answer is
      Forbidden and the catalog stays as it was. */
  lemma RegularCannotWrite(c: Catalog, req: Request)
    requires Invariant(c) && WellFormed(req)
    requires req.Post? || req.Patch? || req.Delete?
    ensures Handle(c, Bearer(Regular), req) == (Err(Forbidden), c)
  {
    WritesAreForAdministrador(RouteOf(req));
  }

  /** An Administrador creates a movie and gets it back with a new id; a
      Regular user can then read it at the path written from that id. */
  lemma CreatedMovieCanBeRead(c: Catalog, body: CreateMovieDto, role: Role)
    requires Invariant(c) && c.nextId <= MaxInt4 && InInt4(body.year)
    ensures var (r, c') := Handle(c, Bearer(Administrador), Post(body));
      && r.Ok? && r.value.OneMovie?
      && var m := r.value.movie;
      && m.id !in c.rows && m.title == body.title
      && m.id >= 1
      && Handle(c', Bearer(role), Get(NatToDecimal(m.id))) == (Ok(OneMovie(m)), c')
  {
    WritesAreForAdministrador(MoviesCreate);
    BothRolesReadAMovie(role);
    var (m, c') := CreateStep(c, body);
    ToNumberOfDecimal(m.value.id);
  }

  /** An Administrador's update keeps the id and sets the patched fields. */
  lemma AdministradorUpdates(c: Catalog, id: string, patch: UpdateMovieDto)
    requires Invariant(c) && IsDecimal(id) && ToNumber(id) in c.rows && YearFits(patch)
    ensures var (r, c') := Handle(c, Bearer(Administrador), Patch(id, patch));
      && r == Ok(OneMovie(Patched(c.rows[ToNumber(id)], patch)))
      && r.value.movie.id == ToNumber(id)
      && c'.rows[ToNumber(id)] == r.value.movie
  {
    WritesAreForAdministrador(MoviesUpdate);
  }

  /** After an Administrador deletes a movie, looking its id up answers
      NotFound to either role. */
  lemma DeletedMovieIsNotFound(c: Catalog, id: string, role: Role)
    requires Invariant(c) && IsDecimal(id) && ToNumber(id) in c.rows
    ensures var (r, c') := Handle(c, Bearer(Administrador), Delete(id));
      && r == Ok(Removed)
      && Handle(c', Bearer(role), Get(id)) == (Err(NotFound(NotFoundMessage(ToNumber(id)))), c')
      && c'.rows.Keys == c.rows.Keys - {ToNumber(id)}
  {
    WritesAreForAdministrador(MoviesDelete);
    BothRolesReadAMovie(role);
  }

  /** Looking up, updating or deleting an unknown id changes nothing; the
      answer is NotFound for an id the `integer` column can hold, and a
      failed query for a longer one. */
  lemma UnknownIdIsNotFound(c: Catalog, caller: Caller, req: Request)
    requires Invariant(c) && WellFormed(req)
    requires (req.Get? || req.Patch? || req.Delete?) && PathId(req) !in c.rows
    requires Authorize(RouteOf(req), caller).None?
    ensures PathId(req) <= MaxInt4 ==> Handle(c, caller, req) == (Err(NotFound(NotFoundMessage(PathId(req)))), c)
    ensures PathId(req) > MaxInt4 ==> Handle(c, caller, req) == (Err(QueryFailed), c)
  {
  }
}
