/** The movie catalog (MoviesService): a table of movies keyed by a
    generated id, with listing, lookup, creation, partial update and
    removal. There is no uniqueness on titles. The pure functions say what
    one call does to the table; the class MoviesService keeps the table in
    fields and updates them in place. */
module Movies {
  import opened Common
  import opened Decimal

  /** A row of the `movies` table. The score is a float column; the model
      carries it as an opaque number and never computes with it. */
  datatype Movie = Movie(id: int, title: string, year: int, director: string, genres: seq<string>, score: real)

  /** The body of `POST /movies`. */
  datatype CreateMovieDto = CreateMovieDto(title: string, year: int, director: string, genres: seq<string>, score: real)

  /** The body of `PATCH /movies/:id`: every field optional. */
  datatype UpdateMovieDto = UpdateMovieDto(
    title: Option<string>, year: Option<int>, director: Option<string>,
    genres: Option<seq<string>>, score: Option<real>)

  /** The rows by id, and the id the next insert gets (the serial column
      starts at 1 and never hands out an id twice). */
  datatype Catalog = Catalog(rows: map<int, Movie>, nextId: int)

  /** The range of the `integer` column that holds the id. */
  const MinInt4: int := -2147483648
  const MaxInt4: int := 2147483647

  predicate InInt4(i: int) {
    MinInt4 <= i <= MaxInt4
  }

  /** A patch whose year, if it sets one, fits the `integer` column. */
  predicate YearFits(p: UpdateMovieDto) {
    p.year.None? || InInt4(p.year.value)
  }

  /** Every row is stored under its own id, every id is below the counter,
      the counter is at most one past the column's largest value, and every
      stored year fits its column. */
  predicate Invariant(c: Catalog) {
    && 1 <= c.nextId <= MaxInt4 + 1
    && forall id :: id in c.rows ==> c.rows[id].id == id && 1 <= id < c.nextId && InInt4(c.rows[id].year)
  }

  /** The empty catalog the application starts with. */
  const Empty: Catalog := Catalog(map[], 1)

  /** The message of the NotFound raised for an unknown id. */
  function NotFoundMessage(id: int): (r: string)
    ensures |r| > 24 && r[..14] == "Movie with ID " && r[|r| - 10..] == " not found"
    ensures id >= 0 ==> IsDecimal(r[14..|r| - 10]) && ToNumber(r[14..|r| - 10]) == id
  {
    var digits := IntToDecimal(id);
    var r := "Movie with ID " + digits + " not found";
    assert r[14..|r| - 10] == digits;
    r
  }

  /** The message names the id: two different ids never share a message. */
  lemma NotFoundMessageNamesTheId(a: int, b: int)
    requires NotFoundMessage(a) == NotFoundMessage(b)
    ensures a == b
  {
    var ma, mb := NotFoundMessage(a), NotFoundMessage(b);
    assert IntToDecimal(a) == ma[14..|ma| - 10];
    assert IntToDecimal(b) == mb[14..|mb| - 10];
    IntToDecimalInjective(a, b);
  }

  /** `findAll()`: the stored movies. */
  function FindAll(c: Catalog): (r: set<Movie>)
    requires Invariant(c)
    ensures forall m :: m in r <==> m.id in c.rows && c.rows[m.id] == m
  {
    set id | id in c.rows :: c.rows[id]
  }

  /** The error of a query for an id that no row has: NotFound, unless the
      id does not fit the column, in which case the database rejects the
      query itself. */
  function Missing(id: int): (e: Error)
    ensures e.NotFound? <==> InInt4(id)
    ensures InInt4(id) ==> e == NotFound(NotFoundMessage(id))
    ensures !InInt4(id) ==> e == QueryFailed
  {
    if InInt4(id) then NotFound(NotFoundMessage(id)) else QueryFailed
  }

  /** `findOne(id)`: the movie with that id, or NotFound; an id outside
      the column's range fails the query. */
  function FindOne(c: Catalog, id: int): (r: Result<Movie>)
    requires Invariant(c)
    ensures r.Ok? <==> id in c.rows
    ensures r.Ok? ==> r.value.id == id && r.value == c.rows[id]
    ensures r.Err? && InInt4(id) ==> r.error == NotFound(NotFoundMessage(id))
    ensures r.Err? && !InInt4(id) ==> r.error == QueryFailed
  {
    if !InInt4(id) then Err(QueryFailed)
    else if id in c.rows then Ok(c.rows[id])
    else Err(NotFound(NotFoundMessage(id)))
  }

  /** The row `preload({ id, ...patch })` builds: the stored movie with every
      field the patch names replaced. */
  function Patched(m: Movie, p: UpdateMovieDto): (r: Movie)
    ensures r.id == m.id
    ensures r.title == (if p.title.Some? then p.title.value else m.title)
    ensures r.year == (if p.year.Some? then p.year.value else m.year)
    ensures r.director == (if p.director.Some? then p.director.value else m.director)
    ensures r.genres == (if p.genres.Some? then p.genres.value else m.genres)
    ensures r.score == (if p.score.Some? then p.score.value else m.score)
  {
    Movie(
      m.id,
      if p.title.Some? then p.title.value else m.title,
      if p.year.Some? then p.year.value else m.year,
      if p.director.Some? then p.director.value else m.director,
      if p.genres.Some? then p.genres.value else m.genres,
      if p.score.Some? then p.score.value else m.score)
  }

  /** What `create(dto)` does: a new row with the body's fields under an
      id no row has. The insert fails and nothing changes once the id
      sequence has handed out the column's largest value, or when the year
      does not fit its `integer` column. */
  function CreateStep(c: Catalog, dto: CreateMovieDto): (r: (Result<Movie>, Catalog))
    requires Invariant(c)
    ensures Invariant(r.1)
    ensures r.0.Err? <==> c.nextId > MaxInt4 || !InInt4(dto.year)
    ensures r.0.Err? ==> r.0.error == QueryFailed && r.1 == c
    ensures r.0.Ok? ==> r.1.nextId == c.nextId + 1
    ensures r.0.Ok? ==> var m := r.0.value;
      && m.id !in c.rows
      && m.title == dto.title && m.year == dto.year && m.director == dto.director
      && m.genres == dto.genres && m.score == dto.score
      && r.1.rows.Keys == c.rows.Keys + {m.id}
      && r.1.rows[m.id] == m
      && forall id :: id in c.rows ==> r.1.rows[id] == c.rows[id]
  {
    if c.nextId > MaxInt4 || !InInt4(dto.year) then (Err(QueryFailed), c)
    else
      var m := Movie(c.nextId, dto.title, dto.year, dto.director, dto.genres, dto.score);
      (Ok(m), Catalog(c.rows[m.id := m], c.nextId + 1))
  }

  /** What `update(id, patch)` does: the error for a missing id and no
      change; a save that fails because the patched year does not fit its
      column, and no change; otherwise the patched row replaces the stored
      one. The id counter never moves. */
  function UpdateStep(c: Catalog, id: int, p: UpdateMovieDto): (r: (Result<Movie>, Catalog))
    requires Invariant(c)
    ensures Invariant(r.1)
    ensures r.1.nextId == c.nextId
    ensures r.0.Ok? <==> id in c.rows && YearFits(p)
    ensures r.0.Err? ==> r.1 == c
    ensures r.0.Err? && id !in c.rows ==> r.0.error == Missing(id)
    ensures r.0.Err? && id in c.rows ==> r.0.error == QueryFailed
    ensures r.0.Ok? ==>
      && r.0.value == Patched(c.rows[id], p)
      && r.1.rows.Keys == c.rows.Keys
      && r.1.rows[id] == r.0.value
      && forall k :: k in c.rows && k != id ==> r.1.rows[k] == c.rows[k]
  {
    if id !in c.rows then (Err(Missing(id)), c)
    else if !YearFits(p) then (Err(QueryFailed), c)
    else
      var m := Patched(c.rows[id], p);
      (Ok(m), c.(rows := c.rows[id := m]))
  }

  /** What `remove(id)` does: the lookup's error and no change for a
      missing id; otherwise that one row goes. The id counter never moves,
      so a removed id is not handed out again. */
  function RemoveStep(c: Catalog, id: int): (r: (Result<()>, Catalog))
    requires Invariant(c)
    ensures Invariant(r.1)
    ensures r.1.nextId == c.nextId
    ensures r.0.Ok? <==> id in c.rows
    ensures r.0.Err? ==> r.0.error == Missing(id) && r.1 == c
    ensures r.0.Ok? ==> r.1.rows.Keys == c.rows.Keys - {id}
    ensures forall k :: k in r.1.rows ==> r.1.rows[k] == c.rows[k]
  {
    match FindOne(c, id)
    case Err(e) => (Err(e), c)
    case Ok(m) => (Ok(()), c.(rows := c.rows - {m.id}))
  }

  /** Listing and lookup agree: a movie is listed exactly when looking up
      its id returns it. */
  lemma FindAllAgreesWithFindOne(c: Catalog, m: Movie)
    requires Invariant(c)
    ensures m in FindAll(c) <==> FindOne(c, m.id) == Ok(m)
  {
  }

  /** A created movie can be looked up under its new id, and every
      earlier lookup gives what it gave before; an insert that fails
      changes no lookup. */
  lemma CreatedMovieIsFound(c: Catalog, dto: CreateMovieDto)
    requires Invariant(c)
    ensures var (r, c') := CreateStep(c, dto);
      && (r.Ok? ==> FindOne(c', r.value.id) == Ok(r.value))
      && forall id :: (r.Err? || id != r.value.id) ==> FindOne(c', id) == FindOne(c, id)
  {
  }

  /** Titles are not unique: creating the same body twice stores two
      movies with that title under two different ids. */
  lemma DuplicateTitlesAreAllowed(c: Catalog, dto: CreateMovieDto)
    requires Invariant(c) && c.nextId < MaxInt4 && InInt4(dto.year)
    ensures var (r1, c1) := CreateStep(c, dto);
      var (r2, c2) := CreateStep(c1, dto);
      && r1.Ok? && r2.Ok?
      && r1.value.id != r2.value.id && r1.value.title == r2.value.title == dto.title
      && r1.value in FindAll(c2) && r2.value in FindAll(c2)
  {
  }

  /** Updating keeps the id, sets the named fields, leaves the other
      movies alone; applying the same patch again changes nothing more. A
      patch whose year does not fit changes no lookup. */
  lemma UpdatedMovieIsFound(c: Catalog, id: int, p: UpdateMovieDto)
    requires Invariant(c) && id in c.rows
    ensures var (r, c') := UpdateStep(c, id, p);
      && (YearFits(p) ==> FindOne(c', id) == Ok(Patched(c.rows[id], p)))
      && (!YearFits(p) ==> FindOne(c', id) == FindOne(c, id))
      && (forall k :: k != id ==> FindOne(c', k) == FindOne(c, k))
      && UpdateStep(c', id, p) == (r, c')
  {
    var (r, c') := UpdateStep(c, id, p);
    if YearFits(p) {
      assert c'.rows[id := Patched(c'.rows[id], p)] == c'.rows;
    }
  }

  /** A removed id is never handed out again: the next insert gets
      another id. */
  lemma RemovedIdIsNotReissued(c: Catalog, id: int, dto: CreateMovieDto)
    requires Invariant(c) && id in c.rows
    ensures var c' := RemoveStep(c, id).1;
      var r := CreateStep(c', dto).0;
      r.Ok? ==> r.value.id != id
  {
  }

  /** After a removal the id is NotFound and the other movies are as before. */
  lemma RemovedMovieIsGone(c: Catalog, id: int)
    requires Invariant(c)
    ensures var c' := RemoveStep(c, id).1;
      && FindOne(c', id) == Err(Missing(id))
      && forall k :: k != id ==> FindOne(c', k) == FindOne(c, k)
  {
  }

  /** The catalog as a mutable object: `create`, `update` and `remove`
      change the table in place; the lookups read it through the
      functions above. */
  class MoviesService {
    var rows: map<int, Movie>
    var nextId: int

    function State(): Catalog
      reads this
    {
      Catalog(rows, nextId)
    }

    ghost predicate Valid()
      reads this
    {
      Invariant(State())
    }

    constructor ()
      ensures Valid() && State() == Empty
    {
      rows := map[];
      nextId := 1;
    }

    /** `create(dto)`: insert the body as a new row with a fresh id. */
    method Create(dto: CreateMovieDto) returns (r: Result<Movie>)
      requires Valid()
      modifies this
      ensures Valid()
      ensures (r, State()) == CreateStep(old(State()), dto)
      ensures r.Ok? ==> r.value.id !in old(rows) && rows == old(rows)[r.value.id := r.value]
      ensures r.Err? ==> rows == old(rows)
    {
      if nextId > MaxInt4 || !InInt4(dto.year) {
        return Err(QueryFailed);
      }
      var m := Movie(nextId, dto.title, dto.year, dto.director, dto.genres, dto.score);
      rows := rows[m.id := m];
      nextId := nextId + 1;
      r := Ok(m);
    }

    /** `update(id, patch)`: preload the patched row, NotFound when there is
      none, otherwise save it; the save fails for a year that does not fit. */
    method Update(id: int, p: UpdateMovieDto) returns (r: Result<Movie>)
      requires Valid()
      modifies this
      ensures Valid()
      ensures (r, State()) == UpdateStep(old(State()), id, p)
      ensures r.Err? ==> rows == old(rows)
      ensures r.Ok? ==> rows == old(rows)[id := r.value]
      ensures nextId == old(nextId)
    {
      var preloaded: Option<Movie> := if id in rows then Some(Patched(rows[id], p)) else None;
      if preloaded.None? {
        return Err(Missing(id));
      }
      if !InInt4(preloaded.value.year) {
        return Err(QueryFailed);
      }
      rows := rows[id := preloaded.value];
      r := Ok(preloaded.value);
    }

    /** `remove(id)`: look the movie up (NotFound propagates), then delete it. */
    method Remove(id: int) returns (r: Result<()>)
      requires Valid()
      modifies this
      ensures Valid()
      ensures (r, State()) == RemoveStep(old(State()), id)
      ensures r.Ok? ==> rows == old(rows) - {id}
      ensures r.Err? ==> rows == old(rows)
      ensures nextId == old(nextId)
    {
      var found := FindOne(State(), id);
      if found.Err? {
        return Err(found.error);
      }
      rows := rows - {found.value.id};
      r := Ok(());
    }
  }
}
