/** `get_movie` and `get_poster`: building the movie-database query for a
    movie file and downloading its poster. The movie database and the HTTP
    client are parameters: a lookup from a query to a record, nothing, or an
    exception, and a GET from a URL to a status code (or a transport error). */
module Metadata {
  import opened Wrappers
  import opened MovieFiles

  /** The provider's record: the fields the player reads by name, the rest
      passed through untouched. */
  datatype Info = Info(title: string, plot: string, actors: string, poster: string, others: map<string, string>)

  /** A record as the player stores it: the provider's record plus the local
      poster path (`poster_file`), absent when there is none. */
  datatype Movie = Movie(info: Info, posterFile: Option<string>)

  /** The keyword arguments of the lookup. */
  datatype Query = Query(title: string, year: Option<string>, fullPlot: bool, tomatoes: bool)

  datatype HttpReply = TransportError | Reply(status: int)

  /** What the database client does with a query: it raises (the client's
      errors are not caught anywhere in the player), or it answers with a
      record or with nothing (an empty answer, which is falsy). */
  datatype DbReply = Raised | Answer(record: Option<Info>)

  /** The exception the database client raised for a query. */
  datatype ClientError = ClientError(query: Query)

  /** The outside services: the movie database and HTTP GET. */
  datatype Services = Services(lookup: Query -> DbReply, get: string -> HttpReply)

  /** The provider's sentinel for a record without a poster. */
  const NotAvailable := "N/A"

  const Ok200 := 200

  /** Where a poster is written: the raw literal r'posters\\' keeps both
      backslashes, then the stem of the movie file and ".jpg". */
  function PosterPath(fileName: string): string {
    "posters\\\\" + fileName + ".jpg"
  }

  /** Whether `get_poster` sent a request, and the `poster_file` it recorded. */
  datatype PosterOutcome = PosterOutcome(requested: bool, posterFile: Option<string>)

  /** `get_poster`: the sentinel means no request and no file; a transport
      error or any status but 200 means no file; otherwise the body is saved
      under a path made from the stem, whatever the URL. */
  function GetPoster(fileName: string, url: string, get: string -> HttpReply): (r: PosterOutcome)
    ensures r.requested <==> url != NotAvailable
    ensures r.posterFile.Some? <==> url != NotAvailable && get(url) == Reply(Ok200)
    ensures r.posterFile.Some? ==> r.posterFile.value == PosterPath(fileName)
  {
    if url == NotAvailable then PosterOutcome(false, None)
    else match get(url)
      case TransportError => PosterOutcome(true, None)
      case Reply(status) =>
        if status != Ok200 then PosterOutcome(true, None)
        else PosterOutcome(true, Some(PosterPath(fileName)))
  }

  /** A successful download lands at the same path whatever the URL, so
      downloading again for the same stem overwrites the same file. */
  lemma PosterPathIgnoresUrl(fileName: string, url1: string, url2: string, get: string -> HttpReply)
    requires GetPoster(fileName, url1, get).posterFile.Some?
    requires GetPoster(fileName, url2, get).posterFile.Some?
    ensures GetPoster(fileName, url1, get).posterFile == GetPoster(fileName, url2, get).posterFile
  {
  }

  /** Different stems never share a poster file. */
  lemma PosterPathsDistinct(a: string, b: string)
    requires a != b
    ensures PosterPath(a) != PosterPath(b)
  {
    var pa := PosterPath(a);
    var pb := PosterPath(b);
    assert pa[9..|pa| - 4] == a;
    assert pb[9..|pb| - 4] == b;
  }

  /** The lookup's keyword arguments: the title, the full plot and the
      tomato ratings always, the year only when the file name gave one. */
  function MovieQuery(m: MovieFile): (q: Query)
    ensures q.title == m.title && q.fullPlot && q.tomatoes
    ensures q.year.Some? <==> m.year.Some?
    ensures m.year.Some? ==> q.year == m.year
  {
    Query(m.title, m.year, true, true)
  }

  /** `get_movie`: look the movie up; an exception of the client propagates,
      an empty answer is returned as it is, and a record gets the poster
      outcome attached. */
  function GetMovie(m: MovieFile, services: Services): (r: Result<Option<Movie>, ClientError>)
    ensures r.Err? <==> services.lookup(MovieQuery(m)).Raised?
    ensures r.Err? ==> r.error == ClientError(MovieQuery(m))
    ensures r.Ok? ==> (r.value.Some? <==> services.lookup(MovieQuery(m)).record.Some?)
    ensures r.Ok? && r.value.Some? ==> r.value.value.info == services.lookup(MovieQuery(m)).record.value
    ensures r.Ok? && r.value.Some? ==> (r.value.value.posterFile.Some? <==>
      r.value.value.info.poster != NotAvailable && services.get(r.value.value.info.poster) == Reply(Ok200))
    ensures r.Ok? && r.value.Some? && r.value.value.posterFile.Some? ==>
      r.value.value.posterFile.value == PosterPath(m.fileName)
  {
    match services.lookup(MovieQuery(m))
    case Raised => Err(ClientError(MovieQuery(m)))
    case Answer(None) => Ok(None)
    case Answer(Some(info)) => Ok(Some(Movie(info, GetPoster(m.fileName, info.poster, services.get).posterFile)))
  }
}
