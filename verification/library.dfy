/** The start-up pass of the player: pick the movie files out of the
    directory listing, sort them, make a `MovieFile` of each, fill the
    metadata cache for keys it does not hold yet, and lay out the playlist
    with its index-to-key map. The persistent store is a map, and each
    insertion is committed at once, so a pass that stops early keeps what it
    inserted before stopping. */
module Library {
  import opened Wrappers
  import opened Text
  import opened Ordering
  import opened MovieFiles
  import opened Metadata

  /** `movie_file_extentions`. */
  const MovieExtensions: seq<string> := ["ISO", "MP4", "AVI", "WMV"]

  /** The last '.'-segment of the name, upper-cased, is a movie extension. */
  predicate IsMovieName(f: string) {
    var parts := Split(f, '.');
    Upper(parts[|parts| - 1]) in MovieExtensions
  }

  /** A name without any '.' is its own last segment, so it passes the filter
      exactly when the whole name, upper-cased, is a movie extension: a file
      named "avi" is taken for a movie. */
  lemma MovieNameWithoutDot(f: string)
    requires Find(f, '.') < 0
    ensures IsMovieName(f) <==> Upper(f) in MovieExtensions
  {
  }

  /** The filter of the list comprehension: each movie name as often as it is
      listed, nothing else. */
  function KeepMovies(listing: seq<string>): (r: seq<string>)
    ensures forall f :: multiset(r)[f] == if IsMovieName(f) then multiset(listing)[f] else 0
  {
    if |listing| == 0 then []
    else
      var rest := KeepMovies(listing[1..]);
      assert listing == [listing[0]] + listing[1..];
      if IsMovieName(listing[0]) then [listing[0]] + rest else rest
  }

  /** `filelist` after `sort()`: the movie names of the listing in ascending order. */
  function MovieNames(listing: seq<string>): (r: seq<string>)
    ensures Sorted(r)
    ensures forall f :: multiset(r)[f] == if IsMovieName(f) then multiset(listing)[f] else 0
  {
    Sort(KeepMovies(listing))
  }

  /** A name is kept exactly when it is listed and is a movie name, and no
      other ordering of the kept names is sorted. */
  lemma MovieNamesExactly(listing: seq<string>, f: string)
    ensures f in MovieNames(listing) <==> f in listing && IsMovieName(f)
    ensures forall other :: Sorted(other) && multiset(other) == multiset(KeepMovies(listing)) ==> other == MovieNames(listing)
  {
    var r := MovieNames(listing);
    assert f in r <==> multiset(r)[f] > 0;
    assert f in listing <==> multiset(listing)[f] > 0;
    forall other | Sorted(other) && multiset(other) == multiset(KeepMovies(listing))
      ensures other == r
    {
      SortedUnique(other, r);
    }
  }

  // ------------------------------------------------------------ the cache

  /** One call of the movie database made by the pass: for which key, with
      which query, and what `get_movie` gave (the client's exception, or the
      record or nothing). */
  datatype Lookup = Lookup(key: string, query: Query, result: Result<Option<Movie>, ClientError>)

  /** The lookup gave a record. */
  predicate Found(l: Lookup) {
    l.result.Ok? && l.result.value.Some?
  }

  /** No lookup raised. */
  predicate AllAnswered(lookups: seq<Lookup>) {
    forall i :: 0 <= i < |lookups| ==> lookups[i].result.Ok?
  }

  /** The cache step for one movie file: a key already cached is left alone
      and costs no lookup; otherwise the database is asked once and its
      record, if it gave one, is stored under the key. */
  function Resolve(movies: map<string, Movie>, m: MovieFile, services: Services): (r: (map<string, Movie>, seq<Lookup>))
    ensures m.dbIdx in movies ==> r == (movies, [])
    ensures m.dbIdx !in movies ==> r.1 == [Lookup(m.dbIdx, MovieQuery(m), GetMovie(m, services))]
    ensures forall k :: k in movies ==> k in r.0 && r.0[k] == movies[k]
    ensures forall k :: k in r.0 && k !in movies ==> k == m.dbIdx && GetMovie(m, services) == Ok(Some(r.0[k]))
    ensures m.dbIdx !in movies && GetMovie(m, services).Ok? && GetMovie(m, services).value.Some? ==> m.dbIdx in r.0
  {
    if m.dbIdx in movies then (movies, [])
    else
      var fetched := GetMovie(m, services);
      var movies' := if fetched.Ok? && fetched.value.Some? then movies[m.dbIdx := fetched.value.value] else movies;
      (movies', [Lookup(m.dbIdx, MovieQuery(m), fetched)])
  }

  /** The movie files made from `names`, in order, up to the first name
      without a '.', and the error that name raised, if one did: an error is
      reported exactly when the list stops short of the names. */
  function ParseAll(names: seq<string>): (r: (seq<MovieFile>, Option<ParseError>))
    ensures |r.0| <= |names|
    ensures r.1.None? <==> |r.0| == |names|
  {
    if |names| == 0 then ([], None)
    else match Parse(names[0])
      case Err(e) => ([], Some(e))
      case Ok(m) =>
        var rest := ParseAll(names[1..]);
        ([m] + rest.0, rest.1)
  }

  /** The files are the parses of the names in order, and the error, if
      any, is that of the name right after them. */
  lemma {:induction false} ParseAllInOrder(names: seq<string>)
    ensures var r := ParseAll(names);
      forall i {:trigger Parse(names[i])} :: 0 <= i < |r.0| ==> Parse(names[i]) == Ok(r.0[i])
    ensures var r := ParseAll(names);
      r.1.Some? ==> Parse(names[|r.0|]) == Err(r.1.value)
    decreases |names|
  {
    if |names| > 0 && Parse(names[0]).Ok? {
      var rest := ParseAll(names[1..]);
      ParseAllInOrder(names[1..]);
      ShiftOk(names, Parse, Parse(names[0]).value, rest.0);
      if rest.1.Some? {
        assert names[1..][|rest.0|] == names[|rest.0| + 1];
      }
    }
  }

  /** A result for the first input followed by results for the rest are
      results for all the inputs. */
  lemma ShiftOk<A, B, E>(xs: seq<A>, f: A -> Result<B, E>, m: B, ys: seq<B>)
    requires 0 < |xs| && f(xs[0]) == Ok(m) && |ys| < |xs|
    requires forall i :: 0 <= i < |ys| ==> f(xs[1..][i]) == Ok(ys[i])
    ensures forall i :: 0 <= i < |ys| + 1 ==> f(xs[i]) == Ok(([m] + ys)[i])
  {
    forall i | 0 <= i < |ys| + 1
      ensures f(xs[i]) == Ok(([m] + ys)[i])
    {
      if i > 0 {
        assert xs[i] == xs[1..][i - 1];
      }
    }
  }

  /** The names all parse exactly when `ParseAll` reports no error. */
  lemma ParseAllReportsAnyError(names: seq<string>)
    ensures ParseAll(names).1.None? <==> forall k :: 0 <= k < |names| ==> Parse(names[k]).Ok?
  {
    ParseAllInOrder(names);
  }

  /** The cache steps over a list of movie files: the final cache, the
      database calls made, how many files were handled, and the client's
      exception if one stopped the steps. */
  datatype Pass = Pass(movies: map<string, Movie>, lookups: seq<Lookup>, handled: nat, raised: Option<ClientError>)

  /** The cache steps for the movie files in order. An exception of the
      database client ends them at the file whose lookup raised. */
  function ResolveAll(files: seq<MovieFile>, movies: map<string, Movie>, services: Services): (p: Pass)
    ensures p.handled <= |files|
    decreases |files|
  {
    if |files| == 0 then Pass(movies, [], 0, None)
    else
      var step := Resolve(movies, files[0], services);
      if |step.1| == 1 && step.1[0].result.Err? then Pass(step.0, step.1, 1, Some(step.1[0].result.error))
      else
        var rest := ResolveAll(files[1..], step.0, services);
        Pass(rest.movies, step.1 + rest.lookups, rest.handled + 1, rest.raised)
  }

  /** The steps handle every file exactly when no lookup raises; otherwise
      they end with the one lookup that raised, for the last file handled. */
  lemma PassStopsAtRaise(files: seq<MovieFile>, movies: map<string, Movie>, services: Services)
    ensures var p := ResolveAll(files, movies, services);
      && (p.raised.None? ==> p.handled == |files| && AllAnswered(p.lookups))
      && (p.raised.Some? ==>
        && 0 < p.handled && 0 < |p.lookups|
        && p.lookups[|p.lookups| - 1] == Lookup(files[p.handled - 1].dbIdx, MovieQuery(files[p.handled - 1]), Err(p.raised.value))
        && AllAnswered(p.lookups[..|p.lookups| - 1]))
  {
    PassCompleteUnlessRaised(files, movies, services);
    PassEndsWithRaise(files, movies, services);
  }

  /** Without an exception every file is handled and every call answered. */
  lemma {:induction false} PassCompleteUnlessRaised(files: seq<MovieFile>, movies: map<string, Movie>, services: Services)
    ensures var p := ResolveAll(files, movies, services);
      p.raised.None? ==> p.handled == |files| && AllAnswered(p.lookups)
    decreases |files|
  {
    if |files| > 0 {
      var step := Resolve(movies, files[0], services);
      if !(|step.1| == 1 && step.1[0].result.Err?) {
        var rest := ResolveAll(files[1..], step.0, services);
        PassCompleteUnlessRaised(files[1..], step.0, services);
        if rest.raised.None? {
          assert AllAnswered(step.1);
          AnsweredAppend(step.1, rest.lookups);
        }
      }
    }
  }

  /** If the client raised, the steps end with the raising call, made for
      the last file handled, after every earlier call was answered. */
  predicate EndsWithRaise(p: Pass, files: seq<MovieFile>) {
    p.raised.Some? ==>
      && 0 < p.handled <= |files| && 0 < |p.lookups|
      && p.lookups[|p.lookups| - 1] == Lookup(files[p.handled - 1].dbIdx, MovieQuery(files[p.handled - 1]), Err(p.raised.value))
      && AllAnswered(p.lookups[..|p.lookups| - 1])
  }

  /** An exception ends the steps with the raising call, made for the last
      file handled, after every earlier call was answered. */
  lemma {:induction false} PassEndsWithRaise(files: seq<MovieFile>, movies: map<string, Movie>, services: Services)
    ensures EndsWithRaise(ResolveAll(files, movies, services), files)
    decreases |files|
  {
    if |files| > 0 {
      var step := Resolve(movies, files[0], services);
      if |step.1| == 1 && step.1[0].result.Err? {
        RaiseAtFirst(files, movies, services);
      } else {
        var rest := ResolveAll(files[1..], step.0, services);
        PassEndsWithRaise(files[1..], step.0, services);
        assert AllAnswered(step.1);
        RaiseAfterFirst(files, step.1, rest, rest.movies);
      }
    }
  }

  lemma RaiseAtFirst(files: seq<MovieFile>, movies: map<string, Movie>, services: Services)
    requires |files| > 0
    requires var step := Resolve(movies, files[0], services);
      |step.1| == 1 && step.1[0].result.Err?
    ensures EndsWithRaise(ResolveAll(files, movies, services), files)
  {
    var step := Resolve(movies, files[0], services);
    assert step.1[..0] == [];
  }

  /** Answered calls for the first file followed by steps that end with a
      raise still end with that raise. */
  lemma RaiseAfterFirst(files: seq<MovieFile>, first: seq<Lookup>, rest: Pass, movies: map<string, Movie>)
    requires |files| > 0 && AllAnswered(first)
    requires EndsWithRaise(rest, files[1..])
    ensures EndsWithRaise(Pass(movies, first + rest.lookups, rest.handled + 1, rest.raised), files)
  {
    if rest.raised.Some? {
      assert files[1..][rest.handled - 1] == files[rest.handled];
      RaiseAfterAnswered(first, rest.lookups);
    }
  }

  lemma AnsweredAppend(first: seq<Lookup>, later: seq<Lookup>)
    requires AllAnswered(first) && AllAnswered(later)
    ensures AllAnswered(first + later)
  {
    var all := first + later;
    forall i | 0 <= i < |all| ensures all[i].result.Ok? {
      if i >= |first| {
        assert all[i] == later[i - |first|];
      }
    }
  }

  lemma RaiseAfterAnswered(first: seq<Lookup>, later: seq<Lookup>)
    requires AllAnswered(first) && 0 < |later| && AllAnswered(later[..|later| - 1])
    ensures var all := first + later;
      && all[|all| - 1] == later[|later| - 1]
      && AllAnswered(all[..|all| - 1])
  {
    var all := first + later;
    assert all[..|all| - 1] == first + later[..|later| - 1];
    AnsweredAppend(first, later[..|later| - 1]);
  }

  /** Why start-up stopped: a name the constructor could not take apart, or
      an exception of the database client. */
  datatype StartupError = BadName(parse: ParseError) | DatabaseRaised(client: ClientError)

  /** The result of the pass: the cache, the movie files made, the database
      calls in order, and the error that stopped the pass, if one did. */
  datatype Build = Build(movies: map<string, Movie>, files: seq<MovieFile>, lookups: seq<Lookup>, failure: Option<StartupError>)

  /** How the loop ends, given the movie files made before any name failed
      (`files`), the failure of the next name (`parseFailure`), and the cache
      steps over `files`: an exception of the client ends the list at the
      file whose lookup raised; otherwise every file made is kept and the
      failure, if any, is that of the name. */
  function Finish(files: seq<MovieFile>, parseFailure: Option<ParseError>, pass: Pass): (b: Build)
    requires pass.handled <= |files|
    requires pass.raised.None? ==> pass.handled == |files| && AllAnswered(pass.lookups)
    requires pass.raised.Some? ==>
      && 0 < pass.handled && 0 < |pass.lookups|
      && pass.lookups[|pass.lookups| - 1] == Lookup(files[pass.handled - 1].dbIdx, MovieQuery(files[pass.handled - 1]), Err(pass.raised.value))
      && AllAnswered(pass.lookups[..|pass.lookups| - 1])
    ensures b.movies == pass.movies && b.lookups == pass.lookups
    ensures |b.files| <= |files| && b.files == files[..|b.files|]
    ensures b.failure.None? <==> parseFailure.None? && AllAnswered(b.lookups)
    ensures b.failure.None? ==> b.files == files
    ensures b.failure.Some? && b.failure.value.BadName? ==>
      b.files == files && parseFailure == Some(b.failure.value.parse) && AllAnswered(b.lookups)
    ensures b.failure.Some? && b.failure.value.DatabaseRaised? ==>
      && 0 < |b.files| && 0 < |b.lookups|
      && b.lookups[|b.lookups| - 1] == Lookup(b.files[|b.files| - 1].dbIdx, MovieQuery(b.files[|b.files| - 1]), Err(b.failure.value.client))
      && AllAnswered(b.lookups[..|b.lookups| - 1])
  {
    if pass.raised.Some? then
      var b := Build(pass.movies, files[..pass.handled], pass.lookups, Some(DatabaseRaised(pass.raised.value)));
      assert b.files[|b.files| - 1] == files[pass.handled - 1];
      assert b.lookups[|b.lookups| - 1].result.Err?;
      b
    else
      assert files[..pass.handled] == files;
      Build(pass.movies, files, pass.lookups, if parseFailure.Some? then Some(BadName(parseFailure.value)) else None)
  }

  /** The loop over `filelist`: make the movie file, append it, then resolve
      it; either kind of error stops the loop. Making a movie file does not
      look at the cache, so the files made are those of `ParseAll` up to the
      one whose lookup raised, if one did. */
  function BuildFrom(names: seq<string>, movies: map<string, Movie>, services: Services): Build {
    var parsed := ParseAll(names);
    var pass := ResolveAll(parsed.0, movies, services);
    PassStopsAtRaise(parsed.0, movies, services);
    Finish(parsed.0, parsed.1, pass)
  }

  /** The pass keeps the movie files in the order of the names and stops at
      the first error of either kind: it fails exactly when a name cannot be
      taken apart or a lookup raises; a name's error leaves every file made
      and every lookup answered; a raising lookup is the last call, made for
      the last file kept, after every earlier call was answered. */
  lemma BuildStopsAtFirstError(names: seq<string>, movies: map<string, Movie>, services: Services)
    ensures var b := BuildFrom(names, movies, services);
      && |b.files| <= |ParseAll(names).0| && b.files == ParseAll(names).0[..|b.files|]
      && (b.failure.None? <==> ParseAll(names).1.None? && AllAnswered(b.lookups))
      && (b.failure.None? ==> b.files == ParseAll(names).0)
    ensures var b := BuildFrom(names, movies, services);
      b.failure.Some? && b.failure.value.BadName? ==>
        && b.files == ParseAll(names).0
        && ParseAll(names).1 == Some(b.failure.value.parse)
        && AllAnswered(b.lookups)
    ensures var b := BuildFrom(names, movies, services);
      b.failure.Some? && b.failure.value.DatabaseRaised? ==>
        && 0 < |b.files| && 0 < |b.lookups|
        && b.lookups[|b.lookups| - 1] == Lookup(b.files[|b.files| - 1].dbIdx, MovieQuery(b.files[|b.files| - 1]), Err(b.failure.value.client))
        && AllAnswered(b.lookups[..|b.lookups| - 1])
  {
    var parsed := ParseAll(names);
    PassStopsAtRaise(parsed.0, movies, services);
  }

  /** `later` extends `earlier`: no cached record is replaced or removed. */
  predicate Extends(later: map<string, Movie>, earlier: map<string, Movie>) {
    forall k :: k in earlier ==> k in later && later[k] == earlier[k]
  }

  /** Every record in `later` but not in `earlier` is the answer of one of the lookups. */
  predicate AddedByLookups(later: map<string, Movie>, earlier: map<string, Movie>, lookups: seq<Lookup>) {
    forall k :: k in later && k !in earlier ==>
      exists i :: 0 <= i < |lookups| && lookups[i].key == k && lookups[i].result == Ok(Some(later[k]))
  }

  /** Every lookup that gave a record left its key in the cache. */
  predicate FoundAreCached(lookups: seq<Lookup>, movies: map<string, Movie>) {
    forall i :: 0 <= i < |lookups| && Found(lookups[i]) ==> lookups[i].key in movies
  }

  /** What one cache step does, in the terms of the predicates above. */
  lemma ResolveFacts(movies: map<string, Movie>, m: MovieFile, services: Services)
    ensures var step := Resolve(movies, m, services);
      && Extends(step.0, movies)
      && AddedByLookups(step.0, movies, step.1)
      && FoundAreCached(step.1, step.0)
      && AllMissing(step.1, movies)
      && RetriedOnlyAfterFailure(step.1)
      && (forall i :: 0 <= i < |step.1| ==> LookupFor(step.1[i], m, services))
      && (m.dbIdx !in step.0 ==> |step.1| == 1 && !Found(step.1[0]))
  {
    var step := Resolve(movies, m, services);
    if m.dbIdx !in movies {
      assert step.1[0] == Lookup(m.dbIdx, MovieQuery(m), GetMovie(m, services));
      forall k | k in step.0 && k !in movies
        ensures exists i :: 0 <= i < |step.1| && step.1[i].key == k && step.1[i].result == Ok(Some(step.0[k]))
      {
        assert step.1[0].key == k && step.1[0].result == Ok(Some(step.0[k]));
      }
    }
  }

  /** Cached records are never replaced or removed, every new key comes from
      a lookup for that key, stored as that lookup returned it, and every
      lookup that gave a record is stored, whether or not the pass ran to the
      end. */
  lemma {:induction false} CacheKeepsAndAdds(files: seq<MovieFile>, movies: map<string, Movie>, services: Services)
    ensures var p := ResolveAll(files, movies, services);
      && Extends(p.movies, movies)
      && AddedByLookups(p.movies, movies, p.lookups)
      && FoundAreCached(p.lookups, p.movies)
    decreases |files|
  {
    if |files| > 0 {
      var step := Resolve(movies, files[0], services);
      ResolveFacts(movies, files[0], services);
      if !(|step.1| == 1 && step.1[0].result.Err?) {
        var rest := ResolveAll(files[1..], step.0, services);
        CacheKeepsAndAdds(files[1..], step.0, services);
        AddedAcrossStep(movies, step.0, rest.movies, step.1, rest.lookups);
        FoundAcrossStep(step.1, rest.lookups, step.0, rest.movies);
      }
    }
  }

  lemma AddedAcrossStep(m0: map<string, Movie>, m1: map<string, Movie>, m2: map<string, Movie>,
                        first: seq<Lookup>, later: seq<Lookup>)
    requires Extends(m2, m1)
    requires AddedByLookups(m1, m0, first) && AddedByLookups(m2, m1, later)
    ensures AddedByLookups(m2, m0, first + later)
  {
    var all := first + later;
    forall k | k in m2 && k !in m0
      ensures exists i :: 0 <= i < |all| && all[i].key == k && all[i].result == Ok(Some(m2[k]))
    {
      if k in m1 {
        var i :| 0 <= i < |first| && first[i].key == k && first[i].result == Ok(Some(m1[k]));
        assert all[i] == first[i];
      } else {
        var i :| 0 <= i < |later| && later[i].key == k && later[i].result == Ok(Some(m2[k]));
        assert all[|first| + i] == later[i];
      }
    }
  }

  lemma FoundAcrossStep(first: seq<Lookup>, later: seq<Lookup>, m1: map<string, Movie>, m2: map<string, Movie>)
    requires Extends(m2, m1)
    requires FoundAreCached(first, m1) && FoundAreCached(later, m2)
    ensures FoundAreCached(first + later, m2)
  {
    var all := first + later;
    forall i | 0 <= i < |all| && Found(all[i])
      ensures all[i].key in m2
    {
      if i >= |first| {
        assert all[i] == later[i - |first|];
      }
    }
  }

  /** No lookup is about a key of `movies`. */
  predicate AllMissing(lookups: seq<Lookup>, movies: map<string, Movie>) {
    forall i :: 0 <= i < |lookups| ==> lookups[i].key !in movies
  }

  /** A key is looked up again only when every earlier lookup of it gave no record. */
  predicate RetriedOnlyAfterFailure(lookups: seq<Lookup>) {
    forall i, j :: 0 <= i < j < |lookups| && lookups[i].key == lookups[j].key ==> !Found(lookups[i])
  }

  /** The database is asked only about keys the cache did not hold when the
      pass began, and never again about a key once it has given a record for it. */
  lemma {:induction false} LookupAtMostOncePerKey(files: seq<MovieFile>, movies: map<string, Movie>, services: Services)
    ensures var p := ResolveAll(files, movies, services);
      AllMissing(p.lookups, movies) && RetriedOnlyAfterFailure(p.lookups)
    decreases |files|
  {
    if |files| > 0 {
      var step := Resolve(movies, files[0], services);
      ResolveFacts(movies, files[0], services);
      if !(|step.1| == 1 && step.1[0].result.Err?) {
        var rest := ResolveAll(files[1..], step.0, services);
        LookupAtMostOncePerKey(files[1..], step.0, services);
        MissingAcrossStep(step.1, rest.lookups, movies, step.0);
        RetryAcrossStep(step.1, rest.lookups, step.0);
      }
    }
  }

  lemma MissingAcrossStep(first: seq<Lookup>, later: seq<Lookup>, m0: map<string, Movie>, m1: map<string, Movie>)
    requires Extends(m1, m0)
    requires AllMissing(first, m0) && AllMissing(later, m1)
    ensures AllMissing(first + later, m0)
  {
    var all := first + later;
    forall i | 0 <= i < |all|
      ensures all[i].key !in m0
    {
      if i >= |first| {
        assert all[i] == later[i - |first|];
      }
    }
  }

  lemma RetryAcrossStep(first: seq<Lookup>, later: seq<Lookup>, m1: map<string, Movie>)
    requires RetriedOnlyAfterFailure(first) && RetriedOnlyAfterFailure(later)
    requires FoundAreCached(first, m1) && AllMissing(later, m1)
    ensures RetriedOnlyAfterFailure(first + later)
  {
    var all := first + later;
    forall i, j | 0 <= i < j < |all| && all[i].key == all[j].key
      ensures !Found(all[i])
    {
      if j < |first| {
        assert all[i] == first[i] && all[j] == first[j];
      } else if i >= |first| {
        assert all[i] == later[i - |first|] && all[j] == later[j - |first|];
      } else {
        assert all[i] == first[i] && all[j] == later[j - |first|];
      }
    }
  }

  /** `l` is the call made for movie file `m`: its key, its query, and what
      `get_movie` gave for it. */
  predicate LookupFor(l: Lookup, m: MovieFile, services: Services) {
    l.key == m.dbIdx && l.query == MovieQuery(m) && l.result == GetMovie(m, services)
  }

  /** `l` was made for one of the files. */
  predicate MadeForOneOf(l: Lookup, files: seq<MovieFile>, services: Services) {
    exists j :: 0 <= j < |files| && LookupFor(l, files[j], services)
  }

  /** Every lookup was made for one of the files. */
  predicate LookupsMatchFiles(lookups: seq<Lookup>, files: seq<MovieFile>, services: Services) {
    forall i :: 0 <= i < |lookups| ==> MadeForOneOf(lookups[i], files, services)
  }

  /** Every file whose key is not cached had a lookup for that key that gave no record. */
  predicate UncachedWereTried(files: seq<MovieFile>, movies: map<string, Movie>, lookups: seq<Lookup>) {
    forall j :: 0 <= j < |files| && files[j].dbIdx !in movies ==>
      exists i :: 0 <= i < |lookups| && lookups[i].key == files[j].dbIdx && !Found(lookups[i])
  }

  /** Every lookup is made for one of the files the pass handled, with that
      file's query; and a handled file whose key ends up uncached had a
      lookup that gave no record. */
  lemma LookupsFollowFiles(files: seq<MovieFile>, movies: map<string, Movie>, services: Services)
    ensures var p := ResolveAll(files, movies, services);
      && LookupsMatchFiles(p.lookups, files[..p.handled], services)
      && UncachedWereTried(files[..p.handled], p.movies, p.lookups)
  {
    LookupsMadeForHandled(files, movies, services);
    UncachedHandledWereTried(files, movies, services);
  }

  /** Every lookup is made for one of the files the pass handled. */
  lemma {:induction false} LookupsMadeForHandled(files: seq<MovieFile>, movies: map<string, Movie>, services: Services)
    ensures var p := ResolveAll(files, movies, services);
      LookupsMatchFiles(p.lookups, files[..p.handled], services)
    decreases |files|
  {
    if |files| > 0 {
      var step := Resolve(movies, files[0], services);
      if |step.1| == 1 && step.1[0].result.Err? {
        LookupsFollowStop(files, movies, services);
      } else {
        var p := ResolveAll(files, movies, services);
        var rest := ResolveAll(files[1..], step.0, services);
        var fs := files[..p.handled];
        ResolveFacts(movies, files[0], services);
        LookupsMadeForHandled(files[1..], step.0, services);
        assert fs[0] == files[0] && fs[1..] == files[1..][..rest.handled];
        MatchAcrossStep(fs, step.1, rest.lookups, services);
      }
    }
  }

  /** A handled file whose key ends up uncached had a lookup that gave no
      record. */
  lemma {:induction false} UncachedHandledWereTried(files: seq<MovieFile>, movies: map<string, Movie>, services: Services)
    ensures var p := ResolveAll(files, movies, services);
      UncachedWereTried(files[..p.handled], p.movies, p.lookups)
    decreases |files|
  {
    if |files| > 0 {
      var step := Resolve(movies, files[0], services);
      if |step.1| == 1 && step.1[0].result.Err? {
        LookupsFollowStop(files, movies, services);
      } else {
        var p := ResolveAll(files, movies, services);
        var rest := ResolveAll(files[1..], step.0, services);
        var fs := files[..p.handled];
        ResolveFacts(movies, files[0], services);
        if files[0].dbIdx !in step.0 {
          assert step.1[0].key == files[0].dbIdx && !Found(step.1[0]);
        }
        UncachedHandledWereTried(files[1..], step.0, services);
        CacheKeepsAndAdds(files[1..], step.0, services);
        assert fs[0] == files[0] && fs[1..] == files[1..][..rest.handled];
        TriedAcrossStep(fs, step.0, rest.movies, step.1, rest.lookups);
      }
    }
  }

  /** A pass whose first lookup raises has handled only the first file and
      made only that lookup. */
  lemma LookupsFollowStop(files: seq<MovieFile>, movies: map<string, Movie>, services: Services)
    requires |files| > 0
    requires var step := Resolve(movies, files[0], services);
      |step.1| == 1 && step.1[0].result.Err?
    ensures var p := ResolveAll(files, movies, services);
      && LookupsMatchFiles(p.lookups, files[..p.handled], services)
      && UncachedWereTried(files[..p.handled], p.movies, p.lookups)
  {
    var step := Resolve(movies, files[0], services);
    var fs := files[..1];
    ResolveFacts(movies, files[0], services);
    assert step.1[0].key == files[0].dbIdx && !Found(step.1[0]);
    assert fs == [files[0]];
    MatchAcrossStep(fs, step.1, [], services);
    TriedAcrossStep(fs, step.0, step.0, step.1, []);
    assert step.1 + [] == step.1;
  }

  lemma MatchAcrossStep(files: seq<MovieFile>, first: seq<Lookup>, later: seq<Lookup>, services: Services)
    requires |files| > 0
    requires forall i :: 0 <= i < |first| ==> LookupFor(first[i], files[0], services)
    requires LookupsMatchFiles(later, files[1..], services)
    ensures LookupsMatchFiles(first + later, files, services)
  {
    var all := first + later;
    forall i | 0 <= i < |all|
      ensures MadeForOneOf(all[i], files, services)
    {
      if i < |first| {
        assert all[i] == first[i];
        assert LookupFor(all[i], files[0], services);
      } else {
        assert MadeForOneOf(later[i - |first|], files[1..], services);
        var j :| 0 <= j < |files[1..]| && LookupFor(later[i - |first|], files[1..][j], services);
        assert all[i] == later[i - |first|] && files[j + 1] == files[1..][j];
        assert LookupFor(all[i], files[j + 1], services);
      }
    }
  }

  lemma TriedAcrossStep(files: seq<MovieFile>, m1: map<string, Movie>, m2: map<string, Movie>,
                        first: seq<Lookup>, later: seq<Lookup>)
    requires |files| > 0 && Extends(m2, m1)
    requires files[0].dbIdx !in m1 ==> exists i :: 0 <= i < |first| && first[i].key == files[0].dbIdx && !Found(first[i])
    requires UncachedWereTried(files[1..], m2, later)
    ensures UncachedWereTried(files, m2, first + later)
  {
    var all := first + later;
    forall j | 0 <= j < |files| && files[j].dbIdx !in m2
      ensures exists i :: 0 <= i < |all| && all[i].key == files[j].dbIdx && !Found(all[i])
    {
      if j == 0 {
        var i :| 0 <= i < |first| && first[i].key == files[0].dbIdx && !Found(first[i]);
        assert all[i] == first[i];
      } else {
        assert files[1..][j - 1] == files[j];
        var i :| 0 <= i < |later| && later[i].key == files[j].dbIdx && !Found(later[i]);
        assert all[|first| + i] == later[i];
      }
    }
  }

  // ------------------------------------------------------------ the playlist

  /** The playlist loop: the display string of each movie file in order, and
      a map from each playlist position to that file's key. */
  method BuildPlaylist(files: seq<MovieFile>) returns (playlist: seq<string>, dbMap: map<nat, string>)
    ensures |playlist| == |files|
    ensures forall i :: 0 <= i < |files| ==> playlist[i] == files[i].display
    ensures forall i: nat :: i in dbMap <==> i < |files|
    ensures forall i :: 0 <= i < |files| ==> dbMap[i] == files[i].dbIdx
  {
    playlist := [];
    dbMap := map[];
    var idx := 0;
    while idx < |files|
      invariant 0 <= idx <= |files|
      invariant |playlist| == idx
      invariant forall i :: 0 <= i < idx ==> playlist[i] == files[i].display
      invariant forall i: nat :: i in dbMap <==> i < idx
      invariant forall i :: 0 <= i < idx ==> dbMap[i] == files[i].dbIdx
    {
      playlist := playlist + [files[idx].display];
      dbMap := dbMap[idx := files[idx].dbIdx];
      idx := idx + 1;
    }
  }

  /** What the player shows once it is up: the movie files, the playlist and
      the playlist-to-key map. */
  datatype Session = Session(files: seq<MovieFile>, playlist: seq<string>, playlistDbMap: map<nat, string>)

  /** The whole start-up: filter and sort the listing, make the movie files
      and fill the cache, then lay out the playlist. A name without a '.' or
      an exception of the database client stops it with an error, and the
      cache keeps what was stored before. */
  method Startup(listing: seq<string>, movies: map<string, Movie>, services: Services)
    returns (cache: map<string, Movie>, session: Result<Session, StartupError>)
    ensures cache == BuildFrom(MovieNames(listing), movies, services).movies
    ensures Extends(cache, movies)
    ensures var b := BuildFrom(MovieNames(listing), movies, services);
      session.Err? <==>
        || (exists k :: 0 <= k < |MovieNames(listing)| && Parse(MovieNames(listing)[k]).Err?)
        || (exists i :: 0 <= i < |b.lookups| && b.lookups[i].result.Err?)
    ensures session.Err? ==> Some(session.error) == BuildFrom(MovieNames(listing), movies, services).failure
    ensures session.Ok? ==>
      var s := session.value;
      && |s.files| == |s.playlist| == |MovieNames(listing)|
      && (forall i :: 0 <= i < |s.files| ==> Parse(MovieNames(listing)[i]) == Ok(s.files[i]))
      && (forall i: nat :: i in s.playlistDbMap <==> i < |s.files|)
      && (forall i :: 0 <= i < |s.files| ==> s.playlist[i] == s.files[i].display == s.playlistDbMap[i])
  {
    var names := MovieNames(listing);
    var b := BuildFrom(names, movies, services);
    assert Extends(b.movies, movies) by {
      CacheKeepsAndAdds(ParseAll(names).0, movies, services);
    }
    StartupFailsIff(names, movies, services);
    cache := b.movies;
    if b.failure.Some? {
      session := Err(b.failure.value);
    } else {
      assert b.files == ParseAll(names).0 && |b.files| == |names| by {
        BuildStopsAtFirstError(names, movies, services);
      }
      ParseAllInOrder(names);
      var playlist, dbMap := BuildPlaylist(b.files);
      session := Ok(Session(b.files, playlist, dbMap));
    }
  }

  /** The pass fails exactly when some name cannot be taken apart or some
      lookup it made raised. */
  lemma StartupFailsIff(names: seq<string>, movies: map<string, Movie>, services: Services)
    ensures var b := BuildFrom(names, movies, services);
      b.failure.Some? <==>
        || (exists k :: 0 <= k < |names| && Parse(names[k]).Err?)
        || (exists i :: 0 <= i < |b.lookups| && b.lookups[i].result.Err?)
  {
    BuildStopsAtFirstError(names, movies, services);
    ParseAllReportsAnyError(names);
  }

  /** Which names pass the filter: those whose text after the only '.' is a
      movie extension in any case. */
  lemma MovieNameOf(t: string, ext: string)
    requires '.' !in t && '.' !in ext
    ensures IsMovieName(t + "." + ext) <==> Upper(ext) in MovieExtensions
  {
    assert t + "." + ext == Join([t, ext], '.');
    SplitJoin([t, ext], '.');
  }
}
