# PyPlayer start-up, modelled in Dafny

PyPlayer is a small Python 2 movie player. At start-up it:

- lists the movie directory and keeps the files whose extension (any case) is ISO, MP4, AVI or WMV;
- sorts those names;
- turns each one into a `Movie_File`: stem, extension, title, parenthesised group, release year, cache key and playlist label;
- looks up, in the OMDB movie database, every movie whose key is not yet in the persistent ZODB cache, downloads its poster, and stores the record;
- lays out the playlist and a map from playlist position to cache key.

The main window shows a movie's cast with each comma, and the whitespace after it, turned into a line break.

This project models that logic as pure Dafny functions over immutable data and proves properties of it. The modules are:

- `Text`: the parts of Python 2 byte-string behaviour the program relies on.
  - `split('.')`, `split()`, `strip()`, `find()` and slicing with Python's bound normalisation.
  - `re.search(r'\d{4}')` and `upper()`.
  - Whitespace is the six ASCII characters space and `\t`..`\r`, as for Python 2 `str`.
- `Ordering`: the byte-string order used by `list.sort()`, and an insertion sort proved to give the unique sorted rearrangement of its input.
- `MovieFiles`: the `Movie_File` constructor and `fix_titles`.
- `Metadata`: the decision logic of `get_movie` and `get_poster`.
  - The movie database is a function from a query to a record, to nothing, or to an exception of the client.
  - HTTP GET is a function from a URL to a status code or a transport error.
- `Library`: the main program.
  - The filter and the sort.
  - The loop that makes the movie files and fills the cache.
  - The playlist loop.
- `Display`: the cast reformatting in `update_display`.

Points where the code's behaviour is easy to misread; the model follows the code:

- **Stem and extension.** The stem is the text before the FIRST '.', and the extension is the text between the first and the second '.'. It is not the text after the last '.'.
- **Year.** The year comes from the LAST word of the parenthesised group that holds four digits, not the first. The loop's `continue` does not stop it.
- **Missing ')'.** When the stem has '(' but no ')', `find` returns -1. As a slice end, -1 drops the last character of the stem from the group.
- **No '('.** A stem without '(' is not stripped of surrounding whitespace.
- **Poster path.** It starts with the raw literal `r'posters\\'`, i.e. `posters` followed by two backslashes.
- **No '.' in the name.** The constructor raises `IndexError` when taking the extension. This stops the whole start-up. Records already stored stay in the cache, because every insertion is committed at once.
- **Database exception.** `get_movie` does not catch what `omdb_get` raises, and neither does the loop. Such an exception also stops the whole start-up, after the movie file was appended, and the records stored before it stay in the cache.
- **A name without '.' passes the filter** when the whole name, upper-cased, is a movie extension (a file named `avi`), and the constructor then raises.

## Model

| member | source | states |
|---|---|---|
| `MovieFiles.FixTitle` | PyPlayer.py:78-82 | "50-50" becomes "50/50"; every other title is unchanged; no result is ever "50-50"; it brings in no '(' |
| `MovieFiles.Parse` | PyPlayer.py:35-70 | the constructor fails exactly when the name holds no '.', with that name; a movie file keeps the name it was made from and its label is its key |
| `MovieFiles.StemAndExtension` | PyPlayer.py:44-46 | for a name with a '.': it keeps the name; stem and extension hold no '.'; the name starts with stem, '.', extension, then ends or continues with another '.' |
| `MovieFiles.NameStem` | PyPlayer.py:48-65 | there is a group exactly when the stem has a '('; without a group there is no year; a year is four ASCII digits; no title holds a '(' |
| `MovieFiles.ParenInfo` | PyPlayer.py:57 | the group runs from after the '(' to the first ')'; it is empty when that ')' comes first; with no ')' it runs to one character before the end |
| `MovieFiles.UndatedStem` | PyPlayer.py:48-55 | a stem without '(' is the title as it stands (after the override), with no group and no year |
| `MovieFiles.ParenthesisedStem` | PyPlayer.py:55-65 | with a '(', the group is the slice after the first '(' and the title is the stripped text before it |
| `MovieFiles.CollectYear` | PyPlayer.py:59-64 | the loop's year is the starting one or the four-digit match of one of the words |
| `MovieFiles.CollectYearLastWins` | PyPlayer.py:59-64 | with no matching word the year is unchanged; otherwise it is the match of the last matching word |
| `MovieFiles.YearFromLastMatchingWord` | PyPlayer.py:52-65 | no group means no year; a year is four ASCII digits; it is absent exactly when no word of the group matches, else it is the last word's match |
| `MovieFiles.Key` | PyPlayer.py:67-69 | the key starts with the title; it is the title alone exactly when there is no year; for a title without '(' it reads back as that title and year |
| `MovieFiles.KeyAndLabel` | PyPlayer.py:66-70 | the label equals the key; the key is the title, with " (year)" when there is a year; it reads back as the title and year |
| `MovieFiles.SameKeyIffSameTitleAndYear` | PyPlayer.py:67-69 | two movie files share a cache key exactly when they share title and year |
| `MovieFiles.UndatedName` | PyPlayer.py:44-70 | "T.ext" with no '(' in T gives stem T, extension ext, title, key and label `fix_titles(T)`, and no year |
| `MovieFiles.DatedName` | PyPlayer.py:44-70 | "T(YYYY).ext" gives year YYYY, title `fix_titles(T.strip())` and key "title (YYYY)" |
| `Metadata.GetPoster` | PyPlayer.py:105-126 | a request is sent exactly when the URL is not "N/A"; a poster file is recorded exactly when the request returned status 200; its path is the two-backslash folder, the stem and ".jpg" |
| `Metadata.PosterPathIgnoresUrl` | PyPlayer.py:123 | two successful downloads for the same stem record the same path, whatever the URLs |
| `Metadata.PosterPathsDistinct` | PyPlayer.py:123 | different stems never share a poster path |
| `Metadata.MovieQuery` | PyPlayer.py:86-89 | the query carries the title, full plot and tomatoes always, and the year exactly when the file name gave one |
| `Metadata.GetMovie` | PyPlayer.py:91-97 | an error exactly when the client raises, naming the query; otherwise a record exactly when the database gives one, and it is that record; the poster file is present exactly when the poster URL is not "N/A" and fetched with status 200 |
| `Library.MovieNameWithoutDot` | PyPlayer.py:318 | a name without '.' passes the filter exactly when the whole name, upper-cased, is a movie extension |
| `Library.MovieNameOf` | PyPlayer.py:318 | a name with a single '.' passes the filter exactly when its upper-cased extension is a movie extension |
| `Library.KeepMovies` | PyPlayer.py:318 | each listed name is kept as often as listed when its last '.'-segment, upper-cased, is a movie extension, and never otherwise |
| `Library.MovieNames` | PyPlayer.py:318-319 | the kept names in ascending order, each as often as listed |
| `Library.MovieNamesExactly` | PyPlayer.py:318-319 | a name is in the file list exactly when it is listed and is a movie name; no other sorted arrangement of the kept names exists |
| `Library.Resolve` | PyPlayer.py:326-330 | a cached key costs no lookup and changes nothing; otherwise one lookup is made with the file's query; no record is replaced; only the file's key can be added, and only when the lookup gave a record, which is what is stored |
| `Library.ParseAll` | PyPlayer.py:323-325 | an error is reported exactly when the list of movie files stops short of the names |
| `Library.ParseAllInOrder` | PyPlayer.py:323-325 | the files are the parses of the names in order; a reported error is that of the name right after them |
| `Library.PassStopsAtRaise` | PyPlayer.py:323-330 | without an exception every file is handled and every lookup answered; an exception ends the loop with the raising lookup, made for the last file handled, after every earlier lookup was answered |
| `Library.BuildStopsAtFirstError` | PyPlayer.py:322-330 | the files kept are a prefix of the parses of the names; the loop fails exactly when a name cannot be parsed or a lookup raises; a bad name leaves every parsed file and every lookup answered; a raising lookup is the last one, for the last file kept |
| `Library.CacheKeepsAndAdds` | PyPlayer.py:326-330 | no cached record is replaced or removed; every new key holds what a lookup for it returned; every lookup that gave a record is stored, also when an exception ends the loop |
| `Library.LookupAtMostOncePerKey` | PyPlayer.py:326-330 | only keys absent when the loop began are looked up; a key is looked up again only if no earlier lookup of it gave a record |
| `Library.LookupsFollowFiles` | PyPlayer.py:322-330 | every lookup is made for one of the handled files, with its query and its answer; every handled file whose key ends uncached had a lookup that gave no record |
| `Library.BuildPlaylist` | PyPlayer.py:333-337 | the playlist holds each file's label in order; the map's keys are exactly the positions, each mapped to that file's cache key |
| `Library.StartupFailsIff` | PyPlayer.py:317-330 | the loop fails exactly when some movie name lacks a '.' or some lookup it made raised |
| `Library.Startup` | PyPlayer.py:317-337 | the cache is the loop's cache and keeps every earlier record; start-up fails exactly when some movie name lacks a '.' or some lookup raised, with that error; otherwise each position shows the parse of the name at that position, whose label is also its key in the map |
| `Display.FormatCast` | PyPlayer.py:271 | the shown cast holds no comma and is no longer than the field |
| `Display.FormatCastIsJoinedLines` | PyPlayer.py:271 | the shown cast is the comma-separated pieces of the field, each after the first without leading whitespace, joined with line breaks |
| `Text.Find` | PyPlayer.py:55 | `find` gives the first index of the character, or -1 when it does not occur |
| `Text.Slice` | PyPlayer.py:57 | a slice with in-range bounds is the plain subsequence; a negative stop counts from the end; any slice is no longer than the string |
| `Text.JoinSplit` | PyPlayer.py:45-46 | joining the pieces of `split('.')` with '.' gives the name back |
| `Text.SplitJoin` | PyPlayer.py:45-46 | splitting a join of '.'-free pieces gives the pieces back |
| `Text.StripUnique` | PyPlayer.py:65 | `strip()` of whitespace around text that neither starts nor ends with whitespace is that text |
| `Text.StripIdempotent` | PyPlayer.py:65 | stripping twice is stripping once |
| `Text.WordsKeepText` | PyPlayer.py:59 | `split()` drops exactly the whitespace: the words glued together are the non-whitespace characters in order |
| `Text.OneWord` | PyPlayer.py:59 | a non-empty text without whitespace is one word |
| `Text.WordsOfSpace` | PyPlayer.py:59 | whitespace alone has no words |
| `Text.WordsAround` | PyPlayer.py:59 | a run of whitespace separates words: the words of a, whitespace, b are the words of a followed by the words of b |
| `Text.SearchFourDigits` | PyPlayer.py:61-63 | no match exactly when no four digits stand in a row; a match is four digits, the leftmost such run |
| `Ordering.BelowTransitive` | PyPlayer.py:319 | the string order is transitive (it is also total, reflexive and antisymmetric) |
| `Ordering.Sort` | PyPlayer.py:319 | the result is sorted and a rearrangement of the input |
| `Ordering.SortedUnique` | PyPlayer.py:319 | two sorted rearrangements of the same strings are equal |

## Left out

- The kivy GUI is not modelled: window layout, the playlist widget and key handling. From `update_display` only the cast formatting is modelled. Indexing `movies` with an uncached key raises `KeyError` there.
- ZODB storage, connection and `commit()` are reduced to a map, and each insertion counts as committed at once.
- The OMDB client and the API key are not modelled. The database is a parameter that answers a query with a record, with nothing (which includes an empty answer), or with an exception of the client.
- The `requests` library is not modelled. HTTP GET is a parameter that answers with a status code or a transport error.
- `Metadata.GetPoster`: the poster bytes and the creation of the `posters` folder are file-system effects. They are not modelled; only the recorded path is.
- `Metadata.GetPoster` does not model an exception from creating the folder or writing the file. Those would stop start-up like a database exception.
- `Metadata.GetMovie` assumes every record has the fields the player reads. A record without `title` or `poster` would raise `KeyError` at PyPlayer.py:93 or :105.
- `Library.ResolveAll` states only that it handles no more files than it is given. What it computes is stated by `Library.PassStopsAtRaise`, `Library.CacheKeepsAndAdds`, `Library.LookupAtMostOncePerKey` and `Library.LookupsFollowFiles`.
- The directory listing and `os.chdir` are not modelled. The listing is an input sequence of names.
- All `print` output is not modelled.
- The play button's `os.startfile` is not modelled. It launches an outside process.
- The provider's record keeps only the fields the player reads by name (`title`, `plot`, `actors`, `poster`). The rest is an opaque map.
- Each outside service is a fixed function of its input, so a repeated identical query gets the same answer. The real service may answer differently over time.
