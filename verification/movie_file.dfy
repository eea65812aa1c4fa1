/** `Movie_File`: what the player derives from one movie file name — the
    stem, the extension, the title, the release year found in parentheses,
    and the key under which the movie's metadata is cached (which is also
    the label shown in the playlist). */
module MovieFiles {
  import opened Wrappers
  import opened Text

  datatype MovieFile = MovieFile(
    filename: string,           // the name as listed in the directory
    fileName: string,           // the stem: text before the first '.'
    fileExt: string,            // the text between the first and second '.'
    title: string,
    parenInfo: Option<string>,  // the parenthesised group, when the stem has a '('
    year: Option<string>,
    dbIdx: string,              // the cache key
    display: string)            // the playlist label

  /** A name without '.' has no second '.'-segment: the constructor raises
      an `IndexError` taking the extension. */
  datatype ParseError = NoExtension(filename: string)

  /** `fix_titles`: the one title the file system cannot store as written
      ('/' is not allowed in a file name) is restored; every other title
      passes through. */
  function FixTitle(title: string): (r: string)
    ensures title == "50-50" ==> r == "50/50"
    ensures title != "50-50" ==> r == title
    ensures r != "50-50"
    ensures NoOpenParen(title) ==> NoOpenParen(r)
  {
    if title == "50-50" then
      assert NoOpenParen("50/50") by {
        assert "50/50" == ['5', '0', '/', '5', '0'];
      }
      "50/50"
    else title
  }

  /** No character of `s` is '('. */
  predicate NoOpenParen(s: string) {
    forall i :: 0 <= i < |s| ==> s[i] != '('
  }

  /** The parenthesised group: from just after the '(' at `open` up to the
      first ')' of the stem, as a Python slice. A missing ')' makes `find`
      return -1, which as a slice end drops the last character; a ')' before
      the '(' gives an empty group. */
  function ParenInfo(stem: string, open: nat): (r: string)
    requires open < |stem|
    ensures var close := Find(stem, ')');
      && (open < close ==> r == stem[open + 1..close])
      && (0 <= close <= open ==> r == [])
      && (close < 0 ==> r == if open + 1 < |stem| then stem[open + 1..|stem| - 1] else [])
  {
    Slice(stem, open + 1, Find(stem, ')'))
  }

  /** The loop over the words of the parenthesised group: every word holding
      four digits in a row sets the year, and the loop goes on (`continue`),
      so a later match replaces an earlier one. */
  function CollectYear(words: seq<string>, year: Option<string>): (r: Option<string>)
    ensures r == year || exists k :: 0 <= k < |words| && SearchFourDigits(words[k]) == r && r.Some?
  {
    if |words| == 0 then year
    else
      var next := match SearchFourDigits(words[0]) {
        case Some(y) => Some(y)
        case None => year
      };
      var r := CollectYear(words[1..], next);
      assert r == next || exists k :: 1 <= k < |words| && SearchFourDigits(words[k]) == r && r.Some? by {
        if r != next {
          var k :| 0 <= k < |words[1..]| && SearchFourDigits(words[1..][k]) == r && r.Some?;
          assert words[1..][k] == words[k + 1];
        }
      }
      r
  }

  /** The cache key (and playlist label) of a title and an optional year: it
      starts with the title, is the title alone exactly when there is no
      year, and, for a title without '(', reads back as the title and year,
      so such keys determine the title and year they were made from. */
  function Key(title: string, year: Option<string>): (r: string)
    ensures |title| <= |r| && r[..|title|] == title
    ensures year.None? <==> |r| == |title|
    ensures NoOpenParen(title) ==> KeyParts(r) == (title, year)
  {
    match year
    case None =>
      assert NoOpenParen(title) ==> Find(title, '(') < 0;
      title
    case Some(y) =>
      DatedKeyReadsBack(title, y);
      title + " (" + y + ")"
  }

  lemma DatedKeyReadsBack(title: string, y: string)
    ensures NoOpenParen(title) ==> KeyParts(title + " (" + y + ")") == (title, Some(y))
  {
    if NoOpenParen(title) {
      var key := title + " (" + y + ")";
      assert '(' !in title;
      assert key == (title + " ") + ['('] + (y + ")");
      FindAfter(title + " ", '(', y + ")");
      assert key[..|title|] == title;
      assert key[|title| + 2..|key| - 1] == y;
    }
  }

  /** What the constructor reads off the stem: title, group and year. */
  datatype Naming = Naming(title: string, parenInfo: Option<string>, year: Option<string>)

  /** The body of the constructor between taking the stem and building the
      key: there is a parenthesised group exactly when the stem has a '(';
      without one there is no year either; a year is four ASCII digits; and
      no title holds a '(' (the group and everything after it are cut off,
      and the override introduces none). */
  function NameStem(stem: string): (r: Naming)
    ensures r.parenInfo.None? <==> Find(stem, '(') < 0
    ensures r.parenInfo.None? ==> r.year.None?
    ensures r.year.Some? ==> |r.year.value| == 4 && AllDigits(r.year.value)
    ensures NoOpenParen(r.title)
  {
    var open := Find(stem, '(');
    if open < 0 then Naming(FixTitle(stem), None, None)
    else
      var paren := ParenInfo(stem, open);
      var t := Strip(stem[..open]);
      assert NoOpenParen(t) by {
        var a := LeadingSpace(stem[..open]);
        assert forall i :: 0 <= i < |t| ==> t[i] == stem[a + i];
      }
      Naming(FixTitle(t), Some(paren), CollectYear(Words(paren), None))
  }

  /** `Movie_File(filename)`: it fails exactly on names without a '.', and a
      movie file keeps its name and has its key as its label, a key that
      reads back as its title and year. */
  function Parse(filename: string): (r: Result<MovieFile, ParseError>)
    ensures r.Err? <==> Find(filename, '.') < 0
    ensures r.Err? ==> r.error == NoExtension(filename)
    ensures r.Ok? ==> r.value.filename == filename && r.value.display == r.value.dbIdx
  {
    var parts := Split(filename, '.');
    if |parts| < 2 then Err(NoExtension(filename))
    else
      var naming := NameStem(parts[0]);
      var key := Key(naming.title, naming.year);
      Ok(MovieFile(filename, parts[0], parts[1], naming.title, naming.parenInfo, naming.year, key, key))
  }

  predicate NoWordMatches(words: seq<string>) {
    forall k :: 0 <= k < |words| ==> SearchFourDigits(words[k]).None?
  }

  /** Word `j` holds four digits in a row and no later word does. */
  predicate LastMatchAt(words: seq<string>, j: int) {
    && 0 <= j < |words|
    && SearchFourDigits(words[j]).Some?
    && forall k :: j < k < |words| ==> SearchFourDigits(words[k]).None?
  }

  // ------------------------------------------------------------- properties

  /** The stem is the text before the first '.', and the extension the text
      from there to the next '.' or the end; neither holds a '.', even when the
      name has several. */
  lemma StemAndExtension(filename: string)
    requires '.' in filename
    ensures Parse(filename).Ok?
    ensures var m := Parse(filename).value;
      var n := |m.fileName| + 1 + |m.fileExt|;
      && m.filename == filename
      && '.' !in m.fileName && '.' !in m.fileExt
      && n <= |filename|
      && filename[..n] == m.fileName + "." + m.fileExt
      && (n == |filename| || filename[n] == '.')
  {
    FindAbsent(filename, '.');
    var parts := Split(filename, '.');
    SplitPiecesFree(filename, '.');
    assert '.' !in parts[0] && '.' !in parts[1];
    JoinSplit(filename, '.');
    JoinFirstTwo(parts, '.');
    var n := |parts[0]| + 1 + |parts[1]|;
    var rest := JoinRest(parts, '.');
    assert filename == (parts[0] + "." + parts[1]) + rest;
    assert filename[..n] == parts[0] + "." + parts[1];
    assert n < |filename| ==> filename[n] == rest[0];
  }

  /** A stem without '(' is the title as it stands (after the override, and
      not stripped), and there is no group and no year. */
  lemma UndatedStem(stem: string)
    requires '(' !in stem
    ensures NameStem(stem) == Naming(FixTitle(stem), None, None)
  {
    FindAbsent(stem, '(');
  }

  /** With a '(' in the stem, the title is the stripped text before the first
      '(' (after the override): the group is dropped from the title whether or
      not it yields a year. */
  lemma ParenthesisedStem(stem: string)
    requires '(' in stem
    ensures var open := Find(stem, '(');
      && 0 <= open
      && NameStem(stem).parenInfo == Some(ParenInfo(stem, open))
      && NameStem(stem).title == FixTitle(Strip(stem[..open]))
  {
    FindAbsent(stem, '(');
  }

  /** The year loop ends with the match of the LAST word that holds four
      digits in a row, or with its starting value when no word does. */
  lemma {:induction false} CollectYearLastWins(words: seq<string>, year: Option<string>)
    ensures NoWordMatches(words) ==> CollectYear(words, year) == year
    ensures forall j :: LastMatchAt(words, j) ==> CollectYear(words, year) == SearchFourDigits(words[j])
  {
    if |words| > 0 {
      var next := match SearchFourDigits(words[0]) {
        case Some(y) => Some(y)
        case None => year
      };
      var tail := words[1..];
      CollectYearLastWins(tail, next);
      assert forall k :: 0 <= k < |tail| ==> tail[k] == words[k + 1];
      forall j | LastMatchAt(words, j)
        ensures CollectYear(words, year) == SearchFourDigits(words[j])
      {
        if j == 0 {
          assert NoWordMatches(tail);
        } else {
          assert LastMatchAt(tail, j - 1);
        }
      }
    }
  }

  /** If some word matches, some word is the last to match. */
  lemma LastMatchExists(words: seq<string>, k: int)
    requires 0 <= k < |words| && SearchFourDigits(words[k]).Some?
    ensures exists j :: LastMatchAt(words, j)
    decreases |words| - k
  {
    if !LastMatchAt(words, k) {
      var i :| k < i < |words| && SearchFourDigits(words[i]).Some?;
      LastMatchExists(words, i);
    }
  }

  /** A year, when there is one, is four digits found in a word of the
      parenthesised group, and it is the match of the last word holding four
      digits; there is no year exactly when no word holds four digits. */
  lemma YearFromLastMatchingWord(stem: string)
    ensures var n := NameStem(stem);
      && (n.parenInfo.None? ==> n.year.None?)
      && (n.year.Some? ==> |n.year.value| == 4 && AllDigits(n.year.value))
      && (n.parenInfo.Some? ==>
            var words := Words(n.parenInfo.value);
            && (n.year.None? <==> NoWordMatches(words))
            && forall j :: LastMatchAt(words, j) ==> n.year == SearchFourDigits(words[j]))
  {
    var n := NameStem(stem);
    if n.parenInfo.Some? {
      var words := Words(n.parenInfo.value);
      assert n.year == CollectYear(words, None);
      CollectYearLastWins(words, None);
      if !NoWordMatches(words) {
        var k :| 0 <= k < |words| && SearchFourDigits(words[k]).Some?;
        LastMatchExists(words, k);
      }
    }
  }

  // ------------------------------------------------------------ cache keys

  /** Reads a cache key back into a title and a year: the title is what comes
      before " (", the year what sits between the parentheses. */
  function KeyParts(key: string): (string, Option<string>) {
    var open := Find(key, '(');
    if open < 1 || |key| < open + 2 then (key, None)
    else (key[..open - 1], Some(key[open + 1..|key| - 1]))
  }

  /** Two movie files share a cache key exactly when they have the same title
      and the same year, whatever else differs in their names. */
  lemma SameKeyIffSameTitleAndYear(f: string, g: string)
    requires Parse(f).Ok? && Parse(g).Ok?
    ensures var a := Parse(f).value; var b := Parse(g).value;
      a.dbIdx == b.dbIdx <==> a.title == b.title && a.year == b.year
  {
  }

  /** A movie file's label is its key, and the key is the title followed,
      when there is a year, by " (year)"; it reads back as the title and year. */
  lemma KeyAndLabel(f: string)
    requires Parse(f).Ok?
    ensures var m := Parse(f).value;
      && m.display == m.dbIdx
      && m.dbIdx == (if m.year.Some? then m.title + " (" + m.year.value + ")" else m.title)
      && KeyParts(m.dbIdx) == (m.title, m.year)
  {
  }

  // ------------------------------------------------------------- examples

  /** "Title.ext" with no '(' in the title: the title is kept whole (after the
      override) and is also key and label. */
  lemma UndatedName(t: string, ext: string)
    requires '.' !in t && '(' !in t && '.' !in ext
    ensures Parse(t + "." + ext) == Ok(MovieFile(t + "." + ext, t, ext, FixTitle(t), None, None, FixTitle(t), FixTitle(t)))
  {
    var f := t + "." + ext;
    assert f == Join([t, ext], '.');
    SplitJoin([t, ext], '.');
    UndatedStem(t);
  }

  /** "Title(YYYY).ext": the year is the four digits, the parenthesised part
      leaves the title, and the key is "Title (YYYY)". */
  lemma DatedName(t: string, y: string, ext: string)
    requires '.' !in t && '(' !in t && ')' !in t && '.' !in ext
    requires |y| == 4 && AllDigits(y)
    ensures var stem := t + "(" + y + ")";
      && Parse(stem + "." + ext).Ok?
      && Parse(stem + "." + ext).value.year == Some(y)
      && Parse(stem + "." + ext).value.title == FixTitle(Strip(t))
      && Parse(stem + "." + ext).value.dbIdx == FixTitle(Strip(t)) + " (" + y + ")"
  {
    var stem := t + "(" + y + ")";
    assert forall i :: 0 <= i < |y| ==> y[i] != '.' && y[i] != ')' && !IsSpace(y[i]);
    assert '.' !in stem by {
      assert stem == t + ['('] + y + [')'];
    }
    var f := stem + "." + ext;
    assert f == Join([stem, ext], '.');
    SplitJoin([stem, ext], '.');
    assert Split(f, '.')[0] == stem;
    assert stem == t + ['('] + (y + ")");
    FindAfter(t, '(', y + ")");
    assert stem == (t + "(" + y) + [')'] + [];
    FindAfter(t + "(" + y, ')', []);
    assert stem[..|t|] == t;
    assert ParenInfo(stem, |t|) == y;
    OneWord(y);
    assert FourDigitsAt(y, 0) by {
      assert y[0..4] == y;
    }
    assert CollectYear([y], None) == CollectYear([], SearchFourDigits(y));
  }
}
