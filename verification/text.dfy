/** The Python 2 `str` operations the movie-file parser relies on, over
    strings of characters. Python 2 `str` is a byte string, so whitespace
    (for `split()`, `strip()` and the regular-expression class `\s`) is the
    six ASCII characters space, tab, line feed, vertical tab, form feed and
    carriage return, and `\d` is the ten ASCII digits. */
module Text {
  import opened Wrappers

  predicate IsSpace(c: char) {
    c == ' ' || '\t' <= c <= '\r'
  }

  predicate IsDigit(c: char) {
    '0' <= c <= '9'
  }

  predicate AllSpace(s: string) {
    forall i :: 0 <= i < |s| ==> IsSpace(s[i])
  }

  predicate NoSpace(s: string) {
    forall i :: 0 <= i < |s| ==> !IsSpace(s[i])
  }

  predicate AllDigits(s: string) {
    forall i :: 0 <= i < |s| ==> IsDigit(s[i])
  }

  /** The characters of `s` that are not whitespace, in order. */
  function NonSpace(s: string): string {
    if |s| == 0 then []
    else (if IsSpace(s[0]) then [] else [s[0]]) + NonSpace(s[1..])
  }

  lemma {:induction false} NonSpaceAppend(a: string, b: string)
    ensures NonSpace(a + b) == NonSpace(a) + NonSpace(b)
  {
    if |a| > 0 {
      assert (a + b)[0] == a[0];
      assert (a + b)[1..] == a[1..] + b;
      NonSpaceAppend(a[1..], b);
    } else {
      assert a + b == b;
    }
  }

  // ---------------------------------------------------------------- find

  /** `s.find(c)`: the index of the first `c` in `s`, or -1 when there is none. */
  function Find(s: string, c: char): (r: int)
    ensures -1 <= r < |s|
    ensures 0 <= r ==> s[r] == c
    ensures forall j :: 0 <= j < |s| && (r < 0 || j < r) ==> s[j] != c
  {
    if |s| == 0 then -1
    else if s[0] == c then 0
    else
      var k := Find(s[1..], c);
      if k < 0 then -1 else k + 1
  }

  /** `find` reports -1 exactly when the character does not occur. */
  lemma FindAbsent(s: string, c: char)
    ensures Find(s, c) == -1 <==> c !in s
  {
  }

  // --------------------------------------------------------------- slices

  /** How Python normalises one bound of a slice of a sequence of length `n`:
      a negative bound counts from the end, and the result is clamped to [0, n]. */
  function SliceBound(i: int, n: nat): (b: nat)
    ensures b <= n
    ensures 0 <= i <= n ==> b == i
    ensures i < 0 <= n + i ==> b == n + i
  {
    if i < 0 then (if i + n < 0 then 0 else i + n)
    else if i > n then n
    else i
  }

  /** `s[start:stop]` with Python's semantics: both bounds normalised, and an
      empty result when the normalised stop does not exceed the start. */
  function Slice(s: string, start: int, stop: int): (r: string)
    ensures |r| <= |s|
    ensures 0 <= start <= stop <= |s| ==> r == s[start..stop]
    ensures stop < 0 && 0 <= start <= |s| + stop ==> r == s[start..|s| + stop]
  {
    var a := SliceBound(start, |s|);
    var b := SliceBound(stop, |s|);
    if a <= b then s[a..b] else []
  }

  // --------------------------------------------- split on a separator, join

  /** `s.split(sep)` for a one-character separator: the pieces between
      separators, empty pieces included, so there is always at least one. */
  function Split(s: string, sep: char): (parts: seq<string>)
    ensures |parts| >= 1
    ensures |parts| == 1 <==> Find(s, sep) < 0
    decreases |s|
  {
    var k := Find(s, sep);
    if k < 0 then [s]
    else [s[..k]] + Split(s[k + 1..], sep)
  }

  /** No piece of a split holds the separator. */
  lemma {:induction false} SplitPiecesFree(s: string, sep: char)
    ensures forall i :: 0 <= i < |Split(s, sep)| ==> sep !in Split(s, sep)[i]
    decreases |s|
  {
    if 0 <= Find(s, sep) {
      SplitAtFirst(s, sep);
      SplitPiecesFree(s[Find(s, sep) + 1..], sep);
    }
  }

  /** The first piece of a split is the text before the first separator. */
  lemma SplitHead(s: string, sep: char)
    ensures Split(s, sep)[0] == if Find(s, sep) < 0 then s else s[..Find(s, sep)]
  {
  }

  /** `sep.join(parts)`. */
  function Join(parts: seq<string>, sep: char): string {
    if |parts| == 0 then []
    else if |parts| == 1 then parts[0]
    else parts[0] + [sep] + Join(parts[1..], sep)
  }

  lemma JoinCons(x: string, rest: seq<string>, sep: char)
    requires |rest| >= 1
    ensures Join([x] + rest, sep) == x + [sep] + Join(rest, sep)
  {
    assert ([x] + rest)[1..] == rest;
  }

  /** A string with a separator splits into the text before the first one
      and the split of the text after it. */
  lemma SplitAtFirst(s: string, sep: char)
    requires 0 <= Find(s, sep)
    ensures Split(s, sep) == [s[..Find(s, sep)]] + Split(s[Find(s, sep) + 1..], sep)
    ensures s == s[..Find(s, sep)] + [sep] + s[Find(s, sep) + 1..]
  {
    AroundIndex(s, Find(s, sep));
  }

  lemma AroundIndex(s: string, k: int)
    requires 0 <= k < |s|
    ensures s == s[..k] + [s[k]] + s[k + 1..]
  {
  }

  /** A join of two or more pieces starts with the first two around a separator,
      and whatever follows starts with a separator. */
  lemma JoinFirstTwo(parts: seq<string>, sep: char)
    requires |parts| >= 2
    ensures Join(parts, sep) == parts[0] + [sep] + parts[1] + JoinRest(parts, sep)
  {
    if |parts| > 2 {
      assert parts[1..][1..] == parts[2..];
    }
  }

  /** What a join puts after its first two pieces. */
  function JoinRest(parts: seq<string>, sep: char): (r: string)
    requires |parts| >= 2
    ensures r == [] || r[0] == sep
  {
    if |parts| == 2 then [] else [sep] + Join(parts[2..], sep)
  }

  /** Joining the pieces of a split gives back the string. */
  lemma {:induction false} JoinSplit(s: string, sep: char)
    ensures Join(Split(s, sep), sep) == s
    decreases |s|
  {
    if 0 <= Find(s, sep) {
      var k := Find(s, sep);
      var rest := s[k + 1..];
      var pieces := Split(rest, sep);
      SplitAtFirst(s, sep);
      JoinCons(s[..k], pieces, sep);
      JoinSplit(rest, sep);
      calc {
        Join(Split(s, sep), sep);
        Join([s[..k]] + pieces, sep);
        s[..k] + [sep] + Join(pieces, sep);
        s[..k] + [sep] + rest;
      }
    }
  }

  /** Splitting a join of separator-free pieces gives back the pieces. */
  lemma {:induction false} SplitJoin(parts: seq<string>, sep: char)
    requires |parts| >= 1
    requires forall i :: 0 <= i < |parts| ==> sep !in parts[i]
    ensures Split(Join(parts, sep), sep) == parts
  {
    if |parts| > 1 {
      var head := parts[0];
      var rest := Join(parts[1..], sep);
      var s := head + [sep] + rest;
      assert Join(parts, sep) == s;
      FindAfter(head, sep, rest);
      assert s[..|head|] == head;
      assert s[|head| + 1..] == rest;
      SplitJoin(parts[1..], sep);
      assert parts == [head] + parts[1..];
    }
  }

  /** The first `c` of `a + [c] + b`, when `a` has none, is right after `a`. */
  lemma FindAfter(a: string, c: char, b: string)
    requires c !in a
    ensures Find(a + [c] + b, c) == |a|
  {
    var s := a + [c] + b;
    assert s[|a|] == c;
    assert s[..|a|] == a;
  }

  // ------------------------------------------------------------ stripping

  /** The number of whitespace characters at the start of `s`. */
  function LeadingSpace(s: string): (n: nat)
    ensures n <= |s| && AllSpace(s[..n])
    ensures n == |s| || !IsSpace(s[n])
  {
    if |s| > 0 && IsSpace(s[0]) then 1 + LeadingSpace(s[1..]) else 0
  }

  /** The length of `s` without its trailing whitespace. */
  function TextEnd(s: string): (n: nat)
    ensures n <= |s| && AllSpace(s[n..])
    ensures n == 0 || !IsSpace(s[n - 1])
  {
    if |s| > 0 && IsSpace(s[|s| - 1]) then TextEnd(s[..|s| - 1]) else |s|
  }

  /** `s.lstrip()`. */
  function TrimLeft(s: string): string {
    s[LeadingSpace(s)..]
  }

  /** `s.strip()`: the text between the leading and the trailing whitespace
      of `s`; it neither starts nor ends with whitespace. */
  function Strip(s: string): (r: string)
    ensures r == [] || (!IsSpace(r[0]) && !IsSpace(r[|r| - 1]))
    ensures LeadingSpace(s) + |r| <= |s|
    ensures r == s[LeadingSpace(s)..LeadingSpace(s) + |r|]
    ensures AllSpace(s[LeadingSpace(s) + |r|..])
  {
    var a := LeadingSpace(s);
    var t := s[a..];
    var e := TextEnd(t);
    assert t[e..] == s[a + e..];
    t[..e]
  }

  lemma {:induction false} LeadingSpaceOfPadded(a: string, t: string)
    requires AllSpace(a)
    requires t == [] || !IsSpace(t[0])
    ensures LeadingSpace(a + t) == |a|
  {
    if |a| > 0 {
      assert (a + t)[1..] == a[1..] + t;
      LeadingSpaceOfPadded(a[1..], t);
    } else {
      assert a + t == t;
    }
  }

  lemma {:induction false} TextEndOfPadded(t: string, b: string)
    requires AllSpace(b)
    requires t == [] || !IsSpace(t[|t| - 1])
    ensures TextEnd(t + b) == |t|
  {
    if |b| > 0 {
      assert (t + b)[..|t + b| - 1] == t + b[..|b| - 1];
      TextEndOfPadded(t, b[..|b| - 1]);
    } else {
      assert t + b == t;
    }
  }

  /** `strip()` is determined by its contract: whatever sits between two
      whitespace-only runs and has no whitespace at its edges is the result. */
  lemma StripUnique(a: string, m: string, b: string)
    requires AllSpace(a) && AllSpace(b)
    requires m == [] || (!IsSpace(m[0]) && !IsSpace(m[|m| - 1]))
    ensures Strip(a + m + b) == m
  {
    var s := a + m + b;
    if m == [] {
      assert AllSpace(s);
      assert s + [] == s;
      LeadingSpaceOfPadded(s, []);
      assert s[|s|..] == [];
    } else {
      assert s == a + (m + b);
      LeadingSpaceOfPadded(a, m + b);
      assert s[|a|..] == m + b;
      TextEndOfPadded(m, b);
      assert s[|a|..|a| + |m|] == m;
    }
  }

  /** Stripping twice is stripping once. */
  lemma StripIdempotent(s: string)
    ensures Strip(Strip(s)) == Strip(s)
  {
    var r := Strip(s);
    assert [] + r + [] == r;
    StripUnique([], r, []);
  }

  // -------------------------------------------------- whitespace splitting

  /** The longest whitespace-free prefix of `s`. */
  function Run(s: string): (w: string)
    ensures |w| <= |s| && w == s[..|w|] && NoSpace(w)
    ensures |w| == |s| || IsSpace(s[|w|])
  {
    if |s| == 0 || IsSpace(s[0]) then [] else [s[0]] + Run(s[1..])
  }

  /** `s.split()`: the maximal runs of non-whitespace characters, in order. */
  function Words(s: string): (ws: seq<string>)
    ensures forall i :: 0 <= i < |ws| ==> ws[i] != [] && NoSpace(ws[i])
    decreases |s|
  {
    var t := TrimLeft(s);
    if t == [] then []
    else
      var w := Run(t);
      [w] + Words(t[|w|..])
  }

  function Concat(ws: seq<string>): string {
    if |ws| == 0 then [] else ws[0] + Concat(ws[1..])
  }

  /** Splitting on whitespace loses exactly the whitespace: gluing the words
      back together gives the non-whitespace characters of `s`. */
  lemma {:induction false} WordsKeepText(s: string)
    ensures Concat(Words(s)) == NonSpace(s)
    decreases |s|
  {
    var t := TrimLeft(s);
    var lead := s[..LeadingSpace(s)];
    assert s == lead + t;
    NonSpaceAppend(lead, t);
    AllSpaceHasNoText(lead);
    if t != [] {
      var w := Run(t);
      var rest := t[|w|..];
      assert t == w + rest;
      NonSpaceAppend(w, rest);
      NoSpaceIsText(w);
      WordsKeepText(rest);
    }
  }

  /** A non-empty string without whitespace is a single word. */
  lemma OneWord(s: string)
    requires s != [] && NoSpace(s)
    ensures Words(s) == [s]
  {
    assert LeadingSpace(s) == 0;
    assert TrimLeft(s) == s;
    RunOfNoSpace(s);
    assert s[|s|..] == [];
  }

  /** A string of whitespace has no words. */
  lemma WordsOfSpace(s: string)
    requires AllSpace(s)
    ensures Words(s) == []
  {
    assert LeadingSpace(s) == |s|;
  }

  /** Leading whitespace does not change the words. */
  lemma WordsAfterSpace(g: string, s: string)
    requires AllSpace(g)
    ensures Words(g + s) == Words(s)
  {
    TrimLeftAfterSpace(g, s);
  }

  lemma TrimLeftAfterSpace(g: string, s: string)
    requires AllSpace(g)
    ensures TrimLeft(g + s) == TrimLeft(s)
  {
    var n := LeadingSpace(s);
    assert AllSpace(g + s[..n]);
    assert g + s == (g + s[..n]) + s[n..];
    LeadingSpaceOfPadded(g + s[..n], s[n..]);
    assert (g + s)[|g| + n..] == s[n..];
  }

  /** A word followed by the end or by whitespace is the first word. */
  lemma WordsAfterWord(w: string, rest: string)
    requires w != [] && NoSpace(w)
    requires rest == [] || IsSpace(rest[0])
    ensures Words(w + rest) == [w] + Words(rest)
  {
    var s := w + rest;
    assert LeadingSpace(s) == 0 by {
      assert s[0] == w[0];
    }
    RunOfWord(w, rest);
    assert s[|w|..] == rest;
  }

  lemma RunOfWord(w: string, rest: string)
    requires NoSpace(w)
    requires rest == [] || IsSpace(rest[0])
    ensures Run(w + rest) == w
  {
    var s := w + rest;
    var r := Run(s);
    assert r == s[..|w|] == w;
  }

  /** `split()` cuts at every run of whitespace: the words of two strings
      joined by whitespace are the words of the first followed by the words
      of the second. With `WordsOfSpace` and `OneWord` this fixes the words
      of every string. */
  lemma {:induction false} WordsAround(a: string, g: string, b: string)
    requires g != [] && AllSpace(g)
    ensures Words(a + g + b) == Words(a) + Words(b)
    decreases |a|
  {
    if TrimLeft(a) == [] {
      WordsAroundBlank(a, g, b);
    } else {
      var w, r := WordsAroundStep(a, g, b);
      WordsAround(r, g, b);
      WordsAroundCombine(Words(a), Words(r), Words(b), Words(a + g + b), Words(r + g + b), w);
    }
  }

  /** A whitespace-only string before the gap adds no words. */
  lemma WordsAroundBlank(a: string, g: string, b: string)
    requires TrimLeft(a) == [] && AllSpace(g)
    ensures Words(a) == [] && Words(a + g + b) == Words(b)
  {
    assert AllSpace(a) by {
      assert a[..LeadingSpace(a)] == a;
    }
    WordsOfSpace(a);
    WordsAfterSpace(a + g, b);
  }

  /** With text in `a`, its first word `w` starts both sides, and what
      follows it is a shorter string `r`. */
  lemma WordsAroundStep(a: string, g: string, b: string) returns (w: string, r: string)
    requires TrimLeft(a) != []
    requires g != [] && AllSpace(g)
    ensures |r| < |a|
    ensures Words(a) == [w] + Words(r)
    ensures Words(a + g + b) == [w] + Words(r + g + b)
  {
    var t := TrimLeft(a);
    w := Run(t);
    r := t[|w|..];
    WordsOfTrimmed(a);
    WordsOfFirstWord(t);
    WordsOfTrimmedPrefix(a, g, b);
    WordsOfFirstWordBeforeGap(t, g, b);
  }

  lemma WordsAroundCombine(wa: seq<string>, wr: seq<string>, wb: seq<string>, all: seq<string>, rest: seq<string>, w: string)
    requires wa == [w] + wr && all == [w] + rest && rest == wr + wb
    ensures all == wa + wb
  {
  }

  /** Leading whitespace changes no words. */
  lemma WordsOfTrimmed(a: string)
    ensures Words(a) == Words(TrimLeft(a))
  {
    var n := LeadingSpace(a);
    assert a == a[..n] + a[n..];
    WordsAfterSpace(a[..n], a[n..]);
  }

  lemma WordsOfTrimmedPrefix(a: string, g: string, b: string)
    ensures Words(a + g + b) == Words(TrimLeft(a) + g + b)
  {
    var n := LeadingSpace(a);
    assert a + g + b == a[..n] + (a[n..] + g + b);
    WordsAfterSpace(a[..n], a[n..] + g + b);
  }

  lemma WordsOfFirstWord(t: string)
    requires t != [] && !IsSpace(t[0])
    ensures Words(t) == [Run(t)] + Words(t[|Run(t)|..])
  {
    var w := Run(t);
    assert w != [];
    assert t == w + t[|w|..];
    WordsAfterWord(w, t[|w|..]);
  }

  lemma WordsOfFirstWordBeforeGap(t: string, g: string, b: string)
    requires t != [] && !IsSpace(t[0])
    requires g != [] && AllSpace(g)
    ensures Words(t + g + b) == [Run(t)] + Words(t[|Run(t)|..] + g + b)
  {
    var w := Run(t);
    var r := t[|w|..];
    assert w != [];
    assert t + g + b == w + (r + g + b);
    assert (r + g + b)[0] == if r == [] then g[0] else r[0];
    WordsAfterWord(w, r + g + b);
  }

  lemma {:induction false} RunOfNoSpace(s: string)
    requires NoSpace(s)
    ensures Run(s) == s
  {
    if |s| > 0 {
      RunOfNoSpace(s[1..]);
    }
  }

  lemma {:induction false} AllSpaceHasNoText(s: string)
    requires AllSpace(s)
    ensures NonSpace(s) == []
  {
    if |s| > 0 {
      AllSpaceHasNoText(s[1..]);
    }
  }

  lemma {:induction false} NoSpaceIsText(s: string)
    requires NoSpace(s)
    ensures NonSpace(s) == s
  {
    if |s| > 0 {
      NoSpaceIsText(s[1..]);
    }
  }

  // ----------------------------------------------- four-digit regex search

  /** Four ASCII digits start at index `i` of `s`. */
  predicate FourDigitsAt(s: string, i: int) {
    0 <= i && i + 4 <= |s| && AllDigits(s[i..i + 4])
  }

  function SearchFrom(s: string, i: nat): (r: Option<nat>)
    requires i <= |s|
    ensures r.Some? ==> i <= r.value && FourDigitsAt(s, r.value)
    ensures r.Some? ==> forall j :: i <= j < r.value ==> !FourDigitsAt(s, j)
    ensures r.None? ==> forall j :: i <= j ==> !FourDigitsAt(s, j)
    decreases |s| - i
  {
    if i + 4 > |s| then None
    else if FourDigitsAt(s, i) then Some(i)
    else SearchFrom(s, i + 1)
  }

  /** `re.search(r'\d{4}', s)` followed by `.group()`: the leftmost run of
      four digits in `s`, or `None` when `s` holds no four digits in a row. */
  function SearchFourDigits(s: string): (r: Option<string>)
    ensures r.None? <==> forall j :: !FourDigitsAt(s, j)
    ensures r.Some? ==> |r.value| == 4 && AllDigits(r.value)
    ensures r.Some? ==> exists i :: FourDigitsAt(s, i) && s[i..i + 4] == r.value && forall j :: 0 <= j < i ==> !FourDigitsAt(s, j)
  {
    match SearchFrom(s, 0)
    case None => None
    case Some(i) => Some(s[i..i + 4])
  }

  // --------------------------------------------------------- upper case

  function UpperChar(c: char): char {
    if 'a' <= c <= 'z' then (c as int - 32) as char else c
  }

  /** `s.upper()` on a Python 2 byte string: only ASCII letters change. */
  function Upper(s: string): (r: string)
    ensures |r| == |s|
    ensures forall i :: 0 <= i < |s| ==> r[i] == UpperChar(s[i])
  {
    if |s| == 0 then [] else [UpperChar(s[0])] + Upper(s[1..])
  }
}
