/** The text the main window shows for the cast: the actors field with each
    comma, and the whitespace after it, replaced by a line break. */
module Display {
  import opened Text

  /** `re.sub(r',\s*', '\n', actors)`: scanning from the left, a comma and the
      run of whitespace after it become one line break; every other character
      is kept. */
  function FormatCast(s: string): (r: string)
    ensures |r| <= |s|
    ensures forall i :: 0 <= i < |r| ==> r[i] != ','
    decreases |s|
  {
    if |s| == 0 then []
    else if s[0] == ',' then "\n" + FormatCast(TrimLeft(s[1..]))
    else [s[0]] + FormatCast(s[1..])
  }

  /** Each piece without its leading whitespace. */
  function TrimEach(ps: seq<string>): seq<string> {
    seq(|ps|, i requires 0 <= i < |ps| => TrimLeft(ps[i]))
  }

  /** The cast as lines: the pieces of the actors field between commas, each
      after the first without its leading whitespace. */
  function CastLines(s: string): seq<string> {
    var p := Split(s, ',');
    [p[0]] + TrimEach(p[1..])
  }

  /** The shown cast is the cast lines joined with line breaks, so every
      comma of the field starts a new line and nothing else changes. */
  lemma FormatCastIsJoinedLines(s: string)
    ensures FormatCast(s) == Join(CastLines(s), '\n')
  {
    var k := Find(s, ',');
    if k < 0 {
      FormatCastNoComma(s);
    } else {
      var a, x := s[..k], s[k + 1..];
      assert s == a + [','] + x by {
        AroundIndex(s, k);
      }
      FormatCastPrefix(a, x);
      TrimmedLines(x);
      assert CastLines(s) == [a] + TrimEach(Split(x, ',')) by {
        SplitAtComma(s, k);
      }
      JoinCons(a, TrimEach(Split(x, ',')), '\n');
    }
  }

  /** After a comma, the shown rest is the pieces of the rest of the field,
      each without its leading whitespace, joined with line breaks. */
  lemma {:induction false} TrimmedLines(x: string)
    ensures FormatCast(TrimLeft(x)) == Join(TrimEach(Split(x, ',')), '\n')
    decreases |x|
  {
    var n := LeadingSpace(x);
    var k := Find(x, ',');
    if k < 0 {
      assert Split(x, ',') == [x];
      assert TrimEach([x]) == [TrimLeft(x)];
      FormatCastNoComma(TrimLeft(x));
    } else {
      var a, rest := x[n..k], x[k + 1..];
      CommaAfterSpace(x, n, k);
      assert TrimLeft(x) == a + [','] + rest by {
        SliceAround(x, n, k);
      }
      assert forall i :: 0 <= i < |a| ==> a[i] != ',' by {
        assert forall i :: 0 <= i < |a| ==> a[i] == x[n + i];
      }
      FormatCastPrefix(a, rest);
      TrimmedLines(rest);
      assert TrimEach(Split(x, ',')) == [a] + TrimEach(Split(rest, ',')) by {
        SplitAtComma(x, k);
        TrimLeftOfPrefix(x, k);
        TrimEachCons(Split(x, ','));
      }
      JoinCons(a, TrimEach(Split(rest, ',')), '\n');
    }
  }

  lemma TrimEachCons(q: seq<string>)
    requires |q| >= 1
    ensures TrimEach(q) == [TrimLeft(q[0])] + TrimEach(q[1..])
  {
  }

  /** A field without commas is shown as it is. */
  lemma {:induction false} FormatCastNoComma(s: string)
    requires forall i :: 0 <= i < |s| ==> s[i] != ','
    ensures FormatCast(s) == s
    decreases |s|
  {
    if |s| > 0 {
      FormatCastNoComma(s[1..]);
    }
  }

  /** Text before the first comma is kept, and the comma with its trailing
      whitespace becomes one line break. */
  lemma {:induction false} FormatCastPrefix(a: string, x: string)
    requires forall i :: 0 <= i < |a| ==> a[i] != ','
    ensures FormatCast(a + [','] + x) == a + "\n" + FormatCast(TrimLeft(x))
    decreases |a|
  {
    var s := a + [','] + x;
    if |a| == 0 {
      assert s[0] == ',' && s[1..] == x;
    } else {
      var tail, shown := a[1..] + [','] + x, FormatCast(TrimLeft(x));
      assert s[0] == a[0] && s[1..] == tail;
      FormatCastPrefix(a[1..], x);
      assert FormatCast(s) == [a[0]] + (a[1..] + "\n" + shown);
      ConsAppend(a, "\n" + shown);
    }
  }

  lemma ConsAppend(a: string, b: string)
    requires |a| > 0
    ensures [a[0]] + (a[1..] + b) == a + b
  {
  }

  lemma SplitAtComma(s: string, k: nat)
    requires k == Find(s, ',')
    ensures |Split(s, ',')| >= 2 && Split(s, ',')[0] == s[..k] && Split(s, ',')[1..] == Split(s[k + 1..], ',')
  {
    SplitAtFirst(s, ',');
  }

  /** A comma is never whitespace, so the first comma comes after the
      leading whitespace. */
  lemma CommaAfterSpace(x: string, n: nat, k: nat)
    requires n == LeadingSpace(x) && k == Find(x, ',')
    ensures n <= k
  {
  }

  lemma SliceAround(x: string, n: nat, k: nat)
    requires n <= k < |x|
    ensures x[n..] == x[n..k] + [x[k]] + x[k + 1..]
  {
  }

  /** A prefix that reaches past the leading whitespace loses the same
      leading whitespace. */
  lemma TrimLeftOfPrefix(x: string, m: nat)
    requires LeadingSpace(x) <= m <= |x|
    ensures TrimLeft(x[..m]) == x[LeadingSpace(x)..m]
  {
    LeadingSpaceOfPrefix(x, m);
  }

  lemma LeadingSpaceOfPrefix(x: string, m: nat)
    requires LeadingSpace(x) <= m <= |x|
    ensures LeadingSpace(x[..m]) == LeadingSpace(x)
    decreases m
  {
    if |x| > 0 && IsSpace(x[0]) {
      assert x[..m][1..] == x[1..][..m - 1];
      LeadingSpaceOfPrefix(x[1..], m - 1);
    }
  }
}
