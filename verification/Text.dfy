/**
 * The text normaliser (`normalize_text`) and the page concatenation that feeds it.
 *
 * `Normalize` is the composition the source performs: split on newlines, collapse the
 * whitespace runs of each line to one space and strip the line, join the lines again,
 * and rewrite every run of three or more newlines as exactly two.
 */
module Text {
  import opened Base

  /** Python's `str.isspace()`; `\s` in a `str` pattern and `str.strip()` use the same set. */
  predicate IsSpace(c: char)
  {
    || c == ' ' || c == '\t' || c == '\n' || c == '\r' || c == '\U{B}' || c == '\U{C}'
    || ('\U{1C}' <= c <= '\U{1F}') || c == '\U{85}' || c == '\U{A0}' || c == '\U{1680}'
    || ('\U{2000}' <= c <= '\U{200A}') || c == '\U{2028}' || c == '\U{2029}'
    || c == '\U{202F}' || c == '\U{205F}' || c == '\U{3000}'
  }

  /** `re.sub(r"[\s\n]+", "", s)`: the characters of `s` that are not whitespace, in order. */
  function NonSpace(s: string): (r: string)
    ensures forall c | c in r :: c in s && !IsSpace(c)
  {
    if s == [] then [] else (if IsSpace(s[0]) then [] else [s[0]]) + NonSpace(s[1..])
  }

  lemma {:induction false} NonSpaceAppend(a: string, b: string)
    ensures NonSpace(a + b) == NonSpace(a) + NonSpace(b)
  {
    if a == [] {
      assert a + b == b;
    } else {
      assert (a + b)[1..] == a[1..] + b;
      NonSpaceAppend(a[1..], b);
    }
  }

  /** The text of a document's pages, each page followed by a newline: it is empty exactly
      when there is no page, and otherwise starts with the first page and ends in a newline. */
  function PagesText(pages: seq<string>): (r: string)
    ensures r == [] <==> pages == []
    ensures pages != [] ==> pages[0] <= r && r[|r| - 1] == '\n'
  {
    if pages == [] then [] else PagesText(pages[..|pages| - 1]) + pages[|pages| - 1] + "\n"
  }

  /** One more page appends its text and a newline. */
  lemma PagesTextSnoc(pages: seq<string>, page: string)
    ensures PagesText(pages + [page]) == PagesText(pages) + (page + "\n")
  {
    assert (pages + [page])[..|pages|] == pages;
  }

  /** The number of non-whitespace characters over all pages. */
  function TotalNonSpace(pages: seq<string>): nat
  {
    if pages == [] then 0 else TotalNonSpace(pages[..|pages| - 1]) + |NonSpace(pages[|pages| - 1])|
  }

  /** Concatenating the pages adds only whitespace: the non-whitespace count is the pages' total. */
  lemma {:induction false} PagesTextNonSpace(pages: seq<string>)
    ensures |NonSpace(PagesText(pages))| == TotalNonSpace(pages)
  {
    if pages != [] {
      var init, last := pages[..|pages| - 1], pages[|pages| - 1];
      PagesTextNonSpace(init);
      NonSpaceAppend(PagesText(init), last);
      NonSpaceAppend(PagesText(init) + last, "\n");
      assert NonSpace("\n") == [];
    }
  }

  // ---------------------------------------------------------------------------
  // Splitting and joining lines

  /** `"\n".join(lines)` */
  function JoinLines(lines: seq<string>): string
  {
    if |lines| == 0 then []
    else if |lines| == 1 then lines[0]
    else lines[0] + "\n" + JoinLines(lines[1..])
  }

  /** `s.split("\n")`: the pieces between newlines, always at least one. */
  function SplitLines(s: string): (lines: seq<string>)
    ensures 1 <= |lines|
    ensures forall l | l in lines :: '\n' !in l
    ensures JoinLines(lines) == s
  {
    if s == [] then [[]]
    else
      var rest := SplitLines(s[1..]);
      if s[0] == '\n' then
        assert ([[]] + rest)[1..] == rest;
        [[]] + rest
      else
        var lines := [[s[0]] + rest[0]] + rest[1..];
        assert lines[1..] == rest[1..];
        assert |rest| > 1 ==> JoinLines(rest) == rest[0] + "\n" + JoinLines(rest[1..]);
        lines
  }

  /** Splitting undoes joining, for lines without newlines. */
  lemma {:induction false} SplitJoin(lines: seq<string>)
    requires 1 <= |lines|
    requires forall l | l in lines :: '\n' !in l
    ensures SplitLines(JoinLines(lines)) == lines
  {
    assert lines[0] in lines;
    if |lines| == 1 {
      SplitNoNewline(lines[0]);
    } else {
      assert forall l | l in lines[1..] :: l in lines;
      SplitJoin(lines[1..]);
      SplitAfterLine(lines[0], JoinLines(lines[1..]));
      assert lines == [lines[0]] + lines[1..];
    }
  }

  /** A text without a newline is one line. */
  lemma {:induction false} SplitNoNewline(l: string)
    requires '\n' !in l
    ensures SplitLines(l) == [l]
  {
    if l != [] {
      SplitNoNewline(l[1..]);
      SplitFirstChar(l[0], l[1..]);
      assert [l[0]] + l[1..] == l;
    }
  }

  /** A newline-free line followed by a newline splits off as the first line. */
  lemma {:induction false} SplitAfterLine(l: string, t: string)
    requires '\n' !in l
    ensures SplitLines(l + "\n" + t) == [l] + SplitLines(t)
  {
    if l == [] {
      assert l + "\n" + t == ['\n'] + t;
      assert (['\n'] + t)[1..] == t;
    } else {
      SplitAfterLine(l[1..], t);
      assert l + "\n" + t == [l[0]] + (l[1..] + "\n" + t);
      SplitFirstChar(l[0], l[1..] + "\n" + t);
      assert [l[0]] + l[1..] == l;
    }
  }

  /** A character other than a newline joins the first piece of what follows it. */
  lemma SplitFirstChar(c: char, s: string)
    requires c != '\n'
    ensures SplitLines([c] + s) == [[c] + SplitLines(s)[0]] + SplitLines(s)[1..]
  {
    assert ([c] + s)[1..] == s;
  }

  /** The joined text holds a newline exactly when there are two or more lines. */
  lemma JoinHasNewline(lines: seq<string>)
    requires forall l | l in lines :: '\n' !in l
    ensures '\n' in JoinLines(lines) <==> 2 <= |lines|
  {
    if |lines| >= 2 {
      assert JoinLines(lines)[|lines[0]|] == '\n';
    }
  }

  // ---------------------------------------------------------------------------
  // The shape of normalised text

  /** No space stands next to another whitespace character. */
  predicate SpacesApart(s: string)
  {
    forall i | 0 <= i < |s| - 1 :: !(s[i] == ' ' && IsSpace(s[i + 1])) && !(IsSpace(s[i]) && s[i + 1] == ' ')
  }

  /** The only whitespace characters are spaces and newlines. */
  predicate SpacesAndNewlines(s: string)
  {
    forall c | c in s :: IsSpace(c) ==> c == ' ' || c == '\n'
  }

  /** Whitespace is spaces and newlines only, each space sits between two non-whitespace characters. */
  predicate Tidy(s: string)
  {
    && SpacesAndNewlines(s)
    && SpacesApart(s)
    && (|s| > 0 ==> s[0] != ' ' && s[|s| - 1] != ' ')
  }

  /** A line with no leading or trailing whitespace, no two adjacent whitespace characters
      and no whitespace character other than a space. */
  predicate CleanLine(line: string)
  {
    '\n' !in line && Tidy(line)
  }

  /** No run of three newlines. */
  predicate NoTripleNewline(s: string)
  {
    forall i | 0 <= i < |s| - 2 :: !(s[i] == '\n' && s[i + 1] == '\n' && s[i + 2] == '\n')
  }

  /** Gluing two texts with a newline is tidy exactly when both texts are. */
  lemma TidyGlue(a: string, b: string)
    ensures Tidy(a + "\n" + b) <==> Tidy(a) && Tidy(b)
  {
    if Tidy(a + "\n" + b) {
      TidyUnglue(a, b);
    }
    if Tidy(a) && Tidy(b) {
      SpacesApartGlue(a, b);
      var t := a + "\n" + b;
      forall c | c in t
        ensures IsSpace(c) ==> c == ' ' || c == '\n'
      {
        assert c in a || c == '\n' || c in b;
      }
      if |b| > 0 {
        assert t[|t| - 1] == b[|b| - 1];
      }
    }
  }

  lemma TidyUnglue(a: string, b: string)
    requires Tidy(a + "\n" + b)
    ensures Tidy(a) && Tidy(b)
  {
    var t := a + "\n" + b;
    var n := |a|;
    assert t[..n] == a && t[n + 1..] == b;
    SpacesApartSlice(t, 0, n);
    SpacesApartSlice(t, n + 1, |t|);
    SpacesAndNewlinesSlice(t, 0, n);
    SpacesAndNewlinesSlice(t, n + 1, |t|);
    UnglueEnds(a, b);
  }

  lemma SpacesAndNewlinesSlice(s: string, lo: nat, hi: nat)
    requires lo <= hi <= |s|
    requires SpacesAndNewlines(s)
    ensures SpacesAndNewlines(s[lo..hi])
  {
    assert forall c | c in s[lo..hi] :: c in s;
  }

  /** The pieces around a newline of tidy text neither start nor end with a space. */
  lemma UnglueEnds(a: string, b: string)
    requires SpacesApart(a + "\n" + b)
    requires |a| > 0 ==> a[0] != ' '
    requires |b| > 0 ==> b[|b| - 1] != ' '
    ensures |a| > 0 ==> a[|a| - 1] != ' '
    ensures |b| > 0 ==> b[0] != ' '
  {
    var t := a + "\n" + b;
    var n := |a|;
    if |a| > 0 {
      assert t[n - 1] == a[n - 1] && t[n] == '\n';
    }
    if |b| > 0 {
      assert t[n + 1] == b[0] && t[n] == '\n';
    }
  }

  lemma SpacesApartGlue(a: string, b: string)
    requires SpacesApart(a) && SpacesApart(b)
    requires |a| > 0 ==> a[|a| - 1] != ' '
    requires |b| > 0 ==> b[0] != ' '
    ensures SpacesApart(a + "\n" + b)
  {
    var t := a + "\n" + b;
    var n := |a|;
    forall i | 0 <= i < |t| - 1
      ensures !(t[i] == ' ' && IsSpace(t[i + 1])) && !(IsSpace(t[i]) && t[i + 1] == ' ')
    {
      if i < n - 1 {
        assert t[i] == a[i] && t[i + 1] == a[i + 1];
      } else if i == n - 1 {
        assert t[i] == a[n - 1] && t[i + 1] == '\n';
      } else if i == n {
        assert t[i] == '\n' && t[i + 1] == b[0];
      } else {
        assert t[i] == b[i - n - 1] && t[i + 1] == b[i - n];
      }
    }
  }

  /** Joining clean lines gives tidy text. */
  lemma {:induction false} JoinTidy(lines: seq<string>)
    requires forall l | l in lines :: CleanLine(l)
    ensures Tidy(JoinLines(lines))
  {
    if |lines| == 1 {
      assert lines[0] in lines;
    } else if |lines| >= 2 {
      assert forall l | l in lines[1..] :: l in lines;
      assert lines[0] in lines;
      JoinTidy(lines[1..]);
      TidyGlue(lines[0], JoinLines(lines[1..]));
    }
  }

  /** The lines of tidy text are clean. */
  lemma {:induction false} SplitTidy(lines: seq<string>)
    requires forall l | l in lines :: '\n' !in l
    requires Tidy(JoinLines(lines))
    ensures forall l | l in lines :: CleanLine(l)
  {
    if |lines| >= 2 {
      assert forall l | l in lines[1..] :: l in lines;
      TidyGlue(lines[0], JoinLines(lines[1..]));
      SplitTidy(lines[1..]);
      assert forall l | l in lines :: l == lines[0] || l in lines[1..];
    }
  }

  // ---------------------------------------------------------------------------
  // One line: `re.sub(r"\s+", " ", line).strip()`

  /** `re.sub(r"\s+", " ", s)`: every maximal run of whitespace becomes one space. Reading
      left to right, a whitespace character followed by another one is dropped, and the
      last character of the run is written as a space. */
  function CollapseRuns(s: string): (r: string)
    ensures forall c | c in r :: IsSpace(c) ==> c == ' '
    ensures SpacesApart(r)
    ensures |r| == 0 <==> |s| == 0
    ensures |s| > 0 ==> (IsSpace(r[0]) <==> IsSpace(s[0]))
  {
    if s == [] then []
    else
      var rest := CollapseRuns(s[1..]);
      if IsSpace(s[0]) && 1 < |s| && IsSpace(s[1]) then rest
      else
        var r := [if IsSpace(s[0]) then ' ' else s[0]] + rest;
        assert |rest| > 0 ==> !IsSpace(r[0]) || !IsSpace(rest[0]);
        assert forall i | 1 <= i < |r| :: r[i] == rest[i - 1];
        r
  }

  /** Collapsing whitespace runs keeps the non-whitespace characters, in order. */
  lemma {:induction false} CollapseRunsNonSpace(s: string)
    ensures NonSpace(CollapseRuns(s)) == NonSpace(s)
  {
    if s != [] {
      CollapseRunsNonSpace(s[1..]);
      if !(IsSpace(s[0]) && 1 < |s| && IsSpace(s[1])) {
        var r := CollapseRuns(s);
        assert r[1..] == CollapseRuns(s[1..]);
      }
    }
  }

  /** A whitespace run between two words becomes exactly one space, and what lies on
      either side of it collapses on its own. */
  lemma {:induction false} CollapseRunsSeparates(a: string, w: string, b: string)
    requires a == [] || !IsSpace(a[|a| - 1])
    requires w != [] && forall c | c in w :: IsSpace(c)
    requires b == [] || !IsSpace(b[0])
    ensures CollapseRuns(a + w + b) == CollapseRuns(a) + " " + CollapseRuns(b)
    decreases |a| + |w|
  {
    var s := a + w + b;
    if a != [] {
      DropFirst(a, w, b);
      assert a[1..] == [] || a[1..][|a[1..]| - 1] == a[|a| - 1];
      CollapseRunsSeparates(a[1..], w, b);
      assert |a| > 1 ==> s[1] == a[1];
      var x, y := CollapseRuns(a[1..]), CollapseRuns(b);
      ConcatAssoc(x, " ", y);
      ConcatAssoc(CollapseRuns(a), " ", y);
      CollapseSameStep(a, s, " " + y);
    } else if |w| > 1 {
      assert s == w + b;
      assert s[1..] == a + w[1..] + b;
      assert w[1] in w;
      CollapseRunsSeparates(a, w[1..], b);
    } else {
      assert s == w + b;
      assert w[0] in w;
      assert s[1..] == b;
    }
  }

  /** One step of `CollapseRuns`. */
  lemma CollapseStep(s: string)
    requires s != []
    ensures CollapseRuns(s) == if StartsRun(s) then CollapseRuns(s[1..])
      else [if IsSpace(s[0]) then ' ' else s[0]] + CollapseRuns(s[1..])
  {
  }

  predicate StartsRun(s: string)
  {
    |s| > 1 && IsSpace(s[0]) && IsSpace(s[1])
  }

  /** Two texts that start alike and collapse alike after their first character collapse alike. */
  lemma CollapseSameStep(a: string, s: string, tail: string)
    requires a != [] && s != [] && s[0] == a[0] && (StartsRun(s) <==> StartsRun(a))
    requires CollapseRuns(s[1..]) == CollapseRuns(a[1..]) + tail
    ensures CollapseRuns(s) == CollapseRuns(a) + tail
  {
    var x := CollapseRuns(a[1..]);
    ConcatAssoc([if IsSpace(a[0]) then ' ' else a[0]], x, tail);
    CollapseStep(a);
    CollapseStep(s);
  }

  /** `s.lstrip()` */
  function TrimStart(s: string): (r: string)
    ensures |r| <= |s|
    ensures r == s[|s| - |r|..]
    ensures |r| > 0 ==> !IsSpace(r[0])
    ensures forall i | 0 <= i < |s| - |r| :: IsSpace(s[i])
  {
    if s != [] && IsSpace(s[0]) then TrimStart(s[1..]) else s
  }

  /** `s.rstrip()` */
  function TrimEnd(s: string): (r: string)
    ensures |r| <= |s|
    ensures r == s[..|r|]
    ensures |r| > 0 ==> !IsSpace(r[|r| - 1])
    ensures forall i | |r| <= i < |s| :: IsSpace(s[i])
  {
    if s != [] && IsSpace(s[|s| - 1]) then TrimEnd(s[..|s| - 1]) else s
  }

  /** `s.strip()`: a contiguous piece of `s` that neither starts nor ends with whitespace,
      with only whitespace before and after it. */
  function Strip(s: string): (r: string)
    ensures |r| > 0 ==> !IsSpace(r[0]) && !IsSpace(r[|r| - 1])
    ensures SpaceAround(s, |s| - |TrimStart(s)|, r)
    ensures NonSpace(r) == NonSpace(s)
  {
    TrimBoth(s);
    TrimBothNonSpace(s);
    TrimEnd(TrimStart(s))
  }

  /** Trimming both ends cuts only whitespace and leaves a slice of the text. */
  lemma TrimBoth(s: string)
    ensures SpaceAround(s, |s| - |TrimStart(s)|, TrimEnd(TrimStart(s)))
  {
    var a := TrimStart(s);
    SliceOfSuffix(s, a, TrimEnd(a));
  }

  /** Trimming both ends keeps every non-whitespace character. */
  lemma TrimBothNonSpace(s: string)
    ensures NonSpace(TrimEnd(TrimStart(s))) == NonSpace(s)
  {
    TrimStartNonSpace(s);
    TrimEndNonSpace(TrimStart(s));
  }

  /** `r` is the slice of `s` that starts at `i`, and `s` has only whitespace around it. */
  predicate SpaceAround(s: string, i: nat, r: string)
  {
    && i + |r| <= |s| && r == s[i..i + |r|]
    && (forall k | 0 <= k < i :: IsSpace(s[k]))
    && (forall k | i + |r| <= k < |s| :: IsSpace(s[k]))
  }

  /** A prefix `r` of a suffix `a` of `s`, each with only whitespace cut off, is a slice of `s`
      with only whitespace around it. */
  lemma SliceOfSuffix(s: string, a: string, r: string)
    requires |a| <= |s| && a == s[|s| - |a|..]
    requires forall k | 0 <= k < |s| - |a| :: IsSpace(s[k])
    requires |r| <= |a| && r == a[..|r|]
    requires forall k | |r| <= k < |a| :: IsSpace(a[k])
    ensures SpaceAround(s, |s| - |a|, r)
  {
    var i := |s| - |a|;
    forall k | i + |r| <= k < |s|
      ensures IsSpace(s[k])
    {
      assert s[k] == a[k - i];
    }
  }

  /** One line as the list comprehension of `normalize_text` leaves it. */
  function TidyLine(line: string): string
  {
    Strip(CollapseRuns(line))
  }

  lemma TrimStartNonSpace(s: string)
    ensures NonSpace(TrimStart(s)) == NonSpace(s)
  {
    if s != [] && IsSpace(s[0]) {
      TrimStartNonSpace(s[1..]);
    }
  }

  lemma TrimEndNonSpace(s: string)
    ensures NonSpace(TrimEnd(s)) == NonSpace(s)
  {
    if s != [] && IsSpace(s[|s| - 1]) {
      var init := s[..|s| - 1];
      TrimEndNonSpace(init);
      NonSpaceDropLast(s);
    }
  }

  /** A trailing whitespace character contributes nothing to the non-whitespace characters. */
  lemma NonSpaceDropLast(s: string)
    requires s != [] && IsSpace(s[|s| - 1])
    ensures NonSpace(s) == NonSpace(s[..|s| - 1])
  {
    var init, last := s[..|s| - 1], s[|s| - 1];
    NonSpaceAppend(init, [last]);
    assert init + [last] == s;
  }

  /** A piece of a string keeps its neighbouring pairs. */
  lemma SpacesApartSlice(s: string, lo: nat, hi: nat)
    requires lo <= hi <= |s|
    requires SpacesApart(s)
    ensures SpacesApart(s[lo..hi])
  {
    var t := s[lo..hi];
    forall i | 0 <= i < |t| - 1
      ensures !(t[i] == ' ' && IsSpace(t[i + 1])) && !(IsSpace(t[i]) && t[i + 1] == ' ')
    {
      assert t[i] == s[lo + i] && t[i + 1] == s[lo + i + 1];
    }
  }

  /** Every line comes out clean, with its non-whitespace characters unchanged. */
  lemma TidyLineClean(line: string)
    ensures CleanLine(TidyLine(line))
    ensures NonSpace(TidyLine(line)) == NonSpace(line)
  {
    var c := CollapseRuns(line);
    CollapseRunsNonSpace(line);
    var a := TrimStart(c);
    var r := TrimEnd(a);
    TrimStartNonSpace(c);
    TrimEndNonSpace(a);
    StripCollapsed(c);
  }

  /** Stripping a collapsed string leaves a clean line. */
  lemma StripCollapsed(c: string)
    requires forall x | x in c :: IsSpace(x) ==> x == ' '
    requires SpacesApart(c)
    ensures CleanLine(Strip(c))
  {
    var a := TrimStart(c);
    SpacesApartSlice(c, |c| - |a|, |c|);
    assert forall x | x in a :: x in c;
    TrimEndClean(a);
  }

  lemma TrimEndClean(a: string)
    requires forall x | x in a :: IsSpace(x) ==> x == ' '
    requires SpacesApart(a)
    requires |a| > 0 ==> !IsSpace(a[0])
    ensures CleanLine(TrimEnd(a))
  {
    var r := TrimEnd(a);
    SpacesApartSlice(a, 0, |r|);
    assert forall x | x in r :: x in a;
    assert '\n' !in r;
    if |r| > 0 {
      assert r[0] == a[0];
    }
  }

  lemma {:induction false} CollapseRunsFixed(s: string)
    requires forall c | c in s :: IsSpace(c) ==> c == ' '
    requires SpacesApart(s)
    ensures CollapseRuns(s) == s
  {
    if s != [] {
      SpacesApartSlice(s, 1, |s|);
      CollapseRunsFixed(s[1..]);
      if 1 < |s| && IsSpace(s[0]) {
        assert s[0] == ' ' && !IsSpace(s[1]);
      }
      assert s == [s[0]] + s[1..];
    }
  }

  /** A line is left as it is exactly when it is already clean. */
  lemma TidyLineFixed(line: string)
    ensures TidyLine(line) == line <==> CleanLine(line)
  {
    TidyLineClean(line);
    if CleanLine(line) {
      CollapseRunsFixed(line);
      StripFixed(line);
    }
  }

  /** `[TidyLine(l) for l in lines]` */
  function TidyLines(lines: seq<string>): (r: seq<string>)
    ensures |r| == |lines|
    ensures forall i | 0 <= i < |lines| :: r[i] == TidyLine(lines[i])
  {
    if lines == [] then [] else [TidyLine(lines[0])] + TidyLines(lines[1..])
  }

  // ---------------------------------------------------------------------------
  // Blank lines: `re.sub(r"\n{3,}", "\n\n", text)`

  /** Every maximal run of three or more newlines becomes exactly two. Reading left to right,
      a newline followed by two more newlines is dropped. */
  function SqueezeBlankLines(s: string): (r: string)
    ensures |s| > 0 ==> |r| > 0 && r[0] == s[0] && r[|r| - 1] == s[|s| - 1]
    ensures forall c | c in r :: c in s
  {
    if s == [] then []
    else if |s| >= 3 && s[0] == '\n' && s[1] == '\n' && s[2] == '\n' then
      SqueezeBlankLines(s[1..])
    else
      var rest := SqueezeBlankLines(s[1..]);
      var r := [s[0]] + rest;
      assert r[1..] == rest;
      r
  }

  /** `k` newlines. */
  function Newlines(k: nat): (r: string)
    ensures |r| == k && forall i | 0 <= i < k :: r[i] == '\n'
  {
    if k == 0 then [] else "\n" + Newlines(k - 1)
  }

  /** What a run of `k` newlines becomes: two newlines when `k` is at least three, else itself. */
  function SqueezedRun(k: nat): string
  {
    if k >= 3 then "\n\n" else Newlines(k)
  }

  /** A run of `k` newlines between two other characters becomes two newlines when `k` is at
      least three and is kept as it is otherwise; the text on either side is squeezed on its own. */
  lemma {:induction false} SqueezeRun(a: string, k: nat, b: string)
    requires a == [] || a[|a| - 1] != '\n'
    requires b == [] || b[0] != '\n'
    ensures SqueezeBlankLines(a + Newlines(k) + b)
      == SqueezeBlankLines(a) + SqueezedRun(k) + SqueezeBlankLines(b)
  {
    if a == [] {
      assert a + Newlines(k) + b == Newlines(k) + b;
      SqueezeLeadingRun(k, b);
    } else {
      var s := a + Newlines(k) + b;
      var m, y := SqueezedRun(k), SqueezeBlankLines(b);
      var x, z := SqueezeBlankLines(a[1..]), SqueezeBlankLines(a);
      ConcatAssoc(x, m, y);
      ConcatAssoc(z, m, y);
      SqueezeRun(a[1..], k, b);
      DropFirst(a, Newlines(k), b);
      SqueezeSameHead(a, s);
      SqueezeSameStep(a, s, m + y);
    }
  }

  lemma ConcatAssoc(x: string, m: string, y: string)
    ensures x + m + y == x + (m + y)
  {
  }

  /** Dropping the first character of a three-part text drops it from the first part. */
  lemma DropFirst(a: string, n: string, b: string)
    requires a != []
    ensures (a + n + b)[1..] == a[1..] + n + b && (a + n + b)[..|a|] == a
  {
  }

  /** Two texts that start alike squeeze alike once their rests do. */
  lemma SqueezeSameStep(a: string, s: string, tail: string)
    requires a != [] && s != [] && s[0] == a[0] && (StartsTriple(s) <==> StartsTriple(a))
    requires SqueezeBlankLines(s[1..]) == SqueezeBlankLines(a[1..]) + tail
    ensures SqueezeBlankLines(s) == SqueezeBlankLines(a) + tail
  {
    var x := SqueezeBlankLines(a[1..]);
    assert [a[0]] + (x + tail) == [a[0]] + x + tail;
    SqueezeStep(a);
    SqueezeStep(s);
  }

  /** The text starts with three newlines, so its first character is dropped. */
  predicate StartsTriple(s: string)
  {
    |s| >= 3 && s[0] == '\n' && s[1] == '\n' && s[2] == '\n'
  }

  /** One step of the squeeze: the first character is dropped when it starts three newlines,
      and kept otherwise. */
  lemma SqueezeStep(s: string)
    requires s != []
    ensures SqueezeBlankLines(s)
      == if StartsTriple(s) then SqueezeBlankLines(s[1..]) else [s[0]] + SqueezeBlankLines(s[1..])
  {
  }

  /** A prefix that does not end in a newline starts three newlines exactly when the whole
      text does. */
  lemma SqueezeSameHead(a: string, s: string)
    requires a != [] && a[|a| - 1] != '\n' && |a| <= |s| && s[..|a|] == a
    ensures s[0] == a[0] && (StartsTriple(s) <==> StartsTriple(a))
  {
    assert s[0] == a[0];
    if |a| >= 3 {
      assert s[1] == a[1] && s[2] == a[2];
    } else if |a| == 2 {
      assert s[1] == a[1];
    }
  }

  /** A text that starts with `k` newlines. */
  lemma {:induction false} SqueezeLeadingRun(k: nat, b: string)
    requires b == [] || b[0] != '\n'
    ensures SqueezeBlankLines(Newlines(k) + b) == SqueezedRun(k) + SqueezeBlankLines(b)
  {
    if k < 3 {
      SqueezeShortRun(k, b);
    } else {
      var t := Newlines(k - 1) + b;
      ConcatAssoc("\n", Newlines(k - 1), b);
      SqueezeLeadingRun(k - 1, b);
      NewlinesLead(k - 1, b);
      NewlineDropped(t);
      TwoNewlines();
    }
  }

  /** Fewer than three leading newlines are kept. */
  lemma {:induction false} SqueezeShortRun(k: nat, b: string)
    requires k < 3
    requires b == [] || b[0] != '\n'
    ensures SqueezeBlankLines(Newlines(k) + b) == Newlines(k) + SqueezeBlankLines(b)
  {
    if k == 0 {
      assert Newlines(k) + b == b;
    } else {
      var t := Newlines(k - 1) + b;
      ConcatAssoc("\n", Newlines(k - 1), b);
      SqueezeShortRun(k - 1, b);
      assert k - 1 == 1 ==> t[1..] == b;
      NewlineKept(t);
      ConcatAssoc("\n", Newlines(k - 1), SqueezeBlankLines(b));
    }
  }

  lemma NewlinesLead(k: nat, b: string)
    requires k >= 2
    ensures |Newlines(k) + b| >= 2 && (Newlines(k) + b)[0] == '\n' && (Newlines(k) + b)[1] == '\n'
  {
  }

  lemma TwoNewlines()
    ensures Newlines(2) == "\n\n"
  {
    assert Newlines(1) == "\n";
  }

  /** A newline followed by two more is dropped. */
  lemma NewlineDropped(t: string)
    requires |t| >= 2 && t[0] == '\n' && t[1] == '\n'
    ensures SqueezeBlankLines("\n" + t) == SqueezeBlankLines(t)
  {
    assert ("\n" + t)[1..] == t;
  }

  /** A newline not followed by two more is kept. */
  lemma NewlineKept(t: string)
    requires !(|t| >= 2 && t[0] == '\n' && t[1] == '\n')
    ensures SqueezeBlankLines("\n" + t) == "\n" + SqueezeBlankLines(t)
  {
    assert ("\n" + t)[1..] == t;
  }

  /** The result has no run of three newlines, and it has a newline iff the input has. */
  lemma SqueezeNewlines(s: string)
    ensures NoTripleNewline(SqueezeBlankLines(s))
    ensures '\n' in SqueezeBlankLines(s) <==> '\n' in s
    ensures var r := SqueezeBlankLines(s);
      (|r| >= 2 && r[0] == '\n' && r[1] == '\n') <==> (|s| >= 2 && s[0] == '\n' && s[1] == '\n')
  {
    SqueezeNoTriple(s);
    SqueezeHasNewline(s);
    SqueezeStart(s);
  }

  /** Squeezing keeps whether the text starts with a blank line. */
  lemma {:induction false} SqueezeStart(s: string)
    ensures var r := SqueezeBlankLines(s);
      (|r| >= 2 && r[0] == '\n' && r[1] == '\n') <==> (|s| >= 2 && s[0] == '\n' && s[1] == '\n')
  {
    if s != [] {
      SqueezeStart(s[1..]);
      if !(|s| >= 3 && s[0] == '\n' && s[1] == '\n' && s[2] == '\n') {
        var rest := SqueezeBlankLines(s[1..]);
        assert SqueezeBlankLines(s) == [s[0]] + rest;
      }
    }
  }

  /** Squeezing keeps whether the text holds a newline at all. */
  lemma {:induction false} SqueezeHasNewline(s: string)
    ensures '\n' in SqueezeBlankLines(s) <==> '\n' in s
  {
    if s != [] {
      SqueezeHasNewline(s[1..]);
      assert s == [s[0]] + s[1..];
      if !(|s| >= 3 && s[0] == '\n' && s[1] == '\n' && s[2] == '\n') {
        var rest := SqueezeBlankLines(s[1..]);
        assert SqueezeBlankLines(s) == [s[0]] + rest;
      }
    }
  }

  /** Squeezed text has no run of three newlines. */
  lemma {:induction false} SqueezeNoTriple(s: string)
    ensures NoTripleNewline(SqueezeBlankLines(s))
  {
    if s != [] {
      SqueezeNoTriple(s[1..]);
      if !(|s| >= 3 && s[0] == '\n' && s[1] == '\n' && s[2] == '\n') {
        var rest := SqueezeBlankLines(s[1..]);
        SqueezeStart(s[1..]);
        SqueezeKeep(s);
        PrependNoTriple(s[0], rest);
      }
    }
  }

  /** A character in front of a text without triple newlines adds none, unless it is a
      newline in front of a blank line. */
  lemma PrependNoTriple(c: char, t: string)
    requires NoTripleNewline(t)
    requires c == '\n' && |t| >= 2 && t[0] == '\n' ==> t[1] != '\n'
    ensures NoTripleNewline([c] + t)
  {
    var r := [c] + t;
    forall i | 0 <= i < |r| - 2
      ensures !(r[i] == '\n' && r[i + 1] == '\n' && r[i + 2] == '\n')
    {
      if i == 0 {
        assert r[1] == t[0] && r[2] == t[1];
      } else {
        assert r[i] == t[i - 1] && r[i + 1] == t[i] && r[i + 2] == t[i + 1];
      }
    }
  }

  /** Away from a run of three newlines, squeezing keeps the first character. */
  lemma SqueezeKeep(s: string)
    requires s != [] && !(|s| >= 3 && s[0] == '\n' && s[1] == '\n' && s[2] == '\n')
    ensures SqueezeBlankLines(s) == [s[0]] + SqueezeBlankLines(s[1..])
  {
  }



  /** Only newlines are dropped. */
  lemma {:induction false} SqueezeNonSpace(s: string)
    ensures NonSpace(SqueezeBlankLines(s)) == NonSpace(s)
  {
    if s != [] {
      SqueezeNonSpace(s[1..]);
      if !(|s| >= 3 && s[0] == '\n' && s[1] == '\n' && s[2] == '\n') {
        var r := [s[0]] + SqueezeBlankLines(s[1..]);
        assert r[1..] == SqueezeBlankLines(s[1..]);
      }
    }
  }

  lemma {:induction false} SqueezeSpacesApart(s: string)
    requires SpacesApart(s)
    ensures SpacesApart(SqueezeBlankLines(s))
  {
    if s != [] {
      SpacesApartSlice(s, 1, |s|);
      SqueezeSpacesApart(s[1..]);
      if !(|s| >= 3 && s[0] == '\n' && s[1] == '\n' && s[2] == '\n') {
        var rest := SqueezeBlankLines(s[1..]);
        var r := [s[0]] + rest;
        forall i | 0 <= i < |r| - 1
          ensures !(r[i] == ' ' && IsSpace(r[i + 1])) && !(IsSpace(r[i]) && r[i + 1] == ' ')
        {
          if i > 0 {
            assert r[i] == rest[i - 1] && r[i + 1] == rest[i];
          }
        }
      }
    }
  }

  lemma SqueezeTidy(s: string)
    requires Tidy(s)
    ensures Tidy(SqueezeBlankLines(s))
  {
    SqueezeSpacesApart(s);
    var r := SqueezeBlankLines(s);
    if |s| > 0 {
      assert r[0] == s[0] && r[|r| - 1] == s[|s| - 1];
    }
  }

  /** Text without a run of three newlines is left as it is. */
  lemma {:induction false} SqueezeFixed(s: string)
    ensures SqueezeBlankLines(s) == s <==> NoTripleNewline(s)
  {
    SqueezeNewlines(s);
    if NoTripleNewline(s) && s != [] {
      assert NoTripleNewline(s[1..]) by {
        forall i | 0 <= i < |s| - 3
          ensures !(s[1..][i] == '\n' && s[1..][i + 1] == '\n' && s[1..][i + 2] == '\n')
        {
          assert s[1..][i] == s[i + 1];
        }
      }
      SqueezeFixed(s[1..]);
      assert s == [s[0]] + s[1..];
    }
  }

  // ---------------------------------------------------------------------------
  // The normaliser

  /** `normalize_text(text)` */
  function Normalize(text: string): string
  {
    SqueezeBlankLines(JoinLines(TidyLines(SplitLines(text))))
  }

  lemma TidyLinesClean(lines: seq<string>)
    ensures forall l | l in TidyLines(lines) :: CleanLine(l)
  {
    forall l | l in TidyLines(lines)
      ensures CleanLine(l)
    {
      var i :| 0 <= i < |lines| && TidyLines(lines)[i] == l;
      TidyLineClean(lines[i]);
    }
  }

  lemma TidyLinesFixed(lines: seq<string>)
    requires forall l | l in lines :: CleanLine(l)
    ensures TidyLines(lines) == lines
  {
    forall i | 0 <= i < |lines|
      ensures TidyLines(lines)[i] == lines[i]
    {
      TidyLineFixed(lines[i]);
    }
  }

  /** Normalised text is tidy, has no run of three newlines, and every line of it is clean. */
  lemma NormalizeShape(text: string)
    ensures Tidy(Normalize(text))
    ensures NoTripleNewline(Normalize(text))
    ensures forall l | l in SplitLines(Normalize(text)) :: CleanLine(l)
  {
    var lines := TidyLines(SplitLines(text));
    TidyLinesClean(SplitLines(text));
    JoinTidy(lines);
    SqueezeTidy(JoinLines(lines));
    SqueezeNewlines(JoinLines(lines));
    var t := Normalize(text);
    SplitTidy(SplitLines(t));
  }

  /** The texts the normaliser leaves unchanged are exactly the tidy ones without a run of
      three newlines. */
  lemma NormalizeFixedPoint(t: string)
    ensures Normalize(t) == t <==> Tidy(t) && NoTripleNewline(t)
  {
    NormalizeShape(t);
    if Tidy(t) && NoTripleNewline(t) {
      var lines := SplitLines(t);
      SplitTidy(lines);
      TidyLinesFixed(lines);
      SqueezeFixed(t);
    }
  }

  /** Normalising twice is normalising once. */
  lemma NormalizeIdempotent(text: string)
    ensures Normalize(Normalize(text)) == Normalize(text)
  {
    NormalizeShape(text);
    NormalizeFixedPoint(Normalize(text));
  }

  lemma {:induction false} JoinTidyLinesNonSpace(lines: seq<string>)
    ensures NonSpace(JoinLines(TidyLines(lines))) == NonSpace(JoinLines(lines))
  {
    if |lines| == 1 {
      TidyLineClean(lines[0]);
    } else if |lines| >= 2 {
      var tidy := TidyLines(lines);
      assert tidy[1..] == TidyLines(lines[1..]);
      JoinTidyLinesNonSpace(lines[1..]);
      TidyLineClean(lines[0]);
      NonSpaceAppend(tidy[0] + "\n", JoinLines(tidy[1..]));
      NonSpaceAppend(tidy[0], "\n");
      NonSpaceAppend(lines[0] + "\n", JoinLines(lines[1..]));
      NonSpaceAppend(lines[0], "\n");
    }
  }

  /** The non-whitespace characters survive normalisation unchanged and in order. */
  lemma NormalizeNonSpace(text: string)
    ensures NonSpace(Normalize(text)) == NonSpace(text)
  {
    JoinTidyLinesNonSpace(SplitLines(text));
    SqueezeNonSpace(JoinLines(TidyLines(SplitLines(text))));
  }

  /** The normaliser returns the empty string exactly for input that has no newline and
      nothing but whitespace; in particular `""` becomes `""`. */
  lemma NormalizeEmpty(text: string)
    ensures Normalize(text) == [] <==> '\n' !in text && NonSpace(text) == []
  {
    var lines := SplitLines(text);
    var tidy := TidyLines(lines);
    TidyLinesClean(lines);
    JoinHasNewline(lines);
    JoinHasNewline(tidy);
    SqueezeNewlines(JoinLines(tidy));
    NormalizeNonSpace(text);
    NormalizeShape(text);
    var t := Normalize(text);
  }

  // What the normaliser does to the text between two words

  /** A non-empty piece of text without whitespace. */
  predicate Word(s: string)
  {
    s != [] && forall c | c in s :: !IsSpace(c)
  }

  /** A word is a clean line that collapsing, stripping and squeezing all leave alone. */
  lemma WordUnchanged(a: string)
    requires Word(a)
    ensures CleanLine(a) && CollapseRuns(a) == a && Strip(a) == a && SqueezeBlankLines(a) == a
  {
    assert forall i | 0 <= i < |a| :: a[i] in a;
    CollapseRunsFixed(a);
    StripFixed(a);
    SqueezeFixed(a);
  }

  /** Stripping leaves text alone that neither starts nor ends with whitespace. */
  lemma StripFixed(s: string)
    requires s == [] || (!IsSpace(s[0]) && !IsSpace(s[|s| - 1]))
    ensures Strip(s) == s
  {
  }

  /** On tidy text the normaliser only squeezes the blank lines. */
  lemma NormalizeTidy(t: string)
    requires Tidy(t)
    ensures Normalize(t) == SqueezeBlankLines(t)
  {
    var lines := SplitLines(t);
    SplitTidy(lines);
    TidyLinesFixed(lines);
  }

  /** A whitespace run without a newline between two words becomes exactly one space:
      "John \t Smith" normalises to "John Smith". */
  lemma NormalizeWordGap(a: string, w: string, b: string)
    requires Word(a) && Word(b)
    requires w != [] && forall c | c in w :: IsSpace(c) && c != '\n'
    ensures Normalize(a + w + b) == a + " " + b
  {
    assert IsSpace('\n');
    NewlineFree(a, w, b);
    NewlineFree(a, " ", b);
    NormalizeOneLine(a + w + b);
    TidyLineWordGap(a, w, b);
    SqueezeNoNewline(a + " " + b);
  }

  lemma NewlineFree(a: string, w: string, b: string)
    requires '\n' !in a && '\n' !in w && '\n' !in b
    ensures '\n' !in a + w + b
  {
    assert forall c | c in a + w + b :: c in a || c in w || c in b;
  }

  /** Text without a newline has no blank lines to squeeze. */
  lemma SqueezeNoNewline(u: string)
    requires '\n' !in u
    ensures SqueezeBlankLines(u) == u
  {
    assert forall i | 0 <= i < |u| :: u[i] in u;
    SqueezeFixed(u);
  }

  /** Text without a newline is one line: the normaliser tidies it and squeezes the result. */
  lemma NormalizeOneLine(t: string)
    requires '\n' !in t
    ensures Normalize(t) == SqueezeBlankLines(TidyLine(t))
  {
    SplitNoNewline(t);
    assert TidyLines([t]) == [TidyLine(t)];
  }

  /** Tidying a line turns the whitespace run between two words into one space. */
  lemma TidyLineWordGap(a: string, w: string, b: string)
    requires Word(a) && Word(b)
    requires w != [] && forall c | c in w :: IsSpace(c)
    ensures TidyLine(a + w + b) == a + " " + b
  {
    assert a[|a| - 1] in a && b[0] in b;
    WordUnchanged(a);
    WordUnchanged(b);
    CollapseRunsSeparates(a, w, b);
    StripFixed(a + " " + b);
  }

  /** A run of `k` newlines between two words becomes two newlines when `k` is at least three
      and stays as it is otherwise: a paragraph break is kept as one blank line. */
  lemma NormalizeLineBreaks(a: string, k: nat, b: string)
    requires Word(a) && Word(b)
    ensures Normalize(a + Newlines(k) + b) == a + SqueezedRun(k) + b
  {
    var t := a + Newlines(k) + b;
    assert a[0] in a && b[|b| - 1] in b;
    assert forall c | c in t :: c in a || c in Newlines(k) || c in b;
    assert forall i | 0 <= i < |t| :: t[i] in t;
    NormalizeTidy(t);
    WordUnchanged(a);
    WordUnchanged(b);
    SqueezeRun(a, k, b);
  }
}
