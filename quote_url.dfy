/** The quote colouring and URL highlighting filter of the message viewer's
    text filter chain: it cuts the text at URLs, hands each URL to the
    viewer, and hands the text around them to the next filter in runs of
    lines, each run carrying the colour of its quoting level. */
module QuoteURL {
  import opened Common

  /** What the filter hands on: a run of text to the next filter, with the
      text colour then current, or a URL to the viewer. */
  datatype Emit = Text(text: string, colour: Colour) | Url(url: string)

  datatype Options = Options(quotedColourize: bool, quotedCycleColours: bool, highlightURLs: bool)

  /** The text of one record. */
  function Piece(e: Emit): string
  {
    match e
    case Text(t, _) => t
    case Url(u) => u
  }

  /** The text handed on, in order. */
  function Flatten(es: seq<Emit>): string
  {
    if es == [] then [] else Piece(es[0]) + Flatten(es[1..])
  }

  lemma {:induction false} FlattenAppend(a: seq<Emit>, b: seq<Emit>)
    ensures Flatten(a + b) == Flatten(a) + Flatten(b)
    decreases |a|
  {
    if a == [] {
      assert a + b == b;
    } else {
      assert (a + b)[0] == a[0];
      assert (a + b)[1..] == a[1..] + b;
      FlattenAppend(a[1..], b);
      calc {
        Flatten(a + b);
        Piece(a[0]) + Flatten(a[1..] + b);
        Piece(a[0]) + (Flatten(a[1..]) + Flatten(b));
        (Piece(a[0]) + Flatten(a[1..])) + Flatten(b);
      }
    }
  }

  /** A URL finder splits text into the text before its first URL, the URL
      and the text after it; without a URL all of it is "before". */
  ghost predicate FinderSplits(findUrl: string -> (string, string, string))
  {
    forall t :: findUrl(t).0 + findUrl(t).1 + findUrl(t).2 == t && (findUrl(t).1 == [] ==> findUrl(t).2 == [])
  }

  /** QuoteURLFilter::GetQuotedLevel on the text from a line start to the
      end of the current piece; count is the quoting-level counter with
      the whitespace and letter options applied. */
  function Level(o: Options, count: string -> nat, s: string): nat
  {
    ClampLevel(count(s), o.quotedCycleColours)
  }

  /** GetQuotedLevel as a function of the text. */
  function LevelOf(o: Options, count: string -> nat): string -> nat
  {
    s => Level(o, count, s)
  }

  /** The quoting level of the line starting at i of b. */
  function LineLevel(levelOf: string -> nat, b: string, i: nat): nat
    requires i <= |b|
  {
    levelOf(b[i..])
  }

  /** The first c in s at or after from (strchr on the rest of s); none
      when from is past the end. */
  function FindFrom(s: string, from: nat, c: char): (r: Option<nat>)
    ensures r.Some? ==> from <= r.value < |s| && s[r.value] == c
    decreases |s| - from
  {
    if from >= |s| then None
    else if s[from] == c then Some(from)
    else FindFrom(s, from + 1, c)
  }

  /** FindFrom finds the first c: none lies between from and the result,
      or after from at all when there is no result. */
  lemma {:induction false} FindFromFirst(s: string, from: nat, c: char)
    ensures var r := FindFrom(s, from, c);
            forall k :: from <= k < |s| && (r.None? || k < r.value) ==> s[k] != c
    decreases |s| - from
  {
    if from < |s| && s[from] != c {
      FindFromFirst(s, from + 1, c);
    }
  }

  // ---------------------------------------------------------------------
  // Runs of lines
  // ---------------------------------------------------------------------

  /** A run of text b[start..end] shown at one quoting level. */
  datatype Run = Run(start: nat, end: nat, level: nat)

  /** The runs the colouring loop produces for b: the current run starts at
      cur with the given level, and the search for the next '\n' starts at
      search. Once a '\n' is found, the line after it is measured and starts
      a new run if its level differs; the next search skips the character
      just after that '\n', which is assumed to be the '\r' of a CRLF line
      end when it ends a line itself. */
  function LineRuns(levelOf: string -> nat, b: string, level: nat, cur: nat, search: nat): (runs: seq<Run>)
    requires cur <= |b| && cur <= search
    ensures |runs| >= 1
    decreases |b| + 1 - search
  {
    match FindFrom(b, search, '\n')
    case None => [Run(cur, |b|, level)]
    case Some(j) =>
      var next := j + 1;
      var levelNew := LineLevel(levelOf, b, next);
      if levelNew != level then [Run(cur, next, level)] + LineRuns(levelOf, b, levelNew, next, next + 1)
      else LineRuns(levelOf, b, level, cur, next + 1)
  }

  /** The runs cover b[cur..]: the first starts at cur with the given
      level; either it is the last and reaches the end of b, or it is
      non-empty, ends a line, and the next run starts at the following line
      with that line's quoting level, which differs from this run's. */
  ghost predicate RunsOfLines(levelOf: string -> nat, b: string, runs: seq<Run>, cur: nat, level: nat)
    decreases |runs|
  {
    && |runs| >= 1
    && runs[0].start == cur && runs[0].level == level
    && runs[0].start <= runs[0].end <= |b|
    && if |runs| == 1 then runs[0].end == |b|
       else
         && runs[0].start < runs[0].end && b[runs[0].end - 1] == '\n'
         && var levelNext := LineLevel(levelOf, b, runs[0].end);
            levelNext != level
            && RunsOfLines(levelOf, b, runs[1..], runs[0].end, levelNext)
  }

  /** With no line end left, the current run is the last one. */
  lemma LineRunsLast(levelOf: string -> nat, b: string, level: nat, cur: nat, search: nat)
    requires cur <= |b| && cur <= search && FindFrom(b, search, '\n').None?
    ensures LineRuns(levelOf, b, level, cur, search) == [Run(cur, |b|, level)]
  {
  }

  /** A line end at next - 1 followed by a line at a new level closes the
      current run there. */
  lemma LineRunsNew(levelOf: string -> nat, b: string, level: nat, cur: nat, search: nat, next: nat)
    requires cur <= |b| && cur <= search && 1 <= next && FindFrom(b, search, '\n') == Some(next - 1)
    requires LineLevel(levelOf, b, next) != level
    ensures LineRuns(levelOf, b, level, cur, search)
            == [Run(cur, next, level)] + LineRuns(levelOf, b, LineLevel(levelOf, b, next), next, next + 1)
  {
  }

  /** A line end at next - 1 followed by a line at the same level extends
      the current run. */
  lemma LineRunsSame(levelOf: string -> nat, b: string, level: nat, cur: nat, search: nat, next: nat)
    requires cur <= |b| && cur <= search && 1 <= next && FindFrom(b, search, '\n') == Some(next - 1)
    requires LineLevel(levelOf, b, next) == level
    ensures LineRuns(levelOf, b, level, cur, search) == LineRuns(levelOf, b, level, cur, next + 1)
  {
  }

  /** A single run reaching the end of b. */
  lemma LastRun(levelOf: string -> nat, b: string, cur: nat, level: nat)
    requires cur <= |b|
    ensures RunsOfLines(levelOf, b, [Run(cur, |b|, level)], cur, level)
  {
  }

  /** A non-empty run ending a line, followed by runs starting at the next
      line with that line's different level. */
  lemma ConsRun(levelOf: string -> nat, b: string, rest: seq<Run>, cur: nat, next: nat, level: nat, levelNew: nat)
    requires cur < next <= |b| && b[next - 1] == '\n'
    requires levelNew != level && levelNew == LineLevel(levelOf, b, next)
    requires RunsOfLines(levelOf, b, rest, next, levelNew)
    ensures RunsOfLines(levelOf, b, [Run(cur, next, level)] + rest, cur, level)
  {
    assert ([Run(cur, next, level)] + rest)[1..] == rest;
  }

  lemma {:induction false} LineRunsShape(levelOf: string -> nat, b: string, level: nat, cur: nat, search: nat)
    requires cur <= |b| && cur <= search
    ensures RunsOfLines(levelOf, b, LineRuns(levelOf, b, level, cur, search), cur, level)
    decreases |b| + 1 - search
  {
    match FindFrom(b, search, '\n')
    case None =>
      LineRunsLast(levelOf, b, level, cur, search);
      LastRun(levelOf, b, cur, level);
    case Some(j) =>
      var next := j + 1;
      var levelNew := LineLevel(levelOf, b, next);
      if levelNew != level {
        LineRunsNew(levelOf, b, level, cur, search, next);
        LineRunsShape(levelOf, b, levelNew, next, next + 1);
        ConsRun(levelOf, b, LineRuns(levelOf, b, levelNew, next, next + 1), cur, next, level, levelNew);
      } else {
        LineRunsSame(levelOf, b, level, cur, search, next);
        LineRunsShape(levelOf, b, level, cur, next + 1);
      }
  }

  /** b has no "\n\n": every line ends in CRLF or is the last one. */
  predicate NoBareBlankLines(b: string)
  {
    forall j :: 0 < j < |b| && b[j] == '\n' ==> b[j - 1] != '\n'
  }

  /** Every line start strictly inside run r has r's quoting level. */
  ghost predicate LinesKeepLevel(levelOf: string -> nat, b: string, r: Run)
  {
    forall p :: r.start < p < r.end && p <= |b| && b[p - 1] == '\n' ==> LineLevel(levelOf, b, p) == r.level
  }

  /** With CRLF line ends no line is skipped: a run never contains a line
      whose quoting level differs from the run's. */
  lemma {:induction false} LineRunsKeepLevels(levelOf: string -> nat, b: string, level: nat, cur: nat, search: nat)
    requires cur <= |b| && cur <= search <= |b| + 1
    requires NoBareBlankLines(b)
    requires search == 0 || (2 <= search <= |b| + 1 && b[search - 2] == '\n')
    requires forall p :: cur < p < search && p <= |b| && b[p - 1] == '\n' ==> LineLevel(levelOf, b, p) == level
    ensures forall r <- LineRuns(levelOf, b, level, cur, search) :: LinesKeepLevel(levelOf, b, r)
    decreases |b| + 1 - search
  {
    FindFromFirst(b, search, '\n');
    match FindFrom(b, search, '\n')
    case None =>
      forall p | cur < p < |b| && b[p - 1] == '\n'
        ensures LineLevel(levelOf, b, p) == level
      {
        if p >= search {
          assert false;
        }
      }
      assert LinesKeepLevel(levelOf, b, Run(cur, |b|, level));
    case Some(j) =>
      var next := j + 1;
      var levelNew := LineLevel(levelOf, b, next);
      forall p | cur < p < next && b[p - 1] == '\n'
        ensures LineLevel(levelOf, b, p) == level
      {
        if p >= search {
          assert false;
        }
      }
      if levelNew != level {
        assert LinesKeepLevel(levelOf, b, Run(cur, next, level));
        LineRunsKeepLevels(levelOf, b, levelNew, next, next + 1);
      } else {
        LineRunsKeepLevels(levelOf, b, level, cur, next + 1);
      }
  }

  // ---------------------------------------------------------------------
  // Records for runs
  // ---------------------------------------------------------------------

  /** QuoteURLFilter::GetQuoteColour on a colour table: a level without a
      colour gives the null colour. */
  function QuoteColour(cols: seq<Colour>, level: nat): Colour
  {
    if level < |cols| then cols[level] else NullColour
  }

  /** The text of run r, empty when r lies outside b. */
  function Slice(b: string, r: Run): string
  {
    if r.start <= r.end <= |b| then b[r.start..r.end] else []
  }

  /** The record for each run, in the colour of its level. */
  function RunEmits(b: string, runs: seq<Run>, cols: seq<Colour>): (es: seq<Emit>)
    ensures |es| == |runs|
    decreases |runs|
  {
    if runs == [] then []
    else [Text(Slice(b, runs[0]), QuoteColour(cols, runs[0].level))] + RunEmits(b, runs[1..], cols)
  }

  /** The records of runs: the first run's record, then the rest's. */
  lemma RunEmitsCons(b: string, runs: seq<Run>, cols: seq<Colour>)
    requires runs != [] && runs[0].start <= runs[0].end <= |b|
    ensures RunEmits(b, runs, cols)
            == [Text(b[runs[0].start..runs[0].end], QuoteColour(cols, runs[0].level))] + RunEmits(b, runs[1..], cols)
  {
  }

  /** The runs of b from cur hand on exactly b[cur..]. */
  lemma {:induction false} RunEmitsFlatten(levelOf: string -> nat, b: string, runs: seq<Run>, cols: seq<Colour>, cur: nat, level: nat)
    requires RunsOfLines(levelOf, b, runs, cur, level)
    ensures Flatten(RunEmits(b, runs, cols)) == b[cur..]
    decreases |runs|
  {
    var e := runs[0].end;
    var rest := RunEmits(b, runs[1..], cols);
    assert RunEmits(b, runs, cols) == [Text(b[cur..e], QuoteColour(cols, level))] + rest;
    if |runs| > 1 {
      RunEmitsFlatten(levelOf, b, runs[1..], cols, e, LineLevel(levelOf, b, e));
    }
    FlattenCons(b, cur, e, QuoteColour(cols, level), rest);
  }

  /** A record for b[cur..e] followed by records handing on b[e..] hands
      on b[cur..]. */
  lemma FlattenCons(b: string, cur: nat, e: nat, colour: Colour, rest: seq<Emit>)
    requires cur <= e <= |b| && Flatten(rest) == b[e..]
    ensures Flatten([Text(b[cur..e], colour)] + rest) == b[cur..]
  {
    var es := [Text(b[cur..e], colour)] + rest;
    assert es[0] == Text(b[cur..e], colour) && es[1..] == rest;
    assert b[cur..] == b[cur..e] + b[e..];
  }

  lemma {:induction false} RunEmitsAreText(b: string, runs: seq<Run>, cols: seq<Colour>)
    ensures forall e <- RunEmits(b, runs, cols) :: e.Text?
    decreases |runs|
  {
    if runs != [] {
      RunEmitsAreText(b, runs[1..], cols);
    }
  }

  // ---------------------------------------------------------------------
  // The whole filter pass
  // ---------------------------------------------------------------------

  /** What the colouring loop does from the run starting at cur with the
      given level, searching for line ends from search: the records it
      hands on and the level it ends at. */
  function ColourizeFrom(levelOf: string -> nat, cols: seq<Colour>, b: string, level: nat, cur: nat, search: nat): (seq<Emit>, nat)
    requires cur <= |b| && cur <= search
    decreases |b| + 1 - search
  {
    match FindFrom(b, search, '\n')
    case None => ([Text(b[cur..], QuoteColour(cols, level))], level)
    case Some(j) =>
      var next := j + 1;
      var levelNew := LineLevel(levelOf, b, next);
      if levelNew != level then
        var r := ColourizeFrom(levelOf, cols, b, levelNew, next, next + 1);
        ([Text(b[cur..next], QuoteColour(cols, level))] + r.0, r.1)
      else ColourizeFrom(levelOf, cols, b, level, cur, next + 1)
  }

  /** From the given state, the colouring loop hands on one record per
      run, in the colour of the run's level, and ends at the level of the
      last run. */
  ghost predicate RecordsMatchRuns(levelOf: string -> nat, cols: seq<Colour>, b: string, level: nat, cur: nat, search: nat)
    requires cur <= |b| && cur <= search
  {
    var runs := LineRuns(levelOf, b, level, cur, search);
    var r := ColourizeFrom(levelOf, cols, b, level, cur, search);
    r.0 == RunEmits(b, runs, cols) && r.1 == runs[|runs| - 1].level
  }

  lemma {:induction false} ColourizeFromRuns(levelOf: string -> nat, cols: seq<Colour>, b: string, level: nat, cur: nat, search: nat)
    requires cur <= |b| && cur <= search
    ensures RecordsMatchRuns(levelOf, cols, b, level, cur, search)
    decreases |b| + 1 - search
  {
    match FindFrom(b, search, '\n')
    case None =>
      RecordsMatchLast(levelOf, cols, b, level, cur, search);
    case Some(j) =>
      var next := j + 1;
      var levelNew := LineLevel(levelOf, b, next);
      if levelNew != level {
        ColourizeFromRuns(levelOf, cols, b, levelNew, next, next + 1);
        RecordsMatchNew(levelOf, cols, b, level, cur, search, next);
      } else {
        ColourizeFromRuns(levelOf, cols, b, level, cur, next + 1);
        RecordsMatchSame(levelOf, cols, b, level, cur, search, next);
      }
  }

  lemma RecordsMatchLast(levelOf: string -> nat, cols: seq<Colour>, b: string, level: nat, cur: nat, search: nat)
    requires cur <= |b| && cur <= search && FindFrom(b, search, '\n').None?
    ensures RecordsMatchRuns(levelOf, cols, b, level, cur, search)
  {
    LineRunsLast(levelOf, b, level, cur, search);
    ColourizeDone(levelOf, cols, b, level, cur, search);
    RunEmitsCons(b, [Run(cur, |b|, level)], cols);
    assert [Run(cur, |b|, level)][1..] == [] && b[cur..|b|] == b[cur..];
  }

  lemma RecordsMatchNew(levelOf: string -> nat, cols: seq<Colour>, b: string, level: nat, cur: nat, search: nat, next: nat)
    requires cur <= |b| && cur <= search && 1 <= next && FindFrom(b, search, '\n') == Some(next - 1)
    requires LineLevel(levelOf, b, next) != level
    requires RecordsMatchRuns(levelOf, cols, b, LineLevel(levelOf, b, next), next, next + 1)
    ensures RecordsMatchRuns(levelOf, cols, b, level, cur, search)
  {
    var levelNew := LineLevel(levelOf, b, next);
    LineRunsNew(levelOf, b, level, cur, search, next);
    ColourizeNewRun(levelOf, cols, b, level, cur, search, next);
    var rest := LineRuns(levelOf, b, levelNew, next, next + 1);
    var runs := [Run(cur, next, level)] + rest;
    RunEmitsCons(b, runs, cols);
    assert runs[1..] == rest && runs[|runs| - 1] == rest[|rest| - 1];
  }

  lemma RecordsMatchSame(levelOf: string -> nat, cols: seq<Colour>, b: string, level: nat, cur: nat, search: nat, next: nat)
    requires cur <= |b| && cur <= search && 1 <= next && FindFrom(b, search, '\n') == Some(next - 1)
    requires LineLevel(levelOf, b, next) == level
    requires RecordsMatchRuns(levelOf, cols, b, level, cur, next + 1)
    ensures RecordsMatchRuns(levelOf, cols, b, level, cur, search)
  {
    LineRunsSame(levelOf, b, level, cur, search, next);
    ColourizeSameRun(levelOf, cols, b, level, cur, search, next);
  }

  /** What the colouring loop will have handed on in all from its state:
      the records gathered so far, then those of the current run and the
      rest, with the level it ends at. */
  ghost function Handing(levelOf: string -> nat, cols: seq<Colour>, b: string, handed: seq<Emit>, level: nat, cur: nat, search: nat): (seq<Emit>, nat)
    requires cur <= |b| && cur <= search
  {
    var r := ColourizeFrom(levelOf, cols, b, level, cur, search);
    (handed + r.0, r.1)
  }

  /** The colouring of one piece of text before a URL, starting at level:
      the records, the colour left in the style and the level to resume at
      after the URL. */
  function Colourize(levelOf: string -> nat, cols: seq<Colour>, before: string, level: nat): (seq<Emit>, Colour, nat)
  {
    var r := ColourizeFrom(levelOf, cols, before, level, 0, 0);
    (r.0, QuoteColour(cols, r.1), r.1)
  }

  /** One turn of the do-while loop on text: the records, the colour left
      in the style, the level to resume at, and the text still to do. */
  function Pass(o: Options, levelOf: string -> nat, findUrl: string -> (string, string, string),
                cols: seq<Colour>, text: string, colour: Colour, resume: Option<nat>): (r: (seq<Emit>, Colour, Option<nat>, string))
    requires FinderSplits(findUrl)
    ensures r.3 != [] ==> |r.3| < |text|
  {
    var split := if o.highlightURLs then findUrl(text) else (text, [], []);
    var before := split.0;
    var url := split.1;
    var urlEmits := if url != [] then [Url(url)] else [];
    if o.quotedColourize then
      var level := if resume.Some? then resume.value else levelOf(before);
      var c := Colourize(levelOf, cols, before, level);
      (c.0 + urlEmits, c.1, Some(c.2), split.2)
    else
      ([Text(before, colour)] + urlEmits, colour, resume, split.2)
  }

  /** QuoteURLFilter::DoProcess after the unquoted colour is set: the
      records handed on for text and the colour left in the style. */
  function Output(o: Options, levelOf: string -> nat, findUrl: string -> (string, string, string),
                  cols: seq<Colour>, text: string, colour: Colour, resume: Option<nat>): (seq<Emit>, Colour)
    requires FinderSplits(findUrl)
    decreases |text|
  {
    var p := Pass(o, levelOf, findUrl, cols, text, colour, resume);
    if p.3 == [] then (p.0, p.1)
    else
      var t := Output(o, levelOf, findUrl, cols, p.3, p.1, p.2);
      (p.0 + t.0, t.1)
  }

  lemma PassFlattens(o: Options, levelOf: string -> nat, findUrl: string -> (string, string, string),
                     cols: seq<Colour>, text: string, colour: Colour, resume: Option<nat>)
    requires FinderSplits(findUrl)
    ensures var p := Pass(o, levelOf, findUrl, cols, text, colour, resume); Flatten(p.0) + p.3 == text
  {
    var split := if o.highlightURLs then findUrl(text) else (text, [], []);
    var before := split.0;
    var urlEmits := if split.1 != [] then [Url(split.1)] else [];
    assert Flatten(urlEmits) == split.1;
    if o.quotedColourize {
      var level := if resume.Some? then resume.value else levelOf(before);
      var runs := LineRuns(levelOf, before, level, 0, 0);
      LineRunsShape(levelOf, before, level, 0, 0);
      RunEmitsFlatten(levelOf, before, runs, cols, 0, level);
      ColourizeFromRuns(levelOf, cols, before, level, 0, 0);
      FlattenAppend(RunEmits(before, runs, cols), urlEmits);
    } else {
      FlattenAppend([Text(before, colour)], urlEmits);
    }
  }

  /** Nothing is lost, duplicated or reordered: the text and URLs handed on
      spell out the input. */
  lemma {:induction false} OutputFlattens(o: Options, levelOf: string -> nat, findUrl: string -> (string, string, string),
                                          cols: seq<Colour>, text: string, colour: Colour, resume: Option<nat>)
    requires FinderSplits(findUrl)
    ensures Flatten(Output(o, levelOf, findUrl, cols, text, colour, resume).0) == text
    decreases |text|
  {
    var p := Pass(o, levelOf, findUrl, cols, text, colour, resume);
    PassFlattens(o, levelOf, findUrl, cols, text, colour, resume);
    if p.3 != [] {
      OutputFlattens(o, levelOf, findUrl, cols, p.3, p.1, p.2);
      FlattenAppend(p.0, Output(o, levelOf, findUrl, cols, p.3, p.1, p.2).0);
    }
  }

  /** With URL highlighting off the filter makes one turn and hands on no
      URL; with colouring off as well the text goes on whole, in the
      incoming colour. */
  lemma NoHighlightNoUrls(o: Options, levelOf: string -> nat, findUrl: string -> (string, string, string),
                          cols: seq<Colour>, text: string, colour: Colour, resume: Option<nat>)
    requires FinderSplits(findUrl)
    requires !o.highlightURLs
    ensures forall e <- Output(o, levelOf, findUrl, cols, text, colour, resume).0 :: e.Text?
    ensures !o.quotedColourize ==> Output(o, levelOf, findUrl, cols, text, colour, resume) == ([Text(text, colour)], colour)
  {
    if o.quotedColourize {
      var level := if resume.Some? then resume.value else levelOf(text);
      var runs := LineRuns(levelOf, text, level, 0, 0);
      var es := RunEmits(text, runs, cols);
      ColourizeFromRuns(levelOf, cols, text, level, 0, 0);
      assert Output(o, levelOf, findUrl, cols, text, colour, resume).0 == es + [];
      RunEmitsAreText(text, runs, cols);
    } else {
      assert [Text(text, colour)] + [] == [Text(text, colour)];
    }
  }

  /** The URLs handed on are never empty. */
  lemma {:induction false} UrlsNonEmpty(o: Options, levelOf: string -> nat, findUrl: string -> (string, string, string),
                                        cols: seq<Colour>, text: string, colour: Colour, resume: Option<nat>)
    requires FinderSplits(findUrl)
    ensures forall e <- Output(o, levelOf, findUrl, cols, text, colour, resume).0 :: e.Url? ==> e.url != []
    decreases |text|
  {
    var p := Pass(o, levelOf, findUrl, cols, text, colour, resume);
    var split := if o.highlightURLs then findUrl(text) else (text, [], []);
    if o.quotedColourize {
      var level := if resume.Some? then resume.value else levelOf(split.0);
      RunEmitsAreText(split.0, LineRuns(levelOf, split.0, level, 0, 0), cols);
      ColourizeFromRuns(levelOf, cols, split.0, level, 0, 0);
    }
    if p.3 != [] {
      UrlsNonEmpty(o, levelOf, findUrl, cols, p.3, p.1, p.2);
    }
  }

  /** A step of the colouring loop past the line end at next - 1 when the
      next line's level differs: the run up to it gets its record and the
      rest is coloured from the next line on. */
  lemma ColourizeNewRun(levelOf: string -> nat, cols: seq<Colour>, b: string, level: nat, cur: nat, search: nat, next: nat)
    requires cur <= |b| && cur <= search && 1 <= next && FindFrom(b, search, '\n') == Some(next - 1)
    requires LineLevel(levelOf, b, next) != level
    ensures var r := ColourizeFrom(levelOf, cols, b, LineLevel(levelOf, b, next), next, next + 1);
            ColourizeFrom(levelOf, cols, b, level, cur, search) == ([Text(b[cur..next], QuoteColour(cols, level))] + r.0, r.1)
  {
  }

  /** A step of the colouring loop past the line end at next - 1 when the
      next line's level is the same: the run goes on. */
  lemma ColourizeSameRun(levelOf: string -> nat, cols: seq<Colour>, b: string, level: nat, cur: nat, search: nat, next: nat)
    requires cur <= |b| && cur <= search && 1 <= next && FindFrom(b, search, '\n') == Some(next - 1)
    requires LineLevel(levelOf, b, next) == level
    ensures ColourizeFrom(levelOf, cols, b, level, cur, search) == ColourizeFrom(levelOf, cols, b, level, cur, next + 1)
  {
  }

  /** The last step of the colouring loop: with no line end left, one
      record reaches the end of b. */
  lemma ColourizeDone(levelOf: string -> nat, cols: seq<Colour>, b: string, level: nat, cur: nat, search: nat)
    requires cur <= |b| && cur <= search && FindFrom(b, search, '\n').None?
    ensures ColourizeFrom(levelOf, cols, b, level, cur, search) == ([Text(b[cur..], QuoteColour(cols, level))], level)
  {
  }

  // ---------------------------------------------------------------------
  // The filter object
  // ---------------------------------------------------------------------

  class QuoteURLFilter {
    const options: Options
    /** The colour of each quoting level; entry 0, the unquoted colour, is
        taken from the incoming text style on every call. */
    var quotedCol: seq<Colour>
    /** Everything handed to the next filter and to the viewer so far. */
    var emitted: seq<Emit>

    constructor (options: Options, quotedColours: seq<Colour>)
      requires |quotedColours| == QuoteLevelMax
      ensures this.options == options && emitted == []
      ensures quotedCol == [NullColour] + quotedColours
    {
      this.options := options;
      quotedCol := [NullColour] + quotedColours;
      emitted := [];
    }

    /** QuoteURLFilter::GetQuoteColour: a level past the table gives the
        null colour. */
    function GetQuoteColour(level: nat): (c: Colour)
      requires |quotedCol| == QuoteLevelMax + 1
      reads this`quotedCol
      ensures level <= QuoteLevelMax ==> c == quotedCol[level]
      ensures level > QuoteLevelMax ==> c == NullColour
    {
      if level < QuoteLevelMax + 1 then quotedCol[level] else NullColour
    }

    /** One turn of the colouring loop, past the line end at next - 1: a
        line at a new level closes the current run, whose record is
        gathered, and starts the next one in the new level's colour; a line
        at the same level goes on with the current run. */
    method ColourizeStep(before: string, levelOf: string -> nat, handed: seq<Emit>, level: nat, colour: Colour, cur: nat, search: nat, next: nat, ghost cols: seq<Colour>, ghost c: (seq<Emit>, Colour, nat))
      returns (handed': seq<Emit>, level': nat, colour': Colour, cur': nat)
      requires cols == quotedCol && |cols| == QuoteLevelMax + 1
      requires 1 <= next && FindFrom(before, search, '\n') == Some(next - 1)
      requires colour == QuoteColour(cols, level)
      requires cur <= |before| && cur <= search
      requires Handing(levelOf, cols, before, handed, level, cur, search) == (c.0, c.2)
      ensures cur' <= next && colour' == QuoteColour(cols, level')
      ensures Handing(levelOf, cols, before, handed', level', cur', next + 1) == (c.0, c.2)
    {
      var levelNew := LineLevel(levelOf, before, next);
      if levelNew != level {
        ColourizeNewRun(levelOf, cols, before, level, cur, search, next);
        var line := Text(before[cur..next], colour);
        AppendAssoc(handed, [line], ColourizeFrom(levelOf, cols, before, levelNew, next, next + 1).0);
        handed' := handed + [line];
        level' := levelNew;
        colour' := GetQuoteColour(level');
        cur' := next;
      } else {
        ColourizeSameRun(levelOf, cols, before, level, cur, search, next);
        handed', level', colour', cur' := handed, level, colour, cur;
      }
    }

    /** The colouring loop over the lines of one piece of text: each run of
        lines at one level is handed on in that level's colour. The records
        are gathered in order and handed on together at the end, which
        nothing between them could observe. */
    method ColourizeLines(before: string, level0: nat, levelOf: string -> nat) returns (colour: Colour, level: nat)
      requires |quotedCol| == QuoteLevelMax + 1
      modifies this`emitted
      ensures var c := Colourize(levelOf, quotedCol, before, level0);
              emitted == old(emitted) + c.0 && colour == c.1 && level == c.2
    {
      ghost var cols := quotedCol;
      ghost var c := Colourize(levelOf, cols, before, level0);
      var handed: seq<Emit> := [];
      level := level0;
      colour := GetQuoteColour(level);
      var cur: nat := 0;
      var search: nat := 0;
      var lineNext := FindFrom(before, 0, '\n');
      assert Handing(levelOf, cols, before, handed, level, cur, search) == (c.0, c.2) by {
        assert [] + c.0 == c.0;
      }
      while lineNext.Some?
        invariant emitted == old(emitted)
        invariant colour == QuoteColour(cols, level)
        invariant lineNext == FindFrom(before, search, '\n')
        invariant cur <= |before| && cur <= search <= |before| + 1
        invariant Handing(levelOf, cols, before, handed, level, cur, search) == (c.0, c.2)
        decreases |before| + 1 - search
      {
        var next := lineNext.value + 1;
        handed, level, colour, cur := ColourizeStep(before, levelOf, handed, level, colour, cur, search, next, cols, c);
        search := next + 1;
        if next < |before| {
          lineNext := FindFrom(before, search, '\n');
        } else {
          // nothing left after this line end
          lineNext := None;
        }
      }
      ColourizeDone(levelOf, cols, before, level, cur, search);
      handed := handed + [Text(before[cur..], colour)];
      emitted := emitted + handed;
    }

    /** QuoteURLFilter::DoProcess: sets the unquoted colour from the style,
        hands on the text as Output describes and returns the style's
        colour afterwards. */
    method DoProcess(text: string, style: Colour, count: string -> nat,
                     findUrl: string -> (string, string, string)) returns (styleAfter: Colour)
      requires |quotedCol| == QuoteLevelMax + 1 && FinderSplits(findUrl)
      modifies this`emitted, this`quotedCol
      ensures quotedCol == old(quotedCol)[0 := style]
      ensures var out := Output(options, LevelOf(options, count), findUrl, quotedCol, text, style, None);
              emitted == old(emitted) + out.0 && styleAfter == out.1
    {
      quotedCol := quotedCol[0 := style];
      var levelOf := LevelOf(options, count);
      ghost var cols := quotedCol;
      ghost var total := Output(options, levelOf, findUrl, cols, text, style, None);
      var rest := text;
      var levelBeforeURL: Option<nat> := None;
      styleAfter := style;
      var more := true;
      while more
        invariant quotedCol == cols
        invariant more ==> var out := Output(options, levelOf, findUrl, cols, rest, styleAfter, levelBeforeURL);
                           emitted + out.0 == old(emitted) + total.0 && out.1 == total.1
        invariant !more ==> emitted == old(emitted) + total.0 && styleAfter == total.1
        decreases more, |rest|
      {
        ghost var pass := Pass(options, levelOf, findUrl, cols, rest, styleAfter, levelBeforeURL);
        ghost var emittedBefore := emitted;
        var before, url;
        if options.highlightURLs {
          var split := findUrl(rest);
          before, url, rest := split.0, split.1, split.2;
        } else {
          before, url, rest := rest, [], [];
        }
        if options.quotedColourize {
          var level := if levelBeforeURL.Some? then levelBeforeURL.value else levelOf(before);
          var l;
          styleAfter, l := ColourizeLines(before, level, levelOf);
          levelBeforeURL := Some(l);
        } else {
          emitted := emitted + [Text(before, styleAfter)];
        }
        ghost var urlEmits := if url != [] then [Url(url)] else [];
        AppendAssoc(emittedBefore, pass.0[..|pass.0| - |urlEmits|], urlEmits);
        if url != [] {
          emitted := emitted + [Url(url)];
        }
        assert emitted == emittedBefore + pass.0;
        more := rest != [];
        if more {
          AppendAssoc(emittedBefore, pass.0, Output(options, levelOf, findUrl, cols, rest, styleAfter, levelBeforeURL).0);
        }
      }
    }
  }
}
