/** What the parser makes of double-quoted text on several lines, whoever has written it. */
module FoldedText {
  import opened Wrappers
  import opened CodeUnits
  import opened DoubleQuotedRules
  import opened DoubleQuotedParser
  import opened QuoteRoundTrip

  /** A character that stands for itself. */
  predicate ForItself(c: Unit) {
    (c == TAB || 0x20 <= c) && c != BACKSLASH && c != QUOTE
  }

  /** What ends a line: a line break, or a backslash and a line break. */
  datatype Break = Plain(nl: seq<Unit>) | Escaped(nl: seq<Unit>)

  /**
   * What follows a line: its end, at `b` after white space, line breaks of empty lines, and the next line, at `start`.
   */
  datatype Gap = Gap(end: Break, empties: seq<seq<Unit>>, b: nat, start: nat)

  /** The lines of a scalar; after the indentation the text of the next line starts at `mid`. */
  datatype Lines = Last(line: seq<Unit>) | More(line: seq<Unit>, gap: Gap, mid: nat, rest: Lines)

  /** How a line break that is kept is read. */
  function ReadBreaks(breaks: seq<seq<Unit>>, config: Config): seq<Unit> {
    if breaks == [] then []
    else (if config.lineBreakForInput.Some? then config.lineBreakForInput.value else breaks[0])
         + ReadBreaks(breaks[1..], config)
  }

  /** The text that lines stand for: a line break alone is a space, and before empty lines it is dropped. */
  function Meaning(lines: Lines, config: Config): seq<Unit> {
    match lines
    case Last(line) => line
    case More(line, gap, _, rest) => line + Separator(gap, config) + Meaning(rest, config)
  }

  /** What is read for the end of a line and the empty lines after it. */
  function Separator(gap: Gap, config: Config): seq<Unit> {
    if gap.end.Plain? && gap.empties == [] then [SPACE] else ReadBreaks(gap.empties, config)
  }

  /** This line break, and no longer one, stands at a place. */
  predicate BreakAt(text: seq<Unit>, q: nat, nl: seq<Unit>) {
    && IsLineBreak(nl) && q + |nl| < |text| && text[q] == nl[0] && (|nl| == 2 ==> text[q + 1] == nl[1])
    && !(nl == [CR] && text[q + 1] == LF)
  }

  predicate WhiteFromTo(text: seq<Unit>, q: nat, e: nat) {
    q <= e <= |text| && forall i | q <= i < e :: IsWhite(text[i])
  }

  predicate SpacesFromTo(text: seq<Unit>, q: nat, e: nat) {
    q <= e <= |text| && forall i | q <= i < e :: text[i] == SPACE
  }

  /** White space that starts with the indentation, or less than the indentation. */
  predicate BlankFromTo(text: seq<Unit>, q: nat, e: nat, n: nat) {
    if q + n <= e then SpacesFromTo(text, q, q + n) && WhiteFromTo(text, q + n, e) else SpacesFromTo(text, q, e)
  }

  ghost predicate EmptyLineAt(text: seq<Unit>, q: nat, n: nat, nl: seq<Unit>, e: nat) {
    q <= e < |text| && BlankFromTo(text, q, e, n) && BreakAt(text, e, nl)
  }

  /** Empty lines with these line breaks, up to the start of the next line. */
  ghost predicate EmptyLinesAt(text: seq<Unit>, q: nat, n: nat, empties: seq<seq<Unit>>, start: nat)
    decreases |empties|
  {
    if empties == [] then q == start
    else exists e: nat ::
           EmptyLineAt(text, q, n, empties[0], e) && EmptyLinesAt(text, e + |empties[0]|, n, empties[1..], start)
  }

  /** A document marker: three dashes or dots, with white space, a line break or the end of the text after them. */
  predicate MarkerAt(text: seq<Unit>, q: nat) {
    && q + 3 < |text| && text[q] == text[q + 1] == text[q + 2] && (text[q] == DASH || text[q] == DOT)
    && (q + 4 == |text| || IsWhite(text[q + 3]) || IsBreakChar(text[q + 3]))
  }

  /** The end of a line with its empty lines, from a place up to the start of the next line. */
  ghost predicate BreaksAt(text: seq<Unit>, q: nat, n: nat, gap: Gap) {
    match gap.end
    case Plain(nl) =>
      && WhiteFromTo(text, q, gap.b) && BreakAt(text, gap.b, nl)
      && EmptyLinesAt(text, gap.b + |nl|, n, gap.empties, gap.start)
    case Escaped(nl) =>
      && gap.b == q < |text| && text[q] == BACKSLASH && BreakAt(text, q + 1, nl)
      && EmptyLinesAt(text, q + 1 + |nl|, n, gap.empties, gap.start)
  }

  /** The indentation of the next line, with the white space after it, up to its first character, or to the end. */
  ghost predicate IndentAt(text: seq<Unit>, start: nat, n: nat, mid: nat) {
    && start + n <= mid < |text| && SpacesFromTo(text, start, start + n) && WhiteFromTo(text, start + n, mid)
    && !IsWhite(text[mid]) && (ForItself(text[mid]) || text[mid] == QUOTE)
  }

  /** A new line, which does not start with a document marker. */
  ghost predicate NewLineAt(text: seq<Unit>, q: nat, n: nat, gap: Gap, mid: nat) {
    BreaksAt(text, q, n, gap) && IndentAt(text, gap.start, n, mid) && (gap.end.Plain? ==> !MarkerAt(text, gap.start))
  }

  /** A line stands at a place; before a plain line break it does not end with white space. */
  predicate LineAt(text: seq<Unit>, q: nat, line: seq<Unit>, ink: bool) {
    && q + |line| < |text| && text[q..q + |line|] == line
    && (forall c | c in line :: ForItself(c))
    && (ink && line != [] ==> !IsWhite(line[|line| - 1]))
  }

  /** How the text goes on after the last line. */
  datatype Stop = Quotation | Marker(gap: Gap) | Invalid

  ghost predicate StopsAt(text: seq<Unit>, q: nat, n: nat, stop: Stop) {
    match stop
    case Quotation => q < |text| && text[q] == QUOTE
    case Marker(gap) => gap.end.Plain? && BreaksAt(text, q, n, gap) && MarkerAt(text, gap.start)
    case Invalid => Guarded(text) && q < |text| && text[q] == BACKSLASH && NsEscChar(text, q) == BadEscape
  }

  /** Lines stand in the text from `q` to `e`. */
  ghost predicate LinesAt(text: seq<Unit>, q: nat, n: nat, lines: Lines, stop: Stop, e: nat)
    decreases lines
  {
    match lines
    case Last(line) => LineAt(text, q, line, stop.Marker?) && e == q + |line| && StopsAt(text, e, n, stop)
    case More(line, gap, mid, rest) =>
      && LineAt(text, q, line, gap.end.Plain?) && NewLineAt(text, q + |line|, n, gap, mid)
      && LinesAt(text, mid, n, rest, stop, e)
  }

  lemma {:induction false} WhiteEndIs(text: seq<Unit>, q: nat, e: nat)
    requires WhiteFromTo(text, q, e) && (e < |text| ==> !IsWhite(text[e]))
    ensures WhiteEnd(text, q) == e
    decreases e - q
  {
    if q < e {
      WhiteEndIs(text, q + 1, e);
    }
  }

  lemma {:induction false} SpaceEndIs(text: seq<Unit>, q: nat, e: nat)
    requires SpacesFromTo(text, q, e) && (e < |text| ==> text[e] != SPACE)
    ensures SpaceEnd(text, q) == e
    decreases e - q
  {
    if q < e {
      SpaceEndIs(text, q + 1, e);
    }
  }

  lemma BreakIsRead(text: seq<Unit>, cur: Cursor, nl: seq<Unit>, config: Config)
    requires Guarded(text) && BreakAt(text, cur.p, nl)
    ensures BreakLength(text, cur.p) == |nl|
    ensures AsLineFeed(text, cur, config) == Some(Cursor(cur.p + |nl|, cur.v + ReadBreaks([nl], config)))
  {
    assert text[cur.p..cur.p + |nl|] == nl;
    ReadBreaksOne(nl, config);
  }

  lemma ReadBreaksOne(nl: seq<Unit>, config: Config)
    ensures ReadBreaks([nl], config) == if config.lineBreakForInput.Some? then config.lineBreakForInput.value else nl
  {
    assert ReadBreaks([nl][1..], config) == [];
  }

  /** An empty line is read as its line break. */
  lemma EmptyIsRead(text: seq<Unit>, cur: Cursor, n: nat, nl: seq<Unit>, e: nat, config: Config)
    requires Guarded(text) && EmptyLineAt(text, cur.p, n, nl, e)
    ensures Empty(text, cur, n, config) == Some(Cursor(e + |nl|, cur.v + ReadBreaks([nl], config)))
  {
    BreakIsRead(text, Cursor(e, cur.v), nl, config);
    if cur.p + n <= e {
      WhiteEndIs(text, cur.p + n, e);
    } else {
      SpaceEndIs(text, cur.p, e);
    }
  }

  lemma {:induction false} EmptiesAreRead(text: seq<Unit>, cur: Cursor, n: nat, empties: seq<seq<Unit>>, start: nat,
      config: Config)
    requires Within(text, cur) && start < |text| && EmptyLinesAt(text, cur.p, n, empties, start)
    requires Empty(text, Cursor(start, []), n, config) == None
    ensures Empties(text, cur, n, config) == Cursor(start, cur.v + ReadBreaks(empties, config))
    ensures empties != [] <==> Empty(text, cur, n, config).Some?
    decreases |empties|
  {
    if empties == [] {
      assert cur.v + [] == cur.v && cur.p == start;
    } else {
      var nl := empties[0];
      var e: nat :| EmptyLineAt(text, cur.p, n, nl, e) && EmptyLinesAt(text, e + |nl|, n, empties[1..], start);
      EmptyIsRead(text, cur, n, nl, e, config);
      EmptiesAreRead(text, Cursor(e + |nl|, cur.v + ReadBreaks([nl], config)), n, empties[1..], start, config);
      ReadBreaksMore(cur.v, empties, config);
    }
  }

  lemma ReadBreaksMore(v: seq<Unit>, empties: seq<seq<Unit>>, config: Config)
    requires empties != []
    ensures v + ReadBreaks([empties[0]], config) + ReadBreaks(empties[1..], config) == v + ReadBreaks(empties, config)
  {
    var one: seq<seq<Unit>> := [empties[0]];
    assert |one[1..]| == 0;
    Associative(v, ReadBreaks([empties[0]], config), ReadBreaks(empties[1..], config));
  }

  lemma Associative(a: seq<Unit>, b: seq<Unit>, c: seq<Unit>)
    ensures a + (b + c) == a + b + c
  {}

  /** Neither the first line with text nor a document marker is an empty line. */
  lemma IndentIsNotEmpty(text: seq<Unit>, cur: Cursor, n: nat, mid: nat, config: Config)
    requires Guarded(text) && IndentAt(text, cur.p, n, mid)
    ensures FlowLinePrefix(text, cur.p, n) == Some(mid) && Empty(text, cur, n, config) == None
  {
    WhiteEndIs(text, cur.p + n, mid);
  }

  lemma MarkerIsNotEmpty(text: seq<Unit>, cur: Cursor, n: nat, config: Config)
    requires Guarded(text) && MarkerAt(text, cur.p)
    ensures Empty(text, cur, n, config) == None
  {}

  predicate AllForItself(text: seq<Unit>, q: nat, e: nat) {
    q <= e <= |text| && forall i | q <= i < e :: ForItself(text[i])
  }

  /** A character that ends a stretch of white space, but not a line. */
  predicate Ink(text: seq<Unit>, r: nat) {
    r < |text| && !IsWhite(text[r]) && !IsBreakChar(text[r])
  }

  lemma NoBreakBefore(text: seq<Unit>, q: nat, r: nat)
    requires q <= r && AllForItself(text, q, r) && Ink(text, r)
    ensures !IsBreakChar(text[WhiteEnd(text, q)])
  {}

  lemma CharIsRead(text: seq<Unit>, cur: Cursor, r: nat, n: nat, config: Config)
    requires Guarded(text) && cur.p <= r && AllForItself(text, cur.p, r) && Ink(text, r) && ForItself(text[cur.p])
    ensures MultiLine(text, cur, n, config) == MultiLine(text, Cursor(cur.p + 1, cur.v + [text[cur.p]]), n, config)
  {
    if IsWhite(text[cur.p]) {
      NoBreakBefore(text, cur.p, r);
      MultiLineWhite(text, cur, n, config);
    } else {
      InkIsRead(text, cur, n, config);
    }
  }

  lemma InkIsRead(text: seq<Unit>, cur: Cursor, n: nat, config: Config)
    requires Within(text, cur) && ForItself(text[cur.p]) && !IsWhite(text[cur.p])
    ensures NsDoubleChar(text, cur.p) == Char(text[cur.p], 1)
    ensures MultiLine(text, cur, n, config) == MultiLine(text, Cursor(cur.p + 1, cur.v + [text[cur.p]]), n, config)
  {
    assert NsDoubleChar(text, cur.p) == Char(text[cur.p], 1);
    MultiLineChar(text, cur, n, config);
  }

  /** At a place where a line ends, and the next one starts at `line`. */
  ghost predicate Turns(text: seq<Unit>, cur: Cursor, line: Cursor, n: nat, config: Config) {
    && Within(text, cur) && Within(text, line) && cur.p < line.p && InLine(text, cur) == Match(cur)
    && DoubleBreak(text, cur, n, config) == Some(line)
  }

  /** At a place where a line ends, and no other follows. */
  ghost predicate Halts(text: seq<Unit>, cur: Cursor, n: nat, config: Config) {
    Within(text, cur) && InLine(text, cur) == Match(cur) && DoubleBreak(text, cur, n, config) == None
  }

  ghost predicate CharIsStep(f: Cursor -> Result, text: seq<Unit>, cur: Cursor, r: nat) {
    cur.p <= r && AllForItself(text, cur.p, r) && Ink(text, r) && ForItself(text[cur.p]) ==>
      f(cur) == f(Cursor(cur.p + 1, cur.v + [text[cur.p]]))
  }

  ghost predicate TurnIsStep(f: Cursor -> Result, text: seq<Unit>, cur: Cursor, line: Cursor, n: nat, config: Config) {
    Turns(text, cur, line, n, config) && !IsWhite(text[line.p])
    && (ForItself(text[line.p]) || text[line.p] == QUOTE) ==>
      f(cur) == f(line)
  }

  ghost predicate HaltIsEnd(f: Cursor -> Result, text: seq<Unit>, cur: Cursor, n: nat, config: Config) {
    Halts(text, cur, n, config) ==> f(cur) == Match(Whites(text, cur))
  }

  /** The ways in which reading lines from a cursor amounts to reading them from a later one, or ends. */
  ghost predicate LineReader(f: Cursor -> Result, text: seq<Unit>, n: nat, config: Config) {
    && Guarded(text)
    && (forall cur, r :: CharIsStep(f, text, cur, r))
    && (forall cur, line :: TurnIsStep(f, text, cur, line, n, config))
    && (forall cur :: HaltIsEnd(f, text, cur, n, config))
    && (forall cur :: EndStep(f, text, cur))
    && (forall cur :: InvalidIsError(f, text, cur))
  }

  ghost predicate InvalidIsError(f: Cursor -> Result, text: seq<Unit>, cur: Cursor) {
    Within(text, cur) && text[cur.p] == BACKSLASH && NsEscChar(text, cur.p) == BadEscape ==> f(cur) == Result.Error
  }

  lemma InvalidGives(text: seq<Unit>, cur: Cursor, n: nat, config: Config)
    requires Within(text, cur) && text[cur.p] == BACKSLASH && NsEscChar(text, cur.p) == BadEscape
    ensures MultiLine(text, cur, n, config) == Result.Error
  {
    assert Whites(text, cur) == cur;
  }

  lemma HaltGives(text: seq<Unit>, cur: Cursor, n: nat, config: Config)
    requires Halts(text, cur, n, config)
    ensures MultiLine(text, cur, n, config) == Match(Whites(text, cur))
  {
    assert NextLine(text, cur, n, config) == Result.Fail;
  }

  lemma ParserReadsLines(text: seq<Unit>, n: nat, c: Context, config: Config)
    requires Guarded(text) && !c.FlowKey?
    ensures LineReader(ReadText(text, n, c, config), text, n, config)
  {
    var f := ReadText(text, n, c, config);
    forall cur, r ensures CharIsStep(f, text, cur, r) {
      if cur.p <= r && AllForItself(text, cur.p, r) && Ink(text, r) && ForItself(text[cur.p]) {
        CharIsRead(text, cur, r, n, config);
      }
    }
    forall cur, line ensures TurnIsStep(f, text, cur, line, n, config) {
      if Turns(text, cur, line, n, config) && !IsWhite(text[line.p])
         && (ForItself(text[line.p]) || text[line.p] == QUOTE) {
        NextLineIsRead(text, cur, line, n, config);
      }
    }
    forall cur ensures HaltIsEnd(f, text, cur, n, config) {
      if Halts(text, cur, n, config) { HaltGives(text, cur, n, config); }
    }
    forall cur ensures EndStep(f, text, cur) {
      if Within(text, cur) && text[cur.p] == QUOTE { MultiLineEnd(text, cur, n, config); }
    }
    forall cur ensures InvalidIsError(f, text, cur) {
      if Within(text, cur) && text[cur.p] == BACKSLASH && NsEscChar(text, cur.p) == BadEscape {
        InvalidGives(text, cur, n, config);
      }
    }
  }

  /** Characters that stand for themselves are read one by one; white space among them is followed by the one at `r`. */
  lemma {:induction false} LineIsRead(f: Cursor -> Result, text: seq<Unit>, cur: Cursor, e: nat, r: nat, n: nat,
      config: Config)
    requires LineReader(f, text, n, config) && AllForItself(text, cur.p, e)
    requires cur.p < e ==> e - 1 <= r <= e && Ink(text, r)
    ensures f(cur) == f(Cursor(e, cur.v + text[cur.p..e]))
    decreases e - cur.p
  {
    if cur.p == e {
      assert cur.v + text[cur.p..e] == cur.v;
    } else {
      assert CharIsStep(f, text, cur, r);
      LineIsRead(f, text, Cursor(cur.p + 1, cur.v + [text[cur.p]]), e, r, n, config);
      assert cur.v + [text[cur.p]] + text[cur.p + 1..e] == cur.v + text[cur.p..e];
    }
  }

  lemma LineAtIsRead(f: Cursor -> Result, text: seq<Unit>, cur: Cursor, line: seq<Unit>, ink: bool, n: nat,
      config: Config)
    requires LineReader(f, text, n, config) && LineAt(text, cur.p, line, ink)
    requires ink || text[cur.p + |line|] == QUOTE || text[cur.p + |line|] == BACKSLASH
    ensures f(cur) == f(Cursor(cur.p + |line|, cur.v + line))
  {
    var e := cur.p + |line|;
    forall i | cur.p <= i < e ensures ForItself(text[i]) {
      assert text[i] == text[cur.p..e][i - cur.p] == line[i - cur.p];
    }
    if ink && line != [] {
      assert text[e - 1] == text[cur.p..e][|line| - 1];
      assert line[|line| - 1] in line;
      LineIsRead(f, text, cur, e, e - 1, n, config);
    } else {
      LineIsRead(f, text, cur, e, e, n, config);
    }
  }

  /** A line break is read as a space, or as the empty lines after it. */
  lemma PlainIsFolded(text: seq<Unit>, cur: Cursor, k: nat, n: nat, empties: seq<seq<Unit>>, start: nat, config: Config)
    requires Within(text, cur) && BreakLength(text, cur.p) == k > 0 && cur.p + k < |text|
    requires EmptyLinesAt(text, cur.p + k, n, empties, start) && start < |text|
    requires Empty(text, Cursor(start, []), n, config) == None
    ensures Folded(text, cur, n, config)
            == Some(Cursor(start, cur.v + if empties == [] then [SPACE] else ReadBreaks(empties, config)))
  {
    EmptiesAreRead(text, Cursor(cur.p + k, cur.v), n, empties, start, config);
    FoldedGives(text, cur, k, n, config);
  }

  lemma FoldedGives(text: seq<Unit>, cur: Cursor, k: nat, n: nat, config: Config)
    requires Within(text, cur) && BreakLength(text, cur.p) == k > 0 && cur.p + k < |text|
    ensures var line := Cursor(cur.p + k, cur.v);
            Folded(text, cur, n, config)
            == Some(if Empty(text, line, n, config).Some? then Empties(text, line, n, config)
                    else Cursor(cur.p + k, cur.v + [SPACE]))
  {}

  /** At a line break there is no more to read on the line. */
  lemma LineEnds(text: seq<Unit>, cur: Cursor, b: nat, n: nat, config: Config)
    requires Guarded(text) && cur.p <= b < |text| && WhiteEnd(text, cur.p) == b && IsBreakChar(text[b])
    ensures InLine(text, cur) == Match(cur) && DoubleEscaped(text, cur, n, config) == None
  {}

  /** A line break that is not escaped, with the empty lines after it. */
  lemma GapIsFolded(text: seq<Unit>, cur: Cursor, n: nat, gap: Gap, config: Config)
    requires Within(text, cur) && BreaksAt(text, cur.p, n, gap) && gap.end.Plain? && gap.start < |text|
    requires Empty(text, Cursor(gap.start, []), n, config) == None
    ensures WhiteEnd(text, cur.p) == gap.b && IsBreakChar(text[gap.b])
    ensures Folded(text, Cursor(gap.b, cur.v), n, config) == Some(Cursor(gap.start, cur.v + Separator(gap, config)))
  {
    var b, nl := gap.b, gap.end.nl;
    BreakIsRead(text, Cursor(b, cur.v), nl, config);
    WhiteEndIs(text, cur.p, b);
    PlainIsFolded(text, Cursor(b, cur.v), |nl|, n, gap.empties, gap.start, config);
  }

  lemma GapStartsLine(text: seq<Unit>, q: nat, n: nat, gap: Gap)
    requires BreaksAt(text, q, n, gap) && gap.end.Plain? && gap.start <= |text|
    ensures StartOfLine(text, gap.start)
  {
    BreakEnds(text, gap.b, gap.end.nl);
    StartIsStart(text, gap.b + |gap.end.nl|, n, gap.empties, gap.start);
  }

  lemma PlainIsRead(text: seq<Unit>, cur: Cursor, n: nat, gap: Gap, mid: nat, config: Config)
    requires Within(text, cur) && NewLineAt(text, cur.p, n, gap, mid) && gap.end.Plain?
    ensures Turns(text, cur, Cursor(mid, cur.v + Separator(gap, config)), n, config)
  {
    IndentIsNotEmpty(text, Cursor(gap.start, []), n, mid, config);
    GapIsFolded(text, cur, n, gap, config);
    GapStartsLine(text, cur.p, n, gap);
    LineEnds(text, cur, gap.b, n, config);
    ForbiddenIsMarker(text, gap.start);
    FoldedTurns(text, cur, gap.b, Cursor(gap.start, cur.v + Separator(gap, config)), n, config);
  }

  lemma FoldedTurns(text: seq<Unit>, cur: Cursor, b: nat, line: Cursor, n: nat, config: Config)
    requires Within(text, cur) && WhiteEnd(text, cur.p) == b && line.p < |text|
    requires DoubleEscaped(text, cur, n, config) == None && Folded(text, Cursor(b, cur.v), n, config) == Some(line)
    ensures DoubleBreak(text, cur, n, config)
            == if Forbidden(text, line.p) || FlowLinePrefix(text, line.p, n).None? then None
               else Some(Cursor(FlowLinePrefix(text, line.p, n).value, line.v))
  {}

  lemma ForbiddenIsMarker(text: seq<Unit>, q: nat)
    requires Guarded(text) && q <= |text|
    ensures Forbidden(text, q) <==> StartOfLine(text, q) && MarkerAt(text, q)
  {
    if q + 3 < |text| {
      assert text[q..q + 3] == [text[q], text[q + 1], text[q + 2]];
    } else if q + 3 == |text| {
      assert text[q..q + 3][2] == NUL;
    }
  }

  lemma EscapedIsRead(text: seq<Unit>, cur: Cursor, n: nat, gap: Gap, mid: nat, config: Config)
    requires Within(text, cur) && NewLineAt(text, cur.p, n, gap, mid) && gap.end.Escaped?
    ensures Turns(text, cur, Cursor(mid, cur.v + Separator(gap, config)), n, config)
  {
    var nl := gap.end.nl;
    EscapeEndsLine(text, cur);
    IndentIsNotEmpty(text, Cursor(gap.start, []), n, mid, config);
    EscapedEmptiesAreRead(text, cur, n, gap, mid, config);
    BreakIsRead(text, Cursor(cur.p + 1, cur.v), nl, config);
    EscapedGives(text, cur, |nl|, Cursor(gap.start, cur.v + Separator(gap, config)), mid, n, config);
  }

  lemma EscapedEmptiesAreRead(text: seq<Unit>, cur: Cursor, n: nat, gap: Gap, mid: nat, config: Config)
    requires Within(text, cur) && NewLineAt(text, cur.p, n, gap, mid) && gap.end.Escaped?
    ensures Empties(text, Cursor(cur.p + 1 + |gap.end.nl|, cur.v), n, config)
            == Cursor(gap.start, cur.v + Separator(gap, config))
  {
    IndentIsNotEmpty(text, Cursor(gap.start, []), n, mid, config);
    EmptiesAreRead(text, Cursor(cur.p + 1 + |gap.end.nl|, cur.v), n, gap.empties, gap.start, config);
  }

  lemma EscapedGives(text: seq<Unit>, cur: Cursor, k: nat, lines: Cursor, mid: nat, n: nat, config: Config)
    requires Within(text, cur) && text[cur.p] == BACKSLASH && BreakLength(text, cur.p + 1) == k > 0
    requires cur.p + 1 + k < |text| && Empties(text, Cursor(cur.p + 1 + k, cur.v), n, config) == lines
    requires FlowLinePrefix(text, lines.p, n) == Some(mid)
    ensures DoubleBreak(text, cur, n, config) == Some(Cursor(mid, lines.v))
  {
    assert Whites(text, cur) == cur;
  }

  lemma EscapeEndsLine(text: seq<Unit>, cur: Cursor)
    requires Within(text, cur) && text[cur.p] == BACKSLASH && IsBreakChar(text[cur.p + 1])
    ensures InLine(text, cur) == Match(cur)
  {
    assert Whites(text, cur) == cur;
  }

  /** Reading goes on with the next line. */
  lemma NextLineIsRead(text: seq<Unit>, cur: Cursor, line: Cursor, n: nat, config: Config)
    requires Turns(text, cur, line, n, config) && !IsWhite(text[line.p])
    requires ForItself(text[line.p]) || text[line.p] == QUOTE
    ensures MultiLine(text, cur, n, config) == MultiLine(text, line, n, config)
  {
    if text[line.p] == QUOTE {
      NextLineIsEmpty(text, cur, line, n, config);
    } else {
      var next := Cursor(line.p + 1, line.v + [text[line.p]]);
      var r := MultiLine(text, next, n, config);
      InkIsRead(text, line, n, config);
      NextLineStep(text, cur, line, next, n, config, r);
      MultiLineStep(text, cur, n, config, r);
    }
  }

  lemma NextLineIsEmpty(text: seq<Unit>, cur: Cursor, line: Cursor, n: nat, config: Config)
    requires Turns(text, cur, line, n, config) && text[line.p] == QUOTE
    ensures MultiLine(text, cur, n, config) == MultiLine(text, line, n, config)
  {
    MultiLineEnd(text, line, n, config);
  }

  lemma NextLineStep(text: seq<Unit>, cur: Cursor, line: Cursor, next: Cursor, n: nat, config: Config, r: Result)
    requires Turns(text, cur, line, n, config) && NsDoubleChar(text, line.p).Char?
    requires next == Added(line, NsDoubleChar(text, line.p)) && r == MultiLine(text, next, n, config)
    ensures NextLine(text, cur, n, config) == r
  {}

  lemma MultiLineStep(text: seq<Unit>, cur: Cursor, n: nat, config: Config, r: Result)
    requires Within(text, cur) && InLine(text, cur) == Match(cur) && NextLine(text, cur, n, config) == r && !r.Fail?
    ensures MultiLine(text, cur, n, config) == r
  {}

  /** Before a document marker reading stops at the line break. */
  lemma MarkerHalts(text: seq<Unit>, cur: Cursor, n: nat, gap: Gap, config: Config)
    requires Within(text, cur) && StopsAt(text, cur.p, n, Marker(gap))
    ensures Halts(text, cur, n, config) && WhiteEnd(text, cur.p) == gap.b && IsBreakChar(text[gap.b])
  {
    MarkerIsNotEmpty(text, Cursor(gap.start, []), n, config);
    GapIsFolded(text, cur, n, gap, config);
    GapStartsLine(text, cur.p, n, gap);
    MarkedGapHalts(text, cur, gap.b, Cursor(gap.start, cur.v + Separator(gap, config)), n, config);
  }

  lemma MarkedGapHalts(text: seq<Unit>, cur: Cursor, b: nat, line: Cursor, n: nat, config: Config)
    requires Within(text, cur) && cur.p <= b < |text| && WhiteEnd(text, cur.p) == b && IsBreakChar(text[b])
    requires Folded(text, Cursor(b, cur.v), n, config) == Some(line) && line.p < |text|
    requires StartOfLine(text, line.p) && MarkerAt(text, line.p)
    ensures Halts(text, cur, n, config)
  {
    LineEnds(text, cur, b, n, config);
    ForbiddenIsMarker(text, line.p);
    FoldedTurns(text, cur, b, line, n, config);
  }

  lemma BreakEnds(text: seq<Unit>, b: nat, nl: seq<Unit>)
    requires BreakAt(text, b, nl)
    ensures StartOfLine(text, b + |nl|)
  {}

  lemma {:induction false} StartIsStart(text: seq<Unit>, q: nat, n: nat, empties: seq<seq<Unit>>, start: nat)
    requires EmptyLinesAt(text, q, n, empties, start) && q <= |text| && StartOfLine(text, q) && start <= |text|
    ensures StartOfLine(text, start)
    decreases |empties|
  {
    if empties != [] {
      var e: nat :| EmptyLineAt(text, q, n, empties[0], e)
                    && EmptyLinesAt(text, e + |empties[0]|, n, empties[1..], start);
      BreakEnds(text, e, empties[0]);
      StartIsStart(text, e + |empties[0]|, n, empties[1..], start);
    }
  }

  /** What the parser has read at the last line. */
  ghost predicate ReadTo(text: seq<Unit>, r: Result, stop: Stop, to: Cursor) {
    match stop
    case Quotation => r == Match(to) && to.p < |text| && text[to.p] == QUOTE
    case Marker(_) => r.Match? && r.to.p < |text| && IsBreakChar(text[r.to.p])
    case Invalid => r == Result.Error
  }

  lemma NewLineIsRead(f: Cursor -> Result, text: seq<Unit>, cur: Cursor, n: nat, gap: Gap, mid: nat, config: Config)
    requires LineReader(f, text, n, config) && Within(text, cur)
    requires NewLineAt(text, cur.p, n, gap, mid)
    ensures f(cur) == f(Cursor(mid, cur.v + Separator(gap, config)))
  {
    if gap.end.Plain? {
      PlainIsRead(text, cur, n, gap, mid, config);
    } else {
      EscapedIsRead(text, cur, n, gap, mid, config);
    }
    assert TurnIsStep(f, text, cur, Cursor(mid, cur.v + Separator(gap, config)), n, config);
  }

  /** A line and the start of the next one. */
  lemma MoreIsRead(f: Cursor -> Result, text: seq<Unit>, cur: Cursor, n: nat, line: seq<Unit>, gap: Gap, mid: nat,
      config: Config)
    requires LineReader(f, text, n, config) && LineAt(text, cur.p, line, gap.end.Plain?)
    requires NewLineAt(text, cur.p + |line|, n, gap, mid)
    ensures f(cur) == f(Cursor(mid, cur.v + line + Separator(gap, config)))
  {
    LineAtIsRead(f, text, cur, line, gap.end.Plain?, n, config);
    NewLineIsRead(f, text, Cursor(cur.p + |line|, cur.v + line), n, gap, mid, config);
  }

  /** Where lines hold, reading goes on with the next one, or has read the last one. */
  ghost predicate LinesStep(f: Cursor -> Result, holds: (nat, Lines) -> bool, text: seq<Unit>, cur: Cursor,
      lines: Lines, stop: Stop, e: nat, config: Config)
  {
    holds(cur.p, lines) ==>
      match lines
      case Last(line) => ReadTo(text, f(cur), stop, Cursor(e, cur.v + line))
      case More(line, gap, mid, rest) =>
        holds(mid, rest) && f(cur) == f(Cursor(mid, cur.v + line + Separator(gap, config)))
  }

  lemma {:induction false} StepsReachEnd(f: Cursor -> Result, holds: (nat, Lines) -> bool, text: seq<Unit>,
      cur: Cursor, lines: Lines, stop: Stop, e: nat, config: Config)
    requires forall c, ls :: LinesStep(f, holds, text, c, ls, stop, e, config)
    requires holds(cur.p, lines)
    ensures ReadTo(text, f(cur), stop, Cursor(e, cur.v + Meaning(lines, config)))
    decreases lines
  {
    assert LinesStep(f, holds, text, cur, lines, stop, e, config);
    if lines.More? {
      MeaningOfMore(cur.v, lines.line, lines.gap, lines.mid, lines.rest, config);
      var next := Cursor(lines.mid, cur.v + lines.line + Separator(lines.gap, config));
      StepsReachEnd(f, holds, text, next, lines.rest, stop, e, config);
    }
  }

  lemma LastStep(f: Cursor -> Result, text: seq<Unit>, cur: Cursor, n: nat, line: seq<Unit>, stop: Stop, e: nat,
      config: Config)
    requires LineReader(f, text, n, config) && LinesAt(text, cur.p, n, Last(line), stop, e)
    ensures ReadTo(text, f(cur), stop, Cursor(e, cur.v + line))
  {
    LastIsRead(f, text, cur, n, line, stop, Cursor(e, cur.v + line), config);
  }

  lemma MoreStep(f: Cursor -> Result, text: seq<Unit>, cur: Cursor, n: nat, lines: Lines, stop: Stop, e: nat,
      config: Config)
    requires LineReader(f, text, n, config) && lines.More? && LinesAt(text, cur.p, n, lines, stop, e)
    ensures LinesAt(text, lines.mid, n, lines.rest, stop, e)
    ensures f(cur) == f(Cursor(lines.mid, cur.v + lines.line + Separator(lines.gap, config)))
  {
    MoreIsRead(f, text, cur, n, lines.line, lines.gap, lines.mid, config);
  }

  lemma LinesAreRead(f: Cursor -> Result, text: seq<Unit>, cur: Cursor, n: nat, lines: Lines, stop: Stop, to: Cursor,
      config: Config)
    requires LineReader(f, text, n, config) && LinesAt(text, cur.p, n, lines, stop, to.p)
    requires to.v == cur.v + Meaning(lines, config)
    ensures ReadTo(text, f(cur), stop, to)
  {
    ghost var holds := (q: nat, ls: Lines) => LinesAt(text, q, n, ls, stop, to.p);
    forall c, ls ensures LinesStep(f, holds, text, c, ls, stop, to.p, config) {
      if LinesAt(text, c.p, n, ls, stop, to.p) {
        if ls.Last? {
          LastStep(f, text, c, n, ls.line, stop, to.p, config);
        } else {
          MoreStep(f, text, c, n, ls, stop, to.p, config);
        }
      }
    }
    StepsReachEnd(f, holds, text, cur, lines, stop, to.p, config);
  }

  lemma MeaningOfMore(v: seq<Unit>, line: seq<Unit>, gap: Gap, mid: nat, rest: Lines, config: Config)
    ensures v + Meaning(More(line, gap, mid, rest), config) == v + line + Separator(gap, config) + Meaning(rest, config)
  {}

  lemma LastIsRead(f: Cursor -> Result, text: seq<Unit>, cur: Cursor, n: nat, line: seq<Unit>, stop: Stop,
      to: Cursor, config: Config)
    requires LineReader(f, text, n, config) && LineAt(text, cur.p, line, stop.Marker?)
    requires to == Cursor(cur.p + |line|, cur.v + line) && StopsAt(text, to.p, n, stop)
    ensures ReadTo(text, f(cur), stop, to)
  {
    LineAtIsRead(f, text, cur, line, stop.Marker?, n, config);
    match stop
    case Quotation => assert EndStep(f, text, to);
    case Marker(gap) =>
      MarkerHalts(text, to, n, gap, config);
      assert HaltIsEnd(f, text, to, n, config);
    case Invalid => assert InvalidIsError(f, text, to);
  }

  lemma QuotedGives(text: seq<Unit>, p: nat, n: nat, c: Context, config: Config, r: Result)
    requires Guarded(text) && p < |text| && text[p] == QUOTE && r.Match? && r.to.p < |text|
    requires r == ReadText(text, n, c, config)(Cursor(p + 1, []))
    ensures DoubleQuoted(text, p, n, c, config)
            == if text[r.to.p] == QUOTE then Match(Cursor(r.to.p + 1, r.to.v))
               else if c.FlowOut? then Result.Error else Result.Fail
  {}

  /**
   * A scalar on any number of lines: a line break between two lines is read as a space, one before empty lines or after
   * a backslash is dropped, empty lines stay as line breaks, and indentation and white space around a line break that
   * is not escaped are dropped. Reading stops just after the closing quotation mark.
   */
  lemma LinesAreFolded(text: seq<Unit>, p: nat, n: nat, lines: Lines, e: nat, c: Context, config: Config)
    requires Guarded(text) && p < |text| && text[p] == QUOTE && !c.FlowKey?
    requires LinesAt(text, p + 1, n, lines, Quotation, e)
    ensures DoubleQuoted(text, p, n, c, config) == Match(Cursor(e + 1, Meaning(lines, config)))
  {
    ParserReadsLines(text, n, c, config);
    var f := ReadText(text, n, c, config);
    assert [] + Meaning(lines, config) == Meaning(lines, config);
    LinesAreRead(f, text, Cursor(p + 1, []), n, lines, Quotation, Cursor(e, Meaning(lines, config)), config);
    QuotedGives(text, p, n, c, config, f(Cursor(p + 1, [])));
  }

  /** A document marker at the start of a line, on whatever line, ends the scalar: it is no match. */
  lemma MarkerIsNoMatch(text: seq<Unit>, p: nat, n: nat, lines: Lines, gap: Gap, e: nat, c: Context, config: Config)
    requires Guarded(text) && p < |text| && text[p] == QUOTE && !c.FlowKey?
    requires LinesAt(text, p + 1, n, lines, Marker(gap), e)
    ensures DoubleQuoted(text, p, n, c, config) == if c.FlowOut? then Result.Error else Result.Fail
  {
    ParserReadsLines(text, n, c, config);
    var f := ReadText(text, n, c, config);
    assert [] + Meaning(lines, config) == Meaning(lines, config);
    LinesAreRead(f, text, Cursor(p + 1, []), n, lines, Marker(gap), Cursor(e, Meaning(lines, config)), config);
    QuotedGives(text, p, n, c, config, f(Cursor(p + 1, [])));
  }

  /** An invalid escape on any line is an error, wherever a scalar may stand. */
  lemma InvalidEscapeIsError(text: seq<Unit>, p: nat, n: nat, lines: Lines, e: nat, c: Context, config: Config)
    requires Guarded(text) && p < |text| && text[p] == QUOTE && !c.FlowKey?
    requires LinesAt(text, p + 1, n, lines, Invalid, e)
    ensures DoubleQuoted(text, p, n, c, config) == Result.Error
  {
    ParserReadsLines(text, n, c, config);
    var f := ReadText(text, n, c, config);
    assert [] + Meaning(lines, config) == Meaning(lines, config);
    LinesAreRead(f, text, Cursor(p + 1, []), n, lines, Invalid, Cursor(e, Meaning(lines, config)), config);
    assert f(Cursor(p + 1, [])) == DoubleText(text, Cursor(p + 1, []), n, c, config);
  }

  /** On one line, characters that stand for themselves are read one by one. */
  lemma {:induction false} OneLineIsRead(text: seq<Unit>, cur: Cursor, e: nat)
    requires Guarded(text) && AllForItself(text, cur.p, e) && e < |text|
    ensures OneLine(text, cur) == OneLine(text, Cursor(e, cur.v + text[cur.p..e]))
    decreases e - cur.p
  {
    if cur.p == e {
      assert cur.v + text[cur.p..e] == cur.v;
    } else {
      var next := Cursor(cur.p + 1, cur.v + [text[cur.p]]);
      assert Added(cur, NbDoubleChar(text, cur.p)) == next;
      OneLineIsRead(text, next, e);
      assert cur.v + [text[cur.p]] + text[cur.p + 1..e] == cur.v + text[cur.p..e];
    }
  }

  /** Text of more than one line is no key, whether the line break is escaped or not. */
  lemma LinesAreNoKey(text: seq<Unit>, p: nat, n: nat, lines: Lines, stop: Stop, e: nat, config: Config)
    requires Guarded(text) && p < |text| && text[p] == QUOTE && lines.More?
    requires LinesAt(text, p + 1, n, lines, stop, e)
    ensures DoubleQuoted(text, p, n, FlowKey, config) == Result.Fail
  {
    UpToBreak(text, p + 1, n, lines.line, lines.gap, lines.mid);
    OneLineIsRead(text, Cursor(p + 1, []), lines.gap.b);
  }

  lemma UpToBreak(text: seq<Unit>, q: nat, n: nat, line: seq<Unit>, gap: Gap, mid: nat)
    requires Guarded(text) && LineAt(text, q, line, gap.end.Plain?) && NewLineAt(text, q + |line|, n, gap, mid)
    ensures AllForItself(text, q, gap.b) && gap.b < |text| && text[gap.b] != QUOTE
    ensures NbDoubleChar(text, gap.b) == NotChar
  {
    forall i | q <= i < gap.b ensures ForItself(text[i]) {
      if i < q + |line| {
        assert text[i] == text[q..q + |line|][i - q] == line[i - q];
      }
    }
  }

  /** A quoted scalar on one line is its own text, as a key too. */
  lemma OneLineIsKept(text: seq<Unit>, p: nat, n: nat, line: seq<Unit>, c: Context, config: Config)
    requires Guarded(text) && p < |text| && text[p] == QUOTE && LineAt(text, p + 1, line, false)
    requires text[p + 1 + |line|] == QUOTE
    ensures DoubleQuoted(text, p, n, c, config) == Match(Cursor(p + 2 + |line|, line))
  {
    var e := p + 1 + |line|;
    if c.FlowKey? {
      forall i | p + 1 <= i < e ensures ForItself(text[i]) {
        assert text[i] == text[p + 1..e][i - p - 1] == line[i - p - 1];
      }
      OneLineIsRead(text, Cursor(p + 1, []), e);
      assert [] + text[p + 1..e] == line;
    } else {
      LinesAreFolded(text, p, n, Last(line), e, c, config);
    }
  }

  /** `a`, a line feed and `b` in quotation marks are read as `a b`. */
  lemma FoldExample(config: Config)
    ensures DoubleQuoted([QUOTE, 0x61, LF, 0x62, QUOTE, NUL], 0, 0, FlowIn, config)
            == Match(Cursor(5, [0x61, SPACE, 0x62]))
  {
    var text: seq<Unit> := [QUOTE, 0x61, LF, 0x62, QUOTE, NUL];
    var rest := Last([0x62]);
    assert LinesAt(text, 3, 0, rest, Quotation, 4);
    var gap := Gap(Plain([LF]), [], 2, 3);
    var lines := More([0x61], gap, 3, rest);
    assert NewLineAt(text, 2, 0, gap, 3) && LineAt(text, 1, [0x61], true);
    LinesAreFolded(text, 0, 0, lines, 4, FlowIn, config);
    assert Meaning(lines, config) == [0x61] + [SPACE] + [0x62];
  }
}
