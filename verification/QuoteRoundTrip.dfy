/** Reading a double-quoted scalar gives back the string it was written for, but for white space folding drops. */
module QuoteRoundTrip {
  import opened Wrappers
  import opened CodeUnits
  import opened DoubleQuote
  import opened DoubleQuotedRules
  import opened QuotedText
  import opened DoubleQuotedParser

  /**
   * Where reading goes on after a line break that ends at `j`: white space there is dropped if it starts with a tab.
   */
  function Resume(s: seq<Unit>, j: nat, layout: Layout): (e: nat)
    requires j <= |s|
    ensures j <= e <= |s|
  {
    if layout.Fold? && j < |s| && s[j] == TAB then WhiteEnd(s, j) else j
  }

  /** What is read back of the string from position `i` on. */
  function Kept(s: seq<Unit>, i: nat, layout: Layout): seq<Unit>
    requires i <= |s|
    decreases |s| - i
  {
    if i == |s| then []
    else if IsBreakChar(s[i]) then
      var j := i + BreakLength(s, i);
      s[i..j] + Kept(s, Resume(s, j, layout), layout)
    else [s[i]] + Kept(s, i + 1, layout)
  }

  /** A character at the start of a line can be read first. */
  lemma MultiLineChar(text: seq<Unit>, cur: Cursor, n: nat, config: Config)
    requires Within(text, cur) && NsDoubleChar(text, cur.p).Char?
    ensures MultiLine(text, cur, n, config) == MultiLine(text, Added(cur, NsDoubleChar(text, cur.p)), n, config)
  {
    var next := Added(cur, NsDoubleChar(text, cur.p));
    assert Whites(text, cur) == cur;
    assert InLine(text, cur) == InLine(text, next) by {
      assert InLine(text, cur) == (var r := NsChars(text, next); if r.Match? then InLine(text, r.to) else Result.Error);
      if NsDoubleChar(text, next.p).Char? {
        assert Whites(text, next) == next;
      }
    }
  }

  /** So can white space, if no line break follows it. */
  lemma MultiLineWhite(text: seq<Unit>, cur: Cursor, n: nat, config: Config)
    requires Within(text, cur) && IsWhite(text[cur.p]) && !IsBreakChar(text[WhiteEnd(text, cur.p)])
    ensures MultiLine(text, cur, n, config) == MultiLine(text, Cursor(cur.p + 1, cur.v + [text[cur.p]]), n, config)
  {
    var next := Cursor(cur.p + 1, cur.v + [text[cur.p]]);
    assert Whites(text, next) == Whites(text, cur);
    if NsDoubleChar(text, WhiteEnd(text, cur.p)).NotChar? {
      NextLineWhite(text, cur, n, config);
    } else {
      assert InLine(text, cur) == InLine(text, next);
    }
  }

  lemma NextLineWhite(text: seq<Unit>, cur: Cursor, n: nat, config: Config)
    requires Within(text, cur) && IsWhite(text[cur.p]) && !IsBreakChar(text[WhiteEnd(text, cur.p)])
    ensures NextLine(text, cur, n, config) == NextLine(text, Cursor(cur.p + 1, cur.v + [text[cur.p]]), n, config)
  {
    var next := Cursor(cur.p + 1, cur.v + [text[cur.p]]);
    assert Whites(text, next) == Whites(text, cur);
    assert Folded(text, Cursor(WhiteEnd(text, cur.p), cur.v), n, config) == None;
    assert Folded(text, Cursor(WhiteEnd(text, cur.p), next.v), n, config) == None;
    assert DoubleBreak(text, cur, n, config) == DoubleBreak(text, next, n, config);
  }

  /** At the closing quotation mark there is nothing more to read. */
  lemma MultiLineEnd(text: seq<Unit>, cur: Cursor, n: nat, config: Config)
    requires Within(text, cur) && text[cur.p] == QUOTE
    ensures MultiLine(text, cur, n, config) == Match(cur)
  {
    assert Whites(text, cur) == cur;
  }

  /** A line that is not empty has the prefix of its indentation and the white space after it. */
  lemma PrefixIsRead(text: seq<Unit>, cur: Cursor, q: nat, n: nat, config: Config)
    requires Within(text, cur) && cur.p + n <= q < |text| && forall i | cur.p <= i < q :: text[i] == SPACE
    requires !IsBreakChar(text[WhiteEnd(text, q)])
    ensures Empties(text, cur, n, config) == cur && FlowLinePrefix(text, cur.p, n) == Some(WhiteEnd(text, q))
  {
    WhiteEndFrom(text, cur.p + n, q);
    assert Empty(text, cur, n, config) == None;
  }

  lemma LineIsEscaped(text: seq<Unit>, cur: Cursor, start: nat, e: nat, n: nat, config: Config)
    requires Guarded(text) && cur.p + 1 < start < |text| && text[cur.p] == BACKSLASH
    requires start == cur.p + 1 + BreakLength(text, cur.p + 1)
    requires Empties(text, Cursor(start, cur.v), n, config) == Cursor(start, cur.v)
    requires FlowLinePrefix(text, start, n) == Some(e)
    ensures DoubleEscaped(text, cur, n, config) == Some(Cursor(e, cur.v))
  {
    assert Whites(text, cur) == cur;
  }

  /** After an escaped line break and the prefix of the next line, white space is dropped. */
  lemma FoldIsRead(text: seq<Unit>, cur: Cursor, layout: Layout, c: Unit, next: nat, n: nat, config: Config)
    requires Guarded(text) && Fits(layout, n) && FoldLaid(text, cur.p, layout, c, next)
    requires !IsBreakChar(text[WhiteEnd(text, cur.p + 1 + |layout.nl| + |layout.pres|)])
    ensures NsDoubleChar(text, cur.p) == NotChar
    ensures DoubleEscaped(text, cur, n, config)
            == Some(Cursor(WhiteEnd(text, cur.p + 1 + |layout.nl| + |layout.pres|), cur.v))
  {
    var start, q := cur.p + 1 + |layout.nl|, cur.p + 1 + |layout.nl| + |layout.pres|;
    PrefixIsRead(text, Cursor(start, cur.v), q, n, config);
    LineIsEscaped(text, cur, start, WhiteEnd(text, q), n, config);
  }

  /** Reading goes on after an escaped line break. */
  lemma MultiLineFold(text: seq<Unit>, cur: Cursor, line: Cursor, n: nat, config: Config)
    requires Within(text, cur) && Within(text, line) && cur.p < line.p
    requires text[cur.p] == BACKSLASH && NsDoubleChar(text, cur.p) == NotChar
    requires DoubleEscaped(text, cur, n, config) == Some(line) && !IsWhite(text[line.p])
    ensures MultiLine(text, cur, n, config)
            == if NsDoubleChar(text, line.p).NotChar? then Match(line) else MultiLine(text, line, n, config)
  {
    assert Whites(text, cur) == cur && InLine(text, cur) == Match(cur);
    if NsDoubleChar(text, line.p).Char? {
      MultiLineChar(text, line, n, config);
    } else {
      assert Whites(text, line) == line;
    }
  }

  lemma {:induction false} WhiteEndFrom(text: seq<Unit>, p: nat, q: nat)
    requires p <= q <= |text| && forall i | p <= i < q :: text[i] == SPACE
    ensures WhiteEnd(text, p) == WhiteEnd(text, q)
    decreases q - p
  {
    if p < q {
      WhiteEndFrom(text, p + 1, q);
    }
  }

  /** The ways in which reading a text from a cursor amounts to reading it from a later one. */
  ghost predicate CharStep(f: Cursor -> Result, text: seq<Unit>, cur: Cursor) {
    Within(text, cur) && NsDoubleChar(text, cur.p).Char? ==> f(cur) == f(Added(cur, NsDoubleChar(text, cur.p)))
  }

  ghost predicate WhiteStep(f: Cursor -> Result, text: seq<Unit>, cur: Cursor) {
    Within(text, cur) && IsWhite(text[cur.p]) && !IsBreakChar(text[WhiteEnd(text, cur.p)]) ==>
      f(cur) == f(Cursor(cur.p + 1, cur.v + [text[cur.p]]))
  }

  ghost predicate EndStep(f: Cursor -> Result, text: seq<Unit>, cur: Cursor) {
    Within(text, cur) && text[cur.p] == QUOTE ==> f(cur) == Match(cur)
  }

  ghost predicate FoldStep(f: Cursor -> Result, text: seq<Unit>, cur: Cursor, line: Cursor, n: nat, config: Config) {
    Within(text, cur) && Within(text, line) && cur.p < line.p
    && text[cur.p] == BACKSLASH && NsDoubleChar(text, cur.p) == NotChar
    && DoubleEscaped(text, cur, n, config) == Some(line) && !IsWhite(text[line.p]) ==>
      f(cur) == if NsDoubleChar(text, line.p).NotChar? then Match(line) else f(line)
  }

  ghost predicate Reader(f: Cursor -> Result, text: seq<Unit>, layout: Layout, n: nat, config: Config) {
    && Guarded(text) && Fits(layout, n)
    && (forall cur :: CharStep(f, text, cur)) && (forall cur :: WhiteStep(f, text, cur))
    && (forall cur :: EndStep(f, text, cur))
    && (layout.Fold? ==> forall cur, line :: FoldStep(f, text, cur, line, n, config))
  }

  /** White space of the string is white space of the text, and no line break follows it. */
  lemma {:induction false} WhiteIsLaid(text: seq<Unit>, s: seq<Unit>, i: nat, pos: Places, layout: Layout)
    requires Laid(text, s, 0, pos, layout) && Starts(s, i)
    ensures var e := WhiteEnd(s, i);
            && Starts(s, e) && pos[i] < |text| && WhiteEnd(text, pos[i]) == pos[e] < |text|
            && !IsWhite(text[pos[e]]) && !IsBreakChar(text[pos[e]])
            && NsDoubleChar(text, pos[e]).NotChar? == (e == |s|)
    decreases |s| - i
  {
    if i < |s| {
      assert ItemLaid(text, s, i, pos, layout);
      if IsWhite(s[i]) {
        WhiteIsLaid(text, s, i + 1, pos, layout);
      }
    }
  }

  /** The escapes of a line break are read as the line break. */
  lemma BreakIsRead(f: Cursor -> Result, text: seq<Unit>, cur: Cursor, s: seq<Unit>, i: nat, pos: Places,
      layout: Layout, n: nat, config: Config)
    requires Reader(f, text, layout, n, config) && BreakLaid(text, s, i, pos, layout) && cur.p == pos[i]
    ensures f(cur) == f(Cursor(cur.p + 2 * BreakLength(s, i), cur.v + s[i..i + BreakLength(s, i)]))
  {
    assert CharStep(f, text, cur);
    if BreakLength(s, i) == 2 {
      var second := Cursor(cur.p + 2, cur.v + [CR]);
      assert CharStep(f, text, second);
      assert second.v + [LF] == cur.v + s[i..i + 2];
    } else {
      assert s[i..i + 1] == [s[i]];
    }
  }

  lemma KeptMore(v: seq<Unit>, s: seq<Unit>, i: nat, layout: Layout)
    requires i < |s|
    ensures !IsBreakChar(s[i]) ==> v + [s[i]] + Kept(s, i + 1, layout) == v + Kept(s, i, layout)
    ensures var j := i + BreakLength(s, i);
            IsBreakChar(s[i]) ==> v + s[i..j] + Kept(s, Resume(s, j, layout), layout) == v + Kept(s, i, layout)
  {}

  /** Reading gives back what is kept of the string, and stops at the closing quotation mark. */
  lemma {:induction false} ReaderReads(f: Cursor -> Result, text: seq<Unit>, cur: Cursor, s: seq<Unit>, i: nat,
      pos: Places, layout: Layout, n: nat, config: Config, goal: Result)
    requires Reader(f, text, layout, n, config) && Laid(text, s, 0, pos, layout)
    requires Starts(s, i) && cur.p == pos[i] && goal == Match(Cursor(pos[|s|], cur.v + Kept(s, i, layout)))
    ensures f(cur) == goal
    decreases |s| - i, 1
  {
    if i == |s| {
      assert EndStep(f, text, cur);
      assert cur.v + Kept(s, i, layout) == cur.v;
    } else {
      assert ItemLaid(text, s, i, pos, layout);
      KeptMore(cur.v, s, i, layout);
      if IsBreakChar(s[i]) {
        ReaderReadsBreak(f, text, cur, s, i, pos, layout, n, config, goal);
      } else {
        if IsWhite(s[i]) {
          WhiteIsLaid(text, s, i, pos, layout);
          assert WhiteStep(f, text, cur);
        } else {
          assert CharStep(f, text, cur);
        }
        ReaderReads(f, text, Cursor(pos[i + 1], cur.v + [s[i]]), s, i + 1, pos, layout, n, config, goal);
      }
    }
  }

  lemma {:induction false} ReaderReadsBreak(f: Cursor -> Result, text: seq<Unit>, cur: Cursor, s: seq<Unit>, i: nat,
      pos: Places, layout: Layout, n: nat, config: Config, goal: Result)
    requires Reader(f, text, layout, n, config) && Laid(text, s, 0, pos, layout)
    requires Starts(s, i) && cur.p == pos[i] && BreakLaid(text, s, i, pos, layout)
    requires var j := i + BreakLength(s, i);
             goal == Match(Cursor(pos[|s|], cur.v + s[i..j] + Kept(s, Resume(s, j, layout), layout)))
    ensures f(cur) == goal
    decreases |s| - i, 0
  {
    var j := i + BreakLength(s, i);
    var next := Cursor(cur.p + 2 * (j - i), cur.v + s[i..j]);
    BreakIsRead(f, text, cur, s, i, pos, layout, n, config);
    if layout.NoBreak? || j == |s| {
      ReaderReads(f, text, next, s, j, pos, layout, n, config, goal);
    } else if s[j] == SPACE {
      ReaderReadsSpaceLine(f, text, next, s, j, pos, layout, n, config, goal);
    } else {
      ReaderReadsLine(f, text, next, s, j, pos, layout, n, config, goal);
    }
  }

  lemma EscapedSpaceIsRead(text: seq<Unit>, p: nat)
    requires Guarded(text) && p + 1 < |text| && text[p] == BACKSLASH && text[p + 1] == SPACE
    ensures NsDoubleChar(text, p) == Char(SPACE, 2)
  {}

  /** A new line of the text that starts with an escaped space. */
  lemma {:induction false} ReaderReadsSpaceLine(f: Cursor -> Result, text: seq<Unit>, cur: Cursor, s: seq<Unit>,
      j: nat, pos: Places, layout: Layout, n: nat, config: Config, goal: Result)
    requires Reader(f, text, layout, n, config) && Laid(text, s, 0, pos, layout)
    requires Starts(s, j) && j < |s| && s[j] == SPACE && FoldLaid(text, cur.p, layout, s[j], pos[j])
    requires goal == Match(Cursor(pos[|s|], cur.v + Kept(s, j, layout)))
    ensures f(cur) == goal
    decreases |s| - j, 2
  {
    var line := Cursor(pos[j] - 1, cur.v);
    assert ItemLaid(text, s, j, pos, layout);
    FoldIsRead(text, cur, layout, s[j], pos[j], n, config);
    assert FoldStep(f, text, cur, line, n, config);
    EscapedSpaceIsRead(text, line.p);
    assert CharStep(f, text, line);
    KeptMore(cur.v, s, j, layout);
    ReaderReads(f, text, Cursor(pos[j + 1], cur.v + [SPACE]), s, j + 1, pos, layout, n, config, goal);
  }

  /** A new line of the text that starts with anything else: white space at its start is dropped. */
  lemma {:induction false} ReaderReadsLine(f: Cursor -> Result, text: seq<Unit>, cur: Cursor, s: seq<Unit>, j: nat,
      pos: Places, layout: Layout, n: nat, config: Config, goal: Result)
    requires Reader(f, text, layout, n, config) && Laid(text, s, 0, pos, layout)
    requires Starts(s, j) && j < |s| && s[j] != SPACE && FoldLaid(text, cur.p, layout, s[j], pos[j])
    requires goal == Match(Cursor(pos[|s|], cur.v + Kept(s, WhiteEnd(s, j), layout)))
    ensures f(cur) == goal
    decreases |s| - j, 2
  {
    var e := WhiteEnd(s, j);
    var line := Cursor(pos[e], cur.v);
    WhiteIsLaid(text, s, j, pos, layout);
    FoldIsRead(text, cur, layout, s[j], pos[j], n, config);
    assert FoldStep(f, text, cur, line, n, config);
    if e < |s| {
      ReaderReads(f, text, line, s, e, pos, layout, n, config, goal);
    } else {
      assert cur.v + Kept(s, e, layout) == cur.v;
    }
  }

  /** Both ways of reading the characters of a scalar are such readers; one line is enough when nothing is folded. */
  ghost function ReadText(text: seq<Unit>, n: nat, c: Context, config: Config): Cursor -> Result {
    (cur: Cursor) => if Within(text, cur) then DoubleText(text, cur, n, c, config) else Fail
  }

  lemma IsReader(text: seq<Unit>, layout: Layout, n: nat, c: Context, config: Config)
    requires Guarded(text) && Fits(layout, n) && (c.FlowKey? ==> layout.NoBreak?)
    ensures Reader(ReadText(text, n, c, config), text, layout, n, config)
  {
    var f := ReadText(text, n, c, config);
    if c.FlowKey? {
      forall cur ensures CharStep(f, text, cur) {}
      forall cur ensures WhiteStep(f, text, cur) {}
      forall cur ensures EndStep(f, text, cur) {}
    } else {
      forall cur ensures CharStep(f, text, cur) {
        if Within(text, cur) && NsDoubleChar(text, cur.p).Char? { MultiLineChar(text, cur, n, config); }
      }
      forall cur ensures WhiteStep(f, text, cur) {
        if Within(text, cur) && IsWhite(text[cur.p]) && !IsBreakChar(text[WhiteEnd(text, cur.p)]) {
          MultiLineWhite(text, cur, n, config);
        }
      }
      forall cur ensures EndStep(f, text, cur) {
        if Within(text, cur) && text[cur.p] == QUOTE { MultiLineEnd(text, cur, n, config); }
      }
      forall cur, line ensures FoldStep(f, text, cur, line, n, config) {
        if Within(text, cur) && Within(text, line) && cur.p < line.p && text[cur.p] == BACKSLASH
           && NsDoubleChar(text, cur.p) == NotChar && DoubleEscaped(text, cur, n, config) == Some(line)
           && !IsWhite(text[line.p]) {
          MultiLineFold(text, cur, line, n, config);
        }
      }
    }
  }

  /** The text written for a string, with its quotation marks, is at a position. */
  ghost predicate Written(text: seq<Unit>, p: nat, s: seq<Unit>, layout: Layout) {
    Guarded(text) && At(text, p, [QUOTE] + Quoted(s, 0, layout) + [QUOTE])
  }

  /**
   * Parsing undoes writing up to the white space that folding drops, and stops just after the closing quotation mark.
   */
  lemma ParseQuoted(text: seq<Unit>, p: nat, s: seq<Unit>, layout: Layout, n: nat, c: Context, config: Config)
    requires Written(text, p, s, layout) && Fits(layout, n) && (c.FlowKey? ==> layout.NoBreak?)
    ensures p < |text|
    ensures DoubleQuoted(text, p, n, c, config) == Match(Cursor(p + 2 + |Quoted(s, 0, layout)|, Kept(s, 0, layout)))
  {
    var pos := WrittenIsLaid(text, p, s, layout);
    IsReader(text, layout, n, c, config);
    var start, goal := Cursor(p + 1, []), Match(Cursor(pos[|s|], Kept(s, 0, layout)));
    assert [] + Kept(s, 0, layout) == Kept(s, 0, layout);
    ReaderReads(ReadText(text, n, c, config), text, start, s, 0, pos, layout, n, config, goal);
    assert DoubleText(text, start, n, c, config) == goal;
  }

  lemma WrittenIsLaid(text: seq<Unit>, p: nat, s: seq<Unit>, layout: Layout) returns (pos: Places)
    requires Written(text, p, s, layout) && Fits(layout, 0)
    ensures p < |text| && text[p] == QUOTE
    ensures Laid(text, s, 0, pos, layout) && pos[0] == p + 1 < |text| && pos[|s|] == p + 1 + |Quoted(s, 0, layout)|
  {
    WrittenShows(text, p, s, layout);
    var end := p + 1 + |Quoted(s, 0, layout)|;
    pos := PlacesUpTo(end, s, layout);
    assert Placed(s, 0, pos, end, layout) && Placed(s, |s|, pos, end, layout);
    AllIsLaid(text, s, 0, pos, end, layout);
  }

  lemma WrittenShows(text: seq<Unit>, p: nat, s: seq<Unit>, layout: Layout)
    requires Written(text, p, s, layout)
    ensures p < |text| && text[p] == QUOTE && Shows(text, p + 1, s, 0, layout)
  {
    AtSplit(text, p, [QUOTE] + Quoted(s, 0, layout), [QUOTE]);
    AtSplit(text, p, [QUOTE], Quoted(s, 0, layout));
    FirstOf(text, p, [QUOTE], 0);
    FirstOf(text, p + 1 + |Quoted(s, 0, layout)|, [QUOTE], 0);
  }

  /** A line break directly followed by a tab. */
  ghost predicate TabAfterBreak(s: seq<Unit>, i: nat) {
    i + 1 < |s| && IsBreakChar(s[i]) && s[i + 1] == TAB
  }

  lemma {:induction false} KeptAll(s: seq<Unit>, i: nat, layout: Layout)
    requires i <= |s| && (layout.NoBreak? || forall k: nat :: !TabAfterBreak(s, k))
    ensures Kept(s, i, layout) == s[i..]
    decreases |s| - i
  {
    if i < |s| {
      var j := if IsBreakChar(s[i]) then i + BreakLength(s, i) else i + 1;
      assert !TabAfterBreak(s, j - 1) || layout.NoBreak?;
      KeptAll(s, j, layout);
      assert s[i..] == s[i..j] + s[j..];
      assert j == i + 1 ==> s[i..j] == [s[i]];
    }
  }

  lemma {:induction false} KeptBound(s: seq<Unit>, i: nat, layout: Layout)
    requires i <= |s|
    ensures |Kept(s, i, layout)| <= |s| - i
    decreases |s| - i
  {
    if i < |s| {
      KeptBound(s, if IsBreakChar(s[i]) then Resume(s, i + BreakLength(s, i), layout) else i + 1, layout);
    }
  }

  lemma {:induction false} KeptLess(s: seq<Unit>, i: nat, k: nat, layout: Layout)
    requires Starts(s, i) && i <= k && TabAfterBreak(s, k) && layout.Fold?
    ensures |Kept(s, i, layout)| < |s| - i
    decreases |s| - i
  {
    var j := if IsBreakChar(s[i]) then i + BreakLength(s, i) else i + 1;
    var next := if IsBreakChar(s[i]) then Resume(s, j, layout) else j;
    if k < j {
      assert s[j] == TAB;
      KeptBound(s, next, layout);
    } else {
      assert k >= next && Starts(s, next);
      KeptLess(s, next, k, layout);
    }
  }

  /**
   * The round trip holds exactly when no line break is directly followed by a tab, or nothing is folded: then the
   * string is read back whole; otherwise a shorter one is.
   */
  lemma RoundTrip(text: seq<Unit>, p: nat, s: seq<Unit>, layout: Layout, n: nat, c: Context, config: Config)
    requires Written(text, p, s, layout) && Fits(layout, n) && (c.FlowKey? ==> layout.NoBreak?)
    ensures p < |text|
    ensures DoubleQuoted(text, p, n, c, config) == Match(Cursor(p + 2 + |Quoted(s, 0, layout)|, s))
            <==> layout.NoBreak? || forall k: nat :: !TabAfterBreak(s, k)
  {
    ParseQuoted(text, p, s, layout, n, c, config);
    if layout.NoBreak? || forall k: nat :: !TabAfterBreak(s, k) {
      KeptAll(s, 0, layout);
      assert s[0..] == s;
    } else {
      var k: nat :| TabAfterBreak(s, k);
      KeptLess(s, 0, k, layout);
    }
  }

  /** A line break with something after it. */
  ghost predicate InnerBreak(s: seq<Unit>, i: nat) {
    Starts(s, i) && i < |s| && IsBreakChar(s[i]) && i + BreakLength(s, i) < |s|
  }

  lemma OneLineChar(text: seq<Unit>, cur: Cursor)
    requires Within(text, cur) && NbDoubleChar(text, cur.p).Char?
    ensures OneLine(text, cur) == OneLine(text, Added(cur, NbDoubleChar(text, cur.p)))
  {}

  /** Folded text cannot be a key on one line: it is read up to the first escaped line break only. */
  lemma {:induction false} OneLineStops(text: seq<Unit>, cur: Cursor, s: seq<Unit>, i: nat, k: nat, pos: Places,
      layout: Layout)
    requires Laid(text, s, 0, pos, layout) && layout.Fold? && Starts(s, i) && i <= k && InnerBreak(s, k)
    requires cur.p == pos[i] < |text|
    ensures var r := OneLine(text, cur); r.Match? && text[r.to.p] == BACKSLASH
    decreases |s| - i
  {
    assert ItemLaid(text, s, i, pos, layout);
    if IsBreakChar(s[i]) {
      OneLineStopsAtBreak(text, cur, s, i, pos, layout);
    } else {
      OneLineChar(text, cur);
      OneLineStops(text, Cursor(pos[i + 1], cur.v + [s[i]]), s, i + 1, k, pos, layout);
    }
  }

  lemma OneLineStopsAtBreak(text: seq<Unit>, cur: Cursor, s: seq<Unit>, i: nat, pos: Places, layout: Layout)
    requires BreakLaid(text, s, i, pos, layout) && layout.Fold? && InnerBreak(s, i) && cur.p == pos[i]
    ensures var r := OneLine(text, cur); r.Match? && text[r.to.p] == BACKSLASH
  {
    OneLineChar(text, cur);
    if BreakLength(s, i) == 2 {
      OneLineChar(text, Cursor(cur.p + 2, cur.v + [CR]));
      OneLineEnds(text, Cursor(cur.p + 4, cur.v + [CR] + [LF]));
    } else {
      OneLineEnds(text, Cursor(cur.p + 2, cur.v + [s[i]]));
    }
  }

  lemma OneLineEnds(text: seq<Unit>, cur: Cursor)
    requires Within(text, cur) && text[cur.p] == BACKSLASH && BreakLength(text, cur.p + 1) > 0
    ensures OneLine(text, cur) == Match(cur)
  {}

  lemma FoldedIsNoKey(text: seq<Unit>, p: nat, s: seq<Unit>, layout: Layout, n: nat, k: nat, config: Config)
    requires Written(text, p, s, layout) && layout.Fold? && Fits(layout, n) && InnerBreak(s, k)
    ensures p < |text| && DoubleQuoted(text, p, n, FlowKey, config) == Fail
  {
    var pos := WrittenIsLaid(text, p, s, layout);
    OneLineStops(text, Cursor(p + 1, []), s, 0, k, pos, layout);
  }

  /** Writing a string and parsing what was written, with the guard after it. */
  method WriteThenParse(s: seq<Unit>, layout: Layout, n: nat, c: Context, config: Config)
    returns (o: Outcome, value: seq<Unit>)
    requires Fits(layout, n) && (c.FlowKey? ==> layout.NoBreak?)
    ensures o == Yes && value == Kept(s, 0, layout)
    ensures value == s <==> layout.NoBreak? || forall k: nat :: !TabAfterBreak(s, k)
  {
    var writer := new Writer(s);
    var quoted := writer.Quote(layout);
    var parser := new YamlParser(quoted + [NUL], config);
    assert Written(parser.text, 0, s, layout) by {
      assert parser.text[0..|quoted|] == quoted;
    }
    ParseQuoted(parser.text, 0, s, layout, n, c, config);
    RoundTrip(parser.text, 0, s, layout, n, c, config);
    o := parser.CDoubleQuoted(n, c);
    value := parser.stringValue;
  }
}
