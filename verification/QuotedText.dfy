/** Where the characters of a string are in the text that is written for it. */
module QuotedText {
  import opened Wrappers
  import opened CodeUnits
  import opened DoubleQuote
  import opened DoubleQuotedRules

  /** Lines are broken with a line break and indented with at least `n` spaces. */
  ghost predicate Fits(layout: Layout, n: nat) {
    layout.Fold? ==> IsLineBreak(layout.nl) && n <= |layout.pres| && forall c | c in layout.pres :: c == SPACE
  }

  /** Not inside a line break of two characters. */
  predicate Starts(s: seq<Unit>, i: nat) {
    i <= |s| && !(0 < i < |s| && s[i - 1] == CR && s[i] == LF)
  }

  /** Position of every character of the string in the text, and of the closing quotation mark. */
  type Places = seq<nat>

  ghost predicate CharLaid(text: seq<Unit>, s: seq<Unit>, i: nat, pos: Places) {
    && i < |s| && |pos| == |s| + 1 && Guarded(text) && pos[i] < |text|
    && if IsWhite(s[i]) then text[pos[i]] == s[i] && pos[i + 1] == pos[i] + 1
       else pos[i] <= pos[i + 1] && NsDoubleChar(text, pos[i]) == Char(s[i], pos[i + 1] - pos[i])
  }

  /** A line break of the string: its escapes, and the line break and prefix of the next line. */
  ghost predicate BreakLaid(text: seq<Unit>, s: seq<Unit>, i: nat, pos: Places, layout: Layout) {
    && i < |s| && |pos| == |s| + 1 && Guarded(text) && IsBreakChar(s[i])
    && var k := BreakLength(s, i);
    && pos[i] + 2 * k < |text|
    && NsDoubleChar(text, pos[i]) == Char(s[i], 2)
    && (k == 2 ==> NsDoubleChar(text, pos[i] + 2) == Char(LF, 2))
    && if layout.NoBreak? || i + k == |s| then pos[i + k] == pos[i] + 2 * k
       else FoldLaid(text, pos[i] + 2 * k, layout, s[i + k], pos[i + k])
  }

  /** An escaped line break at `b`, and the next character at `next`. */
  ghost predicate FoldLaid(text: seq<Unit>, b: nat, layout: Layout, c: Unit, next: nat) {
    && layout.Fold? && b < |text| && text[b] == BACKSLASH && BreakLength(text, b + 1) == |layout.nl| > 0
    && var q := b + 1 + |layout.nl| + |layout.pres|;
    && q < |text| && (forall k | q - |layout.pres| <= k < q :: text[k] == SPACE)
    && if c == SPACE then text[q] == BACKSLASH && next == q + 1 < |text| && text[next] == SPACE else next == q
  }

  ghost predicate ItemLaid(text: seq<Unit>, s: seq<Unit>, i: nat, pos: Places, layout: Layout) {
    i < |s| && if IsBreakChar(s[i]) then BreakLaid(text, s, i, pos, layout) else CharLaid(text, s, i, pos)
  }

  /** All of the string from position `i` on is in the text. */
  ghost predicate Laid(text: seq<Unit>, s: seq<Unit>, i: nat, pos: Places, layout: Layout) {
    && Guarded(text) && |pos| == |s| + 1 && pos[|s|] < |text| && text[pos[|s|]] == QUOTE
    && forall j: nat | i <= j < |s| && Starts(s, j) :: ItemLaid(text, s, j, pos, layout)
  }

  /** The text at a position is what is written for the string from `i` on, and a closing quotation mark. */
  ghost predicate Shows(text: seq<Unit>, p: nat, s: seq<Unit>, i: nat, layout: Layout) {
    && i <= |s| && Guarded(text) && At(text, p, Quoted(s, i, layout))
    && p + |Quoted(s, i, layout)| < |text| && text[p + |Quoted(s, i, layout)|] == QUOTE
  }

  lemma ShowsNext(text: seq<Unit>, p: nat, s: seq<Unit>, i: nat, layout: Layout)
    requires Shows(text, p, s, i, layout) && i < |s|
    ensures var (written, j) := QuotedChar(s, i, layout);
            At(text, p, written) && Shows(text, p + |written|, s, j, layout)
            && |Quoted(s, i, layout)| == |written| + |Quoted(s, j, layout)|
  {
    var (written, j) := QuotedChar(s, i, layout);
    AtSplit(text, p, written, Quoted(s, j, layout));
  }

  lemma FirstOf(text: seq<Unit>, p: nat, t: seq<Unit>, k: nat)
    requires At(text, p, t) && k < |t|
    ensures text[p + k] == t[k]
  {
    assert text[p..p + |t|][k] == t[k];
  }

  /** Every escape is read back. */
  lemma EscapeIsRead(text: seq<Unit>, p: nat, c: Unit)
    requires Guarded(text) && At(text, p, Escape(c)) && !IsSafe(c)
    ensures p < |text| && NsDoubleChar(text, p) == Char(c, |Escape(c)|)
  {
    var e := Escape(c);
    FirstOf(text, p, e, 0);
    FirstOf(text, p, e, 1);
    if ShortEscape(c).None? {
      FirstOf(text, p, e, 2);
      FirstOf(text, p, e, 3);
      HexIsRead(text, p, c);
    }
  }

  lemma HexIsRead(text: seq<Unit>, p: nat, c: Unit)
    requires Guarded(text) && p + 3 < |text| && c < 0x100 && text[p] == BACKSLASH && text[p + 1] == 0x78
    requires text[p + 2] == HexDigit(c / 16) && text[p + 3] == HexDigit(c % 16)
    ensures NsDoubleChar(text, p) == Char(c, 4)
  {}

  /** A character is read where it is written. */
  lemma CharIsLaid(text: seq<Unit>, s: seq<Unit>, i: nat, pos: Places, layout: Layout)
    requires Guarded(text) && i < |s| && !IsBreakChar(s[i]) && |pos| == |s| + 1
    requires var w := QuotedChar(s, i, layout).0; At(text, pos[i], w) && pos[i + 1] == pos[i] + |w|
    ensures CharLaid(text, s, i, pos)
  {
    if IsSafe(s[i]) {
      FirstOf(text, pos[i], [s[i]], 0);
    } else {
      EscapeIsRead(text, pos[i], s[i]);
    }
  }

  /** The escapes of a line break are read one by one. */
  lemma EscapedBreakIsRead(text: seq<Unit>, p: nat, s: seq<Unit>, i: nat)
    requires Guarded(text) && i < |s| && IsBreakChar(s[i]) && At(text, p, EscapedBreak(s, i))
    requires p + |EscapedBreak(s, i)| < |text|
    ensures |EscapedBreak(s, i)| == 2 * BreakLength(s, i)
    ensures NsDoubleChar(text, p) == Char(s[i], 2)
    ensures BreakLength(s, i) == 2 ==> NsDoubleChar(text, p + 2) == Char(LF, 2)
  {
    var e := EscapedBreak(s, i);
    FirstOf(text, p, e, 0);
    FirstOf(text, p, e, 1);
    if BreakLength(s, i) == 2 {
      FirstOf(text, p, e, 2);
      FirstOf(text, p, e, 3);
    }
  }

  lemma BreakIsLaid(text: seq<Unit>, s: seq<Unit>, i: nat, j: nat, pos: Places, layout: Layout)
    requires Guarded(text) && i < |s| && IsBreakChar(s[i]) && |pos| == |s| + 1 && Fits(layout, 0)
    requires j == i + BreakLength(s, i) && At(text, pos[i], EscapedBreak(s, i))
    requires At(text, pos[i] + |EscapedBreak(s, i)|, Folding(s, j, layout))
    requires pos[j] == pos[i] + |EscapedBreak(s, i)| + |Folding(s, j, layout)| < |text|
    requires !IsBreakChar(text[pos[j]]) && (j < |s| && s[j] == SPACE ==> text[pos[j]] == SPACE)
    ensures BreakLaid(text, s, i, pos, layout)
  {
    EscapedBreakIsRead(text, pos[i], s, i);
    if layout.Fold? && j < |s| {
      FoldIsLaid(text, pos[i] + 2 * (j - i), s, j, pos[j], layout);
    }
  }

  lemma FoldIsLaid(text: seq<Unit>, b: nat, s: seq<Unit>, j: nat, next: nat, layout: Layout)
    requires Guarded(text) && j < |s| && layout.Fold? && Fits(layout, 0)
    requires At(text, b, Folding(s, j, layout)) && next == b + |Folding(s, j, layout)| < |text|
    requires !IsBreakChar(text[next]) && (s[j] == SPACE ==> text[next] == SPACE)
    ensures FoldLaid(text, b, layout, s[j], next)
  {
    var head, mark := [BACKSLASH] + layout.nl, if s[j] == SPACE then [BACKSLASH] else [];
    AtSplit(text, b, head, layout.pres + mark);
    PresIsLaid(text, b + |head|, layout.pres, mark, next);
    LineBreakIsLaid(text, b, layout.nl);
  }

  lemma PresIsLaid(text: seq<Unit>, q: nat, pres: seq<Unit>, mark: seq<Unit>, next: nat)
    requires At(text, q, pres + mark) && next == q + |pres| + |mark| < |text| && !IsBreakChar(text[next])
    requires (mark == [] || mark == [BACKSLASH]) && forall c | c in pres :: c == SPACE
    ensures !IsBreakChar(text[q]) && forall k | q <= k < q + |pres| :: text[k] == SPACE
    ensures mark == [BACKSLASH] ==> text[q + |pres|] == BACKSLASH
  {
    AtSplit(text, q, pres, mark);
    SpacesAreLaid(text, q, pres);
    if mark != [] {
      FirstOf(text, q + |pres|, mark, 0);
    }
  }

  lemma SpacesAreLaid(text: seq<Unit>, p: nat, t: seq<Unit>)
    requires At(text, p, t) && forall c | c in t :: c == SPACE
    ensures forall k | p <= k < p + |t| :: text[k] == SPACE
  {
    forall k | p <= k < p + |t| ensures text[k] == SPACE {
      FirstOf(text, p, t, k - p);
      assert t[k - p] in t;
    }
  }

  lemma LineBreakIsLaid(text: seq<Unit>, b: nat, nl: seq<Unit>)
    requires IsLineBreak(nl) && At(text, b, [BACKSLASH] + nl)
    requires b + 1 + |nl| < |text| && text[b + 1 + |nl|] != LF
    ensures text[b] == BACKSLASH && BreakLength(text, b + 1) == |nl|
  {
    var head := [BACKSLASH] + nl;
    FirstOf(text, b, head, 0);
    FirstOf(text, b, head, 1);
    if |nl| == 2 {
      FirstOf(text, b, head, 2);
    }
  }

  /** The first character of what is written: no line break, and a space only for a space. */
  lemma FirstIsLaid(text: seq<Unit>, p: nat, s: seq<Unit>, i: nat, layout: Layout)
    requires Shows(text, p, s, i, layout)
    ensures p < |text| && !IsBreakChar(text[p])
    ensures i < |s| && s[i] == SPACE ==> text[p] == SPACE
  {
    if i < |s| {
      var w := QuotedChar(s, i, layout).0;
      ShowsNext(text, p, s, i, layout);
      FirstOf(text, p, w, 0);
    }
  }

  /** The place of a character is as far from the end of the text as what is written from there on is long. */
  ghost predicate Placed(s: seq<Unit>, k: nat, pos: Places, end: nat, layout: Layout) {
    k <= |s| && |pos| == |s| + 1 && (|Quoted(s, k, layout)| <= end ==> pos[k] + |Quoted(s, k, layout)| == end)
  }

  function PlacesUpTo(end: nat, s: seq<Unit>, layout: Layout): (pos: Places)
    ensures forall k: nat | k <= |s| :: Placed(s, k, pos, end, layout)
  {
    seq(|s| + 1, i requires 0 <= i <= |s| => if |Quoted(s, i, layout)| <= end then end - |Quoted(s, i, layout)| else 0)
  }

  lemma QuotedBreak(s: seq<Unit>, i: nat, layout: Layout)
    requires i < |s| && IsBreakChar(s[i])
    ensures var j := i + BreakLength(s, i);
            QuotedChar(s, i, layout) == (EscapedBreak(s, i) + Folding(s, j, layout), j)
  {}

  lemma BreakItemIsLaid(text: seq<Unit>, s: seq<Unit>, i: nat, j: nat, pos: Places, layout: Layout)
    requires i < |s| && IsBreakChar(s[i]) && |pos| == |s| + 1 && Fits(layout, 0)
    requires j == QuotedChar(s, i, layout).1 && pos[j] == pos[i] + |QuotedChar(s, i, layout).0|
    requires At(text, pos[i], QuotedChar(s, i, layout).0) && Shows(text, pos[j], s, j, layout)
    ensures BreakLaid(text, s, i, pos, layout)
  {
    QuotedBreak(s, i, layout);
    AtSplit(text, pos[i], EscapedBreak(s, i), Folding(s, j, layout));
    FirstIsLaid(text, pos[j], s, j, layout);
    BreakIsLaid(text, s, i, j, pos, layout);
  }

  lemma LaidMore(text: seq<Unit>, s: seq<Unit>, i: nat, j: nat, pos: Places, layout: Layout)
    requires i < |s| && (j == i + 1 || (j == i + 2 && BreakLength(s, i) == 2))
    requires ItemLaid(text, s, i, pos, layout) && Laid(text, s, j, pos, layout)
    ensures Laid(text, s, i, pos, layout)
  {
    forall k: nat | i <= k < |s| && Starts(s, k) ensures ItemLaid(text, s, k, pos, layout) {
      assert k != i ==> j <= k;
    }
  }

  lemma ItemIsLaid(text: seq<Unit>, s: seq<Unit>, i: nat, j: nat, pos: Places, layout: Layout)
    requires i < |s| && |pos| == |s| + 1 && Fits(layout, 0) && Shows(text, pos[i], s, i, layout)
    requires j == QuotedChar(s, i, layout).1 && pos[j] == pos[i] + |QuotedChar(s, i, layout).0|
    ensures ItemLaid(text, s, i, pos, layout) && Shows(text, pos[j], s, j, layout)
  {
    ShowsNext(text, pos[i], s, i, layout);
    if IsBreakChar(s[i]) {
      BreakItemIsLaid(text, s, i, j, pos, layout);
    } else {
      CharIsLaid(text, s, i, pos, layout);
    }
  }

  lemma NextPlace(s: seq<Unit>, i: nat, j: nat, pos: Places, end: nat, layout: Layout)
    requires i < |s| && Placed(s, i, pos, end, layout) && Placed(s, j, pos, end, layout)
    requires j == QuotedChar(s, i, layout).1 && pos[i] + |Quoted(s, i, layout)| == end
    ensures pos[j] == pos[i] + |QuotedChar(s, i, layout).0| && pos[j] + |Quoted(s, j, layout)| == end
  {}

  lemma {:induction false} AllIsLaid(text: seq<Unit>, s: seq<Unit>, i: nat, pos: Places, end: nat, layout: Layout)
    requires i <= |s| && |pos| == |s| + 1 && Fits(layout, 0)
             && forall k: nat | k <= |s| :: Placed(s, k, pos, end, layout)
    requires pos[i] + |Quoted(s, i, layout)| == end && Shows(text, pos[i], s, i, layout)
    ensures Laid(text, s, i, pos, layout)
    decreases |s| - i
  {
    if i < |s| {
      var j := QuotedChar(s, i, layout).1;
      NextPlace(s, i, j, pos, end, layout);
      ItemIsLaid(text, s, i, j, pos, layout);
      AllIsLaid(text, s, j, pos, end, layout);
      LaidMore(text, s, i, j, pos, layout);
    }
  }
}
