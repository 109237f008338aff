/** The parser's rules for double-quoted scalars, and the methods that carry them out. */
module DoubleQuotedRules {
  import opened Wrappers
  import opened CodeUnits

  /** Where the parser is and the text it has collected. */
  datatype Cursor = Cursor(p: nat, v: seq<Unit>)

  /** A rule that fails leaves the cursor where it was; an error ends the parse. */
  datatype Result = Match(to: Cursor) | Fail | Error

  datatype Context = FlowOut | FlowIn | FlowKey

  /** How a line break of the text is read: normalized to a given one, or as it is. */
  datatype Config = Config(lineBreakForInput: Option<seq<Unit>>)

  /** The text ends with a NUL as a guard. */
  predicate Guarded(text: seq<Unit>) {
    |text| > 0 && text[|text| - 1] == NUL
  }

  predicate NbJson(c: Unit) { c == TAB || 0x20 <= c }

  predicate IsHexDigit(c: Unit) { 0x30 <= c <= 0x39 || 0x41 <= c <= 0x46 || 0x61 <= c <= 0x66 }

  function HexNibble(c: Unit): int {
    if c <= 0x39 then c - 0x30 else if c < 0x5A then c - 0x41 + 10 else c - 0x61 + 10
  }

  /** Value of the two hexadecimal digits at a position. */
  function HexValue(text: seq<Unit>, p: nat): (v: Option<int>)
    ensures v.Some? ==> 0 <= v.value < 0x100 && p + 1 < |text| && text[p] != NUL && text[p + 1] != NUL
  {
    if |text| <= p + 1 || !IsHexDigit(text[p]) || !IsHexDigit(text[p + 1]) then None
    else Some(HexNibble(text[p]) * 16 + HexNibble(text[p + 1]))
  }

  /** The character a short escape stands for. */
  function Unescaped(letter: Unit): Option<Unit> {
    if letter == 0x30 then Some(0x00) else if letter == 0x61 then Some(0x07) else if letter == 0x62 then Some(0x08)
    else if letter == 0x74 || letter == TAB then Some(TAB) else if letter == 0x6E then Some(LF)
    else if letter == 0x76 then Some(0x0B) else if letter == 0x66 then Some(0x0C) else if letter == 0x72 then Some(CR)
    else if letter == 0x65 then Some(0x1B) else if letter == SPACE then Some(SPACE)
    else if letter == QUOTE then Some(QUOTE) else if letter == SLASH then Some(SLASH)
    else if letter == BACKSLASH then Some(BACKSLASH) else if letter == 0x4E then Some(0x85)
    else if letter == 0x5F then Some(0xA0) else if letter == 0x4C then Some(0x2028)
    else if letter == 0x50 then Some(0x2029)
    else None
  }

  /** A character and the length of the text it is read from. */
  datatype Char = Char(c: Unit, length: nat) | NotChar | BadEscape

  function Hex(v: Option<int>, length: nat): Char {
    if v.Some? then Char(v.value % 0x1_0000, length) else BadEscape
  }

  function Join(a: Option<int>, b: Option<int>): Option<int> {
    if a.Some? && b.Some? then Some(a.value * 256 + b.value) else None
  }

  /** An escape sequence; an escaped line break is none. */
  function NsEscChar(text: seq<Unit>, p: nat): (r: Char)
    requires Guarded(text) && p < |text|
    ensures r.Char? ==> r.length > 0 && p + r.length < |text|
  {
    if text[p] != BACKSLASH then NotChar
    else
      var letter := text[p + 1];
      if Unescaped(letter).Some? then Char(Unescaped(letter).value, 2)
      else if letter == 0x78 then Hex(HexValue(text, p + 2), 4)
      else if letter == 0x75 then Hex(Join(HexValue(text, p + 2), HexValue(text, p + 4)), 6)
      else if letter == 0x55 then
        Hex(Join(Join(Join(HexValue(text, p + 2), HexValue(text, p + 4)), HexValue(text, p + 6)),
            HexValue(text, p + 8)), 10)
      else if IsBreakChar(letter) then NotChar
      else BadEscape
  }

  function NbDoubleChar(text: seq<Unit>, p: nat): (r: Char)
    requires Guarded(text) && p < |text|
    ensures r.Char? ==> r.length > 0 && p + r.length < |text|
  {
    if text[p] != BACKSLASH && text[p] != QUOTE && NbJson(text[p]) then Char(text[p], 1) else NsEscChar(text, p)
  }

  function NsDoubleChar(text: seq<Unit>, p: nat): (r: Char)
    requires Guarded(text) && p < |text|
    ensures r.Char? ==> r.length > 0 && p + r.length < |text|
  {
    if IsWhite(text[p]) then NotChar else NbDoubleChar(text, p)
  }

  ghost predicate Within(text: seq<Unit>, cur: Cursor) {
    Guarded(text) && cur.p < |text|
  }

  /** A result never goes back, and ends inside the text. */
  ghost predicate Forward(text: seq<Unit>, cur: Cursor, r: Result) {
    r.Match? ==> cur.p <= r.to.p < |text|
  }

  function Added(cur: Cursor, c: Char): Cursor
    requires c.Char?
  {
    Cursor(cur.p + c.length, cur.v + [c.c])
  }

  function Whites(text: seq<Unit>, cur: Cursor): Cursor
    requires cur.p <= |text|
  {
    var e := WhiteEnd(text, cur.p);
    Cursor(e, cur.v + text[cur.p..e])
  }

  /** Any number of characters that are not white. */
  ghost function NsChars(text: seq<Unit>, cur: Cursor): (r: Result)
    requires Within(text, cur)
    ensures Forward(text, cur, r) && !r.Fail?
    decreases |text| - cur.p
  {
    match NsDoubleChar(text, cur.p)
    case NotChar => Match(cur)
    case BadEscape => Error
    case Char(_, _) => NsChars(text, Added(cur, NsDoubleChar(text, cur.p)))
  }

  /** Words of a line, each with the white space before it; white space at the end is left. */
  ghost function InLine(text: seq<Unit>, cur: Cursor): (r: Result)
    requires Within(text, cur)
    ensures Forward(text, cur, r) && !r.Fail?
    decreases |text| - cur.p
  {
    var w := Whites(text, cur);
    match NsDoubleChar(text, w.p)
    case NotChar => Match(cur)
    case BadEscape => Error
    case Char(_, _) =>
      var r := NsChars(text, Added(w, NsDoubleChar(text, w.p)));
      if r.Match? then InLine(text, r.to) else Error
  }

  /** The next `n` characters are spaces. */
  predicate Indented(text: seq<Unit>, p: nat, n: nat) {
    p + n <= |text| && forall i | p <= i < p + n :: text[i] == SPACE
  }

  /** Indentation and the white space after it. */
  function FlowLinePrefix(text: seq<Unit>, p: nat, n: nat): (e: Option<nat>)
    requires Guarded(text) && p < |text|
    ensures e.Some? ==> p <= e.value < |text|
  {
    if Indented(text, p, n) then Some(WhiteEnd(text, p + n)) else None
  }

  function SpaceEnd(text: seq<Unit>, p: nat): (e: nat)
    requires p <= |text|
    ensures p <= e <= |text| && Indented(text, p, e - p)
    ensures e < |text| ==> text[e] != SPACE
    decreases |text| - p
  {
    if p < |text| && text[p] == SPACE then SpaceEnd(text, p + 1) else p
  }

  /** A line break read as a line feed. */
  function AsLineFeed(text: seq<Unit>, cur: Cursor, config: Config): (r: Option<Cursor>)
    requires Guarded(text) && cur.p < |text|
    ensures r.Some? ==> cur.p < r.value.p < |text|
  {
    var k := BreakLength(text, cur.p);
    if k == 0 then None
    else
      Some(Cursor(cur.p + k, cur.v + (if config.lineBreakForInput.Some? then config.lineBreakForInput.value
                                      else text[cur.p..cur.p + k])))
  }

  /** An empty line. */
  function Empty(text: seq<Unit>, cur: Cursor, n: nat, config: Config): (r: Option<Cursor>)
    requires Guarded(text) && cur.p < |text|
    ensures r.Some? ==> cur.p < r.value.p < |text|
  {
    var prefix := FlowLinePrefix(text, cur.p, n);
    if prefix.Some? then AsLineFeed(text, Cursor(prefix.value, cur.v), config)
    else if SpaceEnd(text, cur.p) - cur.p < n then AsLineFeed(text, Cursor(SpaceEnd(text, cur.p), cur.v), config)
    else None
  }

  ghost function Empties(text: seq<Unit>, cur: Cursor, n: nat, config: Config): (r: Cursor)
    requires Within(text, cur)
    ensures cur.p <= r.p < |text|
    decreases |text| - cur.p
  {
    var r := Empty(text, cur, n, config);
    if r.Some? then Empties(text, r.value, n, config) else cur
  }

  predicate StartOfLine(text: seq<Unit>, p: nat)
    requires p <= |text|
  {
    p == 0 || text[p - 1] == LF || text[p - 1] == CR || text[p - 1] == BOM
  }

  /** A document marker at the start of a line. */
  predicate Forbidden(text: seq<Unit>, p: nat)
    requires Guarded(text) && p <= |text|
  {
    && StartOfLine(text, p) && p + 3 <= |text|
    && (text[p..p + 3] == [DASH, DASH, DASH] || text[p..p + 3] == [DOT, DOT, DOT])
    && (|text| - p == 4 || (p + 3 < |text| && (IsWhite(text[p + 3]) || IsBreakChar(text[p + 3]))))
  }

  /** A line break and at least one empty line. */
  ghost function Trimmed(text: seq<Unit>, cur: Cursor, n: nat, config: Config): (r: Option<Cursor>)
    requires Within(text, cur)
    ensures r.Some? ==> cur.p < r.value.p < |text|
  {
    var line := Cursor(cur.p + BreakLength(text, cur.p), cur.v);
    if line.p > cur.p && Empty(text, line, n, config).Some? then Some(Empties(text, line, n, config)) else None
  }

  /** A line break and empty lines, which stay, or a line break alone, read as a space. */
  ghost function Folded(text: seq<Unit>, cur: Cursor, n: nat, config: Config): (r: Option<Cursor>)
    requires Within(text, cur)
    ensures r.Some? ==> cur.p < r.value.p < |text|
  {
    var lines, k := Trimmed(text, cur, n, config), BreakLength(text, cur.p);
    if lines.Some? then lines
    else if k > 0 then Some(Cursor(cur.p + k, cur.v + [SPACE]))
    else None
  }

  /** A line break that is folded, with the white space around it. */
  ghost function FlowFolded(text: seq<Unit>, cur: Cursor, n: nat, config: Config): (r: Option<Cursor>)
    requires Within(text, cur)
    ensures r.Some? ==> cur.p < r.value.p < |text|
  {
    var f := Folded(text, Cursor(WhiteEnd(text, cur.p), cur.v), n, config);
    if f.None? || Forbidden(text, f.value.p) then None
    else
      var prefix := FlowLinePrefix(text, f.value.p, n);
      if prefix.None? then None else Some(Cursor(prefix.value, f.value.v))
  }

  /** An escaped line break, with the empty lines and the indentation after it. */
  ghost function LineEscaped(text: seq<Unit>, w: Cursor, n: nat, config: Config): (r: Option<Cursor>)
    requires Within(text, w)
    ensures r.Some? ==> w.p < r.value.p < |text|
  {
    if text[w.p] != BACKSLASH || BreakLength(text, w.p + 1) == 0 then None
    else
      var lines := Empties(text, Cursor(w.p + 1 + BreakLength(text, w.p + 1), w.v), n, config);
      var prefix := FlowLinePrefix(text, lines.p, n);
      if prefix.None? then None else Some(Cursor(prefix.value, lines.v))
  }

  ghost function DoubleEscaped(text: seq<Unit>, cur: Cursor, n: nat, config: Config): (r: Option<Cursor>)
    requires Within(text, cur)
    ensures r.Some? ==> cur.p < r.value.p < |text|
  {
    LineEscaped(text, Whites(text, cur), n, config)
  }

  ghost function DoubleBreak(text: seq<Unit>, cur: Cursor, n: nat, config: Config): (r: Option<Cursor>)
    requires Within(text, cur)
    ensures r.Some? ==> cur.p < r.value.p < |text|
  {
    var r := DoubleEscaped(text, cur, n, config);
    if r.Some? then r else FlowFolded(text, cur, n, config)
  }

  /** A line break, and the lines after it unless white space is all that is left. */
  ghost function NextLine(text: seq<Unit>, cur: Cursor, n: nat, config: Config): (r: Result)
    requires Within(text, cur)
    ensures Forward(text, cur, r)
    decreases |text| - cur.p, 0
  {
    match DoubleBreak(text, cur, n, config)
    case None => Fail
    case Some(line) =>
      match NsDoubleChar(text, line.p)
      case NotChar => Match(line)
      case BadEscape => Error
      case Char(_, _) => MultiLine(text, Added(line, NsDoubleChar(text, line.p)), n, config)
  }

  ghost function MultiLine(text: seq<Unit>, cur: Cursor, n: nat, config: Config): (r: Result)
    requires Within(text, cur)
    ensures Forward(text, cur, r) && !r.Fail?
    decreases |text| - cur.p, 1
  {
    var line := InLine(text, cur);
    if line.Error? then Error
    else
      var next := NextLine(text, line.to, n, config);
      if next.Fail? then Match(Whites(text, line.to)) else next
  }

  /** Any number of characters on one line. */
  ghost function OneLine(text: seq<Unit>, cur: Cursor): (r: Result)
    requires Within(text, cur)
    ensures Forward(text, cur, r) && !r.Fail?
    decreases |text| - cur.p
  {
    match NbDoubleChar(text, cur.p)
    case NotChar => Match(cur)
    case BadEscape => Error
    case Char(_, _) => OneLine(text, Added(cur, NbDoubleChar(text, cur.p)))
  }

  ghost function DoubleText(text: seq<Unit>, cur: Cursor, n: nat, c: Context, config: Config): (r: Result)
    requires Within(text, cur)
    ensures Forward(text, cur, r) && !r.Fail?
  {
    if c.FlowKey? then OneLine(text, cur) else MultiLine(text, cur, n, config)
  }

  /** A double-quoted scalar; where a node must follow, a missing quotation mark is an error. */
  ghost function DoubleQuoted(text: seq<Unit>, p: nat, n: nat, c: Context, config: Config): Result
    requires Guarded(text) && p < |text|
  {
    if text[p] != QUOTE then Fail
    else
      var r := DoubleText(text, Cursor(p + 1, []), n, c, config);
      if r.Error? then Error
      else if text[r.to.p] == QUOTE then Match(Cursor(r.to.p + 1, r.to.v))
      else if c.FlowOut? then Error
      else Fail
  }

  /** The letters after a backslash and what they stand for, as section 5.7 of YAML 1.2 lists them. */
  const ESCAPES: seq<(char, int)> := [
    ('0', 0x00), ('a', 0x07), ('b', 0x08), ('t', 0x09), ('\t', 0x09), ('n', 0x0A), ('v', 0x0B), ('f', 0x0C),
    ('r', 0x0D), ('e', 0x1B), (' ', 0x20), ('"', 0x22), ('/', 0x2F), ('\\', 0x5C), ('N', 0x85), ('_', 0xA0),
    ('L', 0x2028), ('P', 0x2029)]

  /** Every letter of the list is read as its character, and no other letter is a short escape. */
  lemma ShortEscapesAreRead(text: seq<Unit>, p: nat, k: nat)
    requires Guarded(text) && p + 2 < |text| && text[p] == BACKSLASH
    requires k < |ESCAPES| && text[p + 1] == ESCAPES[k].0 as int
    ensures NsEscChar(text, p) == Char(ESCAPES[k].1, 2)
  {}

  lemma OtherLettersAreNone(text: seq<Unit>, p: nat)
    requires Guarded(text) && p + 2 < |text| && text[p] == BACKSLASH
    requires forall k | 0 <= k < |ESCAPES| :: text[p + 1] != ESCAPES[k].0 as int
    requires text[p + 1] != 'x' as int && text[p + 1] != 'u' as int && text[p + 1] != 'U' as int
    ensures NsEscChar(text, p) == if text[p + 1] == LF || text[p + 1] == CR then NotChar else BadEscape
  {
    assert ESCAPES[0].0 == '0' && ESCAPES[1].0 == 'a' && ESCAPES[2].0 == 'b' && ESCAPES[3].0 == 't';
    assert ESCAPES[4].0 == '\t' && ESCAPES[5].0 == 'n' && ESCAPES[6].0 == 'v' && ESCAPES[7].0 == 'f';
    assert ESCAPES[8].0 == 'r' && ESCAPES[9].0 == 'e' && ESCAPES[10].0 == ' ' && ESCAPES[11].0 == '"';
    assert ESCAPES[12].0 == '/' && ESCAPES[13].0 == '\\' && ESCAPES[14].0 == 'N' && ESCAPES[15].0 == '_';
    assert ESCAPES[16].0 == 'L' && ESCAPES[17].0 == 'P';
  }

  /** An upper-case or lower-case hexadecimal digit. */
  predicate IsDigit(c: Unit, d: int) {
    (0 <= d < 10 && c == 0x30 + d) || (10 <= d < 16 && (c == 0x41 + d - 10 || c == 0x61 + d - 10))
  }

  /** The digits stand at a position. */
  predicate DigitsAt(text: seq<Unit>, p: nat, digits: seq<int>) {
    p + |digits| < |text| && forall k | 0 <= k < |digits| :: IsDigit(text[p + k], digits[k])
  }

  function NumberOf(digits: seq<int>): int {
    if digits == [] then 0 else NumberOf(digits[..|digits| - 1]) * 16 + digits[|digits| - 1]
  }

  lemma TwoDigitsAreRead(text: seq<Unit>, p: nat, a: int, b: int)
    requires p + 1 < |text| && IsDigit(text[p], a) && IsDigit(text[p + 1], b)
    ensures HexValue(text, p) == Some(a * 16 + b)
  {}

  /** Two, four or eight digits after x, u or U are read as their number; of eight digits the last four count. */
  lemma HexEscapesAreRead(text: seq<Unit>, p: nat, digits: seq<int>)
    requires Guarded(text) && p + 2 < |text| && text[p] == BACKSLASH && DigitsAt(text, p + 2, digits)
    requires match |digits|
             case 2 => text[p + 1] == 'x' as int
             case 4 => text[p + 1] == 'u' as int
             case 8 => text[p + 1] == 'U' as int
             case _ => false
    ensures NsEscChar(text, p) == Char(NumberOf(digits) % 0x1_0000, 2 + |digits|)
  {
    NumberOfPairs(digits);
    PairIsRead(text, p + 2, digits, 0);
    if |digits| == 4 {
      PairIsRead(text, p + 2, digits, 2);
    } else if |digits| == 8 {
      EightAreRead(text, p, digits);
    }
  }

  lemma EightAreRead(text: seq<Unit>, p: nat, digits: seq<int>)
    requires Guarded(text) && p + 2 < |text| && text[p] == BACKSLASH && text[p + 1] == 'U' as int
    requires |digits| == 8 && DigitsAt(text, p + 2, digits)
    ensures NsEscChar(text, p) == Char(NumberOf(digits) % 0x1_0000, 10)
  {
    PairIsRead(text, p + 2, digits, 0);
    PairIsRead(text, p + 2, digits, 2);
    PairIsRead(text, p + 2, digits, 4);
    PairIsRead(text, p + 2, digits, 6);
    NumberOfPairs(digits);
  }

  lemma PairIsRead(text: seq<Unit>, p: nat, digits: seq<int>, k: nat)
    requires DigitsAt(text, p, digits) && k + 1 < |digits|
    ensures HexValue(text, p + k) == Some(digits[k] * 16 + digits[k + 1])
  {
    assert IsDigit(text[p + k], digits[k]) && IsDigit(text[p + (k + 1)], digits[k + 1]);
    TwoDigitsAreRead(text, p + k, digits[k], digits[k + 1]);
  }

  lemma {:induction false} NumberOfMore(digits: seq<int>, k: nat)
    requires k + 2 <= |digits|
    ensures NumberOf(digits[..k + 2]) == NumberOf(digits[..k]) * 256 + (digits[k] * 16 + digits[k + 1])
  {
    assert digits[..k + 2][..k + 1] == digits[..k + 1] && digits[..k + 1][..k] == digits[..k];
  }

  lemma NumberOfPairs(digits: seq<int>)
    requires |digits| == 2 || |digits| == 4 || |digits| == 8
    ensures |digits| == 2 ==> NumberOf(digits) == digits[0] * 16 + digits[1]
    ensures |digits| == 4 ==>
      NumberOf(digits) == (digits[0] * 16 + digits[1]) * 256 + (digits[2] * 16 + digits[3])
    ensures |digits| == 8 ==>
      NumberOf(digits) == (((digits[0] * 16 + digits[1]) * 256 + (digits[2] * 16 + digits[3])) * 256
                           + (digits[4] * 16 + digits[5])) * 256 + (digits[6] * 16 + digits[7])
  {
    assert digits[..|digits|] == digits && digits[..0] == [];
    NumberOfMore(digits, 0);
    if |digits| > 2 { NumberOfMore(digits, 2); }
    if |digits| > 4 { NumberOfMore(digits, 4); NumberOfMore(digits, 6); }
  }
}
