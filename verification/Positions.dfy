/** Line and column of a place in a text: as the parser looks it up, and as the presenter counts it while writing. */
module Positions {
  import opened Wrappers
  import opened CodeUnits

  datatype Position = Position(raw: nat, column: nat)

  /** A line starts at `q`. A CR and the LF after it are one break, unless that LF is the last character of the text. */
  predicate LineStart(text: seq<Unit>, q: nat) {
    q == 0 || (q <= |text| && (text[q - 1] == LF || (text[q - 1] == CR && !(q < |text| - 1 && text[q] == LF))))
  }

  /** The position of a place, counted character by character. */
  function PositionOf(text: seq<Unit>, p: nat): Position
    requires p <= |text|
  {
    if p == 0 then Position(1, 1)
    else
      var before := PositionOf(text, p - 1);
      if LineStart(text, p) then Position(before.raw + 1, 1) else Position(before.raw, before.column + 1)
  }

  predicate Before(a: Position, b: Position) {
    a.raw < b.raw || (a.raw == b.raw && a.column < b.column)
  }

  /** Positions grow with the place. */
  lemma {:induction false} PositionGrows(text: seq<Unit>, p: nat, q: nat)
    requires p < q <= |text|
    ensures Before(PositionOf(text, p), PositionOf(text, q))
  {
    if p + 1 < q {
      PositionGrows(text, p, q - 1);
    }
  }

  /** The starts of the lines up to `end`, in order. */
  ghost predicate Table(lines: seq<nat>, text: seq<Unit>, end: nat) {
    && |lines| > 0 && lines[0] == 0
    && (forall i, j | 0 <= i < j < |lines| :: lines[i] < lines[j])
    && (forall i | 0 <= i < |lines| :: lines[i] <= end <= |text| && LineStart(text, lines[i]))
    && (forall q: nat | q <= end && LineStart(text, q) :: q in lines)
  }

  /** The position of a place in the k-th line of the table. */
  lemma {:induction false} PositionInLine(lines: seq<nat>, text: seq<Unit>, p: nat, k: nat)
    requires Table(lines, text, |text|) && p <= |text|
    requires 0 < k <= |lines| && lines[k - 1] <= p && (k < |lines| ==> p < lines[k])
    ensures PositionOf(text, p) == Position(k, p - lines[k - 1] + 1)
    decreases p
  {
    if p > 0 {
      if p == lines[k - 1] {
        PositionInLine(lines, text, p - 1, k - 1);
      } else {
        assert !LineStart(text, p);
        PositionInLine(lines, text, p - 1, k);
      }
    }
  }

  /** The table up to a later place, if no line starts in between. */
  lemma TableGrows(lines: seq<nat>, text: seq<Unit>, end: nat, next: nat)
    requires Table(lines, text, end) && end < next <= |text|
    requires forall q: nat | end < q < next :: !LineStart(text, q)
    ensures Table(if LineStart(text, next) then lines + [next] else lines, text, next)
  {
    var more := if LineStart(text, next) then lines + [next] else lines;
    forall q: nat | q <= next && LineStart(text, q) ensures q in more {
      if q == next {
        assert more[|lines|] == q;
      } else {
        assert q in lines;
      }
    }
  }

  /** Between the characters of a line break. */
  predicate InsideBreak(text: seq<Unit>, p: nat) {
    0 < p < |text| - 1 && text[p - 1] == CR && text[p] == LF
  }

  /** The place after a character or a line break. */
  function NextPlace(text: seq<Unit>, p: nat): nat
    requires p < |text|
  {
    if InsideBreak(text, p + 1) then p + 2 else p + 1
  }

  lemma NextIsRight(text: seq<Unit>, p: nat)
    requires p < |text| && !InsideBreak(text, p)
    ensures var next := NextPlace(text, p);
            && p < next <= |text| && !InsideBreak(text, next) && (LineStart(text, next) <==> IsBreakChar(text[p]))
            && forall q: nat | p < q < next :: !LineStart(text, q)
  {}

  class Parser {
    const text: seq<Unit>
    var Lines: seq<nat>

    constructor (text: seq<Unit>)
      ensures this.text == text && Table(Lines, text, |text|)
    {
      this.text := text;
      new;
      InitializeLines();
    }

    method InitializeLines()
      modifies this
      ensures Table(Lines, text, |text|)
    {
      Lines := [0];
      var p := 0;
      while p < |text|
        invariant p <= |text| && Table(Lines, text, p) && !InsideBreak(text, p)
      {
        ghost var next := NextPlace(text, p);
        NextIsRight(text, p);
        TableGrows(Lines, text, p, next);
        p := AddLine(p);
      }
    }

    /** Adds the line that starts after the character or line break at a place, if one does. */
    method AddLine(p: nat) returns (next: nat)
      requires p < |text|
      modifies this
      ensures next == NextPlace(text, p)
      ensures Lines == if IsBreakChar(text[p]) then old(Lines) + [next] else old(Lines)
    {
      next := p;
      if text[p] == CR {
        if p + 1 < |text| - 1 && text[p + 1] == LF {
          next := p + 1;
        }
        Lines := Lines + [next + 1];
      } else if text[p] == LF {
        Lines := Lines + [next + 1];
      }
      next := next + 1;
    }

    /** Binary search: where the place is in the table, or where it would be inserted. */
    method BinarySearch(p: nat) returns (found: bool, index: nat)
      requires Table(Lines, text, |text|)
      ensures found ==> index < |Lines| && Lines[index] == p
      ensures !found ==> 0 < index <= |Lines| && Lines[index - 1] < p && (index < |Lines| ==> p < Lines[index])
    {
      var lo, hi := 0, |Lines|;
      while lo < hi
        invariant lo <= hi <= |Lines|
        invariant lo > 0 ==> Lines[lo - 1] < p
        invariant hi < |Lines| ==> p < Lines[hi]
      {
        var mid := (lo + hi) / 2;
        if Lines[mid] == p {
          return true, mid;
        } else if Lines[mid] < p {
          lo := mid + 1;
        } else {
          hi := mid;
        }
      }
      return false, lo;
    }

    method CurrentPosition(p: nat) returns (pos: Position)
      requires Table(Lines, text, |text|) && p <= |text|
      ensures pos == PositionOf(text, p)
    {
      var found, index := BinarySearch(p);
      if found {
        PositionInLine(Lines, text, p, index + 1);
        return Position(index + 1, 1);
      }
      PositionInLine(Lines, text, p, index);
      return Position(index, p - Lines[index - 1] + 1);
    }
  }

  /** The position at the end of a text, when more follows. */
  function EndPosition(text: seq<Unit>): Position {
    PositionOf(text + [NUL], |text|)
  }

  predicate SplitsBreak(text: seq<Unit>, more: seq<Unit>) {
    text != [] && text[|text| - 1] == CR && more != [] && more[0] == LF
  }

  /** The position of a place depends on the text before it, and on whether an LF stands there. */
  lemma {:induction false} SamePosition(a: seq<Unit>, b: seq<Unit>, p: nat)
    requires p < |a| && p < |b| && a[..p] == b[..p]
    requires p < |a| - 1 && a[p] == LF <==> p < |b| - 1 && b[p] == LF
    ensures PositionOf(a, p) == PositionOf(b, p)
  {
    if p > 0 {
      assert a[..p][p - 1] == b[..p][p - 1];
      assert a[..p - 1] == a[..p][..p - 1] == b[..p - 1];
      SamePosition(a, b, p - 1);
    }
  }

  /** It is the position there whatever follows, if no line break is split. */
  lemma EndPositionStays(text: seq<Unit>, more: seq<Unit>, p: nat)
    requires p <= |text| && more != [] && !SplitsBreak(text, more)
    ensures PositionOf(text + more, p) == PositionOf(text + [NUL], p)
  {
    var a, b := text + more, text + [NUL];
    assert a[..p] == text[..p] == b[..p];
    assert p < |text| ==> a[p] == b[p] == text[p];
    if p == |text| && more[0] == LF {
      EndPositionBeforeLF(text, more);
    } else {
      SamePosition(a, b, p);
    }
  }

  /** An LF after anything but a CR is a line break of its own. */
  lemma EndPositionBeforeLF(text: seq<Unit>, more: seq<Unit>)
    requires more != [] && more[0] == LF && (text == [] || text[|text| - 1] != CR)
    ensures PositionOf(text + more, |text|) == PositionOf(text + [NUL], |text|)
  {
    var a, b, last := text + more, text + [NUL], |text| - 1;
    if text != [] {
      assert a[..last] == text[..last] == b[..last];
      assert a[last] == b[last] == text[last];
      SamePosition(a, b, last);
    }
  }

  /** Between a CR and the LF after it the line has not ended yet. */
  lemma InsideSplit(text: seq<Unit>, more: seq<Unit>)
    requires SplitsBreak(text, more) && |more| > 1
    ensures PositionOf(text + more, |text|).raw + 1 == EndPosition(text).raw && EndPosition(text).column == 1
  {
    var a, b, last := text + more, text + [NUL], |text| - 1;
    assert a[..last] == text[..last] == b[..last];
    assert a[last] == b[last] == CR && a[|text|] == LF;
    SamePosition(a, b, last);
  }

  /** Text without line breaks moves the column on. */
  lemma {:induction false} PlainMovesColumn(text: seq<Unit>, plain: seq<Unit>)
    requires forall c | c in plain :: !IsBreakChar(c)
    ensures EndPosition(text + plain) == EndPosition(text).(column := EndPosition(text).column + |plain|)
    decreases |plain|
  {
    if plain == [] {
      assert text + plain == text;
    } else {
      var last := |plain| - 1;
      var shorter := text + plain[..last];
      PlainMovesColumn(text, plain[..last]);
      assert plain[last] in plain;
      assert text + plain == shorter + [plain[last]];
      OneMore(shorter, plain[last]);
    }
  }

  lemma OneMore(text: seq<Unit>, c: Unit)
    requires c != LF || text == [] || text[|text| - 1] != CR
    ensures var e := EndPosition(text);
            EndPosition(text + [c]) == if IsBreakChar(c) then Position(e.raw + 1, 1) else Position(e.raw, e.column + 1)
  {
    var longer := text + [c];
    EndPositionStays(text, [c] + [NUL], |text|);
    assert longer + [NUL] == text + ([c] + [NUL]);
    assert (longer + [NUL])[|text|] == c && (longer + [NUL])[|text| + 1] == NUL;
  }

  /** A line break moves to the next line, unless it ends one whose CR has been counted already. */
  lemma BreakMovesLine(text: seq<Unit>, nl: seq<Unit>)
    requires IsLineBreak(nl)
    ensures var e := EndPosition(text);
            EndPosition(text + nl) == Position(if SplitsBreak(text, nl) then e.raw else e.raw + 1, 1)
  {
    if SplitsBreak(text, nl) {
      var all := text + nl + [NUL];
      assert all == text + (nl + [NUL]);
      InsideSplit(text, nl + [NUL]);
      assert all[|text|] == LF && PositionOf(all, |text| + 1).raw == PositionOf(all, |text|).raw + 1;
    } else {
      WholeBreakMovesLine(text, nl);
    }
  }

  lemma WholeBreakMovesLine(text: seq<Unit>, nl: seq<Unit>)
    requires IsLineBreak(nl) && !SplitsBreak(text, nl)
    ensures EndPosition(text + nl) == Position(EndPosition(text).raw + 1, 1)
  {
    if nl == [CR, LF] {
      var all := text + nl + [NUL];
      EndPositionStays(text, nl + [NUL], |text|);
      assert all == text + (nl + [NUL]);
      assert all[|text|] == CR && all[|text| + 1] == LF && all[|text| + 2] == NUL;
      assert !LineStart(all, |text| + 1) && LineStart(all, |text| + 2);
      assert PositionOf(all, |text|) == EndPosition(text);
      assert PositionOf(all, |text| + 1).raw == EndPosition(text).raw;
    } else {
      OneMore(text, nl[0]);
    }
  }

  /** The text written for a string from a place on: line breaks are normalized to `nl`, or written as they are. */
  function Normalized(s: seq<Unit>, i: nat, nl: Option<seq<Unit>>): seq<Unit>
    requires i <= |s|
    decreases |s| - i
  {
    if i == |s| then [] else Piece(s, i, nl) + Normalized(s, i + |Taken(s, i)|, nl)
  }

  /** The character or the line break at a place. */
  function Taken(s: seq<Unit>, i: nat): (t: seq<Unit>)
    requires i < |s|
    ensures 0 < |t| && i + |t| <= |s|
  {
    if BreakLength(s, i) == 2 then [CR, LF] else [s[i]]
  }

  lemma TakenIs(s: seq<Unit>, i: nat)
    requires i < |s|
    ensures Taken(s, i) == s[i..i + |Taken(s, i)|] && (BreakLength(s, i) > 0 ==> |Taken(s, i)| == BreakLength(s, i))
  {}

  function Piece(s: seq<Unit>, i: nat, nl: Option<seq<Unit>>): seq<Unit>
    requires i < |s|
  {
    if BreakLength(s, i) > 0 && nl.Some? then nl.value else Taken(s, i)
  }

  /** Without normalization a string is written as it is. */
  lemma {:induction false} NotNormalized(s: seq<Unit>, i: nat)
    requires i <= |s|
    ensures Normalized(s, i, None) == s[i..]
    decreases |s| - i
  {
    if i < |s| {
      var j := i + |Taken(s, i)|;
      NotNormalized(s, j);
      TakenIs(s, i);
      assert s[i..] == s[i..j] + s[j..];
    }
  }

  /** The position with some lines counted twice. */
  function Ahead(p: Position, lines: nat): Position {
    Position(p.raw + lines, p.column)
  }

  /** A line is counted once more when the text written splits a line break. */
  function Counted(text: seq<Unit>, more: seq<Unit>): nat {
    if SplitsBreak(text, more) then 1 else 0
  }

  /** A line that is written moves the position to the start of the next one. */
  lemma LineMovesPosition(text: seq<Unit>, plain: seq<Unit>, nl: seq<Unit>)
    requires IsLineBreak(nl) && forall c | c in plain :: !IsBreakChar(c)
    ensures EndPosition(text + (plain + nl)).raw + Counted(text, plain + nl) == EndPosition(text).raw + 1
    ensures EndPosition(text + (plain + nl)).column == 1
  {
    PlainMovesColumn(text, plain);
    BreakMovesLine(text + plain, nl);
    Associative(text, plain, nl);
    if plain == [] {
      assert text + plain == text && plain + nl == nl;
    } else {
      assert plain[0] in plain && plain[|plain| - 1] in plain;
    }
  }

  /** No line break is split between a piece and the next one. */
  lemma PiecesAreWhole(s: seq<Unit>, p: nat, nl: Option<seq<Unit>>)
    requires p < |s| && (nl.Some? ==> IsLineBreak(nl.value))
    ensures !SplitsBreak(Piece(s, p, nl), Normalized(s, p + |Taken(s, p)|, nl))
  {
    var q := p + |Taken(s, p)|;
    if q < |s| {
      assert Normalized(s, q, nl)[0] == Piece(s, q, nl)[0];
    }
  }

  /** What has been written of a string, what is held back, and what is still to come make up all. */
  ghost predicate Waiting(all: seq<Unit>, done: seq<Unit>, plain: seq<Unit>, rest: seq<Unit>) {
    all == done + (plain + rest) && (done != [] ==> !SplitsBreak(done, plain + rest))
  }

  lemma WaitingPlain(all: seq<Unit>, done: seq<Unit>, plain: seq<Unit>, more: seq<Unit>, rest: seq<Unit>)
    requires Waiting(all, done, plain, more + rest)
    ensures Waiting(all, done, plain + more, rest)
  {
    Associative(plain, more, rest);
  }

  lemma WaitingLine(all: seq<Unit>, done: seq<Unit>, plain: seq<Unit>, piece: seq<Unit>, rest: seq<Unit>)
    requires Waiting(all, done, plain, piece + rest) && piece != [] && !SplitsBreak(piece, rest)
    ensures Waiting(all, done + (plain + piece), [], rest)
    ensures done != [] ==> !SplitsBreak(done, plain + piece)
  {
    Associative(plain, piece, rest);
    Associative(done, plain + piece, rest);
    assert [] + rest == rest;
  }

  /** The text held back is from `start` to `p`. */
  ghost predicate Pending(s: seq<Unit>, start: nat, p: nat, done: seq<Unit>, nl: Option<seq<Unit>>) {
    && start <= p <= |s| && (forall c | c in s[start..p] :: !IsBreakChar(c))
    && Waiting(Normalized(s, 0, nl), done, s[start..p], Normalized(s, p, nl))
  }

  lemma PendingPlain(s: seq<Unit>, start: nat, p: nat, done: seq<Unit>, nl: Option<seq<Unit>>)
    requires p < |s| && !IsBreakChar(s[p]) && Pending(s, start, p, done, nl)
    ensures Pending(s, start, p + 1, done, nl)
  {
    assert s[start..p + 1] == s[start..p] + [s[p]];
    WaitingPlain(Normalized(s, 0, nl), done, s[start..p], [s[p]], Normalized(s, p + 1, nl));
  }

  lemma PendingLine(s: seq<Unit>, start: nat, p: nat, done: seq<Unit>, nl: Option<seq<Unit>>)
    requires p < |s| && IsBreakChar(s[p]) && Pending(s, start, p, done, nl) && (nl.Some? ==> IsLineBreak(nl.value))
    ensures var next, line := p + |Taken(s, p)|, s[start..p] + Piece(s, p, nl);
            Pending(s, next, next, done + line, nl) && (done != [] ==> !SplitsBreak(done, line))
  {
    var next := p + |Taken(s, p)|;
    PiecesAreWhole(s, p, nl);
    WaitingLine(Normalized(s, 0, nl), done, s[start..p], Piece(s, p, nl), Normalized(s, next, nl));
    assert s[next..next] == [];
  }

  lemma PendingEnds(s: seq<Unit>, start: nat, before: seq<Unit>, done: seq<Unit>, nl: Option<seq<Unit>>)
    requires Pending(s, start, |s|, done, nl)
    ensures var all := Normalized(s, 0, nl);
            before + done + s[start..|s|] == before + all && Counted(before, done) == Counted(before, all)
  {
    var plain := s[start..|s|];
    assert plain + Normalized(s, |s|, nl) == plain;
    assert plain != [] ==> plain[0] in plain;
    CountedOnce(before, done, plain);
    Associative(before, done, plain);
  }

  lemma LineCounted(s: seq<Unit>, start: nat, p: nat, before: seq<Unit>, done: seq<Unit>, nl: Option<seq<Unit>>)
    returns (done': seq<Unit>)
    requires p < |s| && IsBreakChar(s[p]) && Pending(s, start, p, done, nl) && (nl.Some? ==> IsLineBreak(nl.value))
    ensures var next, line := p + |Taken(s, p)|, s[start..p] + Piece(s, p, nl);
            && Pending(s, next, next, done', nl) && before + done' == before + done + line
            && Counted(before, done') == Counted(before, done) + Counted(before + done, line)
  {
    var line := s[start..p] + Piece(s, p, nl);
    PendingLine(s, start, p, done, nl);
    CountedOnce(before, done, line);
    Associative(before, done, line);
    done' := done + line;
  }

  lemma CountedOnce(before: seq<Unit>, done: seq<Unit>, more: seq<Unit>)
    requires done != [] ==> !SplitsBreak(done, more)
    ensures Counted(before, done) + Counted(before + done, more) == Counted(before, done + more)
  {
    if done == [] {
      assert before + done == before && done + more == more;
    }
  }

  class Presenter {
    var yaml: seq<Unit>
    var raw: nat
    var column: nat
    const lineBreakForOutput: seq<Unit>
    const normalizeLineBreaks: bool

    constructor (lineBreakForOutput: seq<Unit>, normalizeLineBreaks: bool)
      requires IsLineBreak(lineBreakForOutput)
      ensures this.lineBreakForOutput == lineBreakForOutput && this.normalizeLineBreaks == normalizeLineBreaks
      ensures Valid() && yaml == [] && Twice() == 0
    {
      yaml, raw, column := [], 1, 1;
      this.lineBreakForOutput, this.normalizeLineBreaks := lineBreakForOutput, normalizeLineBreaks;
    }

    /** The counted column is that of the end of the text. */
    ghost predicate Valid()
      reads this
    {
      IsLineBreak(lineBreakForOutput) && column == EndPosition(yaml).column
    }

    /** How many lines more have been counted than the text has. */
    ghost function Twice(): int
      reads this
    {
      raw - EndPosition(yaml).raw
    }

    method WriteLine()
      requires Valid()
      modifies this
      ensures Valid() && yaml == old(yaml) + lineBreakForOutput
      ensures Twice() == old(Twice()) + Counted(old(yaml), lineBreakForOutput)
    {
      BreakMovesLine(yaml, lineBreakForOutput);
      yaml := yaml + lineBreakForOutput;
      raw := raw + 1;
      column := 1;
    }

    /** A stretch without line breaks, with the column counted on. */
    method WritePlain(s: seq<Unit>)
      requires Valid() && forall c | c in s :: !IsBreakChar(c)
      modifies this
      ensures Valid() && yaml == old(yaml) + s && Twice() == old(Twice())
    {
      PlainMovesColumn(yaml, s);
      column := column + |s|;
      yaml := yaml + s;
    }

    function LineBreaks(): Option<seq<Unit>> {
      if normalizeLineBreaks then Some(lineBreakForOutput) else None
    }

    /** One line of a string, up to and with the line break at `p`. */
    method WriteOneLine(s: seq<Unit>, start: nat, p: nat) returns (next: nat)
      requires Valid() && start <= p < |s| && BreakLength(s, p) > 0
      requires forall c | c in s[start..p] :: !IsBreakChar(c)
      modifies this
      ensures Valid() && next == p + |Taken(s, p)|
      ensures var line := s[start..p] + Piece(s, p, LineBreaks());
              yaml == old(yaml) + line && Twice() == old(Twice()) + Counted(old(yaml), line)
    {
      TakenIs(s, p);
      next := p + BreakLength(s, p);
      LineMovesPosition(yaml, s[start..p], Piece(s, p, LineBreaks()));
      if normalizeLineBreaks {
        yaml := yaml + (s[start..p] + lineBreakForOutput);
      } else {
        assert s[start..next] == s[start..p] + s[p..next];
        yaml := yaml + s[start..next];
      }
      raw := raw + 1;
      column := 1;
    }

    method Write(s: seq<Unit>)
      requires Valid()
      modifies this
      ensures var written := Normalized(s, 0, LineBreaks());
              Valid() && yaml == old(yaml) + written && Twice() == old(Twice()) + Counted(old(yaml), written)
    {
      var start: nat, p: nat := 0, 0;
      ghost var done := [];
      while p < |s|
        invariant Valid() && Pending(s, start, p, done, LineBreaks())
        invariant yaml == old(yaml) + done && Twice() == old(Twice()) + Counted(old(yaml), done)
        decreases |s| - p
      {
        if !IsBreakChar(s[p]) {
          PendingPlain(s, start, p, done, LineBreaks());
          p := p + 1;
        } else {
          done := LineCounted(s, start, p, old(yaml), done, LineBreaks());
          p := WriteOneLine(s, start, p);
          start := p;
        }
      }
      PendingEnds(s, start, old(yaml), done, LineBreaks());
      WritePlain(s[start..p]);
    }
  }

  /** The calls that write a document. */
  datatype Call = Write(s: seq<Unit>) | WriteLine

  /** How lines end, and whether line breaks in strings are normalized to that. */
  datatype Config = Config(nl: seq<Unit>, normalize: bool)

  function OutputOfOne(call: Call, config: Config): seq<Unit> {
    match call
    case Write(s) => Normalized(s, 0, if config.normalize then Some(config.nl) else None)
    case WriteLine => config.nl
  }

  function OutputOf(calls: seq<Call>, config: Config): seq<Unit> {
    if calls == [] then []
    else OutputOf(calls[..|calls| - 1], config) + OutputOfOne(calls[|calls| - 1], config)
  }

  /** How often what a call writes splits a line break from what was written before it. */
  function Splits(calls: seq<Call>, config: Config): nat {
    if calls == [] then 0
    else
      var before, last := calls[..|calls| - 1], calls[|calls| - 1];
      Splits(before, config) + Counted(OutputOf(before, config), OutputOfOne(last, config))
  }

  /** Written text has no CR when lines end with LF alone; otherwise it does not start with LF. */
  predicate Whole(t: seq<Unit>, nl: seq<Unit>) {
    if nl == [LF] then CR !in t else t == [] || t[0] != LF
  }

  lemma {:induction false} NormalizedIsWhole(s: seq<Unit>, i: nat, nl: seq<Unit>)
    requires IsLineBreak(nl) && i <= |s|
    ensures Whole(Normalized(s, i, Some(nl)), nl)
    decreases |s| - i
  {
    if i < |s| {
      NormalizedIsWhole(s, i + |Taken(s, i)|, nl);
    }
  }

  lemma {:induction false} OutputIsWhole(calls: seq<Call>, config: Config)
    requires IsLineBreak(config.nl) && config.normalize
    ensures Whole(OutputOf(calls, config), config.nl)
  {
    if calls != [] {
      OutputIsWhole(calls[..|calls| - 1], config);
      OneIsWhole(calls[|calls| - 1], config);
    }
  }

  lemma OneIsWhole(call: Call, config: Config)
    requires IsLineBreak(config.nl) && config.normalize
    ensures Whole(OutputOfOne(call, config), config.nl)
  {
    if call.Write? {
      NormalizedIsWhole(call.s, 0, config.nl);
    }
  }

  /** With normalized line breaks none is ever split. */
  lemma {:induction false} NormalizedNeverSplits(calls: seq<Call>, config: Config)
    requires IsLineBreak(config.nl) && config.normalize
    ensures Splits(calls, config) == 0
  {
    if calls != [] {
      var before := calls[..|calls| - 1];
      NormalizedNeverSplits(before, config);
      OutputIsWhole(before, config);
      OneIsWhole(calls[|calls| - 1], config);
    }
  }

  lemma Associative(a: seq<Unit>, b: seq<Unit>, c: seq<Unit>)
    ensures a + (b + c) == a + b + c
  {}

  /** What later calls write follows what earlier ones have written. */
  lemma {:induction false} OutputInTwo(a: seq<Call>, b: seq<Call>, config: Config)
    ensures OutputOf(a + b, config) == OutputOf(a, config) + OutputOf(b, config)
    decreases |b|
  {
    if b == [] {
      assert a + b == a;
    } else {
      var c, x := b[..|b| - 1], b[|b| - 1];
      assert b == c + [x] && a + b == a + c + [x];
      OutputInTwo(a, c, config);
      OutputOfLast(a + c, x, config);
      OutputOfLast(c, x, config);
      Associative(OutputOf(a, config), OutputOf(c, config), OutputOfOne(x, config));
    }
  }

  lemma OutputOfLast(calls: seq<Call>, x: Call, config: Config)
    ensures OutputOf(calls + [x], config) == OutputOf(calls, config) + OutputOfOne(x, config)
  {
    assert (calls + [x])[..|calls|] == calls;
  }

  lemma SplitsOfLast(calls: seq<Call>, x: Call, config: Config)
    ensures Splits(calls + [x], config)
            == Splits(calls, config) + Counted(OutputOf(calls, config), OutputOfOne(x, config))
  {
    assert (calls + [x])[..|calls|] == calls;
  }

  /** What the calls from the i-th on write. */
  function RestOf(calls: seq<Call>, i: nat, config: Config): seq<Unit>
    requires i <= |calls|
  {
    OutputOf(calls[i..], config)
  }

  /** What the i-th call writes ends a line break that what was written before it has begun. */
  predicate SplitBy(calls: seq<Call>, i: nat, config: Config)
    requires i < |calls|
  {
    SplitsBreak(OutputOf(calls[..i], config), OutputOfOne(calls[i], config))
  }

  ghost predicate NoneSplit(calls: seq<Call>, i: nat, config: Config)
    requires i <= |calls|
  {
    forall j | 0 <= j < i :: !SplitBy(calls, j, config)
  }

  lemma {:induction false} CountedIffSplit(calls: seq<Call>, i: nat, config: Config)
    requires i <= |calls|
    ensures Splits(calls[..i], config) == 0 <==> NoneSplit(calls, i, config)
  {
    if i > 0 {
      var before := i - 1;
      CountedIffSplit(calls, before, config);
      OneMoreCall(calls, before, config);
      assert NoneSplit(calls, i, config) <==> NoneSplit(calls, before, config) && !SplitBy(calls, before, config);
    }
  }

  /** The position counted is that of the end of the text exactly when no call so far has split a line break. */
  lemma RightIffNoneSplit(calls: seq<Call>, i: nat, config: Config)
    requires i <= |calls|
    ensures PositionAfter(calls, i, config) == EndPosition(OutputOf(calls[..i], config))
            <==> NoneSplit(calls, i, config)
  {
    CountedIffSplit(calls, i, config);
  }

  lemma WholeText(calls: seq<Call>, i: nat, config: Config)
    requires i <= |calls|
    ensures var written := OutputOf(calls[..i], config);
            OutputOf(calls, config) + [NUL] == written + (RestOf(calls, i, config) + [NUL])
  {
    assert calls == calls[..i] + calls[i..];
    OutputInTwo(calls[..i], calls[i..], config);
    Associative(OutputOf(calls[..i], config), RestOf(calls, i, config), [NUL]);
  }

  /** The position counted after the first i calls. */
  function PositionAfter(calls: seq<Call>, i: nat, config: Config): Position
    requires i <= |calls|
  {
    Ahead(EndPosition(OutputOf(calls[..i], config)), Splits(calls[..i], config))
  }

  /** It is the position that the parser finds there in the whole text. */
  predicate AgreesAt(calls: seq<Call>, i: nat, config: Config)
    requires i <= |calls|
  {
    FoundAt(OutputOf(calls, config) + [NUL], |OutputOf(calls[..i], config)|, PositionAfter(calls, i, config))
  }

  predicate FoundAt(text: seq<Unit>, place: nat, position: Position) {
    place <= |text| && position == PositionOf(text, place)
  }

  /**
   * The position counted is that of the parser exactly when no line break has been split so far, and none is split at
   * this place.
   */
  lemma AgreesIffWhole(calls: seq<Call>, i: nat, config: Config)
    requires i <= |calls|
    ensures AgreesAt(calls, i, config)
            <==> Splits(calls[..i], config) == 0 && !SplitsBreak(OutputOf(calls[..i], config), RestOf(calls, i, config))
  {
    var written, more := OutputOf(calls[..i], config), RestOf(calls, i, config) + [NUL];
    WholeText(calls, i, config);
    assert SplitsBreak(written, RestOf(calls, i, config)) <==> SplitsBreak(written, more);
    if SplitsBreak(written, more) {
      InsideSplit(written, more);
    } else {
      EndPositionStays(written, more, |written|);
    }
  }

  /** With normalized line breaks it always is. */
  lemma PositionStays(calls: seq<Call>, i: nat, config: Config)
    requires IsLineBreak(config.nl) && config.normalize && i <= |calls|
    ensures AgreesAt(calls, i, config)
  {
    AgreesIffWhole(calls, i, config);
    NormalizedNeverSplits(calls[..i], config);
    OutputIsWhole(calls[..i], config);
    OutputIsWhole(calls[i..], config);
  }

  /** A CR and an LF in two calls, without normalization: the line is counted twice, and nothing corrects that. */
  lemma SplitExample(nl: seq<Unit>)
    ensures var calls, config := [Write([CR]), Write([LF])], Config(nl, false);
            && OutputOf(calls, config) == [CR, LF] && Splits(calls, config) == 1
            && !AgreesAt(calls, 1, config) && !AgreesAt(calls, 2, config)
  {
    var calls, config := [Write([CR]), Write([LF])], Config(nl, false);
    assert calls == [] + [calls[0]] + [calls[1]] && calls[..1] == [] + [calls[0]] && calls[..2] == calls;
    NotNormalized([CR], 0);
    NotNormalized([LF], 0);
    OutputOfLast([], calls[0], config);
    OutputOfLast([calls[0]], calls[1], config);
    SplitsOfLast([], calls[0], config);
    SplitsOfLast([calls[0]], calls[1], config);
    AgreesIffWhole(calls, 1, config);
    AgreesIffWhole(calls, 2, config);
    assert calls[1..] == [] + [calls[1]];
    OutputOfLast([], calls[1], config);
  }

  /**
   * The presenter's position after every call is that of the end of its text exactly when no call so far has split a
   * line break; otherwise it is one line ahead for every split. With normalized line breaks it is always the one that
   * the parser finds at that place of the whole text, with the guard after it.
   */
  method WriteAll(calls: seq<Call>, config: Config) returns (yaml: seq<Unit>, positions: seq<Position>)
    requires IsLineBreak(config.nl)
    ensures yaml == OutputOf(calls, config) && |positions| == |calls| + 1 && AllAfter(calls, config, positions)
    ensures config.normalize ==> AllFound(calls, config, yaml + [NUL], positions)
  {
    var presenter := new Presenter(config.nl, config.normalize);
    positions := [Position(presenter.raw, presenter.column)];
    assert calls[..0] == [];
    for i := 0 to |calls|
      invariant fresh(presenter) && presenter.lineBreakForOutput == config.nl
      invariant presenter.normalizeLineBreaks == config.normalize && presenter.yaml == OutputOf(calls[..i], config)
      invariant presenter.Valid() && presenter.Twice() == Splits(calls[..i], config) && |positions| == i + 1
      invariant AllAfter(calls, config, positions)
    {
      OneMoreCall(calls, i, config);
      Do(presenter, calls[i], config);
      MoreAfter(calls, config, positions, Position(presenter.raw, presenter.column));
      positions := positions + [Position(presenter.raw, presenter.column)];
    }
    assert calls[..|calls|] == calls;
    yaml := presenter.yaml;
    if config.normalize {
      AfterIsFound(calls, config, positions);
    }
  }

  ghost predicate AllAfter(calls: seq<Call>, config: Config, positions: seq<Position>) {
    |positions| <= |calls| + 1 && forall i | 0 <= i < |positions| :: positions[i] == PositionAfter(calls, i, config)
  }

  ghost predicate AllFound(calls: seq<Call>, config: Config, text: seq<Unit>, positions: seq<Position>) {
    && |positions| == |calls| + 1
    && forall i | 0 <= i < |positions| :: FoundAt(text, |OutputOf(calls[..i], config)|, positions[i])
  }

  lemma AfterIsFound(calls: seq<Call>, config: Config, positions: seq<Position>)
    requires IsLineBreak(config.nl) && config.normalize
    requires AllAfter(calls, config, positions) && |positions| == |calls| + 1
    ensures AllFound(calls, config, OutputOf(calls, config) + [NUL], positions)
  {
    forall i | 0 <= i < |positions|
      ensures FoundAt(OutputOf(calls, config) + [NUL], |OutputOf(calls[..i], config)|, positions[i])
    {
      assert positions[i] == PositionAfter(calls, i, config);
      PositionStays(calls, i, config);
      assert AgreesAt(calls, i, config);
    }
  }

  lemma MoreAfter(calls: seq<Call>, config: Config, positions: seq<Position>, position: Position)
    requires AllAfter(calls, config, positions) && |positions| <= |calls|
    requires position == PositionAfter(calls, |positions|, config)
    ensures AllAfter(calls, config, positions + [position])
  {}

  lemma OneMoreCall(calls: seq<Call>, i: nat, config: Config)
    requires i < |calls|
    ensures var before := OutputOf(calls[..i], config);
            && OutputOf(calls[..i + 1], config) == before + OutputOfOne(calls[i], config)
            && Splits(calls[..i + 1], config)
               == Splits(calls[..i], config) + Counted(before, OutputOfOne(calls[i], config))
  {
    assert calls[..i + 1] == calls[..i] + [calls[i]];
    OutputOfLast(calls[..i], calls[i], config);
    SplitsOfLast(calls[..i], calls[i], config);
  }

  method Do(presenter: Presenter, call: Call, config: Config)
    requires presenter.lineBreakForOutput == config.nl && presenter.normalizeLineBreaks == config.normalize
    requires presenter.Valid()
    modifies presenter
    ensures var written := OutputOfOne(call, config);
            && presenter.Valid() && presenter.yaml == old(presenter.yaml) + written
            && presenter.Twice() == old(presenter.Twice()) + Counted(old(presenter.yaml), written)
  {
    match call {
      case Write(s) => presenter.Write(s);
      case WriteLine => presenter.WriteLine();
    }
  }

  /** The lines of a string from a place on, without their line breaks. */
  function LinesOf(s: seq<Unit>, i: nat): (lines: seq<seq<Unit>>)
    requires i <= |s|
    ensures lines != []
    decreases |s| - i
  {
    if i == |s| then [[]]
    else if s[i] == CR && i + 1 < |s| && s[i + 1] == LF then [[]] + LinesOf(s, i + 2)
    else
      var rest := LinesOf(s, i + 1);
      if s[i] == CR || s[i] == LF then [[]] + rest else [[s[i]] + rest[0]] + rest[1..]
  }

  /** Lines with the same line break between them. */
  function Joined(lines: seq<seq<Unit>>, nl: seq<Unit>): seq<Unit>
    requires lines != []
  {
    if |lines| == 1 then lines[0] else lines[0] + nl + Joined(lines[1..], nl)
  }

  lemma JoinedAfterBreak(rest: seq<seq<Unit>>, nl: seq<Unit>)
    requires rest != []
    ensures Joined([[]] + rest, nl) == nl + Joined(rest, nl)
  {
    var lines: seq<seq<Unit>> := [[]] + rest;
    assert lines[1..] == rest && lines[0] + nl == nl;
  }

  lemma JoinedAfter(c: Unit, rest: seq<seq<Unit>>, nl: seq<Unit>)
    requires rest != []
    ensures Joined([[c] + rest[0]] + rest[1..], nl) == [c] + Joined(rest, nl)
  {
    if |rest| > 1 {
      assert ([[c] + rest[0]] + rest[1..])[1..] == rest[1..];
      Associative([c], rest[0], nl + Joined(rest[1..], nl));
    }
  }

  /** With normalization a string is written line by line, with the configured line break between its lines. */
  lemma {:induction false} NormalizedIsJoined(s: seq<Unit>, i: nat, nl: seq<Unit>)
    requires i <= |s|
    ensures Normalized(s, i, Some(nl)) == Joined(LinesOf(s, i), nl)
    decreases |s| - i
  {
    if i < |s| {
      var j := i + |Taken(s, i)|;
      NormalizedIsJoined(s, j, nl);
      if IsBreakChar(s[i]) {
        JoinedAfterBreak(LinesOf(s, j), nl);
      } else {
        JoinedAfter(s[i], LinesOf(s, j), nl);
      }
    }
  }
}
