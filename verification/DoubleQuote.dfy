/** Writing a string as a double-quoted scalar: unsafe characters escaped, and lines folded after a line break. */
module DoubleQuote {
  import opened Wrappers
  import opened CodeUnits

  /** Characters that stand for themselves. */
  predicate IsSafe(c: Unit) {
    || (0x100 <= c && c != 0x2028 && c != 0x2029)
    || c == TAB
    || (0x20 <= c < 0x100 && c != BACKSLASH && c != QUOTE && c != 0x85 && c != 0xA0)
  }

  /** The letter of the short escape of a character. */
  function ShortEscape(c: Unit): Option<Unit> {
    if c == 0x00 then Some(0x30) else if c == 0x07 then Some(0x61) else if c == 0x08 then Some(0x62)
    else if c == 0x0B then Some(0x76) else if c == 0x0C then Some(0x66) else if c == 0x1B then Some(0x65)
    else if c == QUOTE then Some(QUOTE) else if c == BACKSLASH then Some(BACKSLASH)
    else if c == 0x85 then Some(0x4E) else if c == 0xA0 then Some(0x5F)
    else if c == 0x2028 then Some(0x4C) else if c == 0x2029 then Some(0x50)
    else None
  }

  /** Lower-case hexadecimal digit. */
  function HexDigit(d: int): Unit
    requires 0 <= d < 16
  {
    if d < 10 then 0x30 + d else 0x61 + d - 10
  }

  function Escape(c: Unit): seq<Unit> {
    match ShortEscape(c)
    case Some(letter) => [BACKSLASH, letter]
    case None =>
      if c < 0x100 then [BACKSLASH, 0x78, HexDigit(c / 16), HexDigit(c % 16)]
      else [BACKSLASH, 0x75, HexDigit(c / 4096), HexDigit(c / 256 % 16), HexDigit(c / 16 % 16), HexDigit(c % 16)]
  }

  const ESCAPED_CR: seq<Unit> := [BACKSLASH, 0x72]
  const ESCAPED_LF: seq<Unit> := [BACKSLASH, 0x6E]

  /** The escapes of the line break at a position. */
  function EscapedBreak(s: seq<Unit>, i: nat): seq<Unit>
    requires i < |s|
  {
    if s[i] != CR then ESCAPED_LF
    else if BreakLength(s, i) == 2 then ESCAPED_CR + ESCAPED_LF
    else ESCAPED_CR
  }

  /** How lines are laid out: the line break and the prefix of every line, or no folding at all. */
  datatype Layout = NoBreak | Fold(nl: seq<Unit>, pres: seq<Unit>)

  /** An escaped line break that starts a new line of the text; a space at the start of that line is escaped. */
  function Folding(s: seq<Unit>, j: nat, layout: Layout): seq<Unit>
    requires j <= |s|
  {
    if layout.NoBreak? || j == |s| then []
    else ([BACKSLASH] + layout.nl) + (layout.pres + if s[j] == SPACE then [BACKSLASH] else [])
  }

  /** What is written for the character or line break at a position, and where the next one is. */
  function QuotedChar(s: seq<Unit>, i: nat, layout: Layout): (r: (seq<Unit>, nat))
    requires i < |s|
    ensures i < r.1 <= |s|
  {
    if IsSafe(s[i]) then ([s[i]], i + 1)
    else if IsBreakChar(s[i]) then
      var j := i + BreakLength(s, i);
      (EscapedBreak(s, i) + Folding(s, j, layout), j)
    else (Escape(s[i]), i + 1)
  }

  /** What is written for the string from position `i` on. */
  function Quoted(s: seq<Unit>, i: nat, layout: Layout): seq<Unit>
    requires i <= |s|
    decreases |s| - i
  {
    if i == |s| then []
    else
      var (written, j) := QuotedChar(s, i, layout);
      written + Quoted(s, j, layout)
  }

  lemma QuotedMore(before: seq<Unit>, s: seq<Unit>, i: nat, layout: Layout)
    requires i < |s|
    ensures var (written, j) := QuotedChar(s, i, layout);
            before + Quoted(s, i, layout) == before + written + Quoted(s, j, layout)
  {}

  class Writer {
    const text: seq<Unit>
    var p: nat
    var stringValue: seq<Unit>

    constructor (text: seq<Unit>)
      ensures this.text == text && p == 0 && stringValue == []
    {
      this.text, p, stringValue := text, 0, [];
    }

    method NbDoubleSafeChar() returns (ok: bool)
      requires p < |text|
      modifies this
      ensures ok == IsSafe(text[old(p)])
      ensures ok ==> p == old(p) + 1 && stringValue == old(stringValue) + [text[old(p)]]
      ensures !ok ==> p == old(p) && stringValue == old(stringValue)
    {
      if IsSafe(text[p]) {
        stringValue := stringValue + [text[p]];
        p := p + 1;
        return true;
      }
      return false;
    }

    method NsEscapedChar()
      requires p < |text|
      modifies this
      ensures p == old(p) + 1 && stringValue == old(stringValue) + Escape(text[old(p)])
    {
      var c := text[p];
      var escaped := ShortEscape(c);
      if escaped.Some? {
        stringValue := stringValue + [BACKSLASH, escaped.value];
      } else if c < 0x100 {
        stringValue := stringValue + [BACKSLASH, 0x78, HexDigit(c / 16), HexDigit(c % 16)];
      } else {
        stringValue := stringValue
          + [BACKSLASH, 0x75, HexDigit(c / 4096), HexDigit(c / 256 % 16), HexDigit(c / 16 % 16), HexDigit(c % 16)];
      }
      p := p + 1;
    }

    method BBreak(layout: Layout) returns (ok: bool)
      requires p < |text|
      modifies this
      ensures p <= |text| && ok == IsBreakChar(text[old(p)])
      ensures ok ==> p == old(p) + BreakLength(text, old(p))
                     && stringValue == old(stringValue) + (EscapedBreak(text, old(p)) + Folding(text, p, layout))
      ensures !ok ==> p == old(p) && stringValue == old(stringValue)
    {
      ghost var escaped := EscapedBreak(text, p);
      if text[p] == CR {
        stringValue := stringValue + ESCAPED_CR;
        p := p + 1;
        if p < |text| && text[p] == LF {
          stringValue := stringValue + ESCAPED_LF;
          p := p + 1;
        }
      } else if text[p] == LF {
        stringValue := stringValue + ESCAPED_LF;
        p := p + 1;
      } else {
        return false;
      }
      assert stringValue == old(stringValue) + escaped;
      if p == |text| || layout.NoBreak? {
        return true;
      }
      StartLine(layout);
      return true;
    }

    /** Folds the string with an escaped line break. */
    method StartLine(layout: Layout)
      requires p < |text| && layout.Fold?
      modifies this`stringValue
      ensures stringValue == old(stringValue) + Folding(text, p, layout)
    {
      stringValue := stringValue + ([BACKSLASH] + layout.nl);
      stringValue := stringValue + layout.pres;
      if text[p] == SPACE {
        stringValue := stringValue + [BACKSLASH];
      }
    }

    method CDoubleQuoteChar(layout: Layout) returns (ok: bool)
      requires p <= |text|
      modifies this
      ensures p <= |text| && ok == (old(p) < |text|)
      ensures ok ==> var (written, next) := QuotedChar(text, old(p), layout);
                     p == next && stringValue == old(stringValue) + written
      ensures !ok ==> p == old(p) && stringValue == old(stringValue)
    {
      if p == |text| {
        return false;
      }
      ok := NbDoubleSafeChar();
      if !ok {
        ok := BBreak(layout);
      }
      if !ok {
        NsEscapedChar();
      }
      return true;
    }

    /** The whole string between quotation marks. */
    method Quote(layout: Layout) returns (quoted: seq<Unit>)
      requires p == 0 && stringValue == []
      modifies this
      ensures quoted == [QUOTE] + Quoted(text, 0, layout) + [QUOTE]
    {
      ghost var all := Quoted(text, 0, layout);
      var more := true;
      while more
        invariant p <= |text| && stringValue + Quoted(text, p, layout) == all
        invariant !more ==> p == |text|
        decreases |text| - p, if more then 1 else 0
      {
        ghost var before, i := stringValue, p;
        more := CDoubleQuoteChar(layout);
        if more {
          QuotedMore(before, text, i, layout);
        }
      }
      return [QUOTE] + stringValue + [QUOTE];
    }
  }

  /** A tab, or a character that is neither a control character nor one of the special white space and line breaks. */
  predicate Printable(c: Unit) {
    c == TAB || (0x20 <= c && c != 0x85 && c != 0xA0 && c != 0x2028 && c != 0x2029)
  }

  /** Printable text is written as it is, but for quotation marks and backslashes. */
  lemma {:induction false} PrintableIsKept(s: seq<Unit>, i: nat, layout: Layout)
    requires i <= |s| && forall c | c in s :: Printable(c) && c != QUOTE && c != BACKSLASH
    ensures Quoted(s, i, layout) == s[i..]
    decreases |s| - i
  {
    if i < |s| {
      assert s[i] in s;
      PrintableIsKept(s, i + 1, layout);
    }
  }

  lemma EscapeIsPrintable(c: Unit)
    requires !IsSafe(c)
    ensures forall x | x in Escape(c) :: Printable(x)
  {}

  /** On one line nothing but printable text is ever written. */
  lemma {:induction false} QuotedIsPrintable(s: seq<Unit>, i: nat)
    requires i <= |s|
    ensures forall x | x in Quoted(s, i, NoBreak) :: Printable(x)
    decreases |s| - i
  {
    if i < |s| {
      var (written, j) := QuotedChar(s, i, NoBreak);
      if !IsSafe(s[i]) {
        EscapeIsPrintable(s[i]);
      }
      assert forall x | x in written :: Printable(x);
      QuotedIsPrintable(s, j);
    }
  }
}
