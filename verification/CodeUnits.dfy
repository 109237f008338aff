/** Text as the program holds it: sequences of 16-bit code units. */
module CodeUnits {
  type Unit = c: int | 0 <= c < 0x1_0000

  const NUL: Unit := 0x00
  const TAB: Unit := 0x09
  const LF: Unit := 0x0A
  const CR: Unit := 0x0D
  const SPACE: Unit := 0x20
  const QUOTE: Unit := 0x22
  const DASH: Unit := 0x2D
  const DOT: Unit := 0x2E
  const SLASH: Unit := 0x2F
  const BACKSLASH: Unit := 0x5C
  const BOM: Unit := 0xFEFF

  predicate IsWhite(c: Unit) { c == SPACE || c == TAB }

  predicate IsBreakChar(c: Unit) { c == LF || c == CR }

  /** Length of the line break at a position: CR LF, CR or LF; zero when there is none. */
  function BreakLength(text: seq<Unit>, p: nat): (n: nat)
    ensures p + n <= |text| || n == 0
    ensures n > 0 <==> p < |text| && IsBreakChar(text[p])
  {
    if p >= |text| || !IsBreakChar(text[p]) then 0
    else if text[p] == CR && p + 1 < |text| && text[p + 1] == LF then 2 else 1
  }

  predicate IsLineBreak(nl: seq<Unit>) { nl == [CR, LF] || nl == [LF] || nl == [CR] }

  /** Where the spaces and tabs that start at a position end. */
  function WhiteEnd(text: seq<Unit>, p: nat): (e: nat)
    requires p <= |text|
    ensures p <= e <= |text|
    ensures forall i | p <= i < e :: IsWhite(text[i])
    ensures e < |text| ==> !IsWhite(text[e])
    decreases |text| - p
  {
    if p < |text| && IsWhite(text[p]) then WhiteEnd(text, p + 1) else p
  }

  /** The text at a position starts with `t`. */
  predicate At(text: seq<Unit>, p: nat, t: seq<Unit>) {
    p + |t| <= |text| && text[p..p + |t|] == t
  }

  lemma AtSplit(text: seq<Unit>, p: nat, a: seq<Unit>, b: seq<Unit>)
    requires At(text, p, a + b)
    ensures At(text, p, a) && At(text, p + |a|, b)
  {
    assert text[p..p + |a|] == (a + b)[..|a|];
    assert text[p + |a|..p + |a| + |b|] == (a + b)[|a|..];
  }
}
