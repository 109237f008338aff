/** The parser's methods for double-quoted scalars, which move along the text and collect characters. */
module DoubleQuotedParser {
  import opened Wrappers
  import opened CodeUnits
  import opened DoubleQuotedRules

  datatype Outcome = Yes | No | Error

  /** What a rule that started at `before` did is what it should do. */
  ghost predicate Did(r: Result, o: Outcome, before: Cursor, after: Cursor) {
    match r
    case Match(to) => o == Yes && after == to
    case Fail => o == No && after == before
    case Error => o == Outcome.Error
  }

  ghost predicate DidMaybe(r: Option<Cursor>, ok: bool, before: Cursor, after: Cursor) {
    if r.Some? then ok && after == r.value else !ok && after == before
  }

  /** A character was read as it should be. */
  ghost predicate DidChar(c: Char, o: Outcome, before: Cursor, after: Cursor) {
    match c
    case Char(_, _) => o == Yes && after == Added(before, c)
    case NotChar => o == No && after == before
    case BadEscape => o == Outcome.Error
  }

  class YamlParser {
    const text: seq<Unit>
    const config: Config
    var p: nat
    var stringValue: seq<Unit>

    constructor (text: seq<Unit>, config: Config)
      ensures this.text == text && this.config == config && Now() == Cursor(0, [])
    {
      this.text, this.config, p, stringValue := text, config, 0, [];
    }

    function Now(): Cursor
      reads this
    {
      Cursor(p, stringValue)
    }

    ghost predicate Inside()
      reads this
    {
      Guarded(text) && p < |text|
    }

    method RewindTo(p: nat, length: nat)
      requires length <= |stringValue|
      modifies this
      ensures Now() == Cursor(p, old(stringValue)[..length])
    {
      stringValue := stringValue[..length];
      this.p := p;
    }

    method RepeatWhiteAsString()
      requires Inside()
      modifies this
      ensures Inside() && Now() == Whites(text, old(Now()))
    {
      ghost var all := Whites(text, Now());
      while IsWhite(text[p])
        invariant Inside() && Whites(text, Now()) == all
        decreases |text| - p
      {
        stringValue := stringValue + [text[p]];
        p := p + 1;
      }
    }

    method CNsEscChar() returns (o: Outcome)
      requires Inside()
      modifies this
      ensures Inside() && DidChar(NsEscChar(text, old(p)), o, old(Now()), Now())
    {
      if text[p] != BACKSLASH {
        return No;
      }
      var letter := text[p + 1];
      var c := Unescaped(letter);
      if c.None? {
        if letter == 0x78 {
          var v := HexValue(text, p + 2);
          if v.None? { return Outcome.Error; }
          c := Some(v.value);
          p := p + 2;
        } else if letter == 0x75 {
          var v1, v2 := HexValue(text, p + 2), HexValue(text, p + 4);
          if v1.None? || v2.None? { return Outcome.Error; }
          c := Some(v1.value * 0x100 + v2.value);
          p := p + 4;
        } else if letter == 0x55 {
          var v1, v2, v3, v4 := HexValue(text, p + 2), HexValue(text, p + 4),
            HexValue(text, p + 6), HexValue(text, p + 8);
          if v1.None? || v2.None? || v3.None? || v4.None? { return Outcome.Error; }
          c := Some((v1.value * 0x100_0000 + v2.value * 0x1_0000 + v3.value * 0x100 + v4.value) % 0x1_0000);
          p := p + 8;
        } else {
          return if IsBreakChar(letter) then No else Outcome.Error;
        }
      }
      p := p + 2;
      stringValue := stringValue + [c.value];
      return Yes;
    }

    method NbDoubleCharRule() returns (o: Outcome)
      requires Inside()
      modifies this
      ensures Inside() && DidChar(NbDoubleChar(text, old(p)), o, old(Now()), Now())
    {
      if text[p] != BACKSLASH && text[p] != QUOTE && NbJson(text[p]) {
        stringValue := stringValue + [text[p]];
        p := p + 1;
        return Yes;
      }
      o := CNsEscChar();
    }

    method NsDoubleCharRule() returns (o: Outcome)
      requires Inside()
      modifies this
      ensures Inside() && DidChar(NsDoubleChar(text, old(p)), o, old(Now()), Now())
    {
      if IsWhite(text[p]) {
        return No;
      }
      o := NbDoubleCharRule();
    }

    /** The rest of a word after its first character. */
    method RepeatNsDoubleChar() returns (o: Outcome)
      requires Inside()
      modifies this
      ensures Inside() && Did(NsChars(text, old(Now())), o, old(Now()), Now())
    {
      ghost var all := NsChars(text, Now());
      o := Yes;
      while o == Yes
        invariant Inside() && (o != Outcome.Error ==> NsChars(text, Now()) == all)
        invariant (o == No ==> NsDoubleChar(text, p).NotChar?) && (o == Outcome.Error ==> all.Error?)
        decreases if o == Yes then |text| - p + 1 else 0
      {
        o := NsDoubleCharRule();
      }
      if o == No {
        o := Yes;
      }
    }

    method NbNsDoubleInLine() returns (o: Outcome)
      requires Inside()
      modifies this
      ensures Inside() && Did(InLine(text, old(Now())), o, old(Now()), Now())
    {
      ghost var all := InLine(text, Now());
      o := Yes;
      while o == Yes
        invariant Inside() && (o != Outcome.Error ==> InLine(text, Now()) == all)
        invariant (o == No ==> all == Match(Now())) && (o == Outcome.Error ==> all.Error?)
        decreases if o == Yes then |text| - p + 1 else 0
      {
        o := Word();
      }
      if o == No {
        o := Yes;
      }
    }

    /** A word with the white space before it; the white space is rewound when no word follows. */
    method Word() returns (o: Outcome)
      requires Inside()
      modifies this
      ensures Inside()
      ensures var w := Whites(text, old(Now()));
              match NsDoubleChar(text, w.p)
              case NotChar => o == No && Now() == old(Now())
              case BadEscape => o == Outcome.Error
              case Char(_, _) => Did(NsChars(text, Added(w, NsDoubleChar(text, w.p))), o, old(Now()), Now())
                                 && (o == Yes ==> p > old(p))
    {
      var savedP, length := p, |stringValue|;
      RepeatWhiteAsString();
      o := NsDoubleCharRule();
      if o == Yes {
        o := RepeatNsDoubleChar();
      } else if o == No {
        RewindTo(savedP, length);
      }
    }

    method BBreak() returns (ok: bool)
      requires Inside()
      modifies this`p
      ensures Inside() && p == old(p) + BreakLength(text, old(p)) && ok == (p != old(p))
    {
      if text[p] == CR {
        p := p + 1;
        if text[p] == LF {
          p := p + 1;
        }
        return true;
      }
      if text[p] == LF {
        p := p + 1;
        return true;
      }
      return false;
    }

    method BAsLineFeed() returns (ok: bool)
      requires Inside()
      modifies this
      ensures Inside() && DidMaybe(AsLineFeed(text, old(Now()), config), ok, old(Now()), Now())
    {
      var start := p;
      ok := BBreak();
      if ok {
        stringValue := stringValue
          + (if config.lineBreakForInput.Some? then config.lineBreakForInput.value else text[start..p]);
      }
    }

    method SIndent(n: nat) returns (ok: bool)
      requires Inside()
      modifies this`p
      ensures Inside() && ok == Indented(text, old(p), n) && p == if ok then old(p) + n else old(p)
    {
      var i := 0;
      while i < n
        invariant i <= n && p + i < |text| && Indented(text, p, i)
      {
        if text[p + i] != SPACE {
          return false;
        }
        i := i + 1;
      }
      p := p + n;
      return true;
    }

    /** Matches fewer than `n` spaces; if there are more, none is consumed. */
    method SIndentLT(n: nat) returns (ok: bool)
      requires Inside()
      modifies this`p
      ensures Inside() && ok == (SpaceEnd(text, old(p)) - old(p) < n)
      ensures p == if ok then SpaceEnd(text, old(p)) else old(p)
    {
      var i := 0;
      while text[p + i] == SPACE
        invariant p + i < |text| && SpaceEnd(text, p + i) == SpaceEnd(text, p)
        decreases |text| - p - i
      {
        i := i + 1;
      }
      if i < n {
        p := p + i;
        return true;
      }
      return false;
    }

    /** White space that need not be there. */
    method OptionalSSeparateInLine()
      requires Inside()
      modifies this`p
      ensures Inside() && p == WhiteEnd(text, old(p))
    {
      ghost var all := WhiteEnd(text, p);
      while IsWhite(text[p])
        invariant Inside() && WhiteEnd(text, p) == all
        decreases |text| - p
      {
        p := p + 1;
      }
    }

    method SFlowLinePrefix(n: nat) returns (ok: bool)
      requires Inside()
      modifies this`p
      ensures Inside()
      ensures var e := FlowLinePrefix(text, old(p), n); ok == e.Some? && p == if ok then e.value else old(p)
    {
      ok := SIndent(n);
      if ok {
        OptionalSSeparateInLine();
      }
    }

    method LEmpty(n: nat) returns (ok: bool)
      requires Inside()
      modifies this
      ensures Inside() && DidMaybe(Empty(text, old(Now()), n, config), ok, old(Now()), Now())
    {
      var savedP := p;
      ok := SFlowLinePrefix(n);
      if !ok {
        ok := SIndentLT(n);
      }
      if ok {
        ok := BAsLineFeed();
      }
      if !ok {
        p := savedP;
      }
    }

    method RepeatLEmpty(n: nat)
      requires Inside()
      modifies this
      ensures Inside() && Now() == Empties(text, old(Now()), n, config)
    {
      ghost var all := Empties(text, Now(), n, config);
      var more := true;
      while more
        invariant Inside() && Empties(text, Now(), n, config) == all && (!more ==> Now() == all)
        decreases if more then |text| - p + 1 else 0
      {
        more := LEmpty(n);
      }
    }

    method BLTrimmed(n: nat) returns (ok: bool)
      requires Inside()
      modifies this
      ensures Inside() && DidMaybe(Trimmed(text, old(Now()), n, config), ok, old(Now()), Now())
    {
      var savedP := p;
      ok := BBreak();
      if ok {
        ok := LEmpty(n);
        if ok {
          RepeatLEmpty(n);
        }
      }
      if !ok {
        p := savedP;
      }
    }

    method BLFolded(n: nat) returns (ok: bool)
      requires Inside()
      modifies this
      ensures Inside() && DidMaybe(Folded(text, old(Now()), n, config), ok, old(Now()), Now())
    {
      ok := BLTrimmed(n);
      if !ok {
        ok := BBreak();
        if ok {
          stringValue := stringValue + [SPACE];
        }
      }
    }

    method CForbidden() returns (yes: bool)
      requires Inside()
      ensures yes == Forbidden(text, p)
    {
      if !StartOfLine(text, p) || |text| - p < 3 {
        return false;
      }
      var s := text[p..p + 3];
      if s != [DASH, DASH, DASH] && s != [DOT, DOT, DOT] {
        return false;
      }
      assert s[2] == text[p + 2] && text[p + 2] != NUL;
      return |text| - p == 4 || IsWhite(text[p + 3]) || IsBreakChar(text[p + 3]);
    }

    method SFlowFolded(n: nat) returns (ok: bool)
      requires Inside()
      modifies this
      ensures Inside() && DidMaybe(FlowFolded(text, old(Now()), n, config), ok, old(Now()), Now())
    {
      var savedP, length := p, |stringValue|;
      OptionalSSeparateInLine();
      ghost var start := Now();
      ok := BLFolded(n);
      if ok {
        FoldedAppends(start, n);
        var forbidden := CForbidden();
        ok := !forbidden;
        if ok {
          ok := SFlowLinePrefix(n);
        }
      }
      if !ok {
        RewindTo(savedP, length);
      }
    }

    lemma FoldedAppends(cur: Cursor, n: nat)
      requires Within(text, cur)
      ensures var r := Folded(text, cur, n, config); r.Some? ==> cur.v <= r.value.v
    {
      var k := BreakLength(text, cur.p);
      if k > 0 {
        EmptiesAppend(Cursor(cur.p + k, cur.v), n);
      }
    }

    lemma {:induction false} EmptiesAppend(cur: Cursor, n: nat)
      requires Within(text, cur)
      ensures cur.v <= Empties(text, cur, n, config).v
      decreases |text| - cur.p
    {
      var r := Empty(text, cur, n, config);
      if r.Some? {
        EmptiesAppend(r.value, n);
      }
    }

    method SDoubleEscaped(n: nat) returns (ok: bool)
      requires Inside()
      modifies this
      ensures Inside() && DidMaybe(DoubleEscaped(text, old(Now()), n, config), ok, old(Now()), Now())
    {
      var savedP, length := p, |stringValue|;
      RepeatWhiteAsString();
      ok := EscapedLine(n);
      if !ok {
        RewindTo(savedP, length);
      }
    }

    /** An escaped line break with the empty lines and the prefix after it; nothing is rewound yet. */
    method EscapedLine(n: nat) returns (ok: bool)
      requires Inside()
      modifies this
      ensures Inside() && old(stringValue) <= stringValue
      ensures var r := LineEscaped(text, old(Now()), n, config); ok == r.Some? && (ok ==> Now() == r.value)
    {
      if text[p] != BACKSLASH {
        return false;
      }
      p := p + 1;
      ok := BBreak();
      if ok {
        EmptiesAppend(Now(), n);
        RepeatLEmpty(n);
        ok := SFlowLinePrefix(n);
      }
    }

    method SDoubleBreak(n: nat) returns (ok: bool)
      requires Inside()
      modifies this
      ensures Inside() && DidMaybe(DoubleBreak(text, old(Now()), n, config), ok, old(Now()), Now())
    {
      ok := SDoubleEscaped(n);
      if !ok {
        ok := SFlowFolded(n);
      }
    }

    method SDoubleNextLine(n: nat) returns (o: Outcome)
      requires Inside()
      modifies this
      ensures Inside() && Did(NextLine(text, old(Now()), n, config), o, old(Now()), Now())
      decreases |text| - p, 0
    {
      var ok := SDoubleBreak(n);
      if !ok {
        return No;
      }
      o := NsDoubleCharRule();
      if o == Yes {
        o := NbDoubleMultiLine(n);
      } else if o == No {
        o := Yes;
      }
    }

    method NbDoubleMultiLine(n: nat) returns (o: Outcome)
      requires Inside()
      modifies this
      ensures Inside() && Did(MultiLine(text, old(Now()), n, config), o, old(Now()), Now())
      decreases |text| - p, 1
    {
      o := NbNsDoubleInLine();
      if o == Yes {
        o := SDoubleNextLine(n);
        if o == No {
          RepeatWhiteAsString();
          o := Yes;
        }
      }
    }

    method NbDoubleOneLine() returns (o: Outcome)
      requires Inside()
      modifies this
      ensures Inside() && Did(OneLine(text, old(Now())), o, old(Now()), Now())
    {
      ghost var all := OneLine(text, Now());
      o := Yes;
      while o == Yes
        invariant Inside() && (o != Outcome.Error ==> OneLine(text, Now()) == all)
        invariant (o == No ==> all == Match(Now())) && (o == Outcome.Error ==> all.Error?)
        decreases if o == Yes then |text| - p + 1 else 0
      {
        o := NbDoubleCharRule();
      }
      if o == No {
        o := Yes;
      }
    }

    /** A double-quoted scalar; its value is the collected text. */
    method CDoubleQuoted(n: nat, c: Context) returns (o: Outcome)
      requires Inside() && stringValue == []
      modifies this
      ensures Did(DoubleQuoted(text, old(p), n, c, config), o, old(Now()), Now())
    {
      if text[p] != QUOTE {
        return No;
      }
      var savedP := p;
      p := p + 1;
      if c.FlowKey? {
        o := NbDoubleOneLine();
      } else {
        o := NbDoubleMultiLine(n);
      }
      if o == Yes {
        p := p + 1;
        if text[p - 1] != QUOTE {
          if c.FlowOut? {
            return Outcome.Error;
          }
          RewindTo(savedP, 0);
          return No;
        }
      }
    }
  }
}
