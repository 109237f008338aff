/** The parser's reading of tag and URI characters, and what it makes of escaped text. */
module UriReader {
  import opened Wrappers
  import opened CodeUnits
  import opened UriEncoding
  import DoubleQuotedRules

  function HexValue(s: seq<Unit>, p: nat): Option<int> {
    DoubleQuotedRules.HexValue(s, p)
  }

  predicate IsPercent(s: seq<Unit>, p: nat) {
    p < |s| && s[p] == PERCENT
  }

  /** The escape that text starts with, as the parser decodes it: up to four bytes of two hexadecimal digits each. */
  function ReadEscape(s: seq<Unit>): (r: Read)
    ensures r.Read? ==> 0 < r.length <= |s|
  {
    var v1 := HexValue(s, 1);
    if v1.None? then Failed
    else if v1.value < 0x80 then Read(v1.value, 3)
    else
      var v2 := if IsPercent(s, 3) then HexValue(s, 4) else None;
      if v2.None? then Failed
      else if v1.value < 0xE0 then Read(ToChar(v1.value % 32 * 64 + v2.value % 128), 6)
      else
        var v3 := if IsPercent(s, 6) then HexValue(s, 7) else None;
        if v3.None? then Failed
        else if v1.value < 0xF1 then Read(ToChar(v1.value % 16 * 4096 + v2.value % 128 * 64 + v3.value % 128), 9)
        else
          var v4 := if IsPercent(s, 9) then HexValue(s, 10) else None;
          if v4.None? then Failed
          else Read(ToChar(v1.value % 8 * 0x4_0000 + v2.value % 128 * 4096 + v3.value % 128 * 64 + v4.value % 128), 12)
  }

  /** What one character reads as; `None` where reading stops. */
  function ReadChar(s: seq<Unit>): (r: Option<Read>)
    ensures r.Some? && r.value.Read? ==> 0 < r.value.length <= |s|
  {
    if s == [] then None
    else if IsUriChar(s[0]) then Some(Read(s[0], 1))
    else if s[0] == PLUS then Some(Read(SPACE, 1))
    else if s[0] == PERCENT then Some(ReadEscape(s))
    else None
  }

  /** Where reading ends: the text that is left, and the value read. */
  datatype End = End(left: seq<Unit>, value: seq<Unit>)

  /** Reads on from a value; an invalid escape is an error. */
  function ReadAll(s: seq<Unit>, value: seq<Unit>): Option<End>
    decreases |s|
  {
    match ReadChar(s)
    case None => Some(End(s, value))
    case Some(Failed) => None
    case Some(Read(c, length)) => ReadAll(s[length..], value + [c])
  }

  class YamlParser {
    const text: seq<Unit>
    var p: nat
    var stringValue: seq<Unit>

    constructor (text: seq<Unit>)
      ensures this.text == text && p == 0 && stringValue == []
    {
      this.text, p, stringValue := text, 0, [];
    }

    /** One character; an invalid escape is an error. */
    method NsUriChar() returns (matched: bool, error: bool)
      requires p <= |text|
      modifies this
      ensures p <= |text|
      ensures match ReadChar(text[old(p)..])
              case None => !matched && !error && p == old(p) && stringValue == old(stringValue)
              case Some(Failed) => error
              case Some(Read(c, length)) =>
                matched && !error && p == old(p) + length && stringValue == old(stringValue) + [c]
    {
      var s := text[p..];
      error := false;
      if p == |text| {
        return false, false;
      }
      if IsUriChar(text[p]) {
        stringValue := stringValue + [text[p]];
        p := p + 1;
        return true, false;
      }
      if text[p] == PLUS {
        stringValue := stringValue + [SPACE];
        p := p + 1;
        return true, false;
      }
      if text[p] != PERCENT {
        return false, false;
      }
      var r := ReadEscape(s);
      if r.Failed? {
        return false, true;
      }
      stringValue := stringValue + [r.c];
      p := p + r.length;
      return true, false;
    }

    method RepeatNsUriChar() returns (error: bool)
      requires p <= |text|
      modifies this
      ensures p <= |text|
      ensures ReadAll(text[old(p)..], old(stringValue)) == if error then None else Some(End(text[p..], stringValue))
    {
      ghost var all := ReadAll(text[p..], stringValue);
      var matched := true;
      error := false;
      while matched
        invariant p <= |text| && !error && all == ReadAll(text[p..], stringValue)
        invariant !matched ==> ReadChar(text[p..]).None?
        decreases if matched then |text| - p + 1 else 0
      {
        ghost var s := text[p..];
        matched, error := NsUriChar();
        if error {
          return;
        }
        if matched {
          assert s[ReadChar(s).value.length..] == text[p..];
        }
      }
    }
  }

  lemma HexIsRead(c: int, before: seq<Unit>, rest: seq<Unit>)
    requires 0 <= c < 0x100
    ensures HexValue(before + IntToHex(c) + rest, |before| + 1) == Some(c)
    ensures IsPercent(before + IntToHex(c) + rest, |before|)
  {
    var s := before + IntToHex(c) + rest;
    assert s[|before|] == PERCENT && s[|before| + 1] == IntToHex(c)[1] && s[|before| + 2] == IntToHex(c)[2];
    HexDigitsAreRead(c);
  }

  lemma HexDigitsAreRead(c: int)
    requires 0 <= c < 0x100
    ensures DoubleQuotedRules.IsHexDigit(HexDigit(c / 16)) && DoubleQuotedRules.IsHexDigit(HexDigit(c % 16))
    ensures DoubleQuotedRules.HexNibble(HexDigit(c / 16)) * 16 + DoubleQuotedRules.HexNibble(HexDigit(c % 16)) == c
  {}

  lemma OneByteIsRead(a: int, rest: seq<Unit>)
    requires 0 <= a < 0x80
    ensures ReadEscape(IntToHex(a) + rest) == Read(a, 3)
  {
    assert [] + IntToHex(a) + rest == IntToHex(a) + rest;
    HexIsRead(a, [], rest);
  }

  lemma TwoBytesAreRead(a: int, b: int, rest: seq<Unit>)
    requires 0x80 <= a < 0xE0 && 0 <= b < 0x100
    ensures ReadEscape(IntToHex(a) + IntToHex(b) + rest) == Read(ToChar(a % 32 * 64 + b % 128), 6)
  {
    var x, y := IntToHex(a), IntToHex(b);
    assert [] + x + (y + rest) == x + y + rest;
    HexIsRead(a, [], y + rest);
    HexIsRead(b, x, rest);
  }

  lemma ThreeBytesAreRead(a: int, b: int, d: int, rest: seq<Unit>)
    requires 0xE0 <= a < 0xF1 && 0 <= b < 0x100 && 0 <= d < 0x100
    ensures ReadEscape(IntToHex(a) + IntToHex(b) + IntToHex(d) + rest)
            == Read(ToChar(a % 16 * 4096 + b % 128 * 64 + d % 128), 9)
  {
    var x, y, z := IntToHex(a), IntToHex(b), IntToHex(d);
    assert [] + x + (y + z + rest) == x + y + (z + rest) == x + y + z + rest;
    HexIsRead(a, [], y + z + rest);
    HexIsRead(b, x, z + rest);
    HexIsRead(d, x + y, rest);
  }

  lemma UnsafeIsRead(c: Unit, rest: seq<Unit>)
    requires !IsPlain(c) && c != SPACE
    ensures ReadEscape(EscapeChar(c) + rest) == Read(c, |EscapeChar(c)|)
  {
    if c < 0x80 {
      OneByteIsRead(c, rest);
    } else if c < 0x800 {
      UnsafeTwoAreRead(c, rest);
    } else {
      UnsafeThreeAreRead(c, rest);
    }
  }

  lemma UnsafeTwoAreRead(c: Unit, rest: seq<Unit>)
    requires 0x80 <= c < 0x800
    ensures ReadEscape(EscapeChar(c) + rest) == Read(c, |EscapeChar(c)|)
  {
    TwoBytesAreRead(c / 64 % 32 + 0xC0, c % 64 + 0x80, rest);
    TwoBytes(c);
  }

  lemma UnsafeThreeAreRead(c: Unit, rest: seq<Unit>)
    requires 0x800 <= c
    ensures ReadEscape(EscapeChar(c) + rest) == Read(c, |EscapeChar(c)|)
  {
    ThreeBytesAreRead(c / 4096 % 16 + 0xE0, c / 64 % 64 + 0x80, c % 64 + 0x80, rest);
    ThreeBytes(c);
  }

  /** The parser reads every escaped character but a backslash, which is not escaped and stops it. */
  lemma EscapedIsRead(c: Unit, rest: seq<Unit>)
    ensures ReadChar(EscapeChar(c) + rest) == if c == BACKSLASH then None else Some(Read(c, |EscapeChar(c)|))
  {
    if !IsPlain(c) && c != SPACE {
      UnsafeIsRead(c, rest);
      assert (EscapeChar(c) + rest)[0] == EscapeChar(c)[0] == PERCENT;
    } else {
      assert (EscapeChar(c) + rest)[0] == EscapeChar(c)[0];
    }
  }

  lemma EscapedMore(c: Unit, s: seq<Unit>)
    ensures Escape([c] + s) == EscapeChar(c) + Escape(s)
  {
    assert ([c] + s)[1..] == s;
  }

  /** Reading the text of a character and more amounts to reading more. */
  lemma EscapedStep(c: Unit, s: seq<Unit>, rest: seq<Unit>, value: seq<Unit>)
    ensures ReadAll(Escape([c] + s) + rest, value)
            == if c == BACKSLASH then Some(End(Escape([c] + s) + rest, value))
               else ReadAll(Escape(s) + rest, value + [c])
  {
    var e, more := EscapeChar(c), Escape(s) + rest;
    EscapedMore(c, s);
    assert Escape([c] + s) + rest == e + more;
    EscapedIsRead(c, more);
    assert (e + more)[|e|..] == more;
  }

  /** The string up to its first backslash. */
  function UpToBackslash(s: seq<Unit>): (r: seq<Unit>)
    ensures r <= s && (r == s <==> BACKSLASH !in s)
  {
    if s == [] || s[0] == BACKSLASH then [] else [s[0]] + UpToBackslash(s[1..])
  }

  /** The parser recovers the string up to its first backslash, and leaves the rest of the text. */
  lemma {:induction false} EscapedTextIsRead(s: seq<Unit>, rest: seq<Unit>, value: seq<Unit>, end: End)
    requires ReadChar(rest).None?
    requires var u := UpToBackslash(s); end == End(Escape(s[|u|..]) + rest, value + u)
    ensures ReadAll(Escape(s) + rest, value) == Some(end)
  {
    var u := UpToBackslash(s);
    if s == [] {
      assert Escape(s) + rest == rest && value + u == value;
    } else {
      var c, t := s[0], s[1..];
      assert s == [c] + t;
      EscapedStep(c, t, rest, value);
      if c == BACKSLASH {
        assert s[|u|..] == s && value + u == value;
      } else {
        var v := UpToBackslash(t);
        assert u == [c] + v && s[|u|..] == t[|v|..];
        assert value + u == value + [c] + v;
        EscapedTextIsRead(t, rest, value + [c], end);
      }
    }
  }

  /** So it recovers the whole string, and stops at the end of its text, exactly when there is no backslash in it. */
  lemma ParserUndoesEscape(s: seq<Unit>, rest: seq<Unit>)
    requires ReadChar(rest).None?
    ensures ReadAll(Escape(s) + rest, []) == Some(End(rest, s)) <==> BACKSLASH !in s
  {
    var u := UpToBackslash(s);
    var end := End(Escape(s[|u|..]) + rest, u);
    assert [] + u == u;
    EscapedTextIsRead(s, rest, [], end);
    if u == s {
      assert s[|u|..] == [];
      assert end.left == rest;
    } else {
      assert end.value != s;
    }
  }

  predicate IsHex(c: Unit) {
    '0' as int <= c <= '9' as int || 'A' as int <= c <= 'F' as int || 'a' as int <= c <= 'f' as int
  }

  /** A percent sign and two hexadecimal digits. */
  predicate ByteIsAt(s: seq<Unit>, p: nat) {
    p + 2 < |s| && s[p] == PERCENT && IsHex(s[p + 1]) && IsHex(s[p + 2])
  }

  /** How many bytes a first byte calls for. */
  function BytesFor(first: int): nat {
    if first < 0x80 then 1 else if first < 0xE0 then 2 else if first < 0xF1 then 3 else 4
  }

  /** An escape is invalid exactly if one of the bytes that its first one calls for is missing. */
  lemma InvalidIffByteMissing(s: seq<Unit>)
    requires s != [] && s[0] == PERCENT
    ensures ByteIsAt(s, 0) <==> HexValue(s, 1).Some?
    ensures !ByteIsAt(s, 0) ==> ReadEscape(s).Failed?
    ensures ByteIsAt(s, 0) ==>
      var n := BytesFor(HexValue(s, 1).value);
      && (ReadEscape(s).Failed? <==> exists k :: 0 <= k < n && !ByteIsAt(s, 3 * k))
      && (ReadEscape(s).Read? ==> ReadEscape(s).length == 3 * n)
  {
    if ByteIsAt(s, 0) {
      var n := BytesFor(HexValue(s, 1).value);
      assert ByteIsAt(s, 3 * 0);
      assert ByteIsAt(s, 3) <==> IsPercent(s, 3) && HexValue(s, 4).Some?;
      assert ByteIsAt(s, 6) <==> IsPercent(s, 6) && HexValue(s, 7).Some?;
      assert ByteIsAt(s, 9) <==> IsPercent(s, 9) && HexValue(s, 10).Some?;
      assert n > 1 && !ByteIsAt(s, 3) ==> !ByteIsAt(s, 3 * 1);
      assert n > 2 && !ByteIsAt(s, 6) ==> !ByteIsAt(s, 3 * 2);
      assert n > 3 && !ByteIsAt(s, 9) ==> !ByteIsAt(s, 3 * 3);
    }
  }
}
