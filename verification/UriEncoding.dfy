/** Escaping text for tags and URIs, and the two decoders of it: the library's own and the parser's. */
module UriEncoding {
  import opened Wrappers
  import opened CodeUnits

  const PERCENT: Unit := 0x25
  const PLUS: Unit := 0x2B

  predicate IsLetterOrDigit(c: Unit) {
    0x30 <= c <= 0x39 || 0x41 <= c <= 0x5A || 0x61 <= c <= 0x7A
  }

  /** The characters - _ . ! ~ * ' ( ) ; / ? : @ & = $ , [ ] */
  predicate IsMark(c: Unit) {
    || c == 0x2D || c == 0x5F || c == 0x2E || c == 0x21 || c == 0x7E || 0x27 <= c <= 0x2A || c == 0x3B || c == 0x2F
    || c == 0x3F || c == 0x3A || c == 0x40 || c == 0x26 || c == 0x3D || c == 0x24 || c == 0x2C || c == 0x5B || c == 0x5D
  }

  /** Characters that are not escaped. */
  predicate IsPlain(c: Unit) {
    IsLetterOrDigit(c) || IsMark(c) || c == BACKSLASH
  }

  /** Characters that the parser takes as they are. */
  predicate IsUriChar(c: Unit) {
    IsLetterOrDigit(c) || IsMark(c) || c == 0x23
  }

  /** Upper-case hexadecimal digit. */
  function HexDigit(d: int): Unit
    requires 0 <= d < 16
  {
    if d < 10 then 0x30 + d else 0x41 + d - 10
  }

  function IntToHex(c: int): seq<Unit>
    requires 0 <= c < 0x100
  {
    [PERCENT, HexDigit(c / 16), HexDigit(c % 16)]
  }

  /** A character in one, two or three escaped bytes. */
  function EscapeChar(c: Unit): seq<Unit> {
    if IsPlain(c) then [c]
    else if c == SPACE then [PLUS]
    else if c < 0x80 then IntToHex(c)
    else if c < 0x800 then IntToHex(c / 64 % 32 + 0xC0) + IntToHex(c % 64 + 0x80)
    else IntToHex(c / 4096 % 16 + 0xE0) + IntToHex(c / 64 % 64 + 0x80) + IntToHex(c % 64 + 0x80)
  }

  function Escape(s: seq<Unit>): seq<Unit> {
    if s == [] then [] else EscapeChar(s[0]) + Escape(s[1..])
  }

  /** The value of any character as a hexadecimal digit. */
  function HexToInt(c: Unit): int {
    if c <= 0x39 then c - 0x30 else if c < 0x5A then c - 0x41 + 10 else c - 0x61 + 10
  }

  /** The byte in the two characters at a position. */
  function ByteAt(s: seq<Unit>, p: nat): Option<int> {
    if p + 1 < |s| then Some(HexToInt(s[p]) * 16 + HexToInt(s[p + 1])) else None
  }

  function ToChar(i: int): Unit {
    i % 0x1_0000
  }

  /** A character read from an escape, and the length of the escape. */
  datatype Read = Read(c: Unit, length: nat) | Failed

  /** The escape that text starts with, as the library decodes it; missing characters and a fourth byte are errors. */
  function UnescapeChar(s: seq<Unit>): (r: Read)
    ensures r.Read? ==> 0 < r.length <= |s|
  {
    var c0 := ByteAt(s, 1);
    if c0.None? then Failed
    else if c0.value < 0x80 then Read(ToChar(c0.value), 3)
    else
      var c1 := ByteAt(s, 4);
      if c1.None? then Failed
      else if c0.value < 0xE0 then Read(ToChar(c0.value % 32 * 64 + c1.value % 128), 6)
      else
        var c2 := ByteAt(s, 7);
        if c2.None? then Failed
        else if c0.value < 0xF1 then Read(ToChar(c0.value % 16 * 4096 + c1.value % 128 * 64 + c2.value % 128), 9)
        else Failed
  }

  function After(c: Unit, rest: Option<seq<Unit>>): Option<seq<Unit>> {
    if rest.Some? then Some([c] + rest.value) else None
  }

  /** What the library makes of text in which spaces have been put for plus signs. */
  function Unescaped(s: seq<Unit>): Option<seq<Unit>>
    decreases |s|
  {
    if s == [] then Some([])
    else if s[0] != PERCENT then After(s[0], Unescaped(s[1..]))
    else
      var r := UnescapeChar(s);
      if r.Failed? then None else After(r.c, Unescaped(s[r.length..]))
  }

  function Spaced(s: seq<Unit>): (r: seq<Unit>)
    ensures |r| == |s| && forall i | 0 <= i < |s| :: r[i] == if s[i] == PLUS then SPACE else s[i]
  {
    seq(|s|, i requires 0 <= i < |s| => if s[i] == PLUS then SPACE else s[i])
  }

  method Unescape(text: seq<Unit>) returns (result: Option<seq<Unit>>)
    ensures result == Unescaped(Spaced(text))
  {
    var s := Spaced(text);
    var value: seq<Unit> := [];
    var p := 0;
    ghost var all := Unescaped(s);
    assert s[0..] == s;
    ThenNothing(all);
    while p < |s|
      invariant p <= |s| && all == Then(value, Unescaped(s[p..]))
      decreases |s| - p
    {
      ThenAfter(value, s[p..]);
      if s[p] != PERCENT {
        value := value + [s[p]];
        p := p + 1;
      } else {
        var r := UnescapeChar(s[p..]);
        if r.Failed? {
          return None;
        }
        assert s[p..][r.length..] == s[p + r.length..];
        value := value + [r.c];
        p := p + r.length;
      }
    }
    assert value + [] == value;
    return Some(value);
  }

  function Then(value: seq<Unit>, rest: Option<seq<Unit>>): Option<seq<Unit>> {
    if rest.Some? then Some(value + rest.value) else None
  }

  lemma ThenNothing(rest: Option<seq<Unit>>)
    ensures Then([], rest) == rest
  {
    assert rest.Some? ==> [] + rest.value == rest.value;
  }

  lemma ThenAfter(value: seq<Unit>, s: seq<Unit>)
    requires s != []
    ensures s[0] != PERCENT ==> Then(value, Unescaped(s)) == Then(value + [s[0]], Unescaped(s[1..]))
    ensures s[0] == PERCENT ==>
      var r := UnescapeChar(s);
      Then(value, Unescaped(s)) == if r.Failed? then None else Then(value + [r.c], Unescaped(s[r.length..]))
  {
    if s[0] != PERCENT {
      ThenOne(value, s[0], Unescaped(s[1..]));
    } else if UnescapeChar(s).Read? {
      ThenOne(value, UnescapeChar(s).c, Unescaped(s[UnescapeChar(s).length..]));
    }
  }

  lemma ThenOne(value: seq<Unit>, c: Unit, rest: Option<seq<Unit>>)
    ensures Then(value, After(c, rest)) == Then(value + [c], rest)
  {
    if rest.Some? {
      assert value + ([c] + rest.value) == value + [c] + rest.value;
    }
  }

  lemma HexIsRead(c: int)
    requires 0 <= c < 0x100
    ensures HexToInt(HexDigit(c / 16)) * 16 + HexToInt(HexDigit(c % 16)) == c
  {}

  lemma HexBytesAreRead(s: seq<Unit>, k: nat, c: int)
    requires 0 <= c < 0x100 && k + 1 < |s| && s[k] == HexDigit(c / 16) && s[k + 1] == HexDigit(c % 16)
    ensures ByteAt(s, k) == Some(c)
  {
    HexIsRead(c);
  }

  /** What the bytes of a character decode to. */
  lemma TwoBytes(c: Unit)
    requires 0x80 <= c < 0x800
    ensures ToChar((c / 64 % 32 + 0xC0) % 32 * 64 + (c % 64 + 0x80) % 128) == c
  {}

  lemma ThreeBytes(c: Unit)
    requires 0x800 <= c
    ensures ToChar((c / 4096 % 16 + 0xE0) % 16 * 4096 + (c / 64 % 64 + 0x80) % 128 * 64 + (c % 64 + 0x80) % 128) == c
  {
    Digits(c);
    assert (c / 4096 + 0xE0) % 16 == c / 4096;
    assert (c / 64 % 64 + 0x80) % 128 == c / 64 % 64;
    assert (c % 64 + 0x80) % 128 == c % 64;
  }

  lemma Digits(c: Unit)
    ensures c / 4096 % 16 == c / 4096 < 16
    ensures c == c / 4096 * 4096 + c / 64 % 64 * 64 + c % 64
  {
    var b := c / 64;
    assert c == 64 * b + c % 64;
    assert b == 64 * (b / 64) + b % 64 && b / 64 == c / 4096;
  }

  lemma HexIsAt(c: int, before: seq<Unit>, rest: seq<Unit>)
    requires 0 <= c < 0x100
    ensures ByteAt(before + IntToHex(c) + rest, |before| + 1) == Some(c)
  {
    var s := before + IntToHex(c) + rest;
    assert s[|before| + 1] == IntToHex(c)[1] && s[|before| + 2] == IntToHex(c)[2];
    HexBytesAreRead(s, |before| + 1, c);
  }

  lemma OneByteIsRead(a: int, rest: seq<Unit>)
    requires 0 <= a < 0x80
    ensures UnescapeChar(IntToHex(a) + rest) == Read(a, 3)
  {
    assert [] + IntToHex(a) + rest == IntToHex(a) + rest;
    HexIsAt(a, [], rest);
  }

  lemma TwoBytesAreRead(a: int, b: int, rest: seq<Unit>)
    requires 0x80 <= a < 0xE0 && 0 <= b < 0x100
    ensures UnescapeChar(IntToHex(a) + IntToHex(b) + rest) == Read(ToChar(a % 32 * 64 + b % 128), 6)
  {
    var x, y := IntToHex(a), IntToHex(b);
    assert [] + x + (y + rest) == x + y + rest;
    HexIsAt(a, [], y + rest);
    HexIsAt(b, x, rest);
  }

  lemma ThreeBytesAreRead(a: int, b: int, d: int, rest: seq<Unit>)
    requires 0xE0 <= a < 0xF1 && 0 <= b < 0x100 && 0 <= d < 0x100
    ensures UnescapeChar(IntToHex(a) + IntToHex(b) + IntToHex(d) + rest)
            == Read(ToChar(a % 16 * 4096 + b % 128 * 64 + d % 128), 9)
  {
    var x, y, z := IntToHex(a), IntToHex(b), IntToHex(d);
    assert [] + x + (y + z + rest) == x + y + (z + rest) == x + y + z + rest;
    HexIsAt(a, [], y + z + rest);
    HexIsAt(b, x, z + rest);
    HexIsAt(d, x + y, rest);
  }

  lemma EscapeIsRead(c: Unit, rest: seq<Unit>)
    requires !IsPlain(c) && c != SPACE
    ensures UnescapeChar(EscapeChar(c) + rest) == Read(c, |EscapeChar(c)|)
  {
    if c < 0x80 {
      OneByteIsRead(c, rest);
    } else if c < 0x800 {
      TwoBytesAreRead(c / 64 % 32 + 0xC0, c % 64 + 0x80, rest);
      TwoBytes(c);
    } else {
      ThreeBytesAreRead(c / 4096 % 16 + 0xE0, c / 64 % 64 + 0x80, c % 64 + 0x80, rest);
      ThreeBytes(c);
    }
  }

  lemma SpacedBoth(a: seq<Unit>, b: seq<Unit>)
    ensures Spaced(a + b) == Spaced(a) + Spaced(b)
  {}

  lemma SpacedEscape(c: Unit)
    ensures Spaced(EscapeChar(c)) == if c == SPACE then [SPACE] else EscapeChar(c)
  {
    var e := EscapeChar(c);
    if c != SPACE {
      forall i | 0 <= i < |e| ensures e[i] != PLUS {}
      assert Spaced(e) == e;
    }
  }

  /** The library's decoder undoes escaping, for every string. */
  lemma {:induction false} UnescapeUndoesEscape(s: seq<Unit>)
    ensures Unescaped(Spaced(Escape(s))) == Some(s)
  {
    if s != [] {
      var c, rest := s[0], Spaced(Escape(s[1..]));
      UnescapeUndoesEscape(s[1..]);
      SpacedBoth(EscapeChar(c), Escape(s[1..]));
      SpacedEscape(c);
      var t := Spaced(EscapeChar(c)) + rest;
      assert s == [c] + s[1..];
      if IsPlain(c) || c == SPACE {
        assert t[0] == c && t[1..] == rest;
      } else {
        EscapeIsRead(c, rest);
        assert t[0] == PERCENT && t[|EscapeChar(c)|..] == rest;
      }
    }
  }

  method EscapeThenUnescape(s: seq<Unit>) returns (result: Option<seq<Unit>>)
    ensures result == Some(s)
  {
    UnescapeUndoesEscape(s);
    result := Unescape(Escape(s));
  }

  /** The characters that are not escaped: letters, digits and these. */
  predicate IsKept(c: Unit) {
    || '0' as int <= c <= '9' as int || 'A' as int <= c <= 'Z' as int || 'a' as int <= c <= 'z' as int
    || exists ch :: ch in "-_.!~*'()\\;/?:@&=$,[]" && c == ch as int
  }

  /** A space is written as a plus sign, and every other character that is escaped starts with a percent sign. */
  lemma EscapeKeepsExactly(c: Unit)
    ensures EscapeChar(c) == [c] <==> IsKept(c)
    ensures !IsKept(c) ==> if c == ' ' as int then EscapeChar(c) == ['+' as int] else EscapeChar(c)[0] == '%' as int
  {
    var kept := "-_.!~*'()\\;/?:@&=$,[]";
    if IsPlain(c) && !IsLetterOrDigit(c) {
      assert (c as char) in kept;
    }
  }

  /** Text of such characters alone is left as it is. */
  lemma {:induction false} KeptTextIsNotEscaped(s: seq<Unit>)
    requires forall c | c in s :: IsKept(c)
    ensures Escape(s) == s
  {
    if s != [] {
      EscapeKeepsExactly(s[0]);
      KeptTextIsNotEscaped(s[1..]);
    }
  }
}
