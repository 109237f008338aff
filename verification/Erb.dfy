/** The template compiler: a scanner that looks for tags, and a compiler that turns its tokens into commands. */
module Erb {
  import opened Wrappers

  /** A command of the compiled script: print a text, print the value of an expression, or run a statement. */
  datatype Command = Put(text: string) | Insert(code: string) | Run(code: string)

  datatype Kind = Statement | Expression | Comment

  /** What the scanner finds at a position: a start tag, an end tag, either with a second percent sign, or nothing. */
  datatype Tag = NoTag | Start(kind: Kind) | StartEscape | End | EndEscape

  function TextOf(tag: Tag): (t: string)
    ensures tag.NoTag? <==> t == ""
  {
    match tag
    case NoTag => ""
    case Start(Statement) => "<%"
    case Start(Expression) => "<%="
    case Start(Comment) => "<%#"
    case StartEscape => "<%%"
    case End => "%>"
    case EndEscape => "%%>"
  }

  /** A token is the text before a tag, or a tag; that text is never a tag itself. */
  datatype Token = Text(text: string) | Found(tag: Tag)

  predicate IsAt(s: string, p: nat, c: char) {
    p < |s| && s[p] == c
  }

  /** The tag at a position: outside a tag start tags are looked for, the longer ones first, inside end tags. */
  function TagAt(inside: bool, s: string, p: nat): (t: Tag)
    ensures p + |TextOf(t)| <= |s| || t.NoTag?
  {
    if inside then
      if IsAt(s, p, '%') && IsAt(s, p + 1, '%') && IsAt(s, p + 2, '>') then EndEscape
      else if IsAt(s, p, '%') && IsAt(s, p + 1, '>') then End
      else NoTag
    else if !IsAt(s, p, '<') || !IsAt(s, p + 1, '%') then NoTag
    else if IsAt(s, p + 2, '%') then StartEscape
    else if IsAt(s, p + 2, '=') then Start(Expression)
    else if IsAt(s, p + 2, '#') then Start(Comment)
    else Start(Statement)
  }

  /** Where the next tag is: the end of the text if there is none. */
  function FindTag(inside: bool, s: string, p: nat): (e: nat)
    requires p <= |s|
    ensures p <= e <= |s|
    decreases |s| - p
  {
    if p == |s| || !TagAt(inside, s, p).NoTag? then p else FindTag(inside, s, p + 1)
  }

  /** Collects commands, line by line. */
  class Buffer {
    var line: seq<Command>
    var script: seq<seq<Command>>
    const postCmd: seq<Command>
    /** All commands pushed so far. */
    ghost var commands: seq<Command>

    constructor (preCmd: seq<Command>, postCmd: seq<Command>)
      ensures Valid() && commands == preCmd && this.postCmd == postCmd
    {
      line, script, commands := preCmd, [], preCmd;
      this.postCmd := postCmd;
    }

    ghost predicate Valid()
      reads this
    {
      commands == Joined(script) + line
    }

    method Push(c: Command)
      requires Valid()
      modifies this
      ensures Valid() && commands == old(commands) + [c]
    {
      line := line + [c];
      commands := commands + [c];
    }

    /** Ends a line of the script. */
    method Cr()
      requires Valid()
      modifies this
      ensures Valid() && commands == old(commands) && line == []
    {
      JoinedMore(script, line);
      script := script + [line];
      line := [];
    }

    method Close()
      requires Valid()
      modifies this
      ensures Valid() && commands == old(commands) + postCmd && Joined(script) == commands && line == []
    {
      for i := 0 to |postCmd|
        invariant Valid() && commands == old(commands) + postCmd[..i]
      {
        Push(postCmd[i]);
      }
      JoinedMore(script, line);
      script := script + [line];
      line := [];
    }
  }

  function Joined(lines: seq<seq<Command>>): seq<Command> {
    if lines == [] then [] else lines[0] + Joined(lines[1..])
  }

  lemma {:induction false} JoinedMore(lines: seq<seq<Command>>, line: seq<Command>)
    ensures Joined(lines + [line]) == Joined(lines) + line
  {
    if lines == [] {
      assert lines + [line] == [line];
    } else {
      assert (lines + [line])[1..] == lines[1..] + [line];
      JoinedMore(lines[1..], line);
    }
  }

  /** The compiler between two tokens: the tag it is in, and the text collected. */
  datatype State = State(stag: Option<Kind>, content: string, commands: seq<Command>)

  /** The command for a tag that ends. */
  function TagCommand(stag: Kind, content: string): seq<Command> {
    match stag
    case Statement => [Run(if content != "" && content[|content| - 1] == '\n'
        then content[..|content| - 1] else content)]
    case Expression => [Insert(content)]
    case Comment => []
  }

  function Flushed(s: State): seq<Command> {
    if s.content != "" then s.commands + [Put(s.content)] else s.commands
  }

  /** What the compiler does with text. */
  function ConsumeText(s: State, text: string): State {
    if s.stag.None? && text == "\n" then State(None, "", s.commands + [Put(s.content + "\n")])
    else s.(content := s.content + text)
  }

  /** What the compiler does with a tag. */
  function ConsumeTag(s: State, tag: Tag): State {
    match tag
    case NoTag => s
    case Start(kind) => if s.stag.None? then State(Some(kind), "", Flushed(s))
      else s.(content := s.content + TextOf(tag))
    case StartEscape => s.(content := s.content + if s.stag.None? then "<%" else TextOf(tag))
    case End =>
      if s.stag.Some? then State(None, "", s.commands + TagCommand(s.stag.value, s.content))
      else s.(content := s.content + TextOf(tag))
    case EndEscape => s.(content := s.content + if s.stag.Some? then "%>" else TextOf(tag))
  }

  function Consume(s: State, token: Token): State {
    match token
    case Text(text) => ConsumeText(s, text)
    case Found(tag) => ConsumeTag(s, tag)
  }

  class Compiler {
    const out: Buffer
    var stag: Option<Kind>
    var content: string

    constructor (preCmd: seq<Command>, postCmd: seq<Command>)
      ensures fresh(out) && out.Valid() && Now() == State(None, "", preCmd) && out.postCmd == postCmd
    {
      out := new Buffer(preCmd, postCmd);
      stag, content := None, "";
    }

    ghost function Now(): State
      reads this, out
    {
      State(stag, content, out.commands)
    }

    method FlushContent()
      requires out.Valid()
      modifies this, out
      ensures out.Valid() && Now() == State(old(stag), "", Flushed(old(Now())))
    {
      if |content| > 0 {
        out.Push(Put(content));
      }
      content := "";
    }

    method TextToken(text: string)
      requires out.Valid()
      modifies this, out
      ensures out.Valid() && Now() == ConsumeText(old(Now()), text)
    {
      content := content + text;
      if stag == None && text == "\n" {
        out.Push(Put(content));
        content := "";
      }
    }

    method TagToken(tag: Tag)
      requires out.Valid()
      modifies this, out
      ensures out.Valid() && Now() == ConsumeTag(old(Now()), tag)
    {
      if stag == None {
        match tag {
          case Start(kind) =>
            FlushContent();
            stag := Some(kind);
          case StartEscape =>
            content := content + "<%";
          case _ =>
            content := content + TextOf(tag);
        }
      } else {
        match tag {
          case End =>
            EndOfTag();
            stag := None;
            content := "";
          case EndEscape =>
            content := content + "%>";
          case _ =>
            content := content + TextOf(tag);
        }
      }
    }

    method EndOfTag()
      requires out.Valid() && stag.Some?
      modifies this, out
      ensures out.Valid() && stag == old(stag)
              && out.commands == old(out.commands) + TagCommand(stag.value, old(content))
    {
      match stag.value {
        case Statement =>
          if content != "" && content[|content| - 1] == '\n' {
            content := content[..|content| - 1];
            out.Push(Run(content));
            out.Cr();
          } else {
            out.Push(Run(content));
          }
        case Expression =>
          out.Push(Insert(content));
        case Comment =>
      }
    }

    /** Hands over the text before the next tag and the tag. */
    method ScanOnce(s: string, pos: nat) returns (next: nat)
      requires out.Valid() && pos < |s|
      modifies this, out
      ensures out.Valid() && (next, Now()) == Scanned(s, pos, old(Now())) && pos < next <= |s|
    {
      var e := FindTag(stag.Some?, s, pos);
      var tag := TagAt(stag.Some?, s, e);
      TextToken(s[pos..e]);
      TagToken(tag);
      return e + |TextOf(tag)|;
    }

    /** Looks for tags in turn, a start tag outside and an end tag inside a tag, and hands the tokens over. */
    method Compile(s: string)
      requires out.Valid() && stag == None && content == ""
      modifies this, out
      ensures Joined(out.script) == Flushed(ConsumeAll(old(Now()), Tokens(s, 0, old(Now())))) + out.postCmd
    {
      ghost var start := Now();
      var pos := 0;
      while pos < |s|
        invariant pos <= |s| && out.Valid()
        invariant ConsumeAll(Now(), Tokens(s, pos, Now())) == ConsumeAll(start, Tokens(s, 0, start))
        decreases |s| - pos
      {
        TokensNext(s, pos, Now());
        pos := ScanOnce(s, pos);
      }
      FlushContent();
      out.Close();
    }
  }

  /** Where the scanner goes on, and the compiler's state after the text before the next tag and the tag. */
  function Scanned(s: string, p: nat, state: State): (r: (nat, State))
    requires p < |s|
    ensures p < r.0 <= |s|
  {
    var e := FindTag(state.stag.Some?, s, p);
    var tag := TagAt(state.stag.Some?, s, e);
    (e + |TextOf(tag)|, ConsumeTag(ConsumeText(state, s[p..e]), tag))
  }

  /** The text before the next tag and the tag itself, in turn; what is looked for depends on what came before. */
  function Tokens(s: string, p: nat, state: State): seq<Token>
    requires p <= |s|
    decreases |s| - p
  {
    if p == |s| then []
    else
      var e := FindTag(state.stag.Some?, s, p);
      var (next, after) := Scanned(s, p, state);
      [Text(s[p..e]), Found(TagAt(state.stag.Some?, s, e))] + Tokens(s, next, after)
  }

  function ConsumeAll(s: State, tokens: seq<Token>): State
    decreases |tokens|
  {
    if tokens == [] then s else ConsumeAll(Consume(s, tokens[0]), tokens[1..])
  }

  lemma TokensNext(s: string, p: nat, state: State)
    requires p < |s|
    ensures var (next, after) := Scanned(s, p, state);
            ConsumeAll(state, Tokens(s, p, state)) == ConsumeAll(after, Tokens(s, next, after))
  {
    var e := FindTag(state.stag.Some?, s, p);
    var (next, after) := Scanned(s, p, state);
    ConsumeTwo(state, s[p..e], TagAt(state.stag.Some?, s, e), Tokens(s, next, after));
  }

  lemma ConsumeTwo(s: State, text: string, tag: Tag, rest: seq<Token>)
    ensures ConsumeAll(s, [Text(text), Found(tag)] + rest) == ConsumeAll(ConsumeTag(ConsumeText(s, text), tag), rest)
  {
    var tokens := [Text(text), Found(tag)] + rest;
    assert tokens[1..] == [Found(tag)] + rest && tokens[1..][1..] == rest;
    assert Consume(Consume(s, tokens[0]), tokens[1..][0]) == ConsumeTag(ConsumeText(s, text), tag);
  }

  function Concat(tokens: seq<Token>): string {
    if tokens == [] then ""
    else (match tokens[0] case Text(text) => text case Found(tag) => TextOf(tag)) + Concat(tokens[1..])
  }

  lemma TagIsText(inside: bool, s: string, p: nat)
    requires p <= |s|
    ensures var t := TextOf(TagAt(inside, s, p)); s[p..p + |t|] == t
  {}

  /** The scanner's tokens are the whole text, in pieces. */
  lemma {:induction false} TokensAreText(s: string, p: nat, state: State)
    requires p <= |s|
    ensures Concat(Tokens(s, p, state)) == s[p..]
    decreases |s| - p
  {
    if p < |s| {
      var e := FindTag(state.stag.Some?, s, p);
      var (next, after) := Scanned(s, p, state);
      TokensAreText(s, next, after);
      ConcatTwo(s[p..e], TagAt(state.stag.Some?, s, e), Tokens(s, next, after));
      TextAndTag(state.stag.Some?, s, p, e);
    }
  }

  lemma TextAndTag(inside: bool, s: string, p: nat, e: nat)
    requires p <= e <= |s|
    ensures var t := TextOf(TagAt(inside, s, e)); s[p..e] + t + s[e + |t|..] == s[p..]
  {
    TagIsText(inside, s, e);
  }

  lemma ConcatTwo(text: string, tag: Tag, rest: seq<Token>)
    ensures Concat([Text(text), Found(tag)] + rest) == text + TextOf(tag) + Concat(rest)
  {
    var tokens := [Text(text), Found(tag)] + rest;
    assert tokens[1..] == [Found(tag)] + rest && tokens[1..][1..] == rest;
  }

  /** Text before a tag is none of the tags that are looked for. */
  lemma TextIsNoTag(inside: bool, s: string, p: nat, tag: Tag)
    requires p <= |s| && (if inside then tag.End? || tag.EndEscape? else tag.Start? || tag.StartEscape?)
    ensures s[p..FindTag(inside, s, p)] != TextOf(tag)
  {
    var e := FindTag(inside, s, p);
    if e > p + 1 {
      assert s[p..e][0] == s[p] && s[p..e][1] == s[p + 1];
      if e > p + 2 {
        assert s[p..e][2] == s[p + 2];
      }
    }
  }
}
