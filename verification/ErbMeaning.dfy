/** What a template means, read character by character, and that the compiled commands do just that. */
module ErbMeaning {
  import opened Wrappers
  import opened Erb

  /** What happens when a template is filled in: a character is printed, a value is printed, or code is run. */
  datatype Event = Printed(c: char) | Value(code: string) | Ran(code: string)

  datatype Mode = Outside | Inside(kind: Kind, code: string)

  /** The events of a template, and the code of its last tag if that is not closed. */
  datatype Meant = Meant(events: seq<Event>, unclosed: Option<string>)

  function Chars(t: string): seq<Event> {
    seq(|t|, i requires 0 <= i < |t| => Printed(t[i]))
  }

  /** A line break just before the end of a statement is none of its code. */
  function CodeOf(code: string): string {
    if code != "" && code[|code| - 1] == '\n' then code[..|code| - 1] else code
  }

  function EventsOfTag(kind: Kind, code: string): seq<Event> {
    match kind
    case Statement => [Ran(CodeOf(code))]
    case Expression => [Value(code)]
    case Comment => []
  }

  function Before(events: seq<Event>, m: Meant): Meant {
    m.(events := events + m.events)
  }

  /**
   * Outside a tag text stands for itself but for a start tag with a second percent sign; inside one, code goes up to
   * the end tag, and an end tag with a second percent sign is code.
   */
  function Meaning(s: string, p: nat, mode: Mode): Meant
    requires p <= |s|
    decreases |s| - p
  {
    if p == |s| then Meant([], if mode.Inside? then Some(mode.code) else None)
    else if mode.Outside? then
      if s[p] != '<' || p + 1 == |s| || s[p + 1] != '%' then Before([Printed(s[p])], Meaning(s, p + 1, mode))
      else if p + 2 < |s| && s[p + 2] == '%' then Before([Printed('<'), Printed('%')], Meaning(s, p + 3, mode))
      else if p + 2 < |s| && s[p + 2] == '=' then Meaning(s, p + 3, Inside(Expression, ""))
      else if p + 2 < |s| && s[p + 2] == '#' then Meaning(s, p + 3, Inside(Comment, ""))
      else Meaning(s, p + 2, Inside(Statement, ""))
    else if s[p] == '%' && p + 2 < |s| && s[p + 1] == '%' && s[p + 2] == '>' then
      Meaning(s, p + 3, mode.(code := mode.code + "%>"))
    else if s[p] == '%' && p + 1 < |s| && s[p + 1] == '>' then
      Before(EventsOfTag(mode.kind, mode.code), Meaning(s, p + 2, Outside))
    else Meaning(s, p + 1, mode.(code := mode.code + [s[p]]))
  }

  function EventsOf(c: Command): seq<Event> {
    match c
    case Put(text) => Chars(text)
    case Insert(code) => [Value(code)]
    case Run(code) => [Ran(code)]
  }

  /** The events of commands run in order. */
  function EventsOfAll(cs: seq<Command>): seq<Event> {
    if cs == [] then [] else EventsOf(cs[0]) + EventsOfAll(cs[1..])
  }

  lemma {:induction false} EventsOfMore(a: seq<Command>, b: seq<Command>)
    ensures EventsOfAll(a + b) == EventsOfAll(a) + EventsOfAll(b)
  {
    if a == [] {
      assert a + b == b;
    } else {
      assert (a + b)[1..] == a[1..] + b;
      EventsOfMore(a[1..], b);
    }
  }

  lemma EventsOfOne(a: seq<Command>, c: Command)
    ensures EventsOfAll(a + [c]) == EventsOfAll(a) + EventsOf(c)
  {
    EventsOfMore(a, [c]);
    assert EventsOfAll([c]) == EventsOf(c) + EventsOfAll([c][1..]) == EventsOf(c);
  }

  lemma OneCharIsPrinted(s: string, p: nat)
    requires p < |s| && TagAt(false, s, p) == NoTag
    ensures Meaning(s, p, Outside) == Before([Printed(s[p])], Meaning(s, p + 1, Outside))
  {}

  lemma {:induction false} TextIsPrinted(s: string, p: nat)
    requires p <= |s|
    ensures var e := FindTag(false, s, p);
            Meaning(s, p, Outside) == Before(Chars(s[p..e]), Meaning(s, e, Outside))
    decreases |s| - p
  {
    var e := FindTag(false, s, p);
    if p < e {
      TextIsPrinted(s, p + 1);
      OneCharIsPrinted(s, p);
      assert Chars(s[p..e]) == [Printed(s[p])] + Chars(s[p + 1..e]);
    } else {
      assert Chars(s[p..e]) == [];
    }
  }

  lemma OneCharIsCollected(s: string, p: nat, kind: Kind, code: string)
    requires p < |s| && TagAt(true, s, p) == NoTag
    ensures Meaning(s, p, Inside(kind, code)) == Meaning(s, p + 1, Inside(kind, code + [s[p]]))
  {}

  lemma {:induction false} CodeIsCollected(s: string, p: nat, kind: Kind, code: string)
    requires p <= |s|
    ensures var e := FindTag(true, s, p);
            Meaning(s, p, Inside(kind, code)) == Meaning(s, e, Inside(kind, code + s[p..e]))
    decreases |s| - p
  {
    var e := FindTag(true, s, p);
    if p < e {
      CodeIsCollected(s, p + 1, kind, code + [s[p]]);
      OneCharIsCollected(s, p, kind, code);
      assert code + s[p..e] == code + [s[p]] + s[p + 1..e];
    } else {
      assert code + s[p..e] == code;
    }
  }

  /** The compiler is in the mode of the reader. */
  ghost predicate InMode(state: State, mode: Mode) {
    match mode
    case Outside => state.stag == None
    case Inside(kind, code) => state.stag == Some(kind) && state.content == code
  }

  /** The events of the commands so far, and of the text that is still to be put. */
  function EventsSoFar(state: State): seq<Event> {
    EventsOfAll(state.commands) + if state.stag.None? then Chars(state.content) else []
  }

  lemma CharsOfBoth(a: string, b: string)
    ensures Chars(a + b) == Chars(a) + Chars(b)
  {}

  lemma FlushedKeeps(state: State)
    requires state.stag == None
    ensures EventsOfAll(Flushed(state)) == EventsSoFar(state)
  {
    if state.content != "" {
      EventsOfOne(state.commands, Put(state.content));
    }
  }

  /** Text is printed. */
  lemma TextConsumed(state: State, text: string)
    requires state.stag == None
    ensures var after := ConsumeText(state, text);
            after.stag == None && EventsSoFar(after) == EventsSoFar(state) + Chars(text)
  {
    CharsOfBoth(state.content, text);
    if text == "\n" {
      EventsOfOne(state.commands, Put(state.content + "\n"));
    }
  }

  /** The events so far with those that are left, and the code left unclosed. */
  function AllOf(s: string, p: nat, state: State, mode: Mode): Meant
    requires p <= |s|
  {
    Before(EventsSoFar(state), Meaning(s, p, mode))
  }

  lemma Associative(a: seq<Event>, b: seq<Event>, c: seq<Event>)
    ensures a + (b + c) == a + b + c
  {}

  /** Text up to the next tag keeps what all the events will be. */
  lemma TextKept(s: string, p: nat, state: State)
    requires p <= |s| && InMode(state, Outside)
    ensures var e := FindTag(false, s, p);
            var after := ConsumeText(state, s[p..e]);
            InMode(after, Outside) && AllOf(s, e, after, Outside) == AllOf(s, p, state, Outside)
  {
    var e := FindTag(false, s, p);
    TextIsPrinted(s, p);
    TextConsumed(state, s[p..e]);
    Associative(EventsSoFar(state), Chars(s[p..e]), Meaning(s, e, Outside).events);
  }

  lemma CodeKept(s: string, p: nat, state: State, kind: Kind, code: string)
    requires p <= |s| && InMode(state, Inside(kind, code))
    ensures var e := FindTag(true, s, p);
            var after, mode := ConsumeText(state, s[p..e]), Inside(kind, code + s[p..e]);
            InMode(after, mode) && AllOf(s, e, after, mode) == AllOf(s, p, state, Inside(kind, code))
  {
    CodeIsCollected(s, p, kind, code);
  }

  /** The mode after a tag. */
  function ModeAfter(mode: Mode, tag: Tag): Mode {
    match tag
    case Start(kind) => if mode.Outside? then Inside(kind, "") else mode
    case End => Outside
    case EndEscape => if mode.Inside? then mode.(code := mode.code + "%>") else mode
    case _ => mode
  }

  lemma StartTagKept(s: string, p: nat, state: State)
    requires p <= |s| && InMode(state, Outside)
    ensures var tag := TagAt(false, s, p);
            var after, mode := ConsumeTag(state, tag), ModeAfter(Outside, tag);
            InMode(after, mode) && AllOf(s, p + |TextOf(tag)|, after, mode) == AllOf(s, p, state, Outside)
  {
    var tag := TagAt(false, s, p);
    if tag.StartEscape? {
      CharsOfBoth(state.content, "<%");
      assert Chars("<%") == [Printed('<'), Printed('%')];
      Associative(EventsOfAll(state.commands), Chars(state.content), Chars("<%"));
      Associative(EventsSoFar(state), Chars("<%"), Meaning(s, p + 3, Outside).events);
    } else if tag.Start? {
      StartKeepsEvents(state, tag);
    }
  }

  lemma StartKeepsEvents(state: State, tag: Tag)
    requires state.stag == None && tag.Start?
    ensures EventsSoFar(ConsumeTag(state, tag)) == EventsSoFar(state)
  {
    FlushedKeeps(state);
  }

  lemma EndTagKept(s: string, p: nat, state: State, kind: Kind, code: string)
    requires p <= |s| && InMode(state, Inside(kind, code))
    ensures var tag := TagAt(true, s, p);
            var after, mode := ConsumeTag(state, tag), ModeAfter(Inside(kind, code), tag);
            InMode(after, mode) && AllOf(s, p + |TextOf(tag)|, after, mode) == AllOf(s, p, state, Inside(kind, code))
  {
    if TagAt(true, s, p).End? {
      TagEventsKept(state, kind, code);
      Associative(EventsSoFar(state), EventsOfTag(kind, code), Meaning(s, p + 2, Outside).events);
    }
  }

  lemma TagEventsKept(state: State, kind: Kind, code: string)
    requires InMode(state, Inside(kind, code))
    ensures EventsSoFar(ConsumeTag(state, End)) == EventsSoFar(state) + EventsOfTag(kind, code)
  {
    var commands := TagCommand(kind, code);
    EventsOfMore(state.commands, commands);
    assert EventsOfAll(commands) == EventsOfTag(kind, code) by {
      assert commands == [] || EventsOfAll(commands) == EventsOf(commands[0]) + EventsOfAll([]);
    }
  }

  lemma ScannedOutside(s: string, p: nat, state: State) returns (mode1: Mode)
    requires p < |s| && InMode(state, Outside)
    ensures var (next, after) := Scanned(s, p, state);
            InMode(after, mode1) && AllOf(s, next, after, mode1) == AllOf(s, p, state, Outside)
  {
    var e := FindTag(false, s, p);
    var all := AllOf(s, p, state, Outside);
    var middle := ConsumeText(state, s[p..e]);
    assert InMode(middle, Outside) && AllOf(s, e, middle, Outside) == all by { TextKept(s, p, state); }
    var (next, after) := Scanned(s, p, state);
    mode1 := ModeAfter(Outside, TagAt(false, s, e));
    assert InMode(after, mode1) && AllOf(s, next, after, mode1) == all by { StartTagKept(s, e, middle); }
  }

  lemma ScannedInside(s: string, p: nat, state: State, kind: Kind, code: string) returns (mode1: Mode)
    requires p < |s| && InMode(state, Inside(kind, code))
    ensures var (next, after) := Scanned(s, p, state);
            InMode(after, mode1) && AllOf(s, next, after, mode1) == AllOf(s, p, state, Inside(kind, code))
  {
    var e := FindTag(true, s, p);
    var all := AllOf(s, p, state, Inside(kind, code));
    var middle, mode := ConsumeText(state, s[p..e]), Inside(kind, code + s[p..e]);
    assert InMode(middle, mode) && AllOf(s, e, middle, mode) == all by { CodeKept(s, p, state, kind, code); }
    var (next, after) := Scanned(s, p, state);
    mode1 := ModeAfter(mode, TagAt(true, s, e));
    assert InMode(after, mode1) && AllOf(s, next, after, mode1) == all by { EndTagKept(s, e, middle, kind, mode.code); }
  }

  /** So does one step of the scanner. */
  lemma ScannedKept(s: string, p: nat, state: State, mode: Mode) returns (mode1: Mode)
    requires p < |s| && InMode(state, mode)
    ensures var (next, after) := Scanned(s, p, state);
            InMode(after, mode1) && AllOf(s, next, after, mode1) == AllOf(s, p, state, mode)
  {
    match mode
    case Outside => mode1 := ScannedOutside(s, p, state);
    case Inside(kind, code) => mode1 := ScannedInside(s, p, state, kind, code);
  }

  /** The code of an unclosed tag is printed as text. */
  function Unclosed(m: Meant): seq<Event> {
    if m.unclosed.Some? then Chars(m.unclosed.value) else []
  }

  lemma {:induction false} CompiledFrom(s: string, p: nat, state: State, mode: Mode, all: Meant)
    requires p <= |s| && InMode(state, mode) && AllOf(s, p, state, mode) == all
    ensures EventsOfAll(Flushed(ConsumeAll(state, Tokens(s, p, state)))) == all.events + Unclosed(all)
    decreases |s| - p
  {
    if p == |s| {
      EndOfTemplate(state, mode);
      assert EventsSoFar(state) + [] == EventsSoFar(state);
    } else {
      var (next, after) := Scanned(s, p, state);
      var mode1 := ScannedKept(s, p, state, mode);
      TokensNext(s, p, state);
      CompiledFrom(s, next, after, mode1, all);
    }
  }

  lemma EndOfTemplate(state: State, mode: Mode)
    requires InMode(state, mode)
    ensures EventsOfAll(Flushed(state)) == EventsSoFar(state) + (if mode.Inside? then Chars(mode.code) else [])
  {
    if state.content != "" {
      EventsOfOne(state.commands, Put(state.content));
    }
  }

  /**
   * The compiled script does what the template means, between what it does before and after; only the code of a tag
   * that is not closed is printed as text.
   */
  lemma CompiledMeans(s: string, preCmd: seq<Command>, postCmd: seq<Command>)
    ensures var start := State(None, "", preCmd);
            var m := Meaning(s, 0, Outside);
            && EventsOfAll(Flushed(ConsumeAll(start, Tokens(s, 0, start))) + postCmd)
               == EventsOfAll(preCmd) + m.events + Unclosed(m) + EventsOfAll(postCmd)
            && Concat(Tokens(s, 0, start)) == s
  {
    var start := State(None, "", preCmd);
    var m := Meaning(s, 0, Outside);
    CompiledFrom(s, 0, start, Outside, AllOf(s, 0, start, Outside));
    EventsOfMore(Flushed(ConsumeAll(start, Tokens(s, 0, start))), postCmd);
    TokensAreText(s, 0, start);
    assert EventsSoFar(start) == EventsOfAll(preCmd);
  }

  lemma NothingInserted(a: seq<Event>, u: seq<Event>, c: seq<Event>)
    ensures a + u + c == a + c <==> u == []
  {
    assert |a + u + c| == |a| + |u| + |c|;
  }

  /** Compiling a template: the events are exactly its meaning when and only when no code of an unclosed tag is left. */
  method Compile(s: string, preCmd: seq<Command>, postCmd: seq<Command>) returns (script: seq<seq<Command>>)
    ensures var m := Meaning(s, 0, Outside);
            EventsOfAll(Joined(script)) == EventsOfAll(preCmd) + m.events + EventsOfAll(postCmd)
            <==> m.unclosed == None || m.unclosed == Some("")
  {
    var compiler := new Compiler(preCmd, postCmd);
    compiler.Compile(s);
    script := compiler.out.script;
    CompiledMeans(s, preCmd, postCmd);
    ghost var m := Meaning(s, 0, Outside);
    NothingInserted(EventsOfAll(preCmd) + m.events, Unclosed(m), EventsOfAll(postCmd));
  }
}
