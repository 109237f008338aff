/** The backtracking engine: rules move the position, the text buffer and the state, and rewind them on failure. */
module ParserEngine {
  import opened Wrappers
  import opened AnchorTable

  /** Rules as they are put together by the parser; every constructor is one of the engine's operators or actions. */
  datatype Rule =
    | Accept(charset: set<char>)                 // reduces one character
    | Append(charset: set<char>)                 // reduces one character into the text buffer
    | And(first: Rule, second: Rule)             // first && second, not wrapped
    | Or(first: Rule, second: Rule)              // first || second
    | RewindUnless(rule: Rule)
    | Repeat(rule: Rule)
    | Optional(rule: Rule)
    | SetAnchor(name: string)                    // an anchor property
    | CreateScalar                               // makes a node of the text buffer the current value
    | TakeValue                                  // the current value becomes part of a collection
    | UseAlias(name: string)                     // makes an anchored node the current value

  /** The state that rewinding restores. */
  datatype State = State(anchor: Option<string>, value: Option<NodeId>, anchorDepth: nat)

  /** Everything the rules change. Nodes are numbered in order of creation. */
  datatype Config = Config(p: nat, stringValue: string, state: State, anchors: Table, created: nat)

  /** A rule matches, does not match, or ends the parse: by an error, or by rewinding to a depth not reached. */
  datatype Outcome = Yes | No | Error | OutOfRange

  const NUL: char := 0 as char

  /** The effect of setting the length of a text buffer: it is cut, or filled up with NUL characters. */
  function WithLength(s: string, n: nat): (r: string)
    ensures |r| == n
  {
    if n <= |s| then s[..n] else s + seq(n - |s|, _ => NUL)
  }

  function Reduces(text: string, p: nat, charset: set<char>): bool {
    p < |text| && text[p] in charset
  }

  function RegisterAnchorFor(c: Config, value: NodeId): Config {
    match c.state.anchor
    case None => c
    case Some(name) =>
      var t := Register(c.anchors, name, value);
      c.(anchors := t, state := c.state.(anchor := None, anchorDepth := |t.itemsToRewind|))
  }

  /** A value is set only when there is none. */
  function SetValue(c: Config, v: NodeId): (Outcome, Config) {
    if c.state.value.Some? then (Error, c) else (Yes, c.(state := c.state.(value := Some(v))))
  }

  function Rewind(c: Config): (Outcome, Config) {
    if |c.anchors.itemsToRewind| < c.state.anchorDepth then (OutOfRange, c)
    else (No, c.(anchors := RewoundTo(c.anchors, c.state.anchorDepth)))
  }

  /** What a rule does, step by step. */
  function Eval(text: string, r: Rule, c: Config): (o: (Outcome, Config))
    requires c.p <= |text|
    ensures c.p <= o.1.p <= |text|
    decreases r, 1 + |text| - c.p, 0
  {
    match r
    case Accept(charset) =>
      if Reduces(text, c.p, charset) then (Yes, c.(p := c.p + 1)) else (No, c)
    case Append(charset) =>
      if Reduces(text, c.p, charset) then (Yes, c.(p := c.p + 1, stringValue := c.stringValue + [text[c.p]]))
      else (No, c)
    case And(first, second) =>
      var (o, c1) := Eval(text, first, c);
      if o.Yes? then Eval(text, second, c1) else (o, c1)
    case Or(first, second) =>
      var (o, c1) := Eval(text, first, c);
      if o.No? then Eval(text, second, c1) else (o, c1)
    case RewindUnless(rule) =>
      var (o, c1) := Eval(text, rule, c);
      if o.No? then Rewind(Restored(c, c1)) else (o, c1)
    case Repeat(rule) => EvalRepeat(text, rule, c)
    case Optional(rule) =>
      var (o, c1) := Eval(text, rule, c);
      if o.No? then
        var (o2, c2) := Rewind(Restored(c, c1));
        (if o2.No? then Yes else o2, c2)
      else (o, c1)
    case SetAnchor(name) => (Yes, c.(state := c.state.(anchor := Some(name))))
    case CreateScalar =>
      var node := c.created;
      SetValue(RegisterAnchorFor(c.(created := node + 1, stringValue := ""), node), node)
    case TakeValue => (Yes, c.(state := c.state.(value := None)))
    case UseAlias(name) =>
      if name in c.anchors.items then SetValue(c, c.anchors.items[name]) else (Error, c)
  }

  /** Restores what is saved before a rule, other than the anchor table. */
  function Restored(saved: Config, c: Config): Config {
    c.(p := saved.p, stringValue := WithLength(c.stringValue, |saved.stringValue|), state := saved.state)
  }

  /** Repeats while the rule matches and reduces some text. */
  function EvalRepeat(text: string, r: Rule, c: Config): (o: (Outcome, Config))
    requires c.p <= |text|
    ensures c.p <= o.1.p <= |text|
    decreases r, 1 + |text| - c.p, 1
  {
    var (o, c1) := Eval(text, r, c);
    if o.Yes? && c1.p != c.p then EvalRepeat(text, r, c1)
    else (if o.No? then Yes else o, c1)
  }

  class Parser {
    const text: string
    var p: nat
    var stringValue: string
    var state: State
    const anchors: AnchorDictionary
    var created: nat

    constructor (text: string)
      ensures this.text == text && fresh(anchors)
      ensures Now() == Config(0, "", State(None, None, 0), Table(map[], []), 0)
    {
      this.text, p, stringValue, state, created := text, 0, "", State(None, None, 0), 0;
      anchors := new AnchorDictionary();
    }

    function Now(): Config
      reads this, anchors
    {
      Config(p, stringValue, state, anchors.Contents(), created)
    }

    method Exec(r: Rule) returns (o: Outcome)
      requires p <= |text|
      modifies this, anchors
      ensures p <= |text| && (o, Now()) == Eval(text, r, old(Now()))
      decreases r, 1 + |text| - p, 0
    {
      match r
      case Accept(charset) =>
        if p < |text| && text[p] in charset {
          p := p + 1;
          return Yes;
        }
        return No;
      case Append(charset) =>
        if p < |text| && text[p] in charset {
          stringValue := stringValue + [text[p]];
          p := p + 1;
          return Yes;
        }
        return No;
      case And(first, second) =>
        o := Exec(first);
        if o.Yes? {
          o := Exec(second);
        }
      case Or(first, second) =>
        o := Exec(first);
        if o.No? {
          o := Exec(second);
        }
      case RewindUnless(rule) =>
        o := ExecRewindUnless(rule);
      case Repeat(rule) =>
        o := ExecRepeat(rule);
      case Optional(rule) =>
        o := ExecRewindUnless(rule);
        if o.No? {
          o := Yes;
        }
      case SetAnchor(name) =>
        state := state.(anchor := Some(name));
        return Yes;
      case CreateScalar =>
        var node := created;
        created := created + 1;
        stringValue := "";
        RegisterNode(node);
        o := Set(node);
      case TakeValue =>
        state := state.(value := None);
        return Yes;
      case UseAlias(name) =>
        var node := anchors.Get(name);
        if node.None? {
          return Error;
        }
        o := Set(node.value);
    }

    method ExecRewindUnless(rule: Rule) returns (o: Outcome)
      requires p <= |text|
      modifies this, anchors
      ensures p <= |text| && (o, Now()) == Eval(text, RewindUnless(rule), old(Now()))
      decreases rule, 1 + |text| - p, 1
    {
      var savedP, savedLength, savedState := p, |stringValue|, state;
      o := Exec(rule);
      if o.No? {
        state := savedState;
        stringValue := WithLength(stringValue, savedLength);
        p := savedP;
        var ok := anchors.SetRewindDepth(state.anchorDepth);
        o := if ok then No else OutOfRange;
      }
    }

    method ExecRepeat(rule: Rule) returns (o: Outcome)
      requires p <= |text|
      modifies this, anchors
      ensures p <= |text| && (o, Now()) == EvalRepeat(text, rule, old(Now()))
      decreases rule, 1 + |text| - p, 2
    {
      ghost var all := EvalRepeat(text, rule, Now());
      o := Yes;
      while true
        invariant old(p) <= p <= |text| && all == EvalRepeat(text, rule, Now())
        decreases |text| - p
      {
        var start := p;
        o := Exec(rule);
        if !o.Yes? || start == p {
          break;
        }
      }
      if o.No? {
        o := Yes;
      }
    }

    method RegisterNode(value: NodeId)
      modifies this`state, anchors
      ensures Now() == RegisterAnchorFor(old(Now()), value)
    {
      if state.anchor.Some? {
        anchors.Add(state.anchor.value, value);
        state := state.(anchor := None, anchorDepth := |anchors.itemsToRewind|);
      }
    }

    method Set(v: NodeId) returns (o: Outcome)
      modifies this`state
      ensures (o, Now()) == SetValue(old(Now()), v)
    {
      if state.value.Some? {
        return Error;
      }
      state := state.(value := Some(v));
      return Yes;
    }
  }
}
