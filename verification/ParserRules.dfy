/** What the engine promises of every rule: failed rules leave no trace, and matching follows the grammar. */
module ParserRules {
  import opened Wrappers
  import opened AnchorTable
  import opened ParserEngine

  /** The depth in the state is the depth of the anchor table. */
  ghost predicate InStep(c: Config) {
    c.state.anchorDepth == |c.anchors.itemsToRewind|
  }

  /** The anchor table of `later` can be rewound to that of `c`. */
  ghost predicate Undoable(c: Config, later: Config) {
    && |c.anchors.itemsToRewind| <= |later.anchors.itemsToRewind|
    && RewoundTo(later.anchors, |c.anchors.itemsToRewind|) == c.anchors
  }

  lemma UndoableTwice(a: Config, b: Config, c: Config)
    requires Undoable(a, b) && Undoable(b, c)
    ensures Undoable(a, c)
  {
    RewoundTwice(c.anchors, |b.anchors.itemsToRewind|, |a.anchors.itemsToRewind|);
  }

  /**
   * However rules are nested and anchors registered and overridden inside, the depth stays in step, the table can
   * be rewound to what it was, and no rewinding is out of range.
   */
  lemma {:induction false} EvalStaysInStep(text: string, r: Rule, c: Config)
    requires c.p <= |text| && InStep(c)
    ensures var (o, c') := Eval(text, r, c); InStep(c') && Undoable(c, c') && !o.OutOfRange?
    decreases r, 1 + |text| - c.p, 0
  {
    match r
    case Accept(_) =>
    case Append(_) =>
    case And(first, second) =>
      EvalStaysInStep(text, first, c);
      var (o, c1) := Eval(text, first, c);
      if o.Yes? {
        EvalStaysInStep(text, second, c1);
        UndoableTwice(c, c1, Eval(text, second, c1).1);
      }
    case Or(first, second) =>
      EvalStaysInStep(text, first, c);
      var (o, c1) := Eval(text, first, c);
      if o.No? {
        EvalStaysInStep(text, second, c1);
        UndoableTwice(c, c1, Eval(text, second, c1).1);
      }
    case RewindUnless(rule) => EvalStaysInStep(text, rule, c);
    case Repeat(rule) => RepeatStaysInStep(text, rule, c);
    case Optional(rule) => EvalStaysInStep(text, rule, c);
    case SetAnchor(_) =>
    case CreateScalar =>
      if c.state.anchor.Some? {
        RegisterUndone(c.anchors, c.state.anchor.value, c.created, |c.anchors.itemsToRewind|);
      }
    case TakeValue =>
    case UseAlias(_) =>
  }

  lemma {:induction false} RepeatStaysInStep(text: string, r: Rule, c: Config)
    requires c.p <= |text| && InStep(c)
    ensures var (o, c') := EvalRepeat(text, r, c); InStep(c') && Undoable(c, c') && !o.OutOfRange?
    decreases r, 1 + |text| - c.p, 1
  {
    EvalStaysInStep(text, r, c);
    var (o, c1) := Eval(text, r, c);
    if o.Yes? && c1.p != c.p {
      RepeatStaysInStep(text, r, c1);
      UndoableTwice(c, c1, EvalRepeat(text, r, c1).1);
    }
  }

  /** A wrapped rule that does not match restores the position, the state and the whole anchor table. */
  lemma {:induction false} FailureRestores(text: string, r: Rule, c: Config)
    requires c.p <= |text| && InStep(c)
    requires Eval(text, RewindUnless(r), c).0.No?
    ensures var (_, c') := Eval(text, RewindUnless(r), c);
            && c'.p == c.p && c'.state == c.state && c'.anchors == c.anchors
            && c'.stringValue == WithLength(Eval(text, r, c).1.stringValue, |c.stringValue|)
  {
    EvalStaysInStep(text, r, c);
    RewindingRestores(c, Eval(text, r, c).1);
  }

  lemma RewindingRestores(c: Config, c1: Config)
    requires InStep(c) && Undoable(c, c1)
    ensures var (o, c') := Rewind(Restored(c, c1));
            && o.No? && c'.p == c.p && c'.state == c.state && c'.anchors == c.anchors
            && c'.stringValue == WithLength(c1.stringValue, |c.stringValue|)
  {}

  /** Rules that never empty the text buffer. */
  predicate AppendsOnly(r: Rule) {
    match r
    case CreateScalar => false
    case And(a, b) => AppendsOnly(a) && AppendsOnly(b)
    case Or(a, b) => AppendsOnly(a) && AppendsOnly(b)
    case RewindUnless(a) => AppendsOnly(a)
    case Repeat(a) => AppendsOnly(a)
    case Optional(a) => AppendsOnly(a)
    case _ => true
  }

  lemma {:induction false} BufferOnlyGrows(text: string, r: Rule, c: Config)
    requires c.p <= |text| && AppendsOnly(r)
    ensures c.stringValue <= Eval(text, r, c).1.stringValue
    decreases r, 1 + |text| - c.p, 0
  {
    match r
    case And(first, second) =>
      BufferOnlyGrows(text, first, c);
      if Eval(text, first, c).0.Yes? { BufferOnlyGrows(text, second, Eval(text, first, c).1); }
    case Or(first, second) =>
      BufferOnlyGrows(text, first, c);
      if Eval(text, first, c).0.No? { BufferOnlyGrows(text, second, Eval(text, first, c).1); }
    case RewindUnless(rule) => BufferOnlyGrows(text, rule, c);
    case Repeat(rule) => RepeatOnlyGrows(text, rule, c);
    case Optional(rule) => BufferOnlyGrows(text, rule, c);
    case _ =>
  }

  lemma {:induction false} RepeatOnlyGrows(text: string, r: Rule, c: Config)
    requires c.p <= |text| && AppendsOnly(r)
    ensures c.stringValue <= EvalRepeat(text, r, c).1.stringValue
    decreases r, 1 + |text| - c.p, 1
  {
    BufferOnlyGrows(text, r, c);
    var (o, c1) := Eval(text, r, c);
    if o.Yes? && c1.p != c.p {
      RepeatOnlyGrows(text, r, c1);
    }
  }

  /**
   * The text buffer is restored too if it was empty, or if the rule only appends to it; nothing but the count of
   * nodes created tells that the rule was tried.
   */
  lemma {:induction false} FailureLeavesNoTrace(text: string, r: Rule, c: Config)
    requires c.p <= |text| && InStep(c) && (c.stringValue == "" || AppendsOnly(r))
    requires Eval(text, RewindUnless(r), c).0.No?
    ensures var c' := Eval(text, RewindUnless(r), c).1; c'.(created := c.created) == c
  {
    FailureRestores(text, r, c);
    if c.stringValue != "" {
      BufferOnlyGrows(text, r, c);
    }
  }

  /** Text without NUL characters comes back exactly when the failed rule has left it at the start of the buffer. */
  lemma BufferRestoredIff(text: string, r: Rule, c: Config)
    requires c.p <= |text| && InStep(c) && NUL !in c.stringValue
    requires Eval(text, RewindUnless(r), c).0.No?
    ensures Eval(text, RewindUnless(r), c).1.stringValue == c.stringValue
            <==> c.stringValue <= Eval(text, r, c).1.stringValue
  {
    FailureRestores(text, r, c);
    LengthRestoredIff(c.stringValue, Eval(text, r, c).1.stringValue);
  }

  lemma LengthRestoredIff(before: string, after: string)
    requires NUL !in before
    ensures WithLength(after, |before|) == before <==> before <= after
  {
    if |after| < |before| {
      assert WithLength(after, |before|)[|before| - 1] == NUL;
      assert before[|before| - 1] in before;
    }
  }

  /** So text can be lost: a rule that makes a scalar of the buffer and then fails leaves NUL characters. */
  lemma BufferLost(text: string, c: Config)
    requires c.p == |text| && InStep(c) && c.state.value.None? && c.stringValue != ""
    ensures var r := And(CreateScalar, Accept({}));
            && Eval(text, RewindUnless(r), c).0.No?
            && Eval(text, RewindUnless(r), c).1.stringValue == seq(|c.stringValue|, _ => NUL)
  {
    var r := And(CreateScalar, Accept({}));
    EvalStaysInStep(text, r, c);
    assert Eval(text, CreateScalar, c).1.stringValue == "";
  }

  /**
   * The meaning of a rule as a parsing expression: from a position to the position after the text it matches.
   * Nothing is rewound here, because nothing changes. A star also ends when its rule matches no text.
   */
  function Peg(text: string, r: Rule, i: nat): (j: Option<nat>)
    requires i <= |text|
    ensures j.Some? ==> i <= j.value <= |text|
    decreases r, 1 + |text| - i, 0
  {
    match r
    case Accept(charset) => if Reduces(text, i, charset) then Some(i + 1) else None
    case Append(charset) => if Reduces(text, i, charset) then Some(i + 1) else None
    case And(first, second) =>
      (match Peg(text, first, i) case None => None case Some(j) => Peg(text, second, j))
    case Or(first, second) =>
      (match Peg(text, first, i) case None => Peg(text, second, i) case Some(j) => Some(j))
    case RewindUnless(rule) => Peg(text, rule, i)
    case Repeat(rule) => Some(PegStar(text, rule, i))
    case Optional(rule) =>
      (match Peg(text, rule, i) case None => Some(i) case Some(j) => Some(j))
    case SetAnchor(_) => Some(i)
    case CreateScalar => Some(i)
    case TakeValue => Some(i)
    case UseAlias(_) => Some(i)
  }

  function PegStar(text: string, r: Rule, i: nat): (j: nat)
    requires i <= |text|
    ensures i <= j <= |text|
    decreases r, 1 + |text| - i, 1
  {
    match Peg(text, r, i)
    case None => i
    case Some(j) => if j == i then i else PegStar(text, r, j)
  }

  /** The star takes all it can: where it ends, the rule does not match or matches no text. */
  lemma {:induction false} StarIsGreedy(text: string, r: Rule, i: nat)
    requires i <= |text|
    ensures var j := PegStar(text, r, i); Peg(text, r, j) == None || Peg(text, r, j) == Some(j)
    decreases |text| - i
  {
    var j := Peg(text, r, i);
    if j.Some? && j.value != i {
      StarIsGreedy(text, r, j.value);
    }
  }

  /** Rules that never fail to match. */
  predicate Total(r: Rule) {
    match r
    case Accept(_) => false
    case Append(_) => false
    case And(a, b) => Total(a) && Total(b)
    case Or(a, b) => Total(a) || Total(b)
    case RewindUnless(a) => Total(a)
    case _ => true
  }

  /** Rules that leave the position alone when they do not match: a sequence is wrapped, or cannot fail at the end. */
  predicate Wrapped(r: Rule)
    decreases r, 0
  {
    match r
    case And(a, b) => Wrapped(a) && Wrapped(b) && Total(b)
    case Or(a, b) => Wrapped(a) && Wrapped(b)
    case RewindUnless(a) => Wrappable(a)
    case Repeat(a) => Wrapped(a)
    case Optional(a) => Wrappable(a)
    case _ => true
  }

  /** Rules that may be put into a wrapping. */
  predicate Wrappable(r: Rule)
    decreases r, 1
  {
    match r
    case And(a, b) => Wrappable(a) && Wrappable(b)
    case Or(a, b) => Wrapped(a) && Wrappable(b)
    case _ => Wrapped(r)
  }

  lemma {:induction false} WrappedIsWrappable(r: Rule)
    requires Wrapped(r)
    ensures Wrappable(r)
  {
    match r
    case And(a, b) =>
      WrappedIsWrappable(a);
      WrappedIsWrappable(b);
    case Or(a, b) => WrappedIsWrappable(b);
    case _ =>
  }

  lemma {:induction false} TotalNeverFails(text: string, r: Rule, i: nat)
    requires i <= |text| && Total(r)
    ensures Peg(text, r, i).Some?
  {
    match r
    case And(a, b) =>
      TotalNeverFails(text, a, i);
      TotalNeverFails(text, b, Peg(text, a, i).value);
    case Or(a, b) =>
      if Total(a) { TotalNeverFails(text, a, i); } else { TotalNeverFails(text, b, i); }
    case RewindUnless(a) => TotalNeverFails(text, a, i);
    case _ =>
  }

  /** What the engine does agrees with what the parsing expression means. */
  ghost predicate Agrees(o: Outcome, p: nat, meaning: Option<nat>) {
    match o
    case Yes => meaning == Some(p)
    case No => meaning == None
    case _ => true
  }

  /**
   * The engine, with its moving position and its rewinding, matches what the parsing expression says, up to the
   * same position; a wrapped rule that does not match leaves the position where it was.
   */
  lemma {:induction false} EvalIsPeg(text: string, r: Rule, c: Config)
    requires c.p <= |text| && InStep(c) && Wrappable(r)
    ensures var (o, c') := Eval(text, r, c); Agrees(o, c'.p, Peg(text, r, c.p))
    ensures var (o, c') := Eval(text, r, c); Wrapped(r) && o.No? ==> c'.p == c.p
    decreases r, 1 + |text| - c.p, 0
  {
    match r
    case And(first, second) =>
      EvalIsPeg(text, first, c);
      EvalStaysInStep(text, first, c);
      var (o, c1) := Eval(text, first, c);
      if o.Yes? {
        EvalIsPeg(text, second, c1);
        if Total(second) { TotalNeverFails(text, second, c1.p); }
      }
    case Or(first, second) =>
      WrappedIsWrappable(first);
      EvalIsPeg(text, first, c);
      EvalStaysInStep(text, first, c);
      var (o, c1) := Eval(text, first, c);
      if o.No? {
        EvalIsPeg(text, second, c1);
      }
    case RewindUnless(rule) =>
      EvalIsPeg(text, rule, c);
      EvalStaysInStep(text, rule, c);
    case Repeat(rule) =>
      WrappedIsWrappable(rule);
      RepeatIsStar(text, rule, c);
    case Optional(rule) =>
      EvalIsPeg(text, rule, c);
      EvalStaysInStep(text, rule, c);
    case _ =>
  }

  lemma {:induction false} RepeatIsStar(text: string, r: Rule, c: Config)
    requires c.p <= |text| && InStep(c) && Wrapped(r) && Wrappable(r)
    ensures var (o, c') := EvalRepeat(text, r, c); !o.No? && (o.Yes? ==> c'.p == PegStar(text, r, c.p))
    decreases r, 1 + |text| - c.p, 1
  {
    EvalIsPeg(text, r, c);
    EvalStaysInStep(text, r, c);
    var (o, c1) := Eval(text, r, c);
    if o.Yes? && c1.p != c.p {
      RepeatIsStar(text, r, c1);
    }
  }

  /**
   * An action goes wrong on the way: there is a value already where one is to be set, or no node has the anchor of an
   * alias.
   */
  ghost predicate Faults(text: string, r: Rule, c: Config)
    requires c.p <= |text|
    decreases r, 1 + |text| - c.p, 0
  {
    match r
    case And(first, second) =>
      Faults(text, first, c)
      || (Eval(text, first, c).0.Yes? && Faults(text, second, Eval(text, first, c).1))
    case Or(first, second) =>
      Faults(text, first, c)
      || (Eval(text, first, c).0.No? && Faults(text, second, Eval(text, first, c).1))
    case RewindUnless(rule) => Faults(text, rule, c)
    case Repeat(rule) => RepeatFaults(text, rule, c)
    case Optional(rule) => Faults(text, rule, c)
    case CreateScalar => c.state.value.Some?
    case UseAlias(name) => c.state.value.Some? || name !in c.anchors.items
    case _ => false
  }

  ghost predicate RepeatFaults(text: string, r: Rule, c: Config)
    requires c.p <= |text|
    decreases r, 1 + |text| - c.p, 1
  {
    var (o, c1) := Eval(text, r, c);
    Faults(text, r, c) || (o.Yes? && c1.p != c.p && RepeatFaults(text, r, c1))
  }

  /** The parse ends with an error exactly when an action goes wrong on the way. */
  lemma {:induction false} ErrorIffFaults(text: string, r: Rule, c: Config)
    requires c.p <= |text| && InStep(c)
    ensures Eval(text, r, c).0.Error? <==> Faults(text, r, c)
    decreases r, 1 + |text| - c.p, 0
  {
    match r
    case And(first, second) =>
      ErrorIffFaults(text, first, c);
      EvalStaysInStep(text, first, c);
      if Eval(text, first, c).0.Yes? { ErrorIffFaults(text, second, Eval(text, first, c).1); }
    case Or(first, second) =>
      ErrorIffFaults(text, first, c);
      EvalStaysInStep(text, first, c);
      if Eval(text, first, c).0.No? { ErrorIffFaults(text, second, Eval(text, first, c).1); }
    case RewindUnless(rule) =>
      ErrorIffFaults(text, rule, c);
      EvalStaysInStep(text, rule, c);
    case Repeat(rule) => RepeatErrorIffFaults(text, rule, c);
    case Optional(rule) =>
      ErrorIffFaults(text, rule, c);
      EvalStaysInStep(text, rule, c);
    case _ =>
  }

  lemma {:induction false} RepeatErrorIffFaults(text: string, r: Rule, c: Config)
    requires c.p <= |text| && InStep(c)
    ensures EvalRepeat(text, r, c).0.Error? <==> RepeatFaults(text, r, c)
    decreases r, 1 + |text| - c.p, 1
  {
    ErrorIffFaults(text, r, c);
    EvalStaysInStep(text, r, c);
    var (o, c1) := Eval(text, r, c);
    if o.Yes? && c1.p != c.p {
      RepeatErrorIffFaults(text, r, c1);
    }
  }

  /** Rules that set no value. */
  predicate SetsNoValue(r: Rule) {
    match r
    case CreateScalar => false
    case UseAlias(_) => false
    case And(a, b) => SetsNoValue(a) && SetsNoValue(b)
    case Or(a, b) => SetsNoValue(a) && SetsNoValue(b)
    case RewindUnless(a) => SetsNoValue(a)
    case Repeat(a) => SetsNoValue(a)
    case Optional(a) => SetsNoValue(a)
    case _ => true
  }

  lemma {:induction false} SetsNoValueNoFault(text: string, r: Rule, c: Config)
    requires c.p <= |text| && SetsNoValue(r)
    ensures !Faults(text, r, c)
    decreases r, 1 + |text| - c.p, 0
  {
    match r
    case And(first, second) =>
      SetsNoValueNoFault(text, first, c);
      SetsNoValueNoFault(text, second, Eval(text, first, c).1);
    case Or(first, second) =>
      SetsNoValueNoFault(text, first, c);
      SetsNoValueNoFault(text, second, Eval(text, first, c).1);
    case RewindUnless(rule) => SetsNoValueNoFault(text, rule, c);
    case Repeat(rule) => RepeatedNoFault(text, rule, c);
    case Optional(rule) => SetsNoValueNoFault(text, rule, c);
    case _ =>
  }

  lemma {:induction false} RepeatedNoFault(text: string, r: Rule, c: Config)
    requires c.p <= |text| && SetsNoValue(r)
    ensures !RepeatFaults(text, r, c)
    decreases r, 1 + |text| - c.p, 1
  {
    SetsNoValueNoFault(text, r, c);
    var (o, c1) := Eval(text, r, c);
    if o.Yes? && c1.p != c.p {
      RepeatedNoFault(text, r, c1);
    }
  }

  /**
   * Unless an action goes wrong, the engine matches exactly what the parsing expression matches, and there is no other
   * outcome.
   */
  lemma {:induction false} OutcomeIsPeg(text: string, r: Rule, c: Config)
    requires c.p <= |text| && InStep(c) && Wrappable(r)
    ensures var (o, c') := Eval(text, r, c);
            && o == (if Faults(text, r, c) then Error else if Peg(text, r, c.p).Some? then Yes else No)
            && (o.Yes? ==> Peg(text, r, c.p) == Some(c'.p))
  {
    EvalIsPeg(text, r, c);
    ErrorIffFaults(text, r, c);
    EvalStaysInStep(text, r, c);
  }

  /** Rules that set no value match exactly what the parsing expression matches, and never end with an error. */
  lemma {:induction false} MatchesIffPegMatches(text: string, r: Rule, c: Config)
    requires c.p <= |text| && InStep(c) && Wrappable(r) && SetsNoValue(r)
    ensures var o := Eval(text, r, c).0;
            (o.Yes? <==> Peg(text, r, c.p).Some?) && (o.No? <==> Peg(text, r, c.p).None?)
  {
    OutcomeIsPeg(text, r, c);
    SetsNoValueNoFault(text, r, c);
  }

  /** Without the wrapping the position is lost: "ab" tried against "ac" stops after the "a". */
  lemma UnwrappedMoves(c: Config)
    requires c.p == 0
    ensures var r := And(Accept({'a'}), Accept({'b'}));
            !Wrapped(r) && Eval("ac", r, c).0.No? && Eval("ac", r, c).1.p == 1
  {
    assert Eval("ac", Accept({'a'}), c) == (Yes, c.(p := 1));
  }

  /** Rules that put all the text they reduce into the buffer. */
  predicate Collects(r: Rule) {
    match r
    case Accept(_) => false
    case CreateScalar => false
    case And(a, b) => Collects(a) && Collects(b)
    case Or(a, b) => Collects(a) && Collects(b)
    case RewindUnless(a) => Collects(a)
    case Repeat(a) => Collects(a)
    case Optional(a) => Collects(a)
    case _ => true
  }

  /** The buffer gains just the text from the old position to the new one, however much has been rewound in between. */
  lemma {:induction false} TextIsCollected(text: string, r: Rule, c: Config)
    requires c.p <= |text| && Collects(r)
    ensures var c' := Eval(text, r, c).1; c'.stringValue == c.stringValue + text[c.p..c'.p]
    decreases r, 1 + |text| - c.p, 0
  {
    match r
    case And(first, second) =>
      TextIsCollected(text, first, c);
      var (o, c1) := Eval(text, first, c);
      if o.Yes? { TextIsCollected(text, second, c1); }
    case Or(first, second) =>
      TextIsCollected(text, first, c);
      var (o, c1) := Eval(text, first, c);
      if o.No? { TextIsCollected(text, second, c1); }
    case RewindUnless(rule) => TextIsCollected(text, rule, c);
    case Repeat(rule) => RepeatedTextIsCollected(text, rule, c);
    case Optional(rule) => TextIsCollected(text, rule, c);
    case _ =>
  }

  lemma {:induction false} RepeatedTextIsCollected(text: string, r: Rule, c: Config)
    requires c.p <= |text| && Collects(r)
    ensures var c' := EvalRepeat(text, r, c).1; c'.stringValue == c.stringValue + text[c.p..c'.p]
    decreases r, 1 + |text| - c.p, 1
  {
    TextIsCollected(text, r, c);
    var (o, c1) := Eval(text, r, c);
    if o.Yes? && c1.p != c.p {
      RepeatedTextIsCollected(text, r, c1);
    }
  }

  lemma {:induction false} AndIsBoth(text: string, first: Rule, second: Rule, c: Config, c1: Config)
    requires c.p <= |text| && Eval(text, first, c) == (Yes, c1)
    ensures Eval(text, And(first, second), c) == Eval(text, second, c1)
  {}

  /** An alias stands for the newest node with its anchor, until rewinding takes that back. */
  lemma AliasFindsAnchored(text: string, name: string, c: Config)
    requires c.p <= |text| && InStep(c) && c.state.value.None?
    ensures var anchored := And(SetAnchor(name), And(CreateScalar, TakeValue));
            var (o, c') := Eval(text, And(anchored, UseAlias(name)), c);
            && o.Yes? && c'.state.value == Some(c.created)
            && RewoundTo(c'.anchors, c.state.anchorDepth) == c.anchors
  {
    var c1 := c.(state := c.state.(anchor := Some(name)));
    var table := Register(c.anchors, name, c.created);
    var state := State(None, Some(c.created), |table.itemsToRewind|);
    var c2 := Config(c.p, "", state, table, c.created + 1);
    var c3 := c2.(state := c2.state.(value := None));
    assert Eval(text, CreateScalar, c1) == (Yes, c2);
    AndIsBoth(text, CreateScalar, TakeValue, c1, c2);
    AndIsBoth(text, SetAnchor(name), And(CreateScalar, TakeValue), c, c1);
    AndIsBoth(text, And(SetAnchor(name), And(CreateScalar, TakeValue)), UseAlias(name), c, c3);
    assert Eval(text, UseAlias(name), c3) == (Yes, c2);
    RegisterUndone(c.anchors, name, c.created, c.state.anchorDepth);
  }
}
