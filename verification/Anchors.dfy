/** Anchor names and the marking of nodes the walk meets more than once. */
module Anchors {
  import opened YamlGraph

  ghost predicate IsAnchor(a: string) {
    forall i | 0 <= i < |a| :: 'A' <= a[i] <= 'Z'
  }

  function NextAnchor(anchor: string): (next: string)
    requires IsAnchor(anchor)
    ensures IsAnchor(next)
  {
    if anchor == "" then "A"
    else
      var front, last := anchor[..|anchor| - 1], anchor[|anchor| - 1];
      if last != 'Z' then front + [last + 1 as char] else NextAnchor(front) + "A"
  }

  /** The number an anchor name stands for in bijective base 26. */
  ghost function Ordinal(a: string): (n: nat)
    requires IsAnchor(a)
  {
    if a == "" then 0 else 26 * Ordinal(a[..|a| - 1]) + (a[|a| - 1] as int - 'A' as int + 1)
  }

  lemma {:induction false} NextAnchorAddsOne(a: string)
    requires IsAnchor(a)
    ensures Ordinal(NextAnchor(a)) == Ordinal(a) + 1
  {
    if a != "" {
      var front, last := a[..|a| - 1], a[|a| - 1];
      var next := NextAnchor(a);
      if last == 'Z' {
        NextAnchorAddsOne(front);
      }
      assert next[..|next| - 1] == if last == 'Z' then NextAnchor(front) else front;
    }
  }

  /** Ordinals name anchors without ambiguity, so counting up never repeats a name. */
  lemma {:induction false} OrdinalInjective(a: string, b: string)
    requires IsAnchor(a) && IsAnchor(b) && Ordinal(a) == Ordinal(b)
    ensures a == b
  {
    if a != "" && b != "" {
      OrdinalInjective(a[..|a| - 1], b[..|b| - 1]);
      assert a == a[..|a| - 1] + [a[|a| - 1]] && b == b[..|b| - 1] + [b[|b| - 1]];
    }
  }

  /** Anchors given so far and the last name used. */
  datatype Marking = Marking(anchors: map<Id, string>, last: string)

  const Unmarked := Marking(map[], "")

  function MarkAgain(m: Marking, id: Id): Marking
    requires IsAnchor(m.last)
  {
    if id in m.anchors then m
    else
      var a := NextAnchor(m.last);
      Marking(m.anchors[id := a], a)
  }

  /** The marking after the first `i` steps of a walk: a node met again is named, unless it is already. */
  ghost function MarkUpTo(run: seq<State>, i: nat): (m: Marking)
    requires i < |run|
    ensures IsAnchor(m.last)
  {
    if i == 0 then Unmarked
    else
      var m, v := MarkUpTo(run, i - 1), VisitNow(run[i - 1]);
      if v.Again? then MarkAgain(m, v.id) else m
  }

  /** Names are numbered from 1 up to the last one, each used once. */
  ghost predicate Numbered(m: Marking) {
    && IsAnchor(m.last)
    && (forall id | id in m.anchors :: IsAnchor(m.anchors[id]) && 0 < Ordinal(m.anchors[id]) <= Ordinal(m.last))
    && (forall x, y | x in m.anchors && y in m.anchors && m.anchors[x] == m.anchors[y] :: x == y)
  }

  lemma MarkAgainNumbers(m: Marking, id: Id)
    requires Numbered(m)
    ensures Numbered(MarkAgain(m, id))
  {
    if id !in m.anchors {
      NextAnchorAddsOne(m.last);
      var a := NextAnchor(m.last);
      forall x | x in m.anchors ensures m.anchors[x] != a && Ordinal(m.anchors[x]) <= Ordinal(a) {}
    }
  }

  ghost predicate MetAgain(run: seq<State>, i: nat, n: Id)
    requires i < |run|
  {
    exists j | 0 <= j < i :: VisitNow(run[j]) == Again(n)
  }

  /** Exactly the nodes met again get a name. */
  lemma {:induction false} MarkUpToMarks(run: seq<State>, i: nat, n: Id)
    requires i < |run|
    ensures n in MarkUpTo(run, i).anchors <==> MetAgain(run, i, n)
  {
    if i > 0 {
      MarkUpToMarks(run, i - 1, n);
      if MetAgain(run, i - 1, n) {
        var j :| 0 <= j < i - 1 && VisitNow(run[j]) == Again(n);
        assert MetAgain(run, i, n);
      }
    }
  }

  /** No two nodes get the same name. */
  lemma {:induction false} MarkUpToNumbers(run: seq<State>, i: nat)
    requires i < |run|
    ensures Numbered(MarkUpTo(run, i))
  {
    if i > 0 {
      MarkUpToNumbers(run, i - 1);
      if VisitNow(run[i - 1]).Again? {
        MarkAgainNumbers(MarkUpTo(run, i - 1), VisitNow(run[i - 1]).id);
      }
    }
  }

  /** The names the marking pass leaves. */
  ghost function NamesOf(run: seq<State>): map<Id, string>
    requires run != []
  {
    MarkUpTo(run, |run| - 1).anchors
  }
}
