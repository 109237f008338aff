/** The presenter: marks shared nodes, then writes the event stream of a document. */
module Presenter {
  import opened Wrappers
  import opened YamlGraph
  import opened Anchors

  /** What the text of a document says, layout aside. */
  datatype Event =
    | Content(anchor: Option<string>, header: Header)  // a scalar, or the start of a collection
    | End                                              // the end of the innermost collection
    | Alias(name: string)

  datatype Context = Normal | InList | InMap | NoBreak

  function AnchorOf(anchors: map<Id, string>, id: Id): Option<string> {
    if id in anchors then Some(anchors[id]) else None
  }

  /** A shared scalar that is met first as a mapping key is written without its anchor. */
  predicate LosesAnchor(g: Graph, named: map<Id, string>, v: Visit)
    requires v.id in g
  {
    v.First? && v.asKey && g[v.id].header.Scalar? && v.id in named
  }

  /** The event that one step of the walk stands for. */
  ghost function Render(g: Graph, named: map<Id, string>, v: Visit): Event
    requires v.id in g && (v.Again? ==> v.id in named)
  {
    match v
    case First(id, _) =>
      if LosesAnchor(g, named, v) then Alias(named[id]) else Content(AnchorOf(named, id), g[id].header)
    case Again(id) => Alias(named[id])
    case Leave(_) => End
  }

  ghost predicate Renderable(g: Graph, named: map<Id, string>, run: seq<State>, i: nat) {
    i < |run| && VisitNow(run[i]).id in g && (VisitNow(run[i]).Again? ==> VisitNow(run[i]).id in named)
  }

  lemma StepIsRenderable(g: Graph, root: Id, run: seq<State>, i: nat)
    requires IsRun(g, root, run) && i < |run| && run[i].todo != []
    ensures i < |run| - 1 && Renderable(g, NamesOf(run), run, i)
    ensures run[i].todo[0].Enter? ==> run[i].todo[0].id() in Reached(run)
  {
    assert Follows(g, run, i);
    if VisitNow(run[i]).Again? {
      MarkUpToMarks(run, |run| - 1, VisitNow(run[i]).id);
      assert MetAgain(run, |run| - 1, VisitNow(run[i]).id);
    }
    if run[i].todo[0].Enter? {
      TodoMet(g, root, run, i, 0);
    }
  }

  /** On the nodes that have appeared, the properties are those of the marking `m`. */
  ghost predicate PropertiesAgree(appeared: set<Id>, anchors: map<Id, string>, toBeAnchored: set<Id>,
      m: map<Id, string>)
  {
    && m.Keys <= appeared
    && forall id | id in appeared ::
         && (id in toBeAnchored <==> id in m)
         && (id in anchors <==> id in m)
         && (id in m ==> anchors[id] == m[id])
  }

  /** A mark is left exactly on the named nodes of the document that have not been written. */
  ghost predicate MarksLeft(reached: seq<Id>, anchors: map<Id, string>, toBeAnchored: set<Id>,
      named: map<Id, string>, written: seq<Id>)
  {
    forall id | id in reached ::
      && AnchorOf(anchors, id) == AnchorOf(named, id)
      && (id in toBeAnchored <==> id in named && id !in written)
  }

  lemma AllMarksLeft(run: seq<State>, i: nat, appeared: set<Id>, anchors: map<Id, string>, toBeAnchored: set<Id>)
    requires i == |run| - 1 && appeared == SetOf(run[i].order)
    requires PropertiesAgree(appeared, anchors, toBeAnchored, MarkUpTo(run, i).anchors)
    ensures MarksLeft(Reached(run), anchors, toBeAnchored, NamesOf(run), [])
  {
  }

  class Presenter {
    const graph: Graph
    /** Whether a scalar written in a flow key position takes fewer than 80 characters on one line. */
    const fitsOnOneLine: Header -> bool
    // the "Anchor" and "ToBeAnchored" properties of the nodes, perhaps left over from an earlier run
    var anchors: map<Id, string>
    var toBeAnchored: set<Id>
    // the marking pass
    var appeared: set<Id>
    var anchor: string
    // the output
    var yaml: seq<Event>
    // the walk both passes make, and the state the current one has come to
    ghost var root: Id
    ghost var run: seq<State>
    ghost var i: nat

    constructor (g: Graph, fits: Header -> bool, anchors: map<Id, string>, toBeAnchored: set<Id>)
      ensures graph == g && yaml == []
    {
      graph, fitsOnOneLine := g, fits;
      this.anchors, this.toBeAnchored := anchors, toBeAnchored;
      appeared, anchor, yaml := {}, "", [];
    }

    /** The properties of the nodes that have appeared are those the steps taken so far call for. */
    ghost predicate Marked()
      reads this
    {
      && IsRun(graph, root, run) && i < |run|
      && appeared == SetOf(run[i].order)
      && anchor == MarkUpTo(run, i).last
      && PropertiesAgree(appeared, anchors, toBeAnchored, MarkUpTo(run, i).anchors)
    }

    method Analyze(n: Id, ghost rest: seq<Todo>)
      requires Marked() && run[i].todo != [] && run[i].todo[0].Enter? && run[i].todo[0].id() == n
      requires rest == run[i].todo[1..]
      modifies this`anchors, this`toBeAnchored, this`appeared, this`anchor, this`i
      ensures Marked() && run[i].todo == rest && old(i) < i
      decreases |run| - i, 0
    {
      AtStep(graph, root, run, i);
      if n !in appeared {
        toBeAnchored, anchors := toBeAnchored - {n}, anchors - {n};
        appeared := appeared + {n};
        i := i + 1;
      } else {
        if n !in anchors {
          anchor := NextAnchor(anchor);
          toBeAnchored := toBeAnchored + {n};
          anchors := anchors[n := anchor];
        }
        i := i + 1;
        return;
      }
      if !graph[n].header.Scalar? {
        AnalyzeChildren(n, rest);
      }
    }

    /** The loops of the analysis over the items of a sequence or the keys and values of a mapping. */
    method AnalyzeChildren(n: Id, ghost rest: seq<Todo>)
      requires Marked() && n in graph && run[i].todo == Children(graph, n, 0) + rest
      modifies this`anchors, this`toBeAnchored, this`appeared, this`anchor, this`i
      ensures Marked() && run[i].todo == rest && old(i) < i
      decreases |run| - i, 1
    {
      for k := 0 to |graph[n].children|
        invariant Marked() && run[i].todo == Children(graph, n, k) + rest && old(i) <= i
      {
        NextChild(graph, n, k, rest);
        Analyze(graph[n].children[k].id, Children(graph, n, k + 1) + rest);
      }
      AtStep(graph, root, run, i);
      i := i + 1;
    }

    /** The events written are those of the steps taken. */
    ghost predicate Written()
      reads this
    {
      && IsRun(graph, root, run) && i < |run| && |yaml| == i
      && (forall j | 0 <= j < i ::
            Renderable(graph, NamesOf(run), run, j) && yaml[j] == Render(graph, NamesOf(run), VisitNow(run[j])))
      && MarksLeft(Reached(run), anchors, toBeAnchored, NamesOf(run), run[i].order)
    }

    /** Writes the anchor or alias of a node; the anchor itself is returned, to go with the content. */
    method WriteProperties(n: Id, c: Context) returns (aliased: bool, a: Option<string>, c': Context)
      requires n in toBeAnchored ==> n in anchors
      modifies this`yaml, this`toBeAnchored
      ensures toBeAnchored == old(toBeAnchored) - {n}
      ensures aliased == (n !in old(toBeAnchored) && n in anchors)
      ensures yaml == old(yaml) + if aliased then [Alias(anchors[n])] else []
      ensures !aliased ==> a == AnchorOf(anchors, n) && c' == if a.Some? then InMap else c
    {
      if n in toBeAnchored {
        a := Some(anchors[n]);
        toBeAnchored := toBeAnchored - {n};
        return false, a, InMap;
      }
      if n in anchors {
        yaml := yaml + [Alias(anchors[n])];
        return true, None, c;
      }
      return false, None, c;
    }

    /**
     * Writes the alias of a node, or its anchor with a scalar or the start of a collection. Tells whether the
     * text is one line of fewer than 80 characters, which matters for scalars only.
     */
    method WriteHead(n: Id, c: Context) returns (aliased: bool, short: bool)
      requires n in graph && (n in toBeAnchored ==> n in anchors)
      modifies this`yaml, this`toBeAnchored
      ensures aliased == (n !in old(toBeAnchored) && n in anchors)
      ensures toBeAnchored == old(toBeAnchored) - {n}
      ensures yaml == old(yaml) + [if aliased then Alias(anchors[n])
                                   else Content(AnchorOf(anchors, n), graph[n].header)]
      ensures n in old(toBeAnchored) ==> !short
    {
      var a, c';
      aliased, a, c' := WriteProperties(n, c);
      if aliased {
        return true, c == NoBreak && 1 + |anchors[n]| < 80;
      }
      yaml := yaml + [Content(a, graph[n].header)];
      short := c' == NoBreak && fitsOnOneLine(graph[n].header);
    }

    /** Tries the key on the line of its value; a failed attempt is undone in the output, not in the properties. */
    method WriteImplicitKeyIfPossible(n: Id, c: Context) returns (done: bool)
      requires n in graph && (n in toBeAnchored ==> n in anchors)
      modifies this`yaml, this`toBeAnchored
      ensures !graph[n].header.Scalar? ==> !done && toBeAnchored == old(toBeAnchored)
      ensures graph[n].header.Scalar? ==> toBeAnchored == old(toBeAnchored) - {n}
      ensures n in old(toBeAnchored) ==> !done
      ensures yaml == old(yaml) + if !done then [] else if n in anchors then [Alias(anchors[n])]
                                                   else [Content(None, graph[n].header)]
    {
      if !graph[n].header.Scalar? {
        return false;
      }
      var saved := yaml;
      yaml := [];
      var _, short := WriteHead(n, c);
      var result := yaml;
      yaml := if short then saved + result else saved;
      done := short;
    }

    method NodeToYaml(n: Id, c: Context, ghost rest: seq<Todo>)
      requires Written() && run[i].todo != [] && run[i].todo[0].Enter? && run[i].todo[0].id() == n
      requires rest == run[i].todo[1..]
      requires n in graph && !(graph[n].header.Scalar? && run[i].todo[0].child.asKey)
      modifies this`yaml, this`toBeAnchored, this`i
      ensures Written() && run[i].todo == rest && old(i) < i
      decreases |run| - i, 0
    {
      var done := NodeHeadToYaml(n, c, rest);
      if done {
        return;
      }
      if graph[n].header.Sequence? {
        SequenceToYaml(n, rest);
      } else {
        MappingToYaml(n, rest);
      }
      WriteEnd(n, rest);
    }

    /** Writes an alias, a scalar or the start of a collection; tells whether that was all of the node. */
    method NodeHeadToYaml(n: Id, c: Context, ghost rest: seq<Todo>) returns (done: bool)
      requires Written() && run[i].todo != [] && run[i].todo[0].Enter? && run[i].todo[0].id() == n
      requires rest == run[i].todo[1..]
      requires n in graph && !(graph[n].header.Scalar? && run[i].todo[0].child.asKey)
      modifies this`yaml, this`toBeAnchored, this`i
      ensures Written() && i == old(i) + 1 && (done || !graph[n].header.Scalar?)
      ensures run[i].todo == (if done then [] else Children(graph, n, 0)) + rest
    {
      StepIsRenderable(graph, root, run, i);
      AtStep(graph, root, run, i);
      var aliased, _ := WriteHead(n, c);
      i := i + 1;
      done := aliased || graph[n].header.Scalar?;
      assert [] + rest == rest;
    }

    method SequenceToYaml(n: Id, ghost rest: seq<Todo>)
      requires Written() && n in graph && graph[n].header.Sequence? && run[i].todo == Children(graph, n, 0) + rest
      modifies this`yaml, this`toBeAnchored, this`i
      ensures Written() && run[i].todo == Children(graph, n, |graph[n].children|) + rest && old(i) <= i
      decreases |run| - i, 2
    {
      for k := 0 to |graph[n].children|
        invariant Written() && run[i].todo == Children(graph, n, k) + rest && old(i) <= i
      {
        NextChild(graph, n, k, rest);
        NodeToYaml(graph[n].children[k].id, InList, Children(graph, n, k + 1) + rest);
      }
    }

    method MappingToYaml(n: Id, ghost rest: seq<Todo>)
      requires Written() && n in graph && run[i].todo == Children(graph, n, 0) + rest
      modifies this`yaml, this`toBeAnchored, this`i
      ensures Written() && run[i].todo == Children(graph, n, |graph[n].children|) + rest && old(i) <= i
      decreases |run| - i, 2
    {
      var implicit := false;
      for k := 0 to |graph[n].children|
        invariant Written() && run[i].todo == Children(graph, n, k) + rest && old(i) <= i
      {
        NextChild(graph, n, k, rest);
        var child := graph[n].children[k];
        if child.asKey {
          implicit := KeyToYaml(child.id, Children(graph, n, k + 1) + rest);
        } else {
          NodeToYaml(child.id, if implicit then InMap else InList, Children(graph, n, k + 1) + rest);
        }
      }
    }

    /** Writes a key; tells whether its value goes on the same line. */
    method KeyToYaml(n: Id, ghost rest: seq<Todo>) returns (implicit: bool)
      requires Written() && run[i].todo != [] && run[i].todo[0] == Enter(Child(n, true)) && rest == run[i].todo[1..]
      modifies this`yaml, this`toBeAnchored, this`i
      ensures Written() && run[i].todo == rest && old(i) < i
      decreases |run| - i, 1
    {
      StepIsRenderable(graph, root, run, i);
      AtStep(graph, root, run, i);
      implicit := WriteImplicitKeyIfPossible(n, NoBreak);
      if !graph[n].header.Scalar? {
        NodeToYaml(n, InList, rest);
        return;
      }
      if !implicit {
        var _, _ := WriteHead(n, InList);
      }
      i := i + 1;
    }

    method WriteEnd(n: Id, ghost rest: seq<Todo>)
      requires Written() && n in graph && run[i].todo == Children(graph, n, |graph[n].children|) + rest
      modifies this`yaml, this`i
      ensures Written() && run[i].todo == rest && old(i) < i
    {
      StepIsRenderable(graph, root, run, i);
      AtStep(graph, root, run, i);
      yaml := yaml + [End];
      i := i + 1;
    }

    /** The marking pass: names and marks exactly the nodes of the document that are met again. */
    method MarkMultiTimeAppearingChildNodesToBeAnchored(root: Id)
      requires WellFormed(graph) && root in graph
      modifies this`anchors, this`toBeAnchored, this`appeared, this`anchor, this`root, this`run, this`i
      ensures this.root == root && run == RunOf(graph, root)
      ensures MarksLeft(Reached(run), anchors, toBeAnchored, NamesOf(run), [])
    {
      this.root, run, i := root, RunOf(graph, root), 0;
      appeared, anchor := {}, "";
      Analyze(root, []);
      OnlyEndsEmpty(graph, root, run, i);
      AllMarksLeft(run, i, appeared, anchors, toBeAnchored);
    }

    /** Presents a document. */
    method ToYaml(root: Id)
      requires WellFormed(graph) && root in graph
      modifies this
      ensures yaml == EventsOf(graph, root)
    {
      MarkMultiTimeAppearingChildNodesToBeAnchored(root);
      yaml, i := [], 0;
      NodeToYaml(root, Normal, []);
      OnlyEndsEmpty(graph, this.root, run, i);
      AllIsWritten(graph, root, yaml);
    }
  }

  /** The event stream of a document: one event for each step of the walk. */
  ghost function EventsOf(g: Graph, root: Id): (events: seq<Event>)
    requires WellFormed(g) && root in g
    ensures |events| == |RunOf(g, root)| - 1
    ensures forall j | 0 <= j < |events| ::
              Renderable(g, NamesOf(RunOf(g, root)), RunOf(g, root), j)
              && events[j] == Render(g, NamesOf(RunOf(g, root)), VisitNow(RunOf(g, root)[j]))
  {
    var run := RunOf(g, root);
    AllRenderable(g, root, run);
    seq(|run| - 1, j requires 0 <= j < |run| - 1 && Renderable(g, NamesOf(run), run, j) =>
      Render(g, NamesOf(run), VisitNow(run[j])))
  }

  lemma AllRenderable(g: Graph, root: Id, run: seq<State>)
    requires IsRun(g, root, run)
    ensures forall j | 0 <= j < |run| - 1 :: Renderable(g, NamesOf(run), run, j)
  {
    forall j | 0 <= j < |run| - 1 ensures Renderable(g, NamesOf(run), run, j) {
      NotYetDone(g, root, run, j);
      StepIsRenderable(g, root, run, j);
    }
  }

  /** There is only one stream of an event for each step. */
  lemma AllIsWritten(g: Graph, root: Id, yaml: seq<Event>)
    requires WellFormed(g) && root in g && |yaml| == |RunOf(g, root)| - 1
    requires var run := RunOf(g, root);
             forall j | 0 <= j < |yaml| ::
               Renderable(g, NamesOf(run), run, j) && yaml[j] == Render(g, NamesOf(run), VisitNow(run[j]))
    ensures yaml == EventsOf(g, root)
  {}

  lemma OnlyEndsEmpty(g: Graph, root: Id, run: seq<State>, i: nat)
    requires IsRun(g, root, run) && i < |run| && run[i].todo == []
    ensures i == |run| - 1
  {
    if i < |run| - 1 {
      NotYetDone(g, root, run, i);
    }
  }
}
