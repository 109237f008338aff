/** The parser's anchor table, whose registrations can be undone back to any earlier depth. */
module AnchorTable {
  import opened Wrappers

  type NodeId = nat

  /** What to put back when a registration is undone: the old value, if the anchor had one. */
  datatype RewindInfo = RewindInfo(anchorName: string, oldValue: Option<NodeId>)

  datatype Table = Table(items: map<string, NodeId>, itemsToRewind: seq<RewindInfo>)

  function Lookup(items: map<string, NodeId>, name: string): Option<NodeId> {
    if name in items then Some(items[name]) else None
  }

  function Register(t: Table, name: string, node: NodeId): Table {
    Table(t.items[name := node], t.itemsToRewind + [RewindInfo(name, Lookup(t.items, name))])
  }

  function PutBack(items: map<string, NodeId>, info: RewindInfo): map<string, NodeId> {
    match info.oldValue
    case None => items - {info.anchorName}
    case Some(v) => items[info.anchorName := v]
  }

  /** The table as it was when `depth` registrations had been made. */
  function RewoundTo(t: Table, depth: nat): (r: Table)
    ensures depth <= |t.itemsToRewind| ==> |r.itemsToRewind| == depth
    decreases |t.itemsToRewind|
  {
    var last := |t.itemsToRewind| - 1;
    if last < depth then t
    else RewoundTo(Table(PutBack(t.items, t.itemsToRewind[last]), t.itemsToRewind[..last]), depth)
  }

  /** Undoing the newest registration gives the table before it, whether or not it overrode an older one. */
  lemma RegisterUndone(t: Table, name: string, node: NodeId, depth: nat)
    requires depth <= |t.itemsToRewind|
    ensures RewoundTo(Register(t, name, node), depth) == RewoundTo(t, depth)
  {
    var r, last := Register(t, name, node), |t.itemsToRewind|;
    assert PutBack(r.items, r.itemsToRewind[last]) == t.items;
    assert r.itemsToRewind[..last] == t.itemsToRewind;
  }

  /** Rewinding in two steps is rewinding at once. */
  lemma {:induction false} RewoundTwice(t: Table, middle: nat, depth: nat)
    requires depth <= middle
    ensures RewoundTo(RewoundTo(t, middle), depth) == RewoundTo(t, depth)
    decreases |t.itemsToRewind|
  {
    var last := |t.itemsToRewind| - 1;
    if middle <= last {
      RewoundTwice(Table(PutBack(t.items, t.itemsToRewind[last]), t.itemsToRewind[..last]), middle, depth);
    }
  }

  ghost function RegisterAll(t: Table, names: seq<string>, nodes: seq<NodeId>): Table
    requires |names| == |nodes|
    decreases |names|
  {
    if names == [] then t else RegisterAll(Register(t, names[0], nodes[0]), names[1..], nodes[1..])
  }

  /** However many anchors are registered, and however they override each other, rewinding brings the table back. */
  lemma {:induction false} RegisterAllUndone(t: Table, names: seq<string>, nodes: seq<NodeId>, depth: nat)
    requires |names| == |nodes| && depth <= |t.itemsToRewind|
    ensures RewoundTo(RegisterAll(t, names, nodes), depth) == RewoundTo(t, depth)
    ensures RewoundTo(RegisterAll(t, names, nodes), |t.itemsToRewind|) == t
    decreases |names|
  {
    if names != [] {
      var r := Register(t, names[0], nodes[0]);
      RegisterAllUndone(r, names[1..], nodes[1..], depth);
      RegisterAllUndone(r, names[1..], nodes[1..], |t.itemsToRewind|);
      RegisterUndone(t, names[0], nodes[0], depth);
      RegisterUndone(t, names[0], nodes[0], |t.itemsToRewind|);
    }
  }

  class AnchorDictionary {
    var items: map<string, NodeId>
    var itemsToRewind: seq<RewindInfo>

    constructor ()
      ensures Contents() == Table(map[], [])
    {
      items, itemsToRewind := map[], [];
    }

    function Contents(): Table
      reads this
    {
      Table(items, itemsToRewind)
    }

    /** The node of an anchor; an anchor that has not been registered is an error. */
    method Get(anchorName: string) returns (node: Option<NodeId>)
      ensures node == Lookup(items, anchorName)
    {
      return if anchorName in items then Some(items[anchorName]) else None;
    }

    method Add(anchorName: string, node: NodeId)
      modifies this
      ensures Contents() == Register(old(Contents()), anchorName, node)
    {
      if anchorName in items {
        itemsToRewind := itemsToRewind + [RewindInfo(anchorName, Some(items[anchorName]))];
        items := items[anchorName := node];
      } else {
        itemsToRewind := itemsToRewind + [RewindInfo(anchorName, None)];
        items := items[anchorName := node];
      }
    }

    /** Rewinds to a depth; a depth not yet reached is out of range. */
    method SetRewindDepth(value: nat) returns (ok: bool)
      modifies this
      ensures ok == (value <= |old(itemsToRewind)|)
      ensures Contents() == if ok then RewoundTo(old(Contents()), value) else old(Contents())
    {
      if |itemsToRewind| < value {
        return false;
      }
      while value < |itemsToRewind|
        invariant value <= |itemsToRewind|
        invariant RewoundTo(Contents(), value) == RewoundTo(old(Contents()), value)
        decreases |itemsToRewind|
      {
        var last := |itemsToRewind| - 1;
        var item := itemsToRewind[last];
        itemsToRewind := itemsToRewind[..last];
        match item.oldValue {
          case None => items := items - {item.anchorName};
          case Some(v) => items := items[item.anchorName := v];
        }
      }
      return true;
    }
  }
}
