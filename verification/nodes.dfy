/** Editing the nodes of curve 0 with the mouse: _add_node inserts a node
    where its x belongs, and dragging a node past a neighbour deletes it.
    Only the first `nodes` of the 20 slots are live; the rest keep
    whatever they held. */
module CurveEditor {
  import opened Params

  /** The live nodes have strictly increasing x. */
  predicate StrictlyOrdered(curve: seq<Node>, nodes: int)
    requires 0 <= nodes <= |curve|
  {
    forall i, j :: 0 <= i < j < nodes ==> curve[i].x < curve[j].x
  }

  /** The live nodes have non-decreasing x. */
  predicate Ordered(curve: seq<Node>, nodes: int)
    requires 0 <= nodes <= |curve|
  {
    forall i, j :: 0 <= i < j < nodes ==> curve[i].x <= curve[j].x
  }

  /** `pos` is where _add_node puts a node at `x`: the first live node
      whose x exceeds `x`, or the end of the live nodes. */
  predicate IsInsertPosition(curve: seq<Node>, nodes: int, x: real, pos: int)
    requires 0 <= nodes <= |curve|
  {
    && 0 <= pos <= nodes
    && (forall i :: 0 <= i < pos ==> curve[i].x <= x)
    && (pos < nodes ==> curve[pos].x > x)
  }

  /** There is one insert position. */
  lemma InsertPositionUnique(curve: seq<Node>, nodes: int, x: real, p1: int, p2: int)
    requires 0 <= nodes <= |curve|
    requires IsInsertPosition(curve, nodes, x, p1) && IsInsertPosition(curve, nodes, x, p2)
    ensures p1 == p2
  {
  }

  /** The curve after inserting `p` at `pos`: the live nodes from `pos`
      on move up one slot, and the slots past the new end are unchanged. */
  function Inserted(curve: seq<Node>, nodes: int, pos: int, p: Node): (r: seq<Node>)
    requires |curve| == MaxNodes && 0 <= pos <= nodes < MaxNodes
    ensures |r| == MaxNodes
    ensures forall t :: 0 <= t < pos ==> r[t] == curve[t]
    ensures r[pos] == p
    ensures forall t :: pos < t <= nodes ==> r[t] == curve[t - 1]
    ensures forall t :: nodes < t < MaxNodes ==> r[t] == curve[t]
  {
    curve[..pos] + [p] + curve[pos..nodes] + curve[nodes + 1..]
  }

  /** The curve after deleting the node at `sel`: the live nodes after it
      move down one slot; the last live slot keeps its old node. */
  function Removed(curve: seq<Node>, nodes: int, sel: int): (r: seq<Node>)
    requires |curve| == MaxNodes && 0 <= sel < nodes <= MaxNodes
    ensures |r| == MaxNodes
    ensures forall t :: 0 <= t < sel ==> r[t] == curve[t]
    ensures forall t :: sel <= t < nodes - 1 ==> r[t] == curve[t + 1]
    ensures forall t :: nodes - 1 <= t < MaxNodes ==> r[t] == curve[t]
  {
    curve[..sel] + curve[sel + 1..nodes] + curve[nodes - 1..]
  }

  /** _add_node: find the first node whose x exceeds `x` (checking slot 0
      even when there are no live nodes), shift the nodes from there up one
      slot, write the new node and count it. The caller only adds a node
      while there are fewer than 20. */
  method AddNode(curve: seq<Node>, nodes: int, x: real, y: real)
    returns (out: seq<Node>, outNodes: int, selected: int)
    requires |curve| == MaxNodes && 0 <= nodes < MaxNodes
    ensures IsInsertPosition(curve, nodes, x, selected)
    ensures outNodes == nodes + 1
    ensures out == Inserted(curve, nodes, selected, Node(x, y))
  {
    selected := -1;
    if curve[0].x > x {
      selected := 0;
    } else {
      var k := 1;
      while k < nodes
        invariant 1 <= k && (k <= nodes || k == 1)
        invariant selected == -1
        invariant forall i :: 0 <= i < k ==> curve[i].x <= x
      {
        if curve[k].x > x {
          selected := k;
          break;
        }
        k := k + 1;
      }
    }
    if selected == -1 {
      selected := nodes;
    }
    out := curve;
    var i := nodes;
    while i > selected
      invariant selected <= i <= nodes && |out| == MaxNodes
      invariant forall t :: 0 <= t <= i ==> out[t] == curve[t]
      invariant forall t :: i < t <= nodes ==> out[t] == curve[t - 1]
      invariant forall t :: nodes < t < MaxNodes ==> out[t] == curve[t]
    {
      out := out[i := out[i - 1]];
      i := i - 1;
    }
    out := out[selected := Node(x, y)];
    outNodes := nodes + 1;
    var r := Inserted(curve, nodes, selected, Node(x, y));
    assert forall t :: 0 <= t < MaxNodes ==> out[t] == r[t];
  }

  /** The deletion loop of the drag handler: every live node after `sel`
      moves down one slot. */
  method RemoveNode(curve: seq<Node>, nodes: int, sel: int) returns (out: seq<Node>)
    requires |curve| == MaxNodes && 0 <= sel < nodes <= MaxNodes
    ensures out == Removed(curve, nodes, sel)
  {
    out := curve;
    var k := sel;
    while k < nodes - 1
      invariant sel <= k <= nodes - 1 && |out| == MaxNodes
      invariant forall t :: 0 <= t < sel ==> out[t] == curve[t]
      invariant forall t :: sel <= t < k ==> out[t] == curve[t + 1]
      invariant forall t :: k <= t < MaxNodes ==> out[t] == curve[t]
    {
      out := out[k := out[k + 1]];
      k := k + 1;
    }
    var r := Removed(curve, nodes, sel);
    assert forall t :: 0 <= t < MaxNodes ==> out[t] == r[t];
  }

  /** Inserting at the insert position keeps the live nodes ordered. */
  lemma InsertKeepsOrder(curve: seq<Node>, nodes: int, x: real, y: real, pos: int)
    requires |curve| == MaxNodes && 0 <= nodes < MaxNodes
    requires Ordered(curve, nodes) && IsInsertPosition(curve, nodes, x, pos)
    ensures Ordered(Inserted(curve, nodes, pos, Node(x, y)), nodes + 1)
  {
    var r := Inserted(curve, nodes, pos, Node(x, y));
    forall i, j | 0 <= i < j < nodes + 1
      ensures r[i].x <= r[j].x
    {
      if j < pos {
      } else if j == pos {
        assert r[i] == curve[i];
      } else if i < pos {
        assert curve[i].x <= curve[j - 1].x;
      } else if i == pos {
        assert curve[pos].x <= curve[j - 1].x;
      } else {
        assert curve[i - 1].x <= curve[j - 1].x;
      }
    }
  }

  /** Inserting an x that no live node has keeps the live nodes strictly
      ordered. */
  lemma InsertKeepsStrictOrder(curve: seq<Node>, nodes: int, x: real, y: real, pos: int)
    requires |curve| == MaxNodes && 0 <= nodes < MaxNodes
    requires StrictlyOrdered(curve, nodes) && IsInsertPosition(curve, nodes, x, pos)
    requires forall i :: 0 <= i < nodes ==> curve[i].x != x
    ensures StrictlyOrdered(Inserted(curve, nodes, pos, Node(x, y)), nodes + 1)
  {
    var r := Inserted(curve, nodes, pos, Node(x, y));
    forall i, j | 0 <= i < j < nodes + 1
      ensures r[i].x < r[j].x
    {
      if j < pos {
      } else if j == pos {
        assert r[i] == curve[i] && curve[i].x <= x && curve[i].x != x;
      } else if i < pos {
        assert curve[i].x < curve[j - 1].x;
      } else if i == pos {
        if pos < j - 1 {
          assert curve[pos].x < curve[j - 1].x;
        }
      } else {
        assert curve[i - 1].x < curve[j - 1].x;
      }
    }
  }

  /** Deleting the node just inserted gives back the live nodes as they
      were before the insertion. */
  lemma RemoveUndoesInsert(curve: seq<Node>, nodes: int, pos: int, p: Node)
    requires |curve| == MaxNodes && 0 <= pos <= nodes < MaxNodes
    ensures Removed(Inserted(curve, nodes, pos, p), nodes + 1, pos)[..nodes] == curve[..nodes]
  {
    var r := Removed(Inserted(curve, nodes, pos, p), nodes + 1, pos);
    assert forall t :: 0 <= t < nodes ==> r[t] == curve[t];
  }

  /** Deleting a live node keeps the remaining live nodes strictly
      ordered. */
  lemma RemoveKeepsStrictOrder(curve: seq<Node>, nodes: int, sel: int)
    requires |curve| == MaxNodes && 0 <= sel < nodes <= MaxNodes
    requires StrictlyOrdered(curve, nodes)
    ensures StrictlyOrdered(Removed(curve, nodes, sel), nodes - 1)
  {
    var r := Removed(curve, nodes, sel);
    forall i, j | 0 <= i < j < nodes - 1
      ensures r[i].x < r[j].x
    {
      var i' := if i < sel then i else i + 1;
      var j' := if j < sel then j else j + 1;
      assert r[i] == curve[i'] && r[j] == curve[j'];
    }
  }

  /** The selected node stays strictly between its live neighbours when
      moved to `x`. */
  predicate OrderKept(curve: seq<Node>, nodes: int, sel: int, x: real)
    requires 0 <= sel < nodes <= |curve|
  {
    (sel == 0 || curve[sel - 1].x < x) && (sel == nodes - 1 || x < curve[sel + 1].x)
  }

  /** The editor state after a drag step: the curve, the live node count
      and the selection (-2 after a deletion). */
  datatype Drag = Drag(curve: seq<Node>, nodes: int, selected: int)

  /** A drag of the selected node to (x, y): the node moves, and with more
      than two nodes it is deleted when it reaches or passes a neighbour's x;
      the selection then becomes -2 so that the point is not re-inserted at
      once. */
  function DragNode(curve: seq<Node>, nodes: int, sel: int, x: real, y: real): (d: Drag)
    requires |curve| == MaxNodes && 0 <= sel < nodes <= MaxNodes
    ensures |d.curve| == MaxNodes
    ensures nodes > 2 && !OrderKept(curve, nodes, sel, x) ==>
      && d.nodes == nodes - 1 && d.selected == -2
      && forall t :: 0 <= t < nodes - 1 ==> d.curve[t] == curve[if t < sel then t else t + 1]
    ensures nodes <= 2 || OrderKept(curve, nodes, sel, x) ==>
      && d.nodes == nodes && d.selected == sel && d.curve[sel] == Node(x, y)
      && forall t :: 0 <= t < MaxNodes && t != sel ==> d.curve[t] == curve[t]
  {
    var moved := curve[sel := Node(x, y)];
    if nodes > 2 && ((sel > 0 && moved[sel - 1].x >= x) || (sel < nodes - 1 && moved[sel + 1].x <= x)) then
      Drag(Removed(moved, nodes, sel), nodes - 1, -2)
    else
      Drag(moved, nodes, sel)
  }

  /** With more than two nodes, dragging never breaks the strict order of
      the live nodes: either the node stays between its neighbours or it is
      deleted. With two nodes or fewer no deletion happens and the order
      can break. */
  lemma DragKeepsStrictOrder(curve: seq<Node>, nodes: int, sel: int, x: real, y: real)
    requires |curve| == MaxNodes && 0 <= sel < nodes <= MaxNodes
    requires StrictlyOrdered(curve, nodes) && nodes > 2
    ensures var d := DragNode(curve, nodes, sel, x, y);
      0 <= d.nodes <= MaxNodes && StrictlyOrdered(d.curve, d.nodes)
  {
    var d := DragNode(curve, nodes, sel, x, y);
    if OrderKept(curve, nodes, sel, x) {
      forall i, j | 0 <= i < j < nodes
        ensures d.curve[i].x < d.curve[j].x
      {
        if i == sel {
          assert curve[sel + 1].x <= curve[j].x;
        } else if j == sel {
          assert curve[i].x <= curve[sel - 1].x;
        }
      }
    } else {
      RemoveKeepsStrictOrder(curve, nodes, sel);
      var r := Removed(curve, nodes, sel);
      forall t | 0 <= t < nodes - 1
        ensures d.curve[t] == r[t]
      {
      }
    }
  }
}
