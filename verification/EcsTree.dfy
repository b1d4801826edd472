/** The flat component table and the stack machine that fills it (gui-renderer/src/uidl_to_ecs.rs). */
module EcsTree {
  import opened Options
  import opened Uidl
  import opened Layout

  datatype Component =
    | TextComponent(content: string, textStyle: Option<TextStyle>)
    | ButtonComponent(labelText: string, action: string, buttonStyle: Option<ButtonStyle>)
    | InputComponent(placeholder: Option<string>, value: Option<string>, onChange: Option<string>)
    | VStackComponent(gap: nat, padding: nat)
    | HStackComponent(gap: nat)
    | SpacerComponent(size: nat)

  /** The defaults here are those of the component table, not those of the layout engine. */
  function ComponentOf(w: Widget): Component {
    match w
    case Text(content, style, _) => TextComponent(content, style)
    case Button(labelText, action, _, style) => ButtonComponent(labelText, action, style)
    case Input(placeholder, value, onChange, _) => InputComponent(placeholder, value, onChange)
    case VStack(gap, padding, _, _) => VStackComponent(gap.GetOr(8), padding.GetOr(0))
    case HStack(gap, _, _) => HStackComponent(gap.GetOr(8))
    case Spacer(size) => SpacerComponent(size.GetOr(16))
  }

  datatype Interaction = Interaction(hovered: bool, pressed: bool, focused: bool)

  datatype EcsNode = EcsNode(
    id: nat,
    uidlId: Option<string>,
    component: Component,
    layout: LayoutBox,
    interaction: Interaction,
    parent: Option<nat>,
    children: seq<nat>)
  {
    predicate IsInteractive() {
      component.ButtonComponent? || component.InputComponent?
    }

    function Action(): Option<string> {
      match component
      case ButtonComponent(_, action, _) => Some(action)
      case InputComponent(_, _, onChange) => onChange
      case _ => None
    }

    /** Whether the point lies in the node's box, edges included. */
    predicate Contains(px: real, py: real) {
      && layout.x <= px <= layout.x + layout.width
      && layout.y <= py <= layout.y + layout.height
    }
  }

  function FreshNode(id: nat, p: Placed, parent: Option<nat>): EcsNode {
    EcsNode(id, p.widget.Id(), ComponentOf(p.widget), p.box, Interaction(false, false, false), parent, [])
  }

  // ---- one step of the stack machine

  datatype StackFrame = StackFrame(nodeIdx: nat, expectedChildren: nat, assignedChildren: nat)

  function PopConsumed(stack: seq<StackFrame>): seq<StackFrame> {
    if stack != [] && stack[|stack| - 1].assignedChildren >= stack[|stack| - 1].expectedChildren
    then PopConsumed(stack[..|stack| - 1])
    else stack
  }

  function Assign(stack: seq<StackFrame>): seq<StackFrame> {
    if stack == [] then stack
    else
      var top := stack[|stack| - 1];
      stack[|stack| - 1 := top.(assignedChildren := top.assignedChildren + 1)]
  }

  /** The index the next node will have as its parent. */
  function NextParent(stack: seq<StackFrame>): Option<nat> {
    if stack == [] then None else Some(stack[|stack| - 1].nodeIdx)
  }

  function Adopt(nodes: seq<EcsNode>, parent: Option<nat>, child: nat): (r: seq<EcsNode>)
    requires parent.Some? ==> parent.value < |nodes|
    ensures |r| == |nodes|
  {
    if parent.None? then nodes
    else nodes[parent.value := nodes[parent.value].(children := nodes[parent.value].children + [child])]
  }

  datatype Machine = Machine(nodes: seq<EcsNode>, stack: seq<StackFrame>) {
    /** Every frame refers to a node already made. */
    predicate InRange() {
      forall i :: 0 <= i < |stack| ==> stack[i].nodeIdx < |nodes|
    }

    function Step(p: Placed): (m: Machine)
      requires InRange()
      ensures m.InRange() && |m.nodes| == |nodes| + 1
    {
      var parent, n := NextParent(stack), |nodes|;
      var rest := PopConsumed(Assign(stack));
      PopKeepsRange(Assign(stack), n);
      Machine(Adopt(nodes + [FreshNode(n + 1, p, parent)], parent, n),
              if p.widget.Children() != [] then rest + [StackFrame(n, |p.widget.Children()|, 0)] else rest)
    }
  }

  lemma PopKeepsRange(stack: seq<StackFrame>, n: nat)
    requires forall i :: 0 <= i < |stack| ==> stack[i].nodeIdx < n
    ensures forall i :: 0 <= i < |PopConsumed(stack)| ==> PopConsumed(stack)[i].nodeIdx < n
  {
  }

  /** The machine after the pairs have been fed to it in order. */
  function Feed(m: Machine, pairs: seq<Placed>): (r: Machine)
    requires m.InRange()
    ensures r.InRange() && |r.nodes| == |m.nodes| + |pairs|
    decreases |pairs|
  {
    if pairs == [] then m else Feed(m.Step(pairs[0]), pairs[1..])
  }

  lemma FeedOne(m: Machine, pairs: seq<Placed>, k: nat)
    requires m.InRange() && k < |pairs|
    ensures Feed(m, pairs[k..]) == Feed(m.Step(pairs[k]), pairs[k + 1..])
  {
    assert pairs[k..][1..] == pairs[k + 1..];
  }

  // ---- lookups

  /** The first node with the given id. */
  function Find(nodes: seq<EcsNode>, id: nat): (r: Option<nat>)
    ensures r.Some? ==> r.value < |nodes| && nodes[r.value].id == id && forall j :: 0 <= j < r.value ==> nodes[j].id != id
    ensures r.None? ==> forall j :: 0 <= j < |nodes| ==> nodes[j].id != id
  {
    if nodes == [] then None
    else if nodes[0].id == id then Some(0)
    else
      var r := Find(nodes[1..], id);
      if r.Some? then Some(r.value + 1) else None
  }

  /** The last interactive node that contains the point: later nodes are painted on top. */
  function HitTest(nodes: seq<EcsNode>, px: real, py: real): (r: Option<nat>)
    ensures r.Some? ==> r.value < |nodes| && nodes[r.value].IsInteractive() && nodes[r.value].Contains(px, py)
    ensures forall j :: (if r.Some? then r.value + 1 else 0) <= j < |nodes|
              ==> !(nodes[j].IsInteractive() && nodes[j].Contains(px, py))
  {
    if nodes == [] then None
    else
      var last := |nodes| - 1;
      if nodes[last].IsInteractive() && nodes[last].Contains(px, py) then Some(last)
      else HitTest(nodes[..last], px, py)
  }

  // ---- the tree and its builder

  class Tree {
    var nodes: seq<EcsNode>

    constructor (nodes: seq<EcsNode>)
      ensures this.nodes == nodes
    {
      this.nodes := nodes;
    }
  }

  /** The vectors and counters the builder works on. */
  class Builder {
    var nodes: seq<EcsNode>
    var nextId: nat

    constructor ()
      ensures nodes == [] && nextId == 1
    {
      nodes, nextId := [], 1;
    }

    /** Counts the new node as a child of the top frame, and drops the frames that are now complete. */
    method AdvanceStack(frames: seq<StackFrame>) returns (stack: seq<StackFrame>)
      ensures stack == PopConsumed(Assign(frames))
    {
      stack := frames;
      if stack != [] {
        var top := stack[|stack| - 1];
        stack := stack[|stack| - 1 := top.(assignedChildren := top.assignedChildren + 1)];
      }
      while stack != [] && stack[|stack| - 1].assignedChildren >= stack[|stack| - 1].expectedChildren
        invariant PopConsumed(stack) == PopConsumed(Assign(frames))
        decreases |stack|
      {
        stack := stack[..|stack| - 1];
      }
    }

    /** Makes the next node and registers it with its parent. */
    method AppendNode(p: Placed, parentIdx: Option<nat>)
      requires parentIdx.Some? ==> parentIdx.value < |nodes|
      modifies this
      ensures nodes == Adopt(old(nodes) + [FreshNode(old(nextId), p, parentIdx)], parentIdx, |old(nodes)|)
      ensures nextId == old(nextId) + 1
    {
      var nodeIdx := |nodes|;
      nodes := nodes + [FreshNode(nextId, p, parentIdx)];
      nextId := nextId + 1;
      if parentIdx.Some? {
        var parent := nodes[parentIdx.value];
        nodes := nodes[parentIdx.value := parent.(children := parent.children + [nodeIdx])];
      }
    }

    method BuildNodesFromPairs(pairs: seq<Placed>)
      requires nodes == [] && nextId == 1
      modifies this
      ensures nodes == Feed(Machine([], []), pairs).nodes
      ensures nextId == |nodes| + 1
    {
      var stack: seq<StackFrame> := [];
      ghost var final := Feed(Machine([], []), pairs);
      for k := 0 to |pairs|
        invariant Machine(nodes, stack).InRange() && nextId == |nodes| + 1
        invariant Feed(Machine(nodes, stack), pairs[k..]) == final
      {
        ghost var after := Machine(nodes, stack).Step(pairs[k]);
        FeedOne(Machine(nodes, stack), pairs, k);
        var nodeIdx := |nodes|;
        var parentIdx := if stack == [] then None else Some(stack[|stack| - 1].nodeIdx);
        var childCount := |pairs[k].widget.Children()|;
        AppendNode(pairs[k], parentIdx);
        assert |nodes| == nodeIdx + 1;
        stack := AdvanceStack(stack);
        if childCount > 0 {
          stack := stack + [StackFrame(nodeIdx, childCount, 0)];
        }
        assert Machine(nodes, stack) == after;
      }
      assert pairs[|pairs|..] == [];
    }
  }

  method BuildEcsTree(doc: Document, canvasWidth: nat, canvasHeight: nat) returns (tree: Tree)
    ensures fresh(tree)
    ensures tree.nodes == Feed(Machine([], []), Flatten(doc.layout, RootBox(canvasWidth, canvasHeight))).nodes
  {
    var engine := new LayoutEngine(canvasWidth, canvasHeight);
    var pairs := engine.LayoutDocument(doc);
    var builder := new Builder();
    builder.BuildNodesFromPairs(pairs);
    tree := new Tree(builder.nodes);
  }
}
