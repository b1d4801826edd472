/** The queues between renderer and app, event routing, and patches (gui-renderer/src/event_bridge.rs). */
module EventBridge {
  import opened Options
  import opened EcsTree

  datatype UiEvent =
    | Click(x: real, y: real)
    | Hover(x: real, y: real)
    | TextInput(entityId: nat, text: string)
    | KeyPress(key: string)

  /** The JSON argument of a callback. */
  datatype Payload =
    | ClickPayload(x: real, y: real, widgetId: Option<string>)
    | TextPayload(value: string, widgetId: Option<string>)

  datatype Callback = Callback(action: string, payload: Payload)

  datatype Patch =
    | SetText(widgetId: string, newContent: string)
    | SetButtonLabel(widgetId: string, newLabel: string)
    | SetVisible(widgetId: string, visible: bool)
    | FullReplace(uidlJson: string)

  // ---- routing

  /** The callback an event turns into, if any. */
  function Route(nodes: seq<EcsNode>, event: UiEvent): Option<Callback> {
    match event
    case Click(x, y) =>
      var hit := HitTest(nodes, x, y);
      if hit.None? || nodes[hit.value].Action().None? then None
      else Some(Callback(nodes[hit.value].Action().value, ClickPayload(x, y, nodes[hit.value].uidlId)))
    case TextInput(entityId, text) =>
      var found := Find(nodes, entityId);
      if found.None? || nodes[found.value].Action().None? then None
      else Some(Callback(nodes[found.value].Action().value, TextPayload(text, nodes[found.value].uidlId)))
    case Hover(_, _) => None
    case KeyPress(_) => None
  }

  /** The callbacks of a list of events, in order. */
  function RouteAll(nodes: seq<EcsNode>, events: seq<UiEvent>): seq<Callback> {
    if events == [] then []
    else
      var first := Route(nodes, events[0]);
      (if first.Some? then [first.value] else []) + RouteAll(nodes, events[1..])
  }

  class Bridge {
    var inbound: seq<UiEvent>
    var outbound: seq<Callback>
    var patches: seq<Patch>

    constructor ()
      ensures inbound == [] && outbound == [] && patches == []
    {
      inbound, outbound, patches := [], [], [];
    }

    method PushUiEvent(event: UiEvent)
      modifies this
      ensures inbound == old(inbound) + [event] && outbound == old(outbound) && patches == old(patches)
    {
      inbound := inbound + [event];
    }

    /** Turns every pending event into its callback, using the tree as it is now. */
    method ProcessEvents(tree: Tree)
      modifies this
      ensures inbound == [] && patches == old(patches)
      ensures outbound == old(outbound) + RouteAll(tree.nodes, old(inbound))
    {
      ghost var final := outbound + RouteAll(tree.nodes, inbound);
      while inbound != []
        invariant outbound + RouteAll(tree.nodes, inbound) == final
        invariant patches == old(patches)
        decreases |inbound|
      {
        var event := inbound[0];
        inbound := inbound[1..];
        match event
        case Click(x, y) =>
          var hit := HitTest(tree.nodes, x, y);
          if hit.Some? {
            var node := tree.nodes[hit.value];
            if node.Action().Some? {
              outbound := outbound + [Callback(node.Action().value, ClickPayload(x, y, node.uidlId))];
            }
          }
        case Hover(_, _) =>
        case TextInput(entityId, text) =>
          var found := Find(tree.nodes, entityId);
          if found.Some? {
            var node := tree.nodes[found.value];
            if node.Action().Some? {
              outbound := outbound + [Callback(node.Action().value, TextPayload(text, node.uidlId))];
            }
          }
        case KeyPress(_) =>
      }
    }

    method DrainOutbound() returns (callbacks: seq<Callback>)
      modifies this
      ensures callbacks == old(outbound) && outbound == []
      ensures inbound == old(inbound) && patches == old(patches)
    {
      callbacks := outbound;
      outbound := [];
    }

    method PushPatch(patch: Patch)
      modifies this
      ensures patches == old(patches) + [patch] && inbound == old(inbound) && outbound == old(outbound)
    {
      patches := patches + [patch];
    }

    method DrainPatches() returns (pending: seq<Patch>)
      modifies this
      ensures pending == old(patches) && patches == []
      ensures inbound == old(inbound) && outbound == old(outbound)
    {
      pending := patches;
      patches := [];
    }
  }

  // ---- patches, stated node by node

  /** Whether the patch writes the node's text or label. */
  predicate Targets(patch: Patch, node: EcsNode) {
    match patch
    case SetText(id, _) => node.uidlId == Some(id) && node.component.TextComponent?
    case SetButtonLabel(id, _) => node.uidlId == Some(id) && node.component.ButtonComponent?
    case _ => false
  }

  function Written(patch: Patch, node: EcsNode): EcsNode
    requires Targets(patch, node)
  {
    if patch.SetText? then node.(component := node.component.(content := patch.newContent))
    else node.(component := node.component.(labelText := patch.newLabel))
  }

  /** The patches before the first full replacement: the others are stale. */
  function Effective(patches: seq<Patch>): (r: seq<Patch>)
    ensures |r| <= |patches| && r == patches[..|r|]
    ensures forall i :: 0 <= i < |r| ==> !patches[i].FullReplace?
    ensures |r| < |patches| ==> patches[|r|].FullReplace?
  {
    if patches == [] || patches[0].FullReplace? then [] else [patches[0]] + Effective(patches[1..])
  }

  /** Last writer wins: the node as the last patch that targets it writes it. */
  function FinalNode(node: EcsNode, patches: seq<Patch>): EcsNode {
    if patches == [] then node
    else if Targets(patches[|patches| - 1], node) then Written(patches[|patches| - 1], node)
    else FinalNode(node, patches[..|patches| - 1])
  }

  function FinalNodes(nodes: seq<EcsNode>, patches: seq<Patch>): (r: seq<EcsNode>)
    ensures |r| == |nodes|
    ensures forall k :: 0 <= k < |nodes| ==> r[k] == FinalNode(nodes[k], patches)
  {
    seq(|nodes|, k requires 0 <= k < |nodes| => FinalNode(nodes[k], patches))
  }

  /** 1 if the last patch of the list changes the node, else 0. */
  function LastAlters(node: EcsNode, patches: seq<Patch>): nat
    requires patches != []
  {
    if FinalNode(node, patches) != FinalNode(node, patches[..|patches| - 1]) then 1 else 0
  }

  /** How many of the patches change the node. */
  function Alterations(node: EcsNode, patches: seq<Patch>): nat {
    if patches == [] then 0
    else Alterations(node, patches[..|patches| - 1]) + LastAlters(node, patches)
  }

  function TotalAlterations(nodes: seq<EcsNode>, patches: seq<Patch>): nat {
    if nodes == [] then 0
    else TotalAlterations(nodes[..|nodes| - 1], patches) + Alterations(nodes[|nodes| - 1], patches)
  }

  function NodesLastAlters(nodes: seq<EcsNode>, patches: seq<Patch>): nat
    requires patches != []
  {
    if nodes == [] then 0
    else NodesLastAlters(nodes[..|nodes| - 1], patches) + LastAlters(nodes[|nodes| - 1], patches)
  }

  function VisibilityPatches(patches: seq<Patch>): nat {
    if patches == [] then 0
    else VisibilityPatches(patches[..|patches| - 1]) + if patches[|patches| - 1].SetVisible? then 1 else 0
  }

  /** The number `ApplyPatches` reports. */
  function ChangeCount(nodes: seq<EcsNode>, patches: seq<Patch>): nat {
    var live := Effective(patches);
    TotalAlterations(nodes, live) + VisibilityPatches(live) + if |live| < |patches| then 1 else 0
  }

  /** Counting by node or by patch comes to the same. */
  lemma {:induction false} OnePatchMore(nodes: seq<EcsNode>, patches: seq<Patch>)
    requires patches != []
    ensures TotalAlterations(nodes, patches)
         == TotalAlterations(nodes, patches[..|patches| - 1]) + NodesLastAlters(nodes, patches)
  {
    if nodes != [] {
      OnePatchMore(nodes[..|nodes| - 1], patches);
    }
  }

  /** What no patch touches. */
  ghost predicate SameSkeleton(a: EcsNode, b: EcsNode) {
    && a.id == b.id && a.uidlId == b.uidlId && a.layout == b.layout && a.interaction == b.interaction
    && a.parent == b.parent && a.children == b.children
    && a.IsInteractive() == b.IsInteractive() && a.Action() == b.Action()
    && a.component.TextComponent? == b.component.TextComponent?
    && a.component.ButtonComponent? == b.component.ButtonComponent?
  }

  lemma {:induction false} PatchesKeepSkeleton(node: EcsNode, patches: seq<Patch>)
    ensures SameSkeleton(node, FinalNode(node, patches))
  {
    if patches != [] {
      PatchesKeepSkeleton(node, patches[..|patches| - 1]);
    }
  }

  /** Writing over earlier writes leaves no trace of them. */
  lemma {:induction false} OverwriteForgets(node: EcsNode, earlier: seq<Patch>, patch: Patch)
    requires Targets(patch, node)
    ensures Targets(patch, FinalNode(node, earlier)) && Written(patch, FinalNode(node, earlier)) == Written(patch, node)
  {
    if earlier != [] {
      OverwriteForgets(node, earlier[..|earlier| - 1], patch);
    }
  }

  /** One node under one more patch, from the node as it stands. */
  lemma ApplyNext(node: EcsNode, earlier: seq<Patch>, patch: Patch)
    ensures var now := FinalNode(node, earlier);
      && Targets(patch, now) == Targets(patch, node)
      && FinalNode(node, earlier + [patch]) == if Targets(patch, now) then Written(patch, now) else now
  {
    PatchesKeepSkeleton(node, earlier);
    assert (earlier + [patch])[..|earlier|] == earlier;
    if Targets(patch, node) {
      OverwriteForgets(node, earlier, patch);
    }
  }

  /** Applies the patches one after the other, each to every node, until a full replacement turns up. */
  method ApplyPatches(tree: Tree, patches: seq<Patch>) returns (changed: nat)
    modifies tree
    ensures tree.nodes == FinalNodes(old(tree.nodes), Effective(patches))
    ensures changed == ChangeCount(old(tree.nodes), patches)
  {
    ghost var start := tree.nodes;
    changed := 0;
    var i := 0;
    assert tree.nodes == FinalNodes(start, []);
    NothingAltered(start);
    while i < |patches|
      invariant i <= |Effective(patches)|
      invariant tree.nodes == FinalNodes(start, patches[..i])
      invariant changed == TotalAlterations(start, patches[..i]) + VisibilityPatches(patches[..i])
    {
      if patches[i].FullReplace? {
        assert Effective(patches) == patches[..i];
        return changed + 1;
      }
      ghost var earlier := patches[..i];
      assert patches[..i + 1] == earlier + [patches[i]] && patches[..i + 1][..i] == earlier;
      OnePatchMore(start, patches[..i + 1]);
      if patches[i].SetVisible? {
        VisibilityAltersNothing(start, earlier, patches[i]);
        changed := changed + 1;
      } else {
        var altered := PatchNodes(tree, patches[i], start, earlier);
        changed := changed + altered;
      }
      i := i + 1;
    }
    assert Effective(patches) == patches[..i];
  }

  lemma {:induction false} NothingAltered(nodes: seq<EcsNode>)
    ensures TotalAlterations(nodes, []) == 0
  {
    if nodes != [] {
      NothingAltered(nodes[..|nodes| - 1]);
    }
  }

  /** A patch that writes no node leaves all nodes alone and alters none. */
  lemma {:induction false} VisibilityAltersNothing(nodes: seq<EcsNode>, earlier: seq<Patch>, patch: Patch)
    requires patch.SetVisible?
    ensures FinalNodes(nodes, earlier + [patch]) == FinalNodes(nodes, earlier)
    ensures NodesLastAlters(nodes, earlier + [patch]) == 0
  {
    assert (earlier + [patch])[..|earlier|] == earlier;
    if nodes != [] {
      VisibilityAltersNothing(nodes[..|nodes| - 1], earlier, patch);
    }
  }

  /** The inner loop: one text or label patch against every node. */
  method PatchNodes(tree: Tree, patch: Patch, ghost start: seq<EcsNode>, ghost earlier: seq<Patch>) returns (altered: nat)
    requires tree.nodes == FinalNodes(start, earlier)
    requires patch.SetText? || patch.SetButtonLabel?
    modifies tree
    ensures tree.nodes == FinalNodes(start, earlier + [patch])
    ensures altered == NodesLastAlters(start, earlier + [patch])
  {
    altered := 0;
    ghost var upTo := earlier + [patch];
    for j := 0 to |tree.nodes|
      invariant |tree.nodes| == |start|
      invariant forall k :: 0 <= k < j ==> tree.nodes[k] == FinalNode(start[k], upTo)
      invariant forall k :: j <= k < |start| ==> tree.nodes[k] == FinalNode(start[k], earlier)
      invariant altered == NodesLastAlters(start[..j], upTo)
    {
      var node := tree.nodes[j];
      ApplyNext(start[j], earlier, patch);
      assert upTo[..|upTo| - 1] == earlier;
      assert start[..j + 1][..j] == start[..j];
      if node.uidlId == Some(patch.widgetId) {
        if patch.SetText? && node.component.TextComponent? {
          if node.component.content != patch.newContent {
            tree.nodes := tree.nodes[j := node.(component := node.component.(content := patch.newContent))];
            altered := altered + 1;
          }
        } else if patch.SetButtonLabel? && node.component.ButtonComponent? {
          if node.component.labelText != patch.newLabel {
            tree.nodes := tree.nodes[j := node.(component := node.component.(labelText := patch.newLabel))];
            altered := altered + 1;
          }
        }
      }
    }
    assert start[..|start|] == start;
  }
}
