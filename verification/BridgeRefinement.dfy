/** The bridge's methods, on a tree, are the actions of a run. */
module BridgeRefinement {
  import opened EcsTree
  import opened EventBridge
  import opened EventTheorems

  /** The queues of the bridge and the table of the tree are those of the run. */
  ghost predicate Represents(bridge: Bridge, tree: Tree, a: App)
    reads bridge, tree
  {
    && bridge.inbound == a.inbound && bridge.outbound == a.outbound && bridge.patches == a.patches
    && tree.nodes == a.nodes
  }

  /** Carries out one action of a run; what it hands out is what the run delivers. */
  method Perform(bridge: Bridge, tree: Tree, ghost a: App, action: Action) returns (callbacks: seq<Callback>)
    requires Represents(bridge, tree, a)
    modifies bridge, tree
    ensures Represents(bridge, tree, Do(a, action))
    ensures Do(a, action).delivered == a.delivered + callbacks
  {
    callbacks := [];
    match action
    case PushEvent(event) =>
      bridge.PushUiEvent(event);
    case ProcessPending =>
      bridge.ProcessEvents(tree);
    case DeliverCallbacks =>
      callbacks := bridge.DrainOutbound();
    case SubmitPatch(patch) =>
      bridge.PushPatch(patch);
    case ApplyPending =>
      var pending := bridge.DrainPatches();
      var _ := ApplyPatches(tree, pending);
    case InstallTable(table) =>
      tree.nodes := table;
  }

  /** Carries out a whole run on a new bridge, over the table that is there at the start. */
  method PerformAll(tree: Tree, actions: seq<Action>) returns (bridge: Bridge, callbacks: seq<Callback>)
    modifies tree
    ensures fresh(bridge) && Represents(bridge, tree, Run(Start(old(tree.nodes)), actions))
    ensures callbacks + bridge.outbound == Owed(old(tree.nodes), [], actions)
  {
    ghost var a := Start(tree.nodes);
    bridge := new Bridge();
    callbacks := [];
    for k := 0 to |actions|
      invariant fresh(bridge) && Represents(bridge, tree, a)
      invariant Run(a, actions[k..]) == Run(Start(old(tree.nodes)), actions)
      invariant callbacks == a.delivered
    {
      assert actions[k..][0] == actions[k] && actions[k..][1..] == actions[k + 1..];
      var more := Perform(bridge, tree, a, actions[k]);
      callbacks := callbacks + more;
      a := Do(a, actions[k]);
    }
    assert actions[|actions|..] == [];
    CallbacksFollowTheTable(old(tree.nodes), actions);
  }
}
