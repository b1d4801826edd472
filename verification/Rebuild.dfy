/** The stack machine recovers from the flat list exactly the tree the list was made from. */
module Rebuild {
  import opened Options
  import opened Uidl
  import opened Layout
  import opened EcsTree

  // ---- the table that belongs to a widget tree, defined on the tree itself

  /** The indices of the children of `w` from the `i`-th on, when that child is at index `at`. */
  function ChildIndices(w: Widget, i: nat, at: nat): seq<nat>
    requires i <= |w.Children()|
    decreases |w.Children()| - i
  {
    if i == |w.Children()| then [] else [at] + ChildIndices(w, i + 1, at + CountWidgets(w.Children()[i]))
  }

  function NodeFor(w: Widget, b: LayoutBox, base: nat, parent: Option<nat>): EcsNode {
    FreshNode(base + 1, Placed(w, b), parent).(children := ChildIndices(w, 0, base + 1))
  }

  /** The nodes of the tree `w` laid out in `b`, the first of them at index `base`. */
  function NodeTree(w: Widget, b: LayoutBox, base: nat, parent: Option<nat>): (s: seq<EcsNode>)
    ensures |s| == CountWidgets(w)
    decreases w, |w.Children()| + 1
  {
    [NodeFor(w, b, base, parent)] + NodesFrom(w, b, 0, base + 1, base)
  }

  function NodesFrom(w: Widget, b: LayoutBox, i: nat, at: nat, parent: nat): (s: seq<EcsNode>)
    requires i <= |w.Children()|
    ensures |s| == CountFrom(w, i)
    decreases w, |w.Children()| - i
  {
    if i == |w.Children()| then []
    else
      NodeTree(w.Children()[i], ChildBox(w, b, i), at, Some(parent))
      + NodesFrom(w, b, i + 1, at + CountWidgets(w.Children()[i]), parent)
  }

  // ---- the machine builds that table

  ghost predicate Open(stack: seq<StackFrame>) {
    forall i :: 0 <= i < |stack| ==> stack[i].assignedChildren < stack[i].expectedChildren
  }

  /** Of an open stack, at most the top frame is popped: when its last child came. */
  lemma AdvanceOpen(below: seq<StackFrame>, top: StackFrame)
    requires Open(below + [top])
    ensures PopConsumed(Assign(below + [top]))
         == if top.assignedChildren + 1 < top.expectedChildren
            then below + [top.(assignedChildren := top.assignedChildren + 1)]
            else below
  {
  }

  lemma StepStaysOpen(m: Machine, p: Placed)
    requires m.InRange() && Open(m.stack)
    ensures Open(m.Step(p).stack)
    ensures Open(PopConsumed(Assign(m.stack)))
  {
    if m.stack != [] {
      var below, top := m.stack[..|m.stack| - 1], m.stack[|m.stack| - 1];
      assert m.stack == below + [top];
      AdvanceOpen(below, top);
    }
  }

  /** On any input at all, every frame on the stack still waits for a child. */
  lemma {:induction false} StackStaysOpen(m: Machine, pairs: seq<Placed>)
    requires m.InRange() && Open(m.stack)
    ensures Open(Feed(m, pairs).stack)
    decreases |pairs|
  {
    if pairs != [] {
      StepStaysOpen(m, pairs[0]);
      StackStaysOpen(m.Step(pairs[0]), pairs[1..]);
    }
  }

  /** The machine after a whole subtree went through: its table appended, one child adopted. */
  function AfterTree(m: Machine, w: Widget, b: LayoutBox): (r: Machine)
    requires m.InRange()
    ensures r.InRange()
  {
    var parent, n := NextParent(m.stack), |m.nodes|;
    PopKeepsRange(Assign(m.stack), n);
    Machine(Adopt(m.nodes + NodeTree(w, b, n, parent), parent, n), PopConsumed(Assign(m.stack)))
  }

  /** The machine after the children of the node at `owner`, from the `i`-th on, went through. */
  function AfterChildren(m: Machine, below: seq<StackFrame>, w: Widget, b: LayoutBox, i: nat, owner: nat): Machine
    requires i <= |w.Children()| && owner < |m.nodes|
  {
    var n := |m.nodes|;
    var kids := m.nodes[owner].children + ChildIndices(w, i, n);
    Machine(m.nodes[owner := m.nodes[owner].(children := kids)] + NodesFrom(w, b, i, n, owner), below)
  }

  lemma {:induction false} FeedTree(m: Machine, w: Widget, b: LayoutBox, rest: seq<Placed>)
    requires m.InRange() && Open(m.stack)
    ensures Feed(m, Flatten(w, b) + rest) == Feed(AfterTree(m, w, b), rest)
    decreases w, |w.Children()| + 1
  {
    var m1 := m.Step(Placed(w, b));
    var tail := FlattenFrom(w, b, 0) + rest;
    assert Feed(m, Flatten(w, b) + rest) == Feed(m1, tail) by {
      assert (Flatten(w, b) + rest)[0] == Placed(w, b) && (Flatten(w, b) + rest)[1..] == tail;
    }
    var below := PopConsumed(Assign(m.stack));
    StepStaysOpen(m, Placed(w, b));
    AfterStep(m, w, b);
    if w.Children() == [] {
      assert tail == rest;
      assert m1 == AfterTree(m, w, b);
    } else {
      FeedChildren(m1, below, w, b, 0, |m.nodes|, rest);
    }
  }

  lemma AfterStep(m: Machine, w: Widget, b: LayoutBox)
    requires m.InRange()
    ensures AfterChildren(m.Step(Placed(w, b)), PopConsumed(Assign(m.stack)), w, b, 0, |m.nodes|) == AfterTree(m, w, b)
    ensures w.Children() == [] ==> m.Step(Placed(w, b)) == AfterTree(m, w, b)
  {
    var n, parent := |m.nodes|, NextParent(m.stack);
    var m1 := m.Step(Placed(w, b));
    var fresh0 := FreshNode(n + 1, Placed(w, b), parent);
    assert m1.nodes == Adopt(m.nodes, parent, n) + [fresh0];
    assert AfterTree(m, w, b).nodes == Adopt(m.nodes, parent, n) + NodeTree(w, b, n, parent);
    assert fresh0.children + ChildIndices(w, 0, n + 1) == ChildIndices(w, 0, n + 1);
  }

  lemma {:induction false} FeedChildren(
    m: Machine, below: seq<StackFrame>, w: Widget, b: LayoutBox, i: nat, owner: nat, rest: seq<Placed>)
    requires m.InRange() && Open(m.stack)
    requires i < |w.Children()| && owner < |m.nodes|
    requires m.stack == below + [StackFrame(owner, |w.Children()|, i)]
    ensures AfterChildren(m, below, w, b, i, owner).InRange()
    ensures Feed(m, FlattenFrom(w, b, i) + rest) == Feed(AfterChildren(m, below, w, b, i, owner), rest)
    decreases w, |w.Children()| - i
  {
    var m2 := AfterTree(m, w.Children()[i], ChildBox(w, b, i));
    SplitOffChild(w, b, i, rest);
    FeedTree(m, w.Children()[i], ChildBox(w, b, i), FlattenFrom(w, b, i + 1) + rest);
    StackAfterChild(m, below, w, b, i, owner);
    AfterOneChild(m, below, w, b, i, owner);
    if i + 1 == |w.Children()| {
      AfterNoChild(m2, below, w, b, owner);
      assert FlattenFrom(w, b, i + 1) + rest == rest;
    } else {
      FeedChildren(m2, below, w, b, i + 1, owner, rest);
    }
  }

  lemma SplitOffChild(w: Widget, b: LayoutBox, i: nat, rest: seq<Placed>)
    requires i < |w.Children()|
    ensures FlattenFrom(w, b, i) + rest
         == Flatten(w.Children()[i], ChildBox(w, b, i)) + (FlattenFrom(w, b, i + 1) + rest)
  {
  }

  lemma StackAfterChild(m: Machine, below: seq<StackFrame>, w: Widget, b: LayoutBox, i: nat, owner: nat)
    requires m.InRange() && Open(m.stack)
    requires i < |w.Children()| && owner < |m.nodes|
    requires m.stack == below + [StackFrame(owner, |w.Children()|, i)]
    ensures var m2 := AfterTree(m, w.Children()[i], ChildBox(w, b, i));
      && Open(m2.stack)
      && m2.stack == if i + 1 < |w.Children()| then below + [StackFrame(owner, |w.Children()|, i + 1)] else below
  {
    AdvanceOpen(below, StackFrame(owner, |w.Children()|, i));
    StepStaysOpen(m, Placed(w, b));
  }

  lemma AfterNoChild(m: Machine, below: seq<StackFrame>, w: Widget, b: LayoutBox, owner: nat)
    requires owner < |m.nodes|
    ensures AfterChildren(m, below, w, b, |w.Children()|, owner) == Machine(m.nodes, below)
  {
    assert m.nodes[owner].children + [] == m.nodes[owner].children;
  }

  lemma AfterOneChild(m: Machine, below: seq<StackFrame>, w: Widget, b: LayoutBox, i: nat, owner: nat)
    requires m.InRange()
    requires i < |w.Children()| && owner < |m.nodes|
    requires m.stack == below + [StackFrame(owner, |w.Children()|, i)]
    ensures AfterChildren(AfterTree(m, w.Children()[i], ChildBox(w, b, i)), below, w, b, i + 1, owner)
         == AfterChildren(m, below, w, b, i, owner)
  {
    var c, box, n := w.Children()[i], ChildBox(w, b, i), |m.nodes|;
    var t := NodeTree(c, box, n, Some(owner));
    var m2 := AfterTree(m, c, box);
    assert NextParent(m.stack) == Some(owner);
    assert m2.nodes == Adopt(m.nodes, Some(owner), n) + t;
    assert ChildIndices(w, i, n) == [n] + ChildIndices(w, i + 1, |m2.nodes|);
    assert m.nodes[owner].children + ChildIndices(w, i, n) == m2.nodes[owner].children + ChildIndices(w, i + 1, |m2.nodes|);
    assert NodesFrom(w, b, i, n, owner) == t + NodesFrom(w, b, i + 1, |m2.nodes|, owner);
  }

  /** Fed the flat list of a widget tree, the machine makes exactly the table of that tree. */
  lemma RebuildInvertsFlatten(w: Widget, b: LayoutBox)
    ensures Feed(Machine([], []), Flatten(w, b)) == Machine(NodeTree(w, b, 0, None), [])
  {
    FeedTree(Machine([], []), w, b, []);
    assert Flatten(w, b) + [] == Flatten(w, b);
  }
}
