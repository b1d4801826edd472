/** What the rebuilt component table says about the widget tree, and where a pointer event lands in it. */
module TreeTheorems {
  import opened Options
  import opened Uidl
  import opened Layout
  import opened Geometry
  import opened EcsTree
  import opened Rebuild

  /** The table `BuildEcsTree` makes for a document. */
  function Built(doc: Document, canvasWidth: nat, canvasHeight: nat): seq<EcsNode> {
    Feed(Machine([], []), Flatten(doc.layout, RootBox(canvasWidth, canvasHeight))).nodes
  }

  // ---- parents and children

  /** Every child the `j`-th node lists is a later node of `s` and names it as its parent. */
  ghost predicate ChildrenNameParent(s: seq<EcsNode>, at: nat, j: nat)
    requires j < |s|
  {
    forall c :: c in s[j].children ==> at + j < c < at + |s| && s[c - at].parent == Some(at + j)
  }

  /** The parent of the `j`-th node is an earlier node of `s`, and lists it as a child. */
  ghost predicate ParentListsIt(s: seq<EcsNode>, at: nat, j: nat)
    requires j < |s|
  {
    && s[j].parent.Some?
    && at <= s[j].parent.value < at + j
    && at + j in s[s[j].parent.value - at].children
  }

  ghost predicate NodeFits(s: seq<EcsNode>, at: nat, owner: Option<nat>, kids: seq<nat>, j: nat)
    requires j < |s|
  {
    && s[j].id == at + j + 1
    && ChildrenNameParent(s, at, j)
    && ((s[j].parent == owner && at + j in kids) || ParentListsIt(s, at, j))
  }

  ghost predicate KidsBelong(s: seq<EcsNode>, at: nat, owner: Option<nat>, kids: seq<nat>) {
    forall c :: c in kids ==> at <= c < at + |s| && s[c - at].parent == owner
  }

  /**
   * The nodes of `s`, at the indices from `at` on, have links that agree. The nodes whose parent
   * lies outside `s` are those of `kids`, and that parent is `owner`.
   */
  ghost predicate Coherent(s: seq<EcsNode>, at: nat, owner: Option<nat>, kids: seq<nat>) {
    && (forall j :: 0 <= j < |s| ==> NodeFits(s, at, owner, kids, j))
    && KidsBelong(s, at, owner, kids)
  }

  /** Links that agree within a stretch of nodes agree within any list the stretch is part of. */
  lemma LinksSurviveEmbedding(before: seq<EcsNode>, s: seq<EcsNode>, after: seq<EcsNode>, base: nat, j: nat)
    requires j < |s|
    ensures ChildrenNameParent(s, base + |before|, j) ==> ChildrenNameParent(before + s + after, base, |before| + j)
    ensures ParentListsIt(s, base + |before|, j) ==> ParentListsIt(before + s + after, base, |before| + j)
  {
  }

  lemma JoinCoherent(s: seq<EcsNode>, t: seq<EcsNode>, at: nat, owner: Option<nat>, k1: seq<nat>, k2: seq<nat>)
    requires Coherent(s, at, owner, k1) && Coherent(t, at + |s|, owner, k2)
    ensures Coherent(s + t, at, owner, k1 + k2)
  {
    forall j | 0 <= j < |s + t|
      ensures NodeFits(s + t, at, owner, k1 + k2, j)
    {
      if j < |s| {
        assert NodeFits(s, at, owner, k1, j);
        LinksSurviveEmbedding([], s, t, at, j);
        assert [] + s + t == s + t;
      } else {
        assert NodeFits(t, at + |s|, owner, k2, j - |s|);
        LinksSurviveEmbedding(s, t, [], at, j - |s|);
        assert s + t + [] == s + t;
      }
    }
    forall c | c in k1 + k2
      ensures at <= c < at + |s + t| && (s + t)[c - at].parent == owner
    {
      assert c in k1 || c in k2;
    }
  }

  lemma PutOwnerOnTop(top: EcsNode, s: seq<EcsNode>, base: nat)
    requires top.id == base + 1
    requires Coherent(s, base + 1, Some(base), top.children)
    ensures Coherent([top] + s, base, top.parent, [base])
  {
    var t := [top] + s;
    assert t == [top] + s + [];
    forall j | 0 <= j < |t|
      ensures NodeFits(t, base, top.parent, [base], j)
    {
      if j == 0 {
        assert forall c :: c in top.children ==> t[c - base] == s[c - (base + 1)];
      } else {
        assert NodeFits(s, base + 1, Some(base), top.children, j - 1);
        LinksSurviveEmbedding([top], s, [], base, j - 1);
      }
    }
  }

  lemma {:induction false} TreeIsCoherent(w: Widget, b: LayoutBox, base: nat, parent: Option<nat>)
    ensures Coherent(NodeTree(w, b, base, parent), base, parent, [base])
    decreases w, |w.Children()| + 1
  {
    KidsAreCoherent(w, b, 0, base + 1, base);
    PutOwnerOnTop(NodeFor(w, b, base, parent), NodesFrom(w, b, 0, base + 1, base), base);
  }

  lemma {:induction false} KidsAreCoherent(w: Widget, b: LayoutBox, i: nat, at: nat, owner: nat)
    requires i <= |w.Children()|
    ensures Coherent(NodesFrom(w, b, i, at, owner), at, Some(owner), ChildIndices(w, i, at))
    decreases w, |w.Children()| - i
  {
    if i < |w.Children()| {
      var c := w.Children()[i];
      var next := at + CountWidgets(c);
      TreeIsCoherent(c, ChildBox(w, b, i), at, Some(owner));
      KidsAreCoherent(w, b, i + 1, next, owner);
      JoinCoherent(NodeTree(c, ChildBox(w, b, i), at, Some(owner)), NodesFrom(w, b, i + 1, next, owner),
                   at, Some(owner), [at], ChildIndices(w, i + 1, next));
    }
  }

  /** Ids count up from 1, node 0 is the only root, parents come first, and `children` and `parent` say the same. */
  ghost predicate WellLinked(nodes: seq<EcsNode>) {
    && (forall k :: 0 <= k < |nodes| ==> nodes[k].id == k + 1)
    && (forall k :: 0 <= k < |nodes| ==> (nodes[k].parent.None? <==> k == 0))
    && (forall k :: 0 <= k < |nodes| && nodes[k].parent.Some? ==> nodes[k].parent.value < k)
    && (forall p, c :: 0 <= p < |nodes| && 0 <= c < |nodes| ==>
          (c in nodes[p].children <==> nodes[c].parent == Some(p)))
    && PointsForward(nodes)
  }

  /** Children come after their parent. */
  ghost predicate PointsForward(nodes: seq<EcsNode>) {
    forall k, c :: 0 <= k < |nodes| && c in nodes[k].children ==> k < c < |nodes|
  }

  lemma CoherentIsWellLinked(nodes: seq<EcsNode>)
    requires nodes != [] && Coherent(nodes, 0, None, [0])
    ensures WellLinked(nodes)
  {
    forall k | 0 <= k < |nodes|
      ensures nodes[k].id == k + 1 && (nodes[k].parent.None? <==> k == 0)
      ensures nodes[k].parent.Some? ==> nodes[k].parent.value < k
      ensures forall c :: c in nodes[k].children ==> k < c < |nodes|
    {
      assert NodeFits(nodes, 0, None, [0], k);
      assert 0 in [0];
    }
    forall p, c | 0 <= p < |nodes| && 0 <= c < |nodes|
      ensures c in nodes[p].children <==> nodes[c].parent == Some(p)
    {
      assert NodeFits(nodes, 0, None, [0], p) && NodeFits(nodes, 0, None, [0], c);
      if c in nodes[p].children {
        assert nodes[c - 0].parent == Some(0 + p);
      }
    }
  }

  /** The table built for any document has one node for each widget, and its links agree. */
  lemma LinksAgree(doc: Document, canvasWidth: nat, canvasHeight: nat)
    ensures |Built(doc, canvasWidth, canvasHeight)| == CountWidgets(doc.layout)
    ensures WellLinked(Built(doc, canvasWidth, canvasHeight))
  {
    var w, b := doc.layout, RootBox(canvasWidth, canvasHeight);
    RebuildInvertsFlatten(w, b);
    TreeIsCoherent(w, b, 0, None);
    CoherentIsWellLinked(NodeTree(w, b, 0, None));
  }

  // ---- stretches of the table

  lemma SplitStretch(nodes: seq<EcsNode>, at: nat, s: seq<EcsNode>, t: seq<EcsNode>)
    requires at + |s| + |t| <= |nodes| && nodes[at..at + |s| + |t|] == s + t
    ensures nodes[at..at + |s|] == s && nodes[at + |s|..at + |s| + |t|] == t
  {
    assert nodes[at..at + |s|] == nodes[at..at + |s| + |t|][..|s|];
    assert nodes[at + |s|..at + |s| + |t|] == nodes[at..at + |s| + |t|][|s|..];
  }

  /** The table of the tree lies in `nodes` from `base` on. */
  ghost predicate TreeLies(nodes: seq<EcsNode>, w: Widget, b: LayoutBox, base: nat, parent: Option<nat>) {
    && base + CountWidgets(w) <= |nodes|
    && nodes[base..base + CountWidgets(w)] == NodeTree(w, b, base, parent)
  }

  /** The tables of the children from the `i`-th on lie in `nodes` from `at` on. */
  ghost predicate ChildrenLie(nodes: seq<EcsNode>, w: Widget, b: LayoutBox, i: nat, at: nat, owner: nat)
    requires i <= |w.Children()|
  {
    && at + CountFrom(w, i) <= |nodes|
    && nodes[at..at + CountFrom(w, i)] == NodesFrom(w, b, i, at, owner)
  }

  lemma ChildrenLieInTree(nodes: seq<EcsNode>, w: Widget, b: LayoutBox, base: nat, parent: Option<nat>)
    requires TreeLies(nodes, w, b, base, parent)
    ensures nodes[base] == NodeFor(w, b, base, parent) && ChildrenLie(nodes, w, b, 0, base + 1, base)
  {
    SplitStretch(nodes, base, [NodeFor(w, b, base, parent)], NodesFrom(w, b, 0, base + 1, base));
    assert nodes[base] == nodes[base..base + 1][0];
  }

  /** Where the tables of the children from the `i`-th on lie, the `i`-th comes first and then the others. */
  lemma SplitChildren(nodes: seq<EcsNode>, w: Widget, b: LayoutBox, i: nat, at: nat, owner: nat)
    requires i < |w.Children()| && ChildrenLie(nodes, w, b, i, at, owner)
    ensures TreeLies(nodes, w.Children()[i], ChildBox(w, b, i), at, Some(owner))
    ensures ChildrenLie(nodes, w, b, i + 1, at + CountWidgets(w.Children()[i]), owner)
  {
    var c := w.Children()[i];
    SplitStretch(nodes, at, NodeTree(c, ChildBox(w, b, i), at, Some(owner)),
                 NodesFrom(w, b, i + 1, at + CountWidgets(c), owner));
  }

  // ---- the nodes below a node are the nodes right after it

  /** Following parent links from the node at `j` leads to the node at `k`. */
  ghost predicate Below(nodes: seq<EcsNode>, j: nat, k: nat)
    requires WellLinked(nodes) && j < |nodes|
    decreases j
  {
    j == k || (nodes[j].parent.Some? && Below(nodes, nodes[j].parent.value, k))
  }

  lemma ChildrenStayInside(nodes: seq<EcsNode>, k: nat, s: seq<EcsNode>, up: Option<nat>)
    requires k + |s| <= |nodes| && nodes[k..k + |s|] == s && Coherent(s, k, up, [k])
    ensures forall q, c :: k <= q < k + |s| && c in nodes[q].children ==> c < k + |s|
    ensures forall q :: k < q < k + |s| ==> nodes[q].parent.Some? && k <= nodes[q].parent.value
  {
    forall q | k <= q < k + |s|
      ensures forall c :: c in nodes[q].children ==> c < k + |s|
      ensures k < q ==> nodes[q].parent.Some? && k <= nodes[q].parent.value
    {
      assert nodes[q] == s[q - k];
      assert NodeFits(s, k, up, [k], q - k);
    }
  }

  /** A node of a coherent stretch is below its first node; a node outside is not. */
  lemma {:induction false} StretchIsBelow(nodes: seq<EcsNode>, k: nat, s: seq<EcsNode>, up: Option<nat>, j: nat)
    requires WellLinked(nodes) && j < |nodes|
    requires s != [] && k + |s| <= |nodes| && nodes[k..k + |s|] == s && Coherent(s, k, up, [k])
    ensures Below(nodes, j, k) <==> k <= j < k + |s|
    decreases j
  {
    ChildrenStayInside(nodes, k, s, up);
    if j != k && nodes[j].parent.Some? {
      var q := nodes[j].parent.value;
      assert j in nodes[q].children;
      StretchIsBelow(nodes, k, s, up, q);
    }
  }

  /** Where the table of a tree lies in `nodes`, the table of the `d`-th widget of its layout list lies `d` further on. */
  lemma {:induction false} StretchInTree(
    nodes: seq<EcsNode>, w: Widget, b: LayoutBox, base: nat, parent: Option<nat>, d: nat)
    returns (p: Placed, up: Option<nat>)
    requires TreeLies(nodes, w, b, base, parent) && d < CountWidgets(w)
    ensures p == Flatten(w, b)[d] && PlacedLies(nodes, p, base + d, up)
    decreases w, |w.Children()| + 1
  {
    if d == 0 {
      p, up := Placed(w, b), parent;
    } else {
      ChildrenLieInTree(nodes, w, b, base, parent);
      p, up := StretchInChildren(nodes, w, b, 0, base + 1, base, d - 1);
    }
  }

  ghost predicate PlacedLies(nodes: seq<EcsNode>, p: Placed, base: nat, up: Option<nat>) {
    TreeLies(nodes, p.widget, p.box, base, up)
  }

  lemma PlacedInChildren(w: Widget, b: LayoutBox, i: nat, k: nat)
    requires i < |w.Children()| && k < CountFrom(w, i)
    ensures var n := CountWidgets(w.Children()[i]);
      FlattenFrom(w, b, i)[k]
      == if k < n then Flatten(w.Children()[i], ChildBox(w, b, i))[k] else FlattenFrom(w, b, i + 1)[k - n]
  {
  }

  lemma {:induction false} StretchInChildren(
    nodes: seq<EcsNode>, w: Widget, b: LayoutBox, i: nat, at: nat, owner: nat, d: nat)
    returns (p: Placed, up: Option<nat>)
    requires i <= |w.Children()| && ChildrenLie(nodes, w, b, i, at, owner) && d < CountFrom(w, i)
    ensures p == FlattenFrom(w, b, i)[d] && PlacedLies(nodes, p, at + d, up)
    decreases w, |w.Children()| - i
  {
    var n := CountWidgets(w.Children()[i]);
    SplitChildren(nodes, w, b, i, at, owner);
    if d < n {
      p, up := StretchInTree(nodes, w.Children()[i], ChildBox(w, b, i), at, Some(owner), d);
    } else {
      p, up := StretchInChildren(nodes, w, b, i + 1, at + n, owner, d - n);
    }
    PlacedInChildren(w, b, i, d);
  }

  /**
   * In the table built for any document, the nodes below the `k`-th are a contiguous range: from `k`
   * on, as many as there are widgets in the subtree of the `k`-th widget.
   */
  lemma SubtreesAreRanges(doc: Document, canvasWidth: nat, canvasHeight: nat, k: nat, j: nat)
    requires k < CountWidgets(doc.layout) && j < CountWidgets(doc.layout)
    ensures var nodes := Built(doc, canvasWidth, canvasHeight);
      var size := CountWidgets(Flatten(doc.layout, RootBox(canvasWidth, canvasHeight))[k].widget);
      && WellLinked(nodes) && |nodes| == CountWidgets(doc.layout)
      && (Below(nodes, j, k) <==> k <= j < k + size)
  {
    RebuildInvertsFlatten(doc.layout, RootBox(canvasWidth, canvasHeight));
    LinksAgree(doc, canvasWidth, canvasHeight);
    SubtreeRange(Built(doc, canvasWidth, canvasHeight), doc.layout, RootBox(canvasWidth, canvasHeight), k, j);
  }

  lemma SubtreeRange(nodes: seq<EcsNode>, w: Widget, b: LayoutBox, k: nat, j: nat)
    requires nodes == NodeTree(w, b, 0, None) && WellLinked(nodes)
    requires k < |nodes| && j < |nodes|
    ensures Below(nodes, j, k) <==> k <= j < k + CountWidgets(Flatten(w, b)[k].widget)
  {
    assert nodes[0..0 + CountWidgets(w)] == nodes;
    var p, up := StretchInTree(nodes, w, b, 0, None, k);
    TreeIsBelow(nodes, p, k, up, j);
  }

  lemma TreeIsBelow(nodes: seq<EcsNode>, p: Placed, k: nat, up: Option<nat>, j: nat)
    requires WellLinked(nodes) && j < |nodes| && PlacedLies(nodes, p, k, up)
    ensures Below(nodes, j, k) <==> k <= j < k + CountWidgets(p.widget)
  {
    TreeIsCoherent(p.widget, p.box, k, up);
    StretchIsBelow(nodes, k, NodeTree(p.widget, p.box, k, up), up, j);
  }

  // ---- reading the tree back out of the table

  /** A widget tree as the table keeps it: payload, box, and the children in order. */
  datatype Outline = Outline(uidlId: Option<string>, component: Component, layout: LayoutBox, children: seq<Outline>)

  function OutlineOf(w: Widget, b: LayoutBox): Outline
    decreases w, |w.Children()| + 1
  {
    Outline(w.Id(), ComponentOf(w), b, OutlinesFrom(w, b, 0))
  }

  function OutlinesFrom(w: Widget, b: LayoutBox, i: nat): seq<Outline>
    requires i <= |w.Children()|
    decreases w, |w.Children()| - i
  {
    if i == |w.Children()| then []
    else [OutlineOf(w.Children()[i], ChildBox(w, b, i))] + OutlinesFrom(w, b, i + 1)
  }

  /** The tree found by following `children` from the node at index `k`. */
  ghost function ReadBack(nodes: seq<EcsNode>, k: nat): Outline
    requires PointsForward(nodes) && k < |nodes|
    decreases |nodes| - k, |nodes[k].children| + 1
  {
    Outline(nodes[k].uidlId, nodes[k].component, nodes[k].layout, ReadAll(nodes, nodes[k].children, k))
  }

  ghost function ReadAll(nodes: seq<EcsNode>, ks: seq<nat>, below: nat): seq<Outline>
    requires PointsForward(nodes) && forall c :: c in ks ==> below < c < |nodes|
    decreases |nodes| - below, |ks|
  {
    if ks == [] then []
    else
      assert ks[0] in ks && forall c :: c in ks[1..] ==> c in ks;
      [ReadBack(nodes, ks[0])] + ReadAll(nodes, ks[1..], below)
  }

  /** The children of `w` from the `i`-th on, found at their indices, read back as they are. */
  ghost predicate ChildrenRead(nodes: seq<EcsNode>, w: Widget, b: LayoutBox, i: nat, at: nat, owner: nat)
    requires PointsForward(nodes) && i <= |w.Children()|
  {
    && (forall c :: c in ChildIndices(w, i, at) ==> owner < c < |nodes|)
    && ReadAll(nodes, ChildIndices(w, i, at), owner) == OutlinesFrom(w, b, i)
  }

  /** The tree `w`, found at `at`, read back as it is. */
  ghost predicate TreeReads(nodes: seq<EcsNode>, w: Widget, b: LayoutBox, at: nat)
    requires PointsForward(nodes)
  {
    at < |nodes| && ReadBack(nodes, at) == OutlineOf(w, b)
  }

  lemma {:induction false} ReadTree(nodes: seq<EcsNode>, w: Widget, b: LayoutBox, base: nat, parent: Option<nat>)
    requires PointsForward(nodes) && TreeLies(nodes, w, b, base, parent)
    ensures TreeReads(nodes, w, b, base)
    decreases w, |w.Children()| + 1
  {
    ChildrenLieInTree(nodes, w, b, base, parent);
    ReadChildren(nodes, w, b, 0, base + 1, base);
  }

  lemma {:induction false} ReadChildren(nodes: seq<EcsNode>, w: Widget, b: LayoutBox, i: nat, at: nat, owner: nat)
    requires PointsForward(nodes)
    requires i <= |w.Children()| && owner < at && ChildrenLie(nodes, w, b, i, at, owner)
    ensures ChildrenRead(nodes, w, b, i, at, owner)
    decreases w, |w.Children()| - i
  {
    if i < |w.Children()| {
      var c := w.Children()[i];
      SplitChildren(nodes, w, b, i, at, owner);
      ReadChildren(nodes, w, b, i + 1, at + CountWidgets(c), owner);
      ReadTree(nodes, c, ChildBox(w, b, i), at, Some(owner));
      ReadFirst(nodes, w, b, i, at, owner);
    }
  }

  /** One child more in front of children that read back already. */
  lemma ReadFirst(nodes: seq<EcsNode>, w: Widget, b: LayoutBox, i: nat, at: nat, owner: nat)
    requires PointsForward(nodes) && i < |w.Children()| && owner < at
    requires TreeReads(nodes, w.Children()[i], ChildBox(w, b, i), at)
    requires ChildrenRead(nodes, w, b, i + 1, at + CountWidgets(w.Children()[i]), owner)
    ensures ChildrenRead(nodes, w, b, i, at, owner)
  {
    assert ChildIndices(w, i, at)[1..] == ChildIndices(w, i + 1, at + CountWidgets(w.Children()[i]));
  }

  /**
   * Following the child links of the built table from node 0 yields the widget tree of the document:
   * the same payloads and boxes, the same children in the same order, at every level.
   */
  lemma BuiltTreeReadsBack(doc: Document, canvasWidth: nat, canvasHeight: nat)
    ensures PointsForward(Built(doc, canvasWidth, canvasHeight)) && Built(doc, canvasWidth, canvasHeight) != []
    ensures ReadBack(Built(doc, canvasWidth, canvasHeight), 0)
         == OutlineOf(doc.layout, RootBox(canvasWidth, canvasHeight))
  {
    var w, b := doc.layout, RootBox(canvasWidth, canvasHeight);
    var nodes := NodeTree(w, b, 0, None);
    RebuildInvertsFlatten(w, b);
    LinksAgree(doc, canvasWidth, canvasHeight);
    assert nodes[0..0 + CountWidgets(w)] == nodes;
    ReadTree(nodes, w, b, 0, None);
  }

  // ---- the document restored from what was read

  /** The widget tree an outline stands for. */
  function Restored(o: Outline): Widget
    decreases o, |o.children| + 1
  {
    match o.component
    case TextComponent(content, style) => Text(content, style, o.uidlId)
    case ButtonComponent(labelText, action, style) => Button(labelText, action, o.uidlId, style)
    case InputComponent(placeholder, value, onChange) => Input(placeholder, value, onChange, o.uidlId)
    case VStackComponent(gap, padding) => VStack(Some(gap), Some(padding), RestoredFrom(o, 0), o.uidlId)
    case HStackComponent(gap) => HStack(Some(gap), RestoredFrom(o, 0), o.uidlId)
    case SpacerComponent(size) => Spacer(Some(size))
  }

  function RestoredFrom(o: Outline, i: nat): seq<Widget>
    requires i <= |o.children|
    decreases o, |o.children| - i
  {
    if i == |o.children| then [] else [Restored(o.children[i])] + RestoredFrom(o, i + 1)
  }

  /** The widget tree with the table's defaults for the numbers the document leaves out. */
  function FilledIn(w: Widget): Widget
    decreases w, |w.Children()| + 1
  {
    match w
    case VStack(gap, padding, _, id) =>
      VStack(if gap.Some? then gap else Some(8), if padding.Some? then padding else Some(0), FilledInFrom(w, 0), id)
    case HStack(gap, _, id) => HStack(if gap.Some? then gap else Some(8), FilledInFrom(w, 0), id)
    case Spacer(size) => Spacer(if size.Some? then size else Some(16))
    case _ => w
  }

  function FilledInFrom(w: Widget, i: nat): seq<Widget>
    requires i <= |w.Children()|
    decreases w, |w.Children()| - i
  {
    if i == |w.Children()| then [] else [FilledIn(w.Children()[i])] + FilledInFrom(w, i + 1)
  }

  lemma {:induction false} OutlineRestores(w: Widget, b: LayoutBox)
    ensures Restored(OutlineOf(w, b)) == FilledIn(w)
    decreases w, |w.Children()| + 1
  {
    OutlinesRestore(w, b, 0);
  }

  lemma {:induction false} OutlinesRestore(w: Widget, b: LayoutBox, i: nat)
    requires i <= |w.Children()|
    ensures |OutlinesFrom(w, b, 0)| == |w.Children()|
    ensures RestoredFrom(OutlineOf(w, b), i) == FilledInFrom(w, i)
    decreases w, |w.Children()| - i
  {
    OutlinesMatchChildren(w, b, 0);
    if i < |w.Children()| {
      OutlineAt(w, b, 0, i);
      OutlineRestores(w.Children()[i], ChildBox(w, b, i));
      OutlinesRestore(w, b, i + 1);
    }
  }

  lemma {:induction false} OutlinesMatchChildren(w: Widget, b: LayoutBox, i: nat)
    requires i <= |w.Children()|
    ensures |OutlinesFrom(w, b, i)| == |w.Children()| - i
    decreases |w.Children()| - i
  {
    if i < |w.Children()| {
      OutlinesMatchChildren(w, b, i + 1);
    }
  }

  lemma {:induction false} OutlineAt(w: Widget, b: LayoutBox, i: nat, k: nat)
    requires i <= k < |w.Children()|
    ensures |OutlinesFrom(w, b, i)| == |w.Children()| - i
    ensures OutlinesFrom(w, b, i)[k - i] == OutlineOf(w.Children()[k], ChildBox(w, b, k))
    decreases k - i
  {
    OutlinesMatchChildren(w, b, i);
    if i < k {
      OutlineAt(w, b, i + 1, k);
    }
  }

  /**
   * The document can be restored from the table built for it: following the child links from node 0
   * gives back every text, label, action, value, style, number and id of every widget, with the
   * table's defaults where the document has no number.
   */
  lemma DocumentReadsBack(doc: Document, canvasWidth: nat, canvasHeight: nat)
    ensures PointsForward(Built(doc, canvasWidth, canvasHeight)) && Built(doc, canvasWidth, canvasHeight) != []
    ensures Restored(ReadBack(Built(doc, canvasWidth, canvasHeight), 0)) == FilledIn(doc.layout)
  {
    BuiltTreeReadsBack(doc, canvasWidth, canvasHeight);
    OutlineRestores(doc.layout, RootBox(canvasWidth, canvasHeight));
  }

  // ---- the table node by node against the layout list

  ghost predicate Mirrors(nodes: seq<EcsNode>, pairs: seq<Placed>) {
    && |nodes| == |pairs|
    && forall k :: 0 <= k < |nodes| ==>
         && nodes[k].layout == pairs[k].box
         && nodes[k].component == ComponentOf(pairs[k].widget)
         && nodes[k].uidlId == pairs[k].widget.Id()
         && nodes[k].interaction == Interaction(false, false, false)
  }

  lemma {:induction false} TreeMirrorsLayout(w: Widget, b: LayoutBox, base: nat, parent: Option<nat>)
    ensures Mirrors(NodeTree(w, b, base, parent), Flatten(w, b))
    decreases w, |w.Children()| + 1
  {
    ChildrenMirrorLayout(w, b, 0, base + 1, base);
  }

  lemma {:induction false} ChildrenMirrorLayout(w: Widget, b: LayoutBox, i: nat, at: nat, owner: nat)
    requires i <= |w.Children()|
    ensures Mirrors(NodesFrom(w, b, i, at, owner), FlattenFrom(w, b, i))
    decreases w, |w.Children()| - i
  {
    if i < |w.Children()| {
      TreeMirrorsLayout(w.Children()[i], ChildBox(w, b, i), at, Some(owner));
      ChildrenMirrorLayout(w, b, i + 1, at + CountWidgets(w.Children()[i]), owner);
    }
  }

  lemma BuiltMirrorsLayout(doc: Document, canvasWidth: nat, canvasHeight: nat)
    ensures Mirrors(Built(doc, canvasWidth, canvasHeight), Flatten(doc.layout, RootBox(canvasWidth, canvasHeight)))
  {
    RebuildInvertsFlatten(doc.layout, RootBox(canvasWidth, canvasHeight));
    TreeMirrorsLayout(doc.layout, RootBox(canvasWidth, canvasHeight), 0, None);
  }

  /** The node has the fields of the widget, each in its own place. */
  ghost predicate KeepsFields(node: EcsNode, w: Widget) {
    match w
    case Text(content, style, id) =>
      && node.component.TextComponent? && node.uidlId == id
      && node.component.content == content && node.component.textStyle == style
    case Button(labelText, action, id, style) =>
      && node.component.ButtonComponent? && node.uidlId == id
      && node.component.labelText == labelText && node.component.action == action && node.component.buttonStyle == style
    case Input(placeholder, value, onChange, id) =>
      && node.component.InputComponent? && node.uidlId == id
      && node.component.placeholder == placeholder && node.component.value == value && node.component.onChange == onChange
    case VStack(gap, padding, _, id) =>
      && node.component.VStackComponent? && node.uidlId == id
      && node.component.gap == (if gap.Some? then gap.value else 8)
      && node.component.padding == (if padding.Some? then padding.value else 0)
    case HStack(gap, _, id) =>
      && node.component.HStackComponent? && node.uidlId == id
      && node.component.gap == if gap.Some? then gap.value else 8
    case Spacer(size) =>
      && node.component.SpacerComponent? && node.uidlId == None
      && node.component.size == if size.Some? then size.value else 16
  }

  /**
   * The k-th node has the fields of the k-th widget of the layout and its box, is in no state of
   * interaction yet, and the first one fills the canvas.
   */
  lemma BuiltKeepsFields(doc: Document, canvasWidth: nat, canvasHeight: nat)
    ensures var nodes := Built(doc, canvasWidth, canvasHeight);
      var pairs := Flatten(doc.layout, RootBox(canvasWidth, canvasHeight));
      && |nodes| == |pairs|
      && (forall k :: 0 <= k < |nodes| ==>
           && KeepsFields(nodes[k], pairs[k].widget) && nodes[k].layout == pairs[k].box
           && !nodes[k].interaction.hovered && !nodes[k].interaction.pressed && !nodes[k].interaction.focused)
      && nodes[0].layout == LayoutBox(0.0, 0.0, canvasWidth as real, canvasHeight as real)
  {
    BuiltMirrorsLayout(doc, canvasWidth, canvasHeight);
  }

  // ---- hit testing

  predicate StrictlyInside(b: LayoutBox, px: real, py: real) {
    b.x < px < b.x + b.width && b.y < py < b.y + b.height
  }

  /** Nothing that comes later contains a point strictly inside a leaf. */
  lemma NoLaterNodeContains(doc: Document, canvasWidth: nat, canvasHeight: nat, k: nat, j: nat, px: real, py: real)
    requires var nodes := Built(doc, canvasWidth, canvasHeight);
      && k < j < |nodes|
      && nodes[k].IsInteractive() && StrictlyInside(nodes[k].layout, px, py)
    ensures !Built(doc, canvasWidth, canvasHeight)[j].Contains(px, py)
  {
    var b := RootBox(canvasWidth, canvasHeight);
    var pairs := Flatten(doc.layout, b);
    BuiltMirrorsLayout(doc, canvasWidth, canvasHeight);
    LayoutKeepsLeavesClear(doc.layout, b);
    assert KeepsClear(pairs[k].box, pairs[j].box);
  }

  /**
   * For every document, every canvas and every point strictly inside the box of a button or an
   * input, the hit test finds exactly that node, however small the canvas is.
   */
  lemma HitTestIsExact(doc: Document, canvasWidth: nat, canvasHeight: nat, k: nat, px: real, py: real)
    requires var nodes := Built(doc, canvasWidth, canvasHeight);
      k < |nodes| && nodes[k].IsInteractive() && StrictlyInside(nodes[k].layout, px, py)
    ensures HitTest(Built(doc, canvasWidth, canvasHeight), px, py) == Some(k)
  {
    var nodes := Built(doc, canvasWidth, canvasHeight);
    forall j | k < j < |nodes|
      ensures !nodes[j].Contains(px, py)
    {
      NoLaterNodeContains(doc, canvasWidth, canvasHeight, k, j, px, py);
    }
    LastHitIsFound(nodes, k, px, py);
  }

  lemma LastHitIsFound(nodes: seq<EcsNode>, k: nat, px: real, py: real)
    requires k < |nodes| && nodes[k].IsInteractive() && nodes[k].Contains(px, py)
    requires forall j :: k < j < |nodes| ==> !nodes[j].Contains(px, py)
    ensures HitTest(nodes, px, py) == Some(k)
  {
    var r := HitTest(nodes, px, py);
    assert r.Some? ==> r.value <= k;
  }

  /** Whether the point lies in the box, edges included. */
  predicate HoldsPoint(b: LayoutBox, px: real, py: real) {
    b.x <= px <= b.x + b.width && b.y <= py <= b.y + b.height
  }

  predicate TakesInput(w: Widget) {
    w.Button? || w.Input?
  }

  /**
   * What the hit test finds, in terms of the layout: the last button or input whose box holds the
   * point, and nothing exactly when there is none.
   */
  lemma HitTestReadsLayout(doc: Document, canvasWidth: nat, canvasHeight: nat, px: real, py: real)
    ensures var pairs := Flatten(doc.layout, RootBox(canvasWidth, canvasHeight));
      var hit := HitTest(Built(doc, canvasWidth, canvasHeight), px, py);
      && (hit.Some? ==>
           hit.value < |pairs| && TakesInput(pairs[hit.value].widget) && HoldsPoint(pairs[hit.value].box, px, py))
      && forall j :: (if hit.Some? then hit.value + 1 else 0) <= j < |pairs| ==>
           !(TakesInput(pairs[j].widget) && HoldsPoint(pairs[j].box, px, py))
  {
    BuiltMirrorsLayout(doc, canvasWidth, canvasHeight);
  }
}
