/** Events reach the widget under the pointer, patches do not disturb that, and no callback is lost. */
module EventTheorems {
  import opened Options
  import opened Uidl
  import opened Layout
  import opened EcsTree
  import opened TreeTheorems
  import opened EventBridge

  // ---- events reach the right widget

  /** The callback name the author of the document gave the widget. */
  function ActionOf(w: Widget): Option<string> {
    match w
    case Button(_, action, _, _) => Some(action)
    case Input(_, _, onChange, _) => onChange
    case _ => None
  }

  /**
   * A click strictly inside the box the layout gave a button or an input becomes the callback of
   * that very widget, with its id; no callback if the widget names none.
   */
  lemma ClickReachesWidget(doc: Document, canvasWidth: nat, canvasHeight: nat, k: nat, x: real, y: real)
    requires var pairs := Flatten(doc.layout, RootBox(canvasWidth, canvasHeight));
      && k < |pairs|
      && (pairs[k].widget.Button? || pairs[k].widget.Input?)
      && StrictlyInside(pairs[k].box, x, y)
    ensures var w := Flatten(doc.layout, RootBox(canvasWidth, canvasHeight))[k].widget;
      Route(Built(doc, canvasWidth, canvasHeight), Click(x, y))
      == if ActionOf(w).Some? then Some(Callback(ActionOf(w).value, ClickPayload(x, y, w.Id()))) else None
  {
    BuiltMirrorsLayout(doc, canvasWidth, canvasHeight);
    HitTestIsExact(doc, canvasWidth, canvasHeight, k, x, y);
  }

  /** Entity ids number the widgets in layout order from 1: text typed into `k + 1` goes to the `k`-th. */
  lemma TextReachesWidget(doc: Document, canvasWidth: nat, canvasHeight: nat, k: nat, text: string)
    requires k < CountWidgets(doc.layout)
    ensures var w := Flatten(doc.layout, RootBox(canvasWidth, canvasHeight))[k].widget;
      Route(Built(doc, canvasWidth, canvasHeight), TextInput(k + 1, text))
      == if ActionOf(w).Some? then Some(Callback(ActionOf(w).value, TextPayload(text, w.Id()))) else None
  {
    BuiltMirrorsLayout(doc, canvasWidth, canvasHeight);
    LinksAgree(doc, canvasWidth, canvasHeight);
    FindNumbered(Built(doc, canvasWidth, canvasHeight), k);
    TextGoesTo(Built(doc, canvasWidth, canvasHeight), k, text);
    ComponentKeepsAction(Built(doc, canvasWidth, canvasHeight)[k],
                         Flatten(doc.layout, RootBox(canvasWidth, canvasHeight))[k].widget);
  }

  lemma ComponentKeepsAction(node: EcsNode, w: Widget)
    requires node.component == ComponentOf(w)
    ensures node.Action() == ActionOf(w)
  {
  }

  lemma TextGoesTo(nodes: seq<EcsNode>, k: nat, text: string)
    requires k < |nodes| && Find(nodes, k + 1) == Some(k)
    ensures Route(nodes, TextInput(k + 1, text))
         == if nodes[k].Action().Some? then Some(Callback(nodes[k].Action().value, TextPayload(text, nodes[k].uidlId)))
            else None
  {
  }

  lemma FindNumbered(nodes: seq<EcsNode>, k: nat)
    requires k < |nodes| && forall j :: 0 <= j < |nodes| ==> nodes[j].id == j + 1
    ensures Find(nodes, k + 1) == Some(k)
  {
    var found := Find(nodes, k + 1);
    assert nodes[k].id == k + 1;
    assert found.Some? && nodes[found.value].id == found.value + 1;
  }

  /**
   * For any event and any document, a callback names a widget of the document: a click that very
   * button or input the point is in, typed text the widget its entity id numbers. Other events
   * produce none.
   */
  lemma CallbackNamesWidget(doc: Document, canvasWidth: nat, canvasHeight: nat, event: UiEvent) returns (k: nat)
    ensures Route(Built(doc, canvasWidth, canvasHeight), event).Some? ==>
      var pairs := Flatten(doc.layout, RootBox(canvasWidth, canvasHeight));
      var callback := Route(Built(doc, canvasWidth, canvasHeight), event).value;
      && k < |pairs| && ActionOf(pairs[k].widget) == Some(callback.action)
      && match event
         case Click(x, y) =>
           && TakesInput(pairs[k].widget) && HoldsPoint(pairs[k].box, x, y)
           && callback.payload == ClickPayload(x, y, pairs[k].widget.Id())
         case TextInput(entityId, text) =>
           entityId == k + 1 && callback.payload == TextPayload(text, pairs[k].widget.Id())
         case _ => false
  {
    var nodes, pairs := Built(doc, canvasWidth, canvasHeight), Flatten(doc.layout, RootBox(canvasWidth, canvasHeight));
    BuiltMirrorsLayout(doc, canvasWidth, canvasHeight);
    LinksAgree(doc, canvasWidth, canvasHeight);
    var found := match event
      case Click(x, y) => HitTest(nodes, x, y)
      case TextInput(entityId, _) => Find(nodes, entityId)
      case _ => None;
    k := found.GetOr(0);
    if found.Some? {
      ComponentKeepsAction(nodes[k], pairs[k].widget);
      if event.Click? {
        HitTestReadsLayout(doc, canvasWidth, canvasHeight, event.x, event.y);
      }
    }
  }

  /** Hover and key events leave no callback, whatever queue they are in. */
  lemma {:induction false} SilentEventsAreDropped(nodes: seq<EcsNode>, events: seq<UiEvent>)
    requires forall i :: 0 <= i < |events| ==> events[i].Hover? || events[i].KeyPress?
    ensures RouteAll(nodes, events) == []
  {
    if events != [] {
      assert forall i :: 0 <= i < |events[1..]| ==> events[1..][i] == events[i + 1];
      SilentEventsAreDropped(nodes, events[1..]);
    }
  }

  /** Whatever the queue has before and after it, a click contributes the callback of its widget, in its place. */
  lemma ClickAmongOthers(
    doc: Document, canvasWidth: nat, canvasHeight: nat, k: nat, x: real, y: real, before: seq<UiEvent>, after: seq<UiEvent>)
    requires var pairs := Flatten(doc.layout, RootBox(canvasWidth, canvasHeight));
      && k < |pairs|
      && TakesInput(pairs[k].widget) && StrictlyInside(pairs[k].box, x, y)
    ensures var w := Flatten(doc.layout, RootBox(canvasWidth, canvasHeight))[k].widget;
      var nodes := Built(doc, canvasWidth, canvasHeight);
      RouteAll(nodes, before + [Click(x, y)] + after)
      == RouteAll(nodes, before)
         + (if ActionOf(w).Some? then [Callback(ActionOf(w).value, ClickPayload(x, y, w.Id()))] else [])
         + RouteAll(nodes, after)
  {
    var nodes := Built(doc, canvasWidth, canvasHeight);
    ClickReachesWidget(doc, canvasWidth, canvasHeight, k, x, y);
    RouteAllAppends(nodes, before + [Click(x, y)], after);
    RouteAllAppends(nodes, before, [Click(x, y)]);
    RouteOne(nodes, Click(x, y));
  }

  lemma RouteOne(nodes: seq<EcsNode>, event: UiEvent)
    ensures RouteAll(nodes, [event]) == if Route(nodes, event).Some? then [Route(nodes, event).value] else []
  {
    assert [event][1..] == [];
  }

  // ---- patches

  ghost predicate SameSkeletons(a: seq<EcsNode>, b: seq<EcsNode>) {
    |a| == |b| && forall k :: 0 <= k < |a| ==> SameSkeleton(a[k], b[k])
  }

  // Both lookups are determined by their contracts, which speak of the skeleton only.

  lemma SkeletonDecidesHit(a: seq<EcsNode>, b: seq<EcsNode>, px: real, py: real)
    requires SameSkeletons(a, b)
    ensures HitTest(a, px, py) == HitTest(b, px, py)
  {
  }

  lemma SkeletonDecidesFind(a: seq<EcsNode>, b: seq<EcsNode>, id: nat)
    requires SameSkeletons(a, b)
    ensures Find(a, id) == Find(b, id)
  {
  }

  lemma {:induction false} SkeletonDecidesRoutes(a: seq<EcsNode>, b: seq<EcsNode>, events: seq<UiEvent>)
    requires SameSkeletons(a, b)
    ensures RouteAll(a, events) == RouteAll(b, events)
  {
    if events != [] {
      match events[0] {
        case Click(x, y) => SkeletonDecidesHit(a, b, x, y);
        case TextInput(id, _) => SkeletonDecidesFind(a, b, id);
        case _ =>
      }
      SkeletonDecidesRoutes(a, b, events[1..]);
    }
  }

  lemma AllKeepSkeleton(nodes: seq<EcsNode>, patches: seq<Patch>)
    ensures SameSkeletons(nodes, FinalNodes(nodes, patches))
  {
    forall k | 0 <= k < |nodes|
      ensures SameSkeleton(nodes[k], FinalNodes(nodes, patches)[k])
    {
      PatchesKeepSkeleton(nodes[k], patches);
    }
  }

  /** Events route to the same callbacks before and after any batch of patches. */
  lemma PatchesKeepRoutes(nodes: seq<EcsNode>, patches: seq<Patch>, events: seq<UiEvent>)
    ensures RouteAll(FinalNodes(nodes, Effective(patches)), events) == RouteAll(nodes, events)
  {
    AllKeepSkeleton(nodes, Effective(patches));
    SkeletonDecidesRoutes(nodes, FinalNodes(nodes, Effective(patches)), events);
  }

  lemma {:induction false} ReapplyNode(node: EcsNode, all: seq<Patch>, n: nat)
    requires n <= |all|
    ensures FinalNode(FinalNode(node, all), all[..n])
         == if exists i :: 0 <= i < n && Targets(all[i], node) then FinalNode(node, all[..n]) else FinalNode(node, all)
  {
    if n > 0 {
      var patch := all[n - 1];
      assert all[..n][..n - 1] == all[..n - 1];
      PatchesKeepSkeleton(node, all);
      if Targets(patch, node) {
        OverwriteForgets(node, all, patch);
      } else {
        ReapplyNode(node, all, n - 1);
      }
    }
  }

  /** Applying the same batch a second time leaves the tree as it is. */
  lemma ReapplyingChangesNothing(nodes: seq<EcsNode>, patches: seq<Patch>)
    ensures var once := FinalNodes(nodes, Effective(patches));
      FinalNodes(once, Effective(patches)) == once
  {
    var live := Effective(patches);
    forall k | 0 <= k < |nodes|
      ensures FinalNode(FinalNode(nodes[k], live), live) == FinalNode(nodes[k], live)
    {
      ReapplyNode(nodes[k], live, |live|);
      assert live[..|live|] == live;
    }
  }

  /** The last patch of the list that is aimed at the node. */
  ghost predicate IsLastAimed(node: EcsNode, patches: seq<Patch>, last: nat) {
    && last < |patches| && Targets(patches[last], node)
    && forall i :: last < i < |patches| ==> !Targets(patches[i], node)
  }

  lemma UnaimedKeepsLast(node: EcsNode, patches: seq<Patch>, last: nat)
    requires patches != [] && !Targets(patches[|patches| - 1], node)
    ensures IsLastAimed(node, patches, last) <==> IsLastAimed(node, patches[..|patches| - 1], last)
  {
  }

  lemma LastAimedIsUnique(node: EcsNode, patches: seq<Patch>, i: nat, j: nat)
    requires IsLastAimed(node, patches, i) && IsLastAimed(node, patches, j)
    ensures i == j
  {
  }

  lemma {:induction false} LastAimed(node: EcsNode, patches: seq<Patch>) returns (last: Option<nat>)
    ensures last.Some? ==>
      IsLastAimed(node, patches, last.value) && FinalNode(node, patches) == Written(patches[last.value], node)
    ensures last.None? ==>
      FinalNode(node, patches) == node && forall i :: 0 <= i < |patches| ==> !Targets(patches[i], node)
  {
    if patches == [] {
      last := None;
    } else if Targets(patches[|patches| - 1], node) {
      last := Some(|patches| - 1);
    } else {
      last := LastAimed(node, patches[..|patches| - 1]);
      if last.Some? {
        UnaimedKeepsLast(node, patches, last.value);
      }
    }
  }

  /**
   * Every node ends up with what the last live patch aimed at it writes, whatever came before, and
   * as it was if no live patch is aimed at it. The live patches are those before the first full
   * replacement.
   */
  lemma LastWriterWins(nodes: seq<EcsNode>, patches: seq<Patch>, k: nat)
    requires k < |nodes|
    ensures var live := Effective(patches);
      var after := FinalNodes(nodes, live)[k];
      && (forall last: nat :: IsLastAimed(nodes[k], live, last) ==> after == Written(live[last], nodes[k]))
      && ((exists last: nat :: IsLastAimed(nodes[k], live, last))
          || (after == nodes[k] && forall i :: 0 <= i < |live| ==> !Targets(live[i], nodes[k])))
  {
    var live := Effective(patches);
    var last := LastAimed(nodes[k], live);
    if last.Some? {
      forall j: nat | IsLastAimed(nodes[k], live, j)
        ensures j == last.value
      {
        LastAimedIsUnique(nodes[k], live, j, last.value);
      }
    }
  }

  // The same in terms of ids and fields alone.

  /** The `last` patch sets the text of the widgets with the id, and no later patch does. */
  ghost predicate LastTextFor(patches: seq<Patch>, id: Option<string>, last: nat) {
    && last < |patches| && patches[last].SetText? && Some(patches[last].widgetId) == id
    && forall i :: last < i < |patches| ==> !(patches[i].SetText? && Some(patches[i].widgetId) == id)
  }

  /** The `last` patch sets the label of the widgets with the id, and no later patch does. */
  ghost predicate LastLabelFor(patches: seq<Patch>, id: Option<string>, last: nat) {
    && last < |patches| && patches[last].SetButtonLabel? && Some(patches[last].widgetId) == id
    && forall i :: last < i < |patches| ==> !(patches[i].SetButtonLabel? && Some(patches[i].widgetId) == id)
  }

  ghost predicate NoTextFor(patches: seq<Patch>, id: Option<string>) {
    forall i :: 0 <= i < |patches| ==> !(patches[i].SetText? && Some(patches[i].widgetId) == id)
  }

  ghost predicate NoLabelFor(patches: seq<Patch>, id: Option<string>) {
    forall i :: 0 <= i < |patches| ==> !(patches[i].SetButtonLabel? && Some(patches[i].widgetId) == id)
  }

  /**
   * Field by field, after any batch: a text has the content of the last live patch that sets the text
   * of its id, a button the label of the last live patch that sets the label of its id, with all its
   * other fields as they were; without such a patch, and for any other node, nothing changes.
   */
  lemma FieldsAreLastWritten(nodes: seq<EcsNode>, patches: seq<Patch>, k: nat)
    requires k < |nodes|
    ensures var live := Effective(patches);
      var before, after := nodes[k], FinalNodes(nodes, live)[k];
      match before.component
      case TextComponent(_, style) =>
        && (NoTextFor(live, before.uidlId) ==> after == before)
        && (NoTextFor(live, before.uidlId) || exists last: nat :: LastTextFor(live, before.uidlId, last))
        && (forall last: nat :: LastTextFor(live, before.uidlId, last) ==>
              after == before.(component := TextComponent(live[last].newContent, style)))
      case ButtonComponent(_, action, style) =>
        && (NoLabelFor(live, before.uidlId) ==> after == before)
        && (NoLabelFor(live, before.uidlId) || exists last: nat :: LastLabelFor(live, before.uidlId, last))
        && (forall last: nat :: LastLabelFor(live, before.uidlId, last) ==>
              after == before.(component := ButtonComponent(live[last].newLabel, action, style)))
      case _ => after == before
  {
    var live, node := Effective(patches), nodes[k];
    LastWriterWins(nodes, patches, k);
    match node.component
    case TextComponent(_, _) =>
      forall last: nat
        ensures LastTextFor(live, node.uidlId, last) <==> IsLastAimed(node, live, last)
      {
        TextTargets(node, live, last);
      }
    case ButtonComponent(_, _, _) =>
      forall last: nat
        ensures LastLabelFor(live, node.uidlId, last) <==> IsLastAimed(node, live, last)
      {
        LabelTargets(node, live, last);
      }
    case _ =>
  }

  lemma TextTargets(node: EcsNode, patches: seq<Patch>, last: nat)
    requires node.component.TextComponent?
    ensures LastTextFor(patches, node.uidlId, last) <==> IsLastAimed(node, patches, last)
  {
  }

  lemma LabelTargets(node: EcsNode, patches: seq<Patch>, last: nat)
    requires node.component.ButtonComponent?
    ensures LastLabelFor(patches, node.uidlId, last) <==> IsLastAimed(node, patches, last)
  {
  }

  /** How many nodes differ between the two tables. */
  function Modified(before: seq<EcsNode>, after: seq<EcsNode>): nat
    requires |before| == |after|
  {
    if before == [] then 0
    else
      var last := |before| - 1;
      Modified(before[..last], after[..last]) + if before[last] != after[last] then 1 else 0
  }

  lemma {:induction false} AlteredOnceIsModified(node: EcsNode, patches: seq<Patch>)
    ensures Alterations(node, patches) == 0 ==> FinalNode(node, patches) == node
    ensures Alterations(node, patches) == 1 ==> FinalNode(node, patches) != node
  {
    if patches != [] {
      AlteredOnceIsModified(node, patches[..|patches| - 1]);
    }
  }

  // The values a batch gives to one node, and how often they change.

  function TextOf(node: EcsNode): string {
    match node.component
    case TextComponent(content, _) => content
    case ButtonComponent(labelText, _, _) => labelText
    case _ => ""
  }

  function TextIn(patch: Patch): string
    requires patch.SetText? || patch.SetButtonLabel?
  {
    if patch.SetText? then patch.newContent else patch.newLabel
  }

  /** The node's own text, then the text of every patch aimed at the node, in order. */
  function Texts(node: EcsNode, patches: seq<Patch>): (r: seq<string>)
    ensures r != []
  {
    if patches == [] then [TextOf(node)]
    else
      var last := patches[|patches| - 1];
      Texts(node, patches[..|patches| - 1]) + if Targets(last, node) then [TextIn(last)] else []
  }

  function WithText(node: EcsNode, text: string): EcsNode {
    match node.component
    case TextComponent(_, _) => node.(component := node.component.(content := text))
    case ButtonComponent(_, _, _) => node.(component := node.component.(labelText := text))
    case _ => node
  }

  lemma {:induction false} FinalHasLastText(node: EcsNode, patches: seq<Patch>)
    ensures var texts := Texts(node, patches);
      FinalNode(node, patches) == WithText(node, texts[|texts| - 1])
  {
    if patches != [] {
      FinalHasLastText(node, patches[..|patches| - 1]);
    }
  }

  /** How often a list of texts goes over to a different one. */
  function Changes(texts: seq<string>): nat {
    if |texts| < 2 then 0
    else Changes(texts[..|texts| - 1]) + if texts[|texts| - 1] != texts[|texts| - 2] then 1 else 0
  }

  /** The count of alterations, from the texts of the batch alone. */
  lemma {:induction false} AlterationsAreChanges(node: EcsNode, patches: seq<Patch>)
    ensures Alterations(node, patches) == Changes(Texts(node, patches))
  {
    if patches != [] {
      var before, last := patches[..|patches| - 1], patches[|patches| - 1];
      AlterationsAreChanges(node, before);
      FinalHasLastText(node, before);
      var texts := Texts(node, before);
      if Targets(last, node) {
        assert (texts + [TextIn(last)])[..|texts|] == texts;
      } else {
        assert texts + [] == texts;
      }
    }
  }

  predicate Differs(texts: seq<string>, i: nat)
    requires 0 < i < |texts|
  {
    texts[i] != texts[i - 1]
  }

  ghost predicate NeverChanges(texts: seq<string>) {
    forall i :: 0 < i < |texts| ==> !Differs(texts, i)
  }

  ghost predicate ChangesAtMostOnce(texts: seq<string>) {
    forall i, j :: 0 < i < j < |texts| ==> !(Differs(texts, i) && Differs(texts, j))
  }

  lemma {:induction false} FewChanges(texts: seq<string>)
    ensures Changes(texts) == 0 <==> NeverChanges(texts)
    ensures Changes(texts) <= 1 <==> ChangesAtMostOnce(texts)
  {
    if |texts| >= 2 {
      var n := |texts| - 1;
      FewChanges(texts[..n]);
      forall i | 0 < i < n
        ensures Differs(texts, i) == Differs(texts[..n], i)
      {
      }
      LastChange(texts, n);
    }
  }

  lemma LastChange(texts: seq<string>, n: nat)
    requires 0 < n == |texts| - 1
    requires forall i :: 0 < i < n ==> Differs(texts, i) == Differs(texts[..n], i)
    ensures NeverChanges(texts) <==> NeverChanges(texts[..n]) && !Differs(texts, n)
    ensures ChangesAtMostOnce(texts) <==> ChangesAtMostOnce(texts[..n]) && (!Differs(texts, n) || NeverChanges(texts[..n]))
  {
    if ChangesAtMostOnce(texts) && Differs(texts, n) {
      assert forall i :: 0 < i < n ==> !(Differs(texts, i) && Differs(texts, n));
    }
  }

  /**
   * Of the patches aimed at the node, at most one writes a text different from the one before it:
   * the text of the previous patch aimed at the node, or the node's own.
   */
  ghost predicate WrittenAnewAtMostOnce(node: EcsNode, patches: seq<Patch>) {
    ChangesAtMostOnce(Texts(node, patches))
  }

  ghost predicate EachWrittenAnewAtMostOnce(nodes: seq<EcsNode>, patches: seq<Patch>) {
    forall k :: 0 <= k < |nodes| ==> WrittenAnewAtMostOnce(nodes[k], patches)
  }

  lemma {:induction false} AlterationsCoverModified(nodes: seq<EcsNode>, patches: seq<Patch>)
    ensures Modified(nodes, FinalNodes(nodes, patches)) <= TotalAlterations(nodes, patches)
    ensures Modified(nodes, FinalNodes(nodes, patches)) == TotalAlterations(nodes, patches)
       <==> EachWrittenAnewAtMostOnce(nodes, patches)
  {
    if nodes != [] {
      var last := |nodes| - 1;
      AlterationsCoverModified(nodes[..last], patches);
      NodeCoversModified(nodes[last], patches);
      assert FinalNodes(nodes, patches)[..last] == FinalNodes(nodes[..last], patches);
      EachOfOneMore(nodes, patches);
    }
  }

  lemma EachOfOneMore(nodes: seq<EcsNode>, patches: seq<Patch>)
    requires nodes != []
    ensures EachWrittenAnewAtMostOnce(nodes, patches)
       <==> EachWrittenAnewAtMostOnce(nodes[..|nodes| - 1], patches)
            && WrittenAnewAtMostOnce(nodes[|nodes| - 1], patches)
  {
    assert forall k :: 0 <= k < |nodes| - 1 ==> nodes[..|nodes| - 1][k] == nodes[k];
  }

  lemma NodeCoversModified(node: EcsNode, patches: seq<Patch>)
    ensures var modified := if FinalNode(node, patches) != node then 1 else 0;
      && modified <= Alterations(node, patches)
      && (modified == Alterations(node, patches) <==> WrittenAnewAtMostOnce(node, patches))
  {
    AlteredOnceIsModified(node, patches);
    AlterationsAreChanges(node, patches);
    FewChanges(Texts(node, patches));
  }

  /**
   * The reported count is never below the number of nodes really modified, and equals it exactly
   * when the batch has no visibility toggle, no full replacement, and for no node two writes that
   * each differ from what the node had before.
   */
  lemma CountIsModifiedNodes(nodes: seq<EcsNode>, patches: seq<Patch>)
    ensures var live := Effective(patches);
      && Modified(nodes, FinalNodes(nodes, live)) <= ChangeCount(nodes, patches)
      && (Modified(nodes, FinalNodes(nodes, live)) == ChangeCount(nodes, patches)
          <==> VisibilityPatches(live) == 0 && |live| == |patches| && EachWrittenAnewAtMostOnce(nodes, live))
  {
    AlterationsCoverModified(nodes, Effective(patches));
  }

  /** One toggle: counted as a change of a node, and no node changes. */
  lemma ToggleCountsWithoutChange(nodes: seq<EcsNode>, widgetId: string, visible: bool)
    ensures var batch := [SetVisible(widgetId, visible)];
      ChangeCount(nodes, batch) == 1 && FinalNodes(nodes, Effective(batch)) == nodes
  {
    var batch := [SetVisible(widgetId, visible)];
    assert Effective(batch) == batch && batch[..0] == [];
    assert [] + batch == batch;
    VisibilityAltersNothing(nodes, [], batch[0]);
    OnePatchMore(nodes, batch);
    NothingAltered(nodes);
    assert FinalNodes(nodes, []) == nodes;
    assert VisibilityPatches(batch) == 1;
  }

  /** A text or button with the id of the patch whose text is not yet the one the patch sets. */
  predicate IsOutdated(patch: Patch, node: EcsNode) {
    match patch
    case SetText(id, newContent) =>
      node.uidlId == Some(id) && node.component.TextComponent? && node.component.content != newContent
    case SetButtonLabel(id, newLabel) =>
      node.uidlId == Some(id) && node.component.ButtonComponent? && node.component.labelText != newLabel
    case _ => false
  }

  function Outdated(nodes: seq<EcsNode>, patch: Patch): set<nat> {
    set k | 0 <= k < |nodes| && IsOutdated(patch, nodes[k])
  }

  /**
   * What one more patch adds to the count, as long as no full replacement came before it: a text or
   * label patch one for each node that is outdated by then, a toggle or a full replacement one.
   */
  lemma CountGrowsPatchByPatch(nodes: seq<EcsNode>, patches: seq<Patch>, patch: Patch)
    requires forall i :: 0 <= i < |patches| ==> !patches[i].FullReplace?
    ensures ChangeCount(nodes, []) == 0
    ensures ChangeCount(nodes, patches + [patch])
         == ChangeCount(nodes, patches)
            + if patch.SetVisible? || patch.FullReplace? then 1 else |Outdated(FinalNodes(nodes, patches), patch)|
  {
    NothingAltered(nodes);
    var all := patches + [patch];
    assert all[..|all| - 1] == patches;
    AllEffective(patches);
    if patch.FullReplace? {
      FirstReplacement(all, |patches|);
    } else {
      AllEffective(all);
      OnePatchMore(nodes, all);
      LastAltersOutdated(nodes, patches, patch);
    }
  }

  lemma AllEffective(patches: seq<Patch>)
    requires forall i :: 0 <= i < |patches| ==> !patches[i].FullReplace?
    ensures Effective(patches) == patches
  {
  }

  lemma FirstReplacement(patches: seq<Patch>, n: nat)
    requires n < |patches| && patches[n].FullReplace?
    requires forall i :: 0 <= i < n ==> !patches[i].FullReplace?
    ensures Effective(patches) == patches[..n]
  {
  }

  lemma {:induction false} LastAltersOutdated(nodes: seq<EcsNode>, patches: seq<Patch>, patch: Patch)
    ensures NodesLastAlters(nodes, patches + [patch]) == |Outdated(FinalNodes(nodes, patches), patch)|
  {
    if nodes != [] {
      var last := |nodes| - 1;
      LastAltersOutdated(nodes[..last], patches, patch);
      assert FinalNodes(nodes, patches)[..last] == FinalNodes(nodes[..last], patches);
      OutdatedOfOneMore(FinalNodes(nodes, patches), patch);
      AltersIfOutdated(nodes[last], patches, patch);
    }
  }

  lemma OutdatedOfOneMore(nodes: seq<EcsNode>, patch: Patch)
    requires nodes != []
    ensures |Outdated(nodes, patch)|
         == |Outdated(nodes[..|nodes| - 1], patch)| + if IsOutdated(patch, nodes[|nodes| - 1]) then 1 else 0
  {
    var last := |nodes| - 1;
    var all, fewer := Outdated(nodes, patch), Outdated(nodes[..last], patch);
    forall k
      ensures k in fewer <==> k in all && k != last
    {
      InOutdated(nodes[..last], patch, k);
      InOutdated(nodes, patch, k);
    }
    InOutdated(nodes, patch, last);
    assert fewer == all - {last};
  }

  lemma InOutdated(nodes: seq<EcsNode>, patch: Patch, k: int)
    ensures k in Outdated(nodes, patch) <==> 0 <= k < |nodes| && IsOutdated(patch, nodes[k])
  {
  }

  lemma AltersIfOutdated(node: EcsNode, patches: seq<Patch>, patch: Patch)
    ensures LastAlters(node, patches + [patch]) == if IsOutdated(patch, FinalNode(node, patches)) then 1 else 0
  {
    assert (patches + [patch])[..|patches|] == patches;
    ApplyNext(node, patches, patch);
  }

  /** Whatever follows a full replacement counts for nothing and changes nothing. */
  lemma StalePatchesCountNothing(nodes: seq<EcsNode>, patches: seq<Patch>, stale: seq<Patch>)
    requires exists i :: 0 <= i < |patches| && patches[i].FullReplace?
    ensures ChangeCount(nodes, patches + stale) == ChangeCount(nodes, patches)
    ensures Effective(patches + stale) == Effective(patches)
  {
    var n := |Effective(patches)|;
    FirstReplacement(patches + stale, n);
    assert (patches + stale)[..n] == patches[..n];
  }

  /** A batch of toggles that ends in a full replacement counts one for each patch, and changes no node. */
  lemma {:induction false} TogglesAndReplacement(nodes: seq<EcsNode>, toggles: seq<Patch>, uidlJson: string)
    requires forall i :: 0 <= i < |toggles| ==> toggles[i].SetVisible?
    ensures ChangeCount(nodes, toggles) == |toggles| && FinalNodes(nodes, toggles) == nodes
    ensures var batch := toggles + [FullReplace(uidlJson)];
      ChangeCount(nodes, batch) == |toggles| + 1 && FinalNodes(nodes, Effective(batch)) == nodes
  {
    if toggles == [] {
      CountGrowsPatchByPatch(nodes, [], FullReplace(uidlJson));
      assert [] + [FullReplace(uidlJson)] == [FullReplace(uidlJson)];
      assert FinalNodes(nodes, []) == nodes;
    } else {
      var before, last := toggles[..|toggles| - 1], toggles[|toggles| - 1];
      assert toggles == before + [last];
      TogglesAndReplacement(nodes, before, uidlJson);
      CountGrowsPatchByPatch(nodes, before, last);
      VisibilityAltersNothing(nodes, before, last);
      CountGrowsPatchByPatch(nodes, toggles, FullReplace(uidlJson));
      FirstReplacement(toggles + [FullReplace(uidlJson)], |toggles|);
    }
  }

  // ---- whole runs

  /** A tree with its bridge, and the history of a run: events pushed and callbacks handed out. */
  datatype App = App(
    nodes: seq<EcsNode>, inbound: seq<UiEvent>, outbound: seq<Callback>, patches: seq<Patch>,
    pushed: seq<UiEvent>, delivered: seq<Callback>)

  datatype Action =
    | PushEvent(event: UiEvent)
    | ProcessPending
    | DeliverCallbacks
    | SubmitPatch(patch: Patch)
    | ApplyPending
    | InstallTable(table: seq<EcsNode>)  // the caller's answer to a full replacement

  function Do(a: App, action: Action): App {
    match action
    case PushEvent(e) => a.(inbound := a.inbound + [e], pushed := a.pushed + [e])
    case ProcessPending => a.(inbound := [], outbound := a.outbound + RouteAll(a.nodes, a.inbound))
    case DeliverCallbacks => a.(outbound := [], delivered := a.delivered + a.outbound)
    case SubmitPatch(p) => a.(patches := a.patches + [p])
    case ApplyPending => a.(patches := [], nodes := FinalNodes(a.nodes, Effective(a.patches)))
    case InstallTable(table) => a.(nodes := table)
  }

  function Run(a: App, actions: seq<Action>): App
    decreases |actions|
  {
    if actions == [] then a else Run(Do(a, actions[0]), actions[1..])
  }

  function Start(nodes: seq<EcsNode>): App {
    App(nodes, [], [], [], [], [])
  }

  /**
   * The callbacks a run owes, read off the actions alone: every event is routed when it is
   * processed, by the table installed last, as if there were no patches. `pending` are the events
   * waiting at the start.
   */
  function Owed(table: seq<EcsNode>, pending: seq<UiEvent>, actions: seq<Action>): seq<Callback>
    decreases |actions|
  {
    if actions == [] then []
    else
      match actions[0]
      case PushEvent(e) => Owed(table, pending + [e], actions[1..])
      case ProcessPending => RouteAll(table, pending) + Owed(table, [], actions[1..])
      case InstallTable(newTable) => Owed(newTable, pending, actions[1..])
      case _ => Owed(table, pending, actions[1..])
  }

  lemma {:induction false} RunDeliversOwed(table: seq<EcsNode>, a: App, actions: seq<Action>)
    requires SameSkeletons(table, a.nodes)
    ensures var b := Run(a, actions);
      b.delivered + b.outbound == a.delivered + a.outbound + Owed(table, a.inbound, actions)
    decreases |actions|
  {
    if actions != [] {
      var a1 := Do(a, actions[0]);
      var table1 := if actions[0].InstallTable? then actions[0].table else table;
      if actions[0].ProcessPending? {
        SkeletonDecidesRoutes(table, a.nodes, a.inbound);
      }
      if actions[0].ApplyPending? {
        AllKeepSkeleton(a.nodes, Effective(a.patches));
      }
      RunDeliversOwed(table1, a1, actions[1..]);
      var rest := Owed(table1, a1.inbound, actions[1..]);
      OwedNow(a, a1, table, actions[0], rest);
    }
  }

  /** One action: what is delivered or queued grows by what the action owes. */
  lemma OwedNow(a: App, a1: App, table: seq<EcsNode>, action: Action, rest: seq<Callback>)
    requires a1 == Do(a, action)
    requires action.ProcessPending? ==> RouteAll(table, a.inbound) == RouteAll(a.nodes, a.inbound)
    ensures a1.delivered + a1.outbound + rest
         == a.delivered + a.outbound + (if action.ProcessPending? then RouteAll(table, a.inbound) + rest else rest)
  {
    match action
    case ProcessPending =>
      assert a.delivered + (a.outbound + RouteAll(table, a.inbound)) + rest
          == a.delivered + a.outbound + (RouteAll(table, a.inbound) + rest);
    case DeliverCallbacks =>
      assert (a.delivered + a.outbound) + [] + rest == a.delivered + a.outbound + rest;
    case _ =>
  }

  /**
   * However pushes, processing, deliveries, patches and replacements of the table are interleaved:
   * the callbacks delivered and then those still queued are exactly the callbacks owed. Each event
   * is routed once, in order, by the table in force when it is processed, and patches play no part.
   */
  lemma CallbacksFollowTheTable(nodes: seq<EcsNode>, actions: seq<Action>)
    ensures var a := Run(Start(nodes), actions);
      a.delivered + a.outbound == Owed(nodes, [], actions)
  {
    forall k | 0 <= k < |nodes|
      ensures SameSkeleton(nodes[k], nodes[k])
    {
    }
    RunDeliversOwed(nodes, Start(nodes), actions);
    assert [] + [] + Owed(nodes, [], actions) == Owed(nodes, [], actions);
  }

  lemma {:induction false} RouteAllAppends(nodes: seq<EcsNode>, xs: seq<UiEvent>, ys: seq<UiEvent>)
    ensures RouteAll(nodes, xs + ys) == RouteAll(nodes, xs) + RouteAll(nodes, ys)
  {
    if xs == [] {
      assert xs + ys == ys;
    } else {
      var route := Route(nodes, xs[0]);
      var first := if route.Some? then [route.value] else [];
      assert (xs + ys)[0] == xs[0] && (xs + ys)[1..] == xs[1..] + ys;
      RouteAllAppends(nodes, xs[1..], ys);
      assert first + (RouteAll(nodes, xs[1..]) + RouteAll(nodes, ys))
          == (first + RouteAll(nodes, xs[1..])) + RouteAll(nodes, ys);
    }
  }

  /** One action other than a replacement keeps the routed and the waiting callbacks in balance. */
  lemma ActionKeepsBalance(table: seq<EcsNode>, a: App, action: Action, routed: seq<Callback>)
    requires !action.InstallTable?
    requires routed + RouteAll(table, a.inbound) == RouteAll(table, a.pushed)
    ensures var a1 := Do(a, action);
      (if action.ProcessPending? then routed + RouteAll(table, a.inbound) else routed) + RouteAll(table, a1.inbound)
      == RouteAll(table, a1.pushed)
  {
    if action.PushEvent? {
      RouteAllAppends(table, a.inbound, [action.event]);
      RouteAllAppends(table, a.pushed, [action.event]);
      assert routed + (RouteAll(table, a.inbound) + RouteAll(table, [action.event]))
          == (routed + RouteAll(table, a.inbound)) + RouteAll(table, [action.event]);
    } else if action.ProcessPending? {
      assert (routed + RouteAll(table, a.inbound)) + [] == routed + RouteAll(table, a.inbound);
    }
  }

  /** With one table throughout, what is owed and what waits are the callbacks of all events. */
  lemma {:induction false} OwedByOneTable(table: seq<EcsNode>, a: App, actions: seq<Action>, routed: seq<Callback>)
    requires forall i :: 0 <= i < |actions| ==> !actions[i].InstallTable?
    requires routed + RouteAll(table, a.inbound) == RouteAll(table, a.pushed)
    ensures var b := Run(a, actions);
      routed + Owed(table, a.inbound, actions) + RouteAll(table, b.inbound) == RouteAll(table, b.pushed)
    decreases |actions|
  {
    if actions == [] {
      assert routed + [] == routed;
    } else {
      var a1, rest := Do(a, actions[0]), actions[1..];
      assert forall i :: 0 <= i < |rest| ==> rest[i] == actions[i + 1];
      var routed1 := if actions[0].ProcessPending? then routed + RouteAll(table, a.inbound) else routed;
      ActionKeepsBalance(table, a, actions[0], routed);
      OwedByOneTable(table, a1, rest, routed1);
      assert routed + Owed(table, a.inbound, actions) == routed1 + Owed(table, a1.inbound, rest);
    }
  }

  /**
   * As long as the table is not replaced: the callbacks delivered, then those still queued, then
   * those of the events not yet processed, are together exactly the callbacks of all pushed events,
   * in order, as the original table routes them.
   */
  lemma CallbacksAreConserved(nodes: seq<EcsNode>, actions: seq<Action>)
    requires forall i :: 0 <= i < |actions| ==> !actions[i].InstallTable?
    ensures var a := Run(Start(nodes), actions);
      a.delivered + a.outbound + RouteAll(nodes, a.inbound) == RouteAll(nodes, a.pushed)
  {
    CallbacksFollowTheTable(nodes, actions);
    OwedByOneTable(nodes, Start(nodes), actions, []);
    assert [] + Owed(nodes, [], actions) == Owed(nodes, [], actions);
  }
}
