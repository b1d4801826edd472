/** What the layout promises about the boxes it hands out: containment, disjointness, and exact fit. */
module Geometry {
  import opened Options
  import opened Uidl
  import opened Layout

  function Right(b: LayoutBox): real { b.x + b.width }
  function Bottom(b: LayoutBox): real { b.y + b.height }

  // ---- what is true of every box of a subtree laid out in `b`

  ghost predicate StartsWithin(s: seq<Placed>, b: LayoutBox) {
    forall p :: p in s ==> b.x <= p.box.x && b.y <= p.box.y && p.box.width >= 0.0 && p.box.height >= 0.0
  }

  ghost predicate EndsAbove(s: seq<Placed>, y: real) {
    forall p :: p in s ==> Bottom(p.box) <= y
  }

  /** Boxes of positive width end at `x` or to the left of it. */
  ghost predicate EndsLeftOf(s: seq<Placed>, x: real) {
    forall p :: p in s && p.box.width > 0.0 ==> Right(p.box) <= x
  }

  ghost predicate AllFlat(s: seq<Placed>) {
    forall p :: p in s ==> p.box.width == 0.0
  }

  /** No descendant starts to the left of its ancestor or above it. */
  lemma {:induction false} DescendantsStartWithin(w: Widget, b: LayoutBox)
    requires b.width >= 0.0 && b.height >= 0.0
    ensures StartsWithin(Flatten(w, b), b)
    decreases w, |w.Children()| + 1
  {
    ChildrenStartWithin(w, b, 0);
  }

  lemma {:induction false} ChildrenStartWithin(w: Widget, b: LayoutBox, i: nat)
    requires i <= |w.Children()|
    requires b.width >= 0.0 && b.height >= 0.0
    ensures StartsWithin(FlattenFrom(w, b, i), b)
    decreases w, |w.Children()| - i
  {
    if i < |w.Children()| {
      DescendantsStartWithin(w.Children()[i], ChildBox(w, b, i));
      ChildrenStartWithin(w, b, i + 1);
    }
  }

  /** The children from the `i`-th on start no higher and no further left than the `i`-th. */
  lemma {:induction false} LaterChildrenStartAfter(w: Widget, b: LayoutBox, i: nat, k: nat)
    requires i <= k <= |w.Children()| && i < |w.Children()|
    requires b.width >= 0.0 && b.height >= 0.0
    ensures StartsWithin(FlattenFrom(w, b, k), ChildBox(w, b, i))
    decreases |w.Children()| - k
  {
    if k < |w.Children()| {
      OffsetsGrow(w, b, i, k);
      DescendantsStartWithin(w.Children()[k], ChildBox(w, b, k));
      LaterChildrenStartAfter(w, b, i, k + 1);
    }
  }

  lemma {:induction false} OffsetsGrow(w: Widget, b: LayoutBox, i: nat, k: nat)
    requires i <= k < |w.Children()|
    ensures ChildBox(w, b, i).x <= ChildBox(w, b, k).x
    ensures ChildBox(w, b, i).y <= ChildBox(w, b, k).y
    ensures w.VStack? && i < k ==> Bottom(ChildBox(w, b, i)) + GapOf(w) <= ChildBox(w, b, k).y
    ensures w.HStack? && i < k ==> Right(ChildBox(w, b, i)) + GapOf(w) <= ChildBox(w, b, k).x
    decreases k - i
  {
    if i < k {
      OffsetsGrow(w, b, i, k - 1);
    }
  }

  // ---- the estimator agrees with the layout

  /** Running down a column adds up to the estimate: heights, and one gap after each child. */
  lemma {:induction false} ColumnAddsUp(w: Widget, i: nat)
    requires w.VStack? && i <= |w.children|
    ensures ColumnOffset(w, i) + SumHeights(w, i) == SumHeights(w, 0) + RowOffset(i, GapOf(w))
  {
    if i > 0 {
      ColumnAddsUp(w, i - 1);
    }
  }

  /**
   * A vertical stack given exactly its natural height ends its last child exactly one padding
   * above its own bottom edge.
   */
  lemma NaturalHeightFitsColumn(w: Widget, b: LayoutBox)
    requires w.VStack? && w.children != []
    requires b.height == NaturalHeight(w)
    ensures Bottom(ChildBox(w, b, |w.children| - 1)) + PadOf(w) == Bottom(b)
  {
    EstimateOfColumn(w);
  }

  lemma EstimateOfColumn(w: Widget)
    requires w.VStack? && w.children != []
    ensures NaturalHeight(w) + GapOf(w) == ColumnOffset(w, |w.children|) + 2.0 * PadOf(w)
  {
    ColumnAddsUp(w, |w.children|);
    GapsAddUp(GapOf(w), |w.children|);
  }

  lemma {:induction false} RowIsEven(i: nat, step: real)
    ensures RowOffset(i, step) == step * i as real
  {
    if i > 0 {
      RowIsEven(i - 1, step);
    }
  }

  lemma GapsAddUp(gap: real, n: nat)
    requires gap >= 0.0 && n > 0
    ensures RowOffset(n, gap) == GapTotal(gap, n) + gap
  {
    RowIsEven(n - 1, gap);
  }

  /**
   * A horizontal stack shares its width out without loss exactly when the width covers the gaps:
   * only then does the last child end on the right edge.
   */
  lemma RowFillsWidth(w: Widget, b: LayoutBox)
    requires w.HStack? && w.children != []
    ensures Right(ChildBox(w, b, |w.children| - 1)) == Right(b)
       <==> b.width >= GapTotal(GapOf(w), |w.children|)
  {
    RowEnd(w, b);
    ShareOut(b.width, GapTotal(GapOf(w), |w.children|), |w.children|);
  }

  /** The last child ends after all widths and all gaps. */
  lemma RowEnd(w: Widget, b: LayoutBox)
    requires w.HStack? && w.children != []
    ensures Right(ChildBox(w, b, |w.children| - 1))
         == b.x + ChildWidth(w, b.width) * |w.children| as real + GapTotal(GapOf(w), |w.children|)
  {
    var n, g, cw := |w.children|, GapOf(w), ChildWidth(w, b.width);
    RowSplits(n - 1, cw, g);
    GapsAddUp(g, n);
    RowIsEven(n, cw);
  }

  /** Steps made of a width and a gap are the widths and the gaps put end to end. */
  lemma {:induction false} RowSplits(i: nat, width: real, gap: real)
    ensures RowOffset(i, width + gap) == RowOffset(i, width) + RowOffset(i, gap)
  {
    if i > 0 {
      RowSplits(i - 1, width, gap);
    }
  }

  lemma ShareOut(available: real, gaps: real, n: nat)
    requires n > 0
    ensures Max((available - gaps) / n as real, 0.0) * n as real + gaps == available <==> available >= gaps
    ensures available <= gaps ==> Max((available - gaps) / n as real, 0.0) == 0.0
  {
    var share := (available - gaps) / n as real;
    assert share * n as real == available - gaps;
  }

  // ---- the stacks in the document's own numbers

  /** The height a column gives a leaf: 36 for a button, 32 for an input, a line of text, or the spacer's size. */
  predicate IsLeafHeight(w: Widget, h: real) {
    match w
    case Text(_, style, _) =>
      h == if style.Some? && style.value.fontSize.Some? then 1.4 * style.value.fontSize.value as real else 1.4 * 14.0
    case Button(_, _, _, _) => h == 36.0
    case Input(_, _, _, _) => h == 32.0
    case Spacer(size) => h == if size.Some? then size.value as real else 8.0
    case _ => true
  }

  /**
   * A vertical stack insets every child by the padding on the left, and on the right too exactly when
   * the box is wide enough for both; the first child starts one padding down, and every other child
   * one gap below the child before it.
   */
  lemma ColumnFillsWidth(w: Widget, b: LayoutBox, i: nat)
    requires w.VStack? && i < |w.children|
    ensures var pad := if w.padding.Some? then w.padding.value as real else 8.0;
      var gap := if w.gap.Some? then w.gap.value as real else 8.0;
      var c := ChildBox(w, b, i);
      && c.x == b.x + pad
      && (Right(c) + pad == Right(b) <==> b.width >= 2.0 * pad)
      && (b.width <= 2.0 * pad ==> c.width == 0.0)
      && c.y == (if i == 0 then b.y + pad else Bottom(ChildBox(w, b, i - 1)) + gap)
      && c.height == NaturalHeight(w.children[i]) && IsLeafHeight(w.children[i], c.height)
  {
  }

  /**
   * A horizontal stack gives every child its own top and height and one common width; the first child
   * starts at the left edge, and every other child one gap to the right of the child before it.
   */
  lemma RowIsAligned(w: Widget, b: LayoutBox, i: nat)
    requires w.HStack? && i < |w.children|
    ensures var gap := if w.gap.Some? then w.gap.value as real else 8.0;
      var c := ChildBox(w, b, i);
      && c.y == b.y && c.height == b.height && c.width == ChildBox(w, b, 0).width
      && c.x == (if i == 0 then b.x else Right(ChildBox(w, b, i - 1)) + gap)
      && (b.width <= gap * (|w.children| - 1) as real ==> c.width == 0.0)
  {
    ShareOut(b.width, GapTotal(GapOf(w), |w.children|), |w.children|);
  }

  // ---- vertical containment

  /** A box at least as high as the estimate holds every descendant vertically. */
  lemma {:induction false} DescendantsEndAbove(w: Widget, b: LayoutBox)
    requires b.height >= NaturalHeight(w)
    ensures EndsAbove(Flatten(w, b), Bottom(b))
    decreases w, |w.Children()| + 1
  {
    ChildrenEndAbove(w, b, 0);
  }

  lemma {:induction false} ChildrenEndAbove(w: Widget, b: LayoutBox, i: nat)
    requires i <= |w.Children()|
    requires b.height >= NaturalHeight(w)
    ensures EndsAbove(FlattenFrom(w, b, i), Bottom(b))
    decreases w, |w.Children()| - i
  {
    if i < |w.Children()| {
      var c := ChildBox(w, b, i);
      if w.VStack? {
        var exact := b.(height := NaturalHeight(w));
        OffsetsGrow(w, exact, i, |w.children| - 1);
        NaturalHeightFitsColumn(w, exact);
        assert Bottom(c) <= Bottom(ChildBox(w, exact, |w.children| - 1));
      }
      DescendantsEndAbove(w.Children()[i], c);
      ChildrenEndAbove(w, b, i + 1);
    }
  }

  // ---- horizontal containment

  /** Inside a box of no width, nothing has any width. */
  lemma {:induction false} FlatStaysFlat(w: Widget, b: LayoutBox)
    requires b.width == 0.0
    ensures AllFlat(Flatten(w, b))
    decreases w, |w.Children()| + 1
  {
    FlatChildrenStayFlat(w, b, 0);
  }

  lemma {:induction false} FlatChildrenStayFlat(w: Widget, b: LayoutBox, i: nat)
    requires i <= |w.Children()|
    requires b.width == 0.0
    ensures AllFlat(FlattenFrom(w, b, i))
    decreases w, |w.Children()| - i
  {
    if i < |w.Children()| {
      if w.HStack? {
        ShareOut(0.0, GapTotal(GapOf(w), |w.children|), |w.children|);
      }
      FlatStaysFlat(w.Children()[i], ChildBox(w, b, i));
      FlatChildrenStayFlat(w, b, i + 1);
    }
  }

  /** A descendant of positive width ends within its ancestor, however small the ancestor is. */
  lemma {:induction false} DescendantsEndLeft(w: Widget, b: LayoutBox)
    requires b.width >= 0.0
    ensures EndsLeftOf(Flatten(w, b), Right(b))
    decreases w, |w.Children()| + 1
  {
    ChildrenEndLeft(w, b, 0);
  }

  lemma {:induction false} ChildrenEndLeft(w: Widget, b: LayoutBox, i: nat)
    requires i <= |w.Children()|
    requires b.width >= 0.0
    ensures EndsLeftOf(FlattenFrom(w, b, i), Right(b))
    decreases w, |w.Children()| - i
  {
    if i < |w.Children()| {
      var c := ChildBox(w, b, i);
      if c.width == 0.0 {
        FlatStaysFlat(w.Children()[i], c);
      } else {
        if w.HStack? {
          OffsetsGrow(w, b, i, |w.children| - 1);
          RowFillsWidth(w, b);
          ShareOut(b.width, GapTotal(GapOf(w), |w.children|), |w.children|);
        }
        DescendantsEndLeft(w.Children()[i], c);
      }
      ChildrenEndLeft(w, b, i + 1);
    }
  }

  // ---- leaves keep out of each other's way

  /**
   * `later` keeps out of the interior of `earlier`: it is below it, or to the right of it, or
   * `earlier` has no interior.
   */
  predicate KeepsClear(earlier: LayoutBox, later: LayoutBox) {
    earlier.width > 0.0 ==> Bottom(earlier) <= later.y || Right(earlier) <= later.x
  }

  ghost predicate AllKeepClear(s: seq<Placed>, t: seq<Placed>) {
    forall p, q :: p in s && q in t ==> KeepsClear(p.box, q.box)
  }

  ghost predicate LeavesKeepClear(s: seq<Placed>) {
    forall i, j :: 0 <= i < j < |s| && !s[i].widget.IsContainer() ==> KeepsClear(s[i].box, s[j].box)
  }

  /** Everything below a later child keeps clear of everything below an earlier child. */
  lemma SiblingsKeepClear(w: Widget, b: LayoutBox, i: nat)
    requires i < |w.Children()|
    requires b.width >= 0.0 && b.height >= 0.0
    ensures AllKeepClear(Flatten(w.Children()[i], ChildBox(w, b, i)), FlattenFrom(w, b, i + 1))
  {
    if i + 1 < |w.Children()| {
      var c := ChildBox(w, b, i);
      OffsetsGrow(w, b, i, i + 1);
      LaterChildrenStartAfter(w, b, i + 1, i + 1);
      if w.VStack? {
        DescendantsEndAbove(w.Children()[i], c);
      } else {
        DescendantsEndLeft(w.Children()[i], c);
      }
    }
  }

  /**
   * The subtrees of two children of a vertical stack are vertically apart by at least the gap,
   * whatever height the stack itself was given.
   */
  lemma ColumnsAreDisjoint(w: Widget, b: LayoutBox, i: nat, k: nat, p: Placed, q: Placed)
    requires w.VStack? && i < k < |w.children|
    requires b.width >= 0.0 && b.height >= 0.0
    requires p in Flatten(w.children[i], ChildBox(w, b, i))
    requires q in Flatten(w.children[k], ChildBox(w, b, k))
    ensures Bottom(p.box) + GapOf(w) <= q.box.y
  {
    OffsetsGrow(w, b, i, k);
    DescendantsEndAbove(w.children[i], ChildBox(w, b, i));
    DescendantsStartWithin(w.children[k], ChildBox(w, b, k));
  }

  /** In the whole list, nothing placed after a leaf reaches into the interior of that leaf. */
  lemma {:induction false} LayoutKeepsLeavesClear(w: Widget, b: LayoutBox)
    requires b.width >= 0.0 && b.height >= 0.0
    ensures LeavesKeepClear(Flatten(w, b))
    decreases w, |w.Children()| + 1
  {
    ChildrenKeepLeavesClear(w, b, 0);
    if !w.IsContainer() {
      assert Flatten(w, b) == [Placed(w, b)];
    }
  }

  lemma {:induction false} ChildrenKeepLeavesClear(w: Widget, b: LayoutBox, i: nat)
    requires i <= |w.Children()|
    requires b.width >= 0.0 && b.height >= 0.0
    ensures LeavesKeepClear(FlattenFrom(w, b, i))
    decreases w, |w.Children()| - i
  {
    if i < |w.Children()| {
      LayoutKeepsLeavesClear(w.Children()[i], ChildBox(w, b, i));
      ChildrenKeepLeavesClear(w, b, i + 1);
      SiblingsKeepClear(w, b, i);
      JoinKeepsClear(Flatten(w.Children()[i], ChildBox(w, b, i)), FlattenFrom(w, b, i + 1));
    }
  }

  lemma JoinKeepsClear(s: seq<Placed>, t: seq<Placed>)
    requires LeavesKeepClear(s) && LeavesKeepClear(t) && AllKeepClear(s, t)
    ensures LeavesKeepClear(s + t)
  {
  }
}
