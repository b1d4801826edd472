/** The layout engine (gui-renderer/src/widget_system.rs), with `f32` as `real`. */
module Layout {
  import opened Options
  import opened Uidl

  datatype LayoutBox = LayoutBox(x: real, y: real, width: real, height: real)

  /** A widget together with the box it was given. */
  datatype Placed = Placed(widget: Widget, box: LayoutBox)

  const DEFAULT_FONT_SIZE: nat := 14
  const DEFAULT_BUTTON_HEIGHT: nat := 36
  const DEFAULT_INPUT_HEIGHT: nat := 32
  const DEFAULT_PADDING: nat := 8
  const DEFAULT_GAP: nat := 8

  function Max(a: real, b: real): real {
    if a >= b then a else b
  }

  function GapOf(w: Widget): (g: real)
    requires w.IsContainer()
    ensures g >= 0.0
  {
    w.gap.GetOr(DEFAULT_GAP) as real
  }

  function PadOf(w: Widget): (p: real)
    requires w.VStack?
    ensures p >= 0.0
  {
    w.padding.GetOr(DEFAULT_PADDING) as real
  }

  // ---- the height estimator

  function NaturalHeight(w: Widget): (h: real)
    ensures h >= 0.0
    decreases w, |w.Children()| + 1
  {
    match w
    case Text(_, style, _) =>
      (if style.Some? then style.value.fontSize.GetOr(DEFAULT_FONT_SIZE) else DEFAULT_FONT_SIZE) as real * 1.4
    case Button(_, _, _, _) => DEFAULT_BUTTON_HEIGHT as real
    case Input(_, _, _, _) => DEFAULT_INPUT_HEIGHT as real
    case Spacer(size) => size.GetOr(DEFAULT_GAP) as real
    case VStack(_, _, children, _) => SumHeights(w, 0) + GapTotal(GapOf(w), |children|) + 2.0 * PadOf(w)
    case HStack(_, _, _) => MaxHeight(w, 0)
  }

  /** The gaps between `n` children. */
  function GapTotal(gap: real, n: nat): (total: real)
    requires gap >= 0.0
    ensures total >= 0.0
  {
    var between: nat := if n == 0 then 0 else n - 1;
    gap * between as real
  }

  function SumHeights(w: Widget, i: nat): (h: real)
    requires i <= |w.Children()|
    ensures h >= 0.0
    decreases w, |w.Children()| - i
  {
    if i == |w.Children()| then 0.0 else NaturalHeight(w.Children()[i]) + SumHeights(w, i + 1)
  }

  function MaxHeight(w: Widget, i: nat): (h: real)
    requires i <= |w.Children()|
    ensures h >= 0.0
    ensures forall k :: i <= k < |w.Children()| ==> NaturalHeight(w.Children()[k]) <= h
    ensures h == 0.0 || exists k :: i <= k < |w.Children()| && NaturalHeight(w.Children()[k]) == h
    decreases w, |w.Children()| - i
  {
    if i == |w.Children()| then 0.0 else Max(NaturalHeight(w.Children()[i]), MaxHeight(w, i + 1))
  }

  // ---- where a child goes, stated without the running cursors of the layout loop

  /** The natural heights of the first `i` children, with one gap after each of them. */
  function ColumnOffset(w: Widget, i: nat): (d: real)
    requires w.VStack? && i <= |w.children|
    ensures d >= 0.0
  {
    if i == 0 then 0.0 else ColumnOffset(w, i - 1) + NaturalHeight(w.children[i - 1]) + GapOf(w)
  }

  /** The width every child of a horizontal stack gets. */
  function ChildWidth(w: Widget, available: real): (cw: real)
    requires w.HStack? && w.children != []
    ensures cw >= 0.0
  {
    Max((available - GapTotal(GapOf(w), |w.children|)) / |w.children| as real, 0.0)
  }

  /** The distance from the left edge to the `i`-th of several children `step` apart. */
  function RowOffset(i: nat, step: real): (d: real)
    ensures step >= 0.0 ==> d >= 0.0
  {
    if i == 0 then 0.0 else RowOffset(i - 1, step) + step
  }

  /** The box of the `i`-th child of a container laid out in `b`. */
  function ChildBox(w: Widget, b: LayoutBox, i: nat): LayoutBox
    requires i < |w.Children()|
  {
    if w.VStack? then
      LayoutBox(b.x + PadOf(w), b.y + PadOf(w) + ColumnOffset(w, i),
                Max(b.width - 2.0 * PadOf(w), 0.0), NaturalHeight(w.children[i]))
    else
      var cw := ChildWidth(w, b.width);
      LayoutBox(b.x + RowOffset(i, cw + GapOf(w)), b.y, cw, b.height)
  }

  /** The pre-order list of the widgets of the tree `w`, each with its box, when `w` is given box `b`. */
  function Flatten(w: Widget, b: LayoutBox): (s: seq<Placed>)
    ensures |s| == CountWidgets(w)
    decreases w, |w.Children()| + 1
  {
    [Placed(w, b)] + FlattenFrom(w, b, 0)
  }

  function FlattenFrom(w: Widget, b: LayoutBox, i: nat): (s: seq<Placed>)
    requires i <= |w.Children()|
    ensures |s| == CountFrom(w, i)
    decreases w, |w.Children()| - i
  {
    if i == |w.Children()| then []
    else Flatten(w.Children()[i], ChildBox(w, b, i)) + FlattenFrom(w, b, i + 1)
  }

  function RootBox(canvasWidth: nat, canvasHeight: nat): LayoutBox {
    LayoutBox(0.0, 0.0, canvasWidth as real, canvasHeight as real)
  }

  // ---- the layout pass as the engine runs it

  /** The vector the layout pass pushes its results into. */
  class Results {
    var pairs: seq<Placed>

    constructor ()
      ensures pairs == []
    {
      pairs := [];
    }
  }

  lemma FlattenSplit(w: Widget, b: LayoutBox, i: nat, before: seq<Placed>)
    requires i < |w.Children()|
    ensures before + FlattenFrom(w, b, i)
         == before + Flatten(w.Children()[i], ChildBox(w, b, i)) + FlattenFrom(w, b, i + 1)
  {
  }

  class LayoutEngine {
    const canvasWidth: nat
    const canvasHeight: nat

    constructor (width: nat, height: nat)
      ensures canvasWidth == width && canvasHeight == height
    {
      canvasWidth, canvasHeight := width, height;
    }

    method LayoutDocument(doc: Document) returns (results: seq<Placed>)
      ensures results == Flatten(doc.layout, RootBox(canvasWidth, canvasHeight))
    {
      var out := new Results();
      LayoutWidget(doc.layout, LayoutBox(0.0, 0.0, canvasWidth as real, canvasHeight as real), out);
      results := out.pairs;
    }

    /** Places `widget` and everything below it. */
    method LayoutWidget(widget: Widget, available: LayoutBox, out: Results)
      modifies out
      ensures out.pairs == old(out.pairs) + Flatten(widget, available)
      decreases widget, 1
    {
      out.pairs := out.pairs + [Placed(widget, available)];
      match widget
      case VStack(_, _, _, _) =>
        LayoutColumn(widget, available, out);
      case HStack(_, children, _) =>
        if children == [] {
          return;
        }
        LayoutRow(widget, available, out);
      case _ =>
    }

    /** The vertical-stack arm: a cursor `y` runs down the column. */
    method LayoutColumn(widget: Widget, available: LayoutBox, out: Results)
      requires widget.VStack?
      modifies out
      ensures out.pairs == old(out.pairs) + FlattenFrom(widget, available, 0)
      decreases widget, 0
    {
      var children := widget.children;
      var pad, gapPx := PadOf(widget), GapOf(widget);
      var inner := LayoutBox(available.x + pad, available.y + pad,
                             Max(available.width - 2.0 * pad, 0.0), Max(available.height - 2.0 * pad, 0.0));
      var y := inner.y;
      ghost var whole := out.pairs + FlattenFrom(widget, available, 0);
      for i := 0 to |children|
        invariant i < |children| ==> y == inner.y + ColumnOffset(widget, i)
        invariant out.pairs + FlattenFrom(widget, available, i) == whole
      {
        FlattenSplit(widget, available, i, out.pairs);
        var childHeight := NaturalHeight(children[i]);
        assert ChildBox(widget, available, i) == LayoutBox(inner.x, y, inner.width, childHeight);
        LayoutWidget(children[i], LayoutBox(inner.x, y, inner.width, childHeight), out);
        y := y + childHeight;
        if i + 1 < |children| {
          y := y + gapPx;
        }
      }
    }

    /** The horizontal-stack arm: equal widths, a cursor `x` runs along the row. */
    method LayoutRow(widget: Widget, available: LayoutBox, out: Results)
      requires widget.HStack? && widget.children != []
      modifies out
      ensures out.pairs == old(out.pairs) + FlattenFrom(widget, available, 0)
      decreases widget, 0
    {
      var children := widget.children;
      var gapPx := GapOf(widget);
      var totalGap := gapPx * (|children| - 1) as real;
      var childWidth := Max((available.width - totalGap) / |children| as real, 0.0);
      assert childWidth == ChildWidth(widget, available.width);
      var x := available.x;
      ghost var whole := out.pairs + FlattenFrom(widget, available, 0);
      for i := 0 to |children|
        invariant i < |children| ==> x == available.x + RowOffset(i, childWidth + gapPx)
        invariant out.pairs + FlattenFrom(widget, available, i) == whole
      {
        FlattenSplit(widget, available, i, out.pairs);
        assert ChildBox(widget, available, i) == LayoutBox(x, available.y, childWidth, available.height);
        LayoutWidget(children[i], LayoutBox(x, available.y, childWidth, available.height), out);
        x := x + childWidth;
        if i + 1 < |children| {
          x := x + gapPx;
        }
      }
    }
  }
}
