/**
  The draggable divider between the editor and the preview
  (components/resizable-split.tsx).

  The container holds the left pane, a 6 px divider and the right pane. The
  component keeps a React state `leftRatio`, a drag flag, and a ref
  `lastRatio` holding the ratio most recently applied by `updatePanes`, which
  writes the two panes' widths, as percentages of the container, straight
  into the DOM. Mouse, double-click and window-resize callbacks become the
  events of `Event`.
*/
module ResizableSplit {
  import opened Reals

  const MinPanePx: real := 120.0
  const DividerPx: real := 6.0
  const DefaultRatio: real := 0.5

  /**
    The component: the container's position and width on screen, the React
    state `leftRatio` and `isDragging`, the ref `lastRatio`, and the two
    widths `updatePanes` last wrote, in percent.
  */
  datatype Split = Split(
    containerLeft: real,
    containerWidth: real,
    leftRatio: real,
    dragging: bool,
    lastRatio: real,
    leftPct: real,
    rightPct: real)
  {
    /** The pane widths stay between 10 % and 90 % and fill the container together. */
    predicate Valid() {
      10.0 <= leftPct <= 90.0 && leftPct + rightPct == 100.0
    }

    /**
      The widths `updatePanes(ratio)` writes: the ratio held between 0.1 and
      0.9, as a percentage, on the left and the rest on the right.
    */
    predicate Shows(ratio: real) {
      && (ratio <= 0.1 ==> leftPct == 10.0)
      && (ratio >= 0.9 ==> leftPct == 90.0)
      && (0.1 <= ratio <= 0.9 ==> leftPct == ratio * 100.0)
      && leftPct + rightPct == 100.0
    }

    /** The left pane's laid-out width in pixels (`offsetWidth`), its percentage of the container. */
    function LeftPaneWidth(): real {
      containerWidth * leftPct / 100.0
    }
  }

  /** The component as first rendered: both ratios at the default and the panes at 50 %. */
  function Initial(containerLeft: real, containerWidth: real): (s: Split)
    ensures s.Valid() && !s.dragging
    ensures s.leftRatio == DefaultRatio && s.lastRatio == DefaultRatio && s.leftPct == 50.0
  {
    Split(containerLeft, containerWidth, DefaultRatio, false, DefaultRatio, DefaultRatio * 100.0, (1.0 - DefaultRatio) * 100.0)
  }

  /**
    `updatePanes(ratio)`: the left pane gets the ratio, held between 0.1 and
    0.9, as a percentage, the right pane the rest, and `lastRatio` records the
    ratio as given.
  */
  function UpdatePanes(s: Split, ratio: real): (s': Split)
    ensures s'.Valid() && s'.Shows(ratio)
    ensures s'.lastRatio == ratio
    ensures s'.leftRatio == s.leftRatio && s'.dragging == s.dragging
    ensures s'.containerLeft == s.containerLeft && s'.containerWidth == s.containerWidth
  {
    var leftPct := Max(0.1, Min(0.9, ratio)) * 100.0;
    s.(leftPct := leftPct, rightPct := 100.0 - leftPct, lastRatio := ratio)
  }

  /** A larger ratio never gives the left pane less room. */
  lemma UpdatePanesMonotone(s: Split, a: real, b: real)
    requires a <= b
    ensures UpdatePanes(s, a).leftPct <= UpdatePanes(s, b).leftPct
  {
  }

  /**
    The mount effect: it turns `lastRatio`, read as a share of the whole
    container, into a share of the container minus the divider, taking half
    the divider off the left pane. A container exactly as wide as the
    divider would divide by zero; the model leaves such a component alone.
  */
  function Mount(s: Split): (s': Split)
    ensures s'.leftRatio == s.leftRatio && s'.dragging == s.dragging
    ensures s'.containerLeft == s.containerLeft && s'.containerWidth == s.containerWidth
    ensures s.containerWidth == DividerPx ==> s' == s
    ensures s.containerWidth != DividerPx ==>
      && s'.lastRatio * (s.containerWidth - DividerPx) == s.containerWidth * s.lastRatio - DividerPx / 2.0
      && s'.Valid() && s'.Shows(s'.lastRatio)
  {
    var total := s.containerWidth;
    if total - DividerPx == 0.0 then s
    else
      var leftW := total * s.lastRatio - DividerPx / 2.0;
      UpdatePanes(s, leftW / (total - DividerPx))
  }

  /** Mounting at the default ratio keeps the split in the middle, whatever the container's width. */
  lemma MountKeepsDefault(left: real, width: real)
    requires width != DividerPx
    ensures var s := Mount(Initial(left, width));
      s.lastRatio == DefaultRatio && s.leftPct == 50.0 && s.rightPct == 50.0
  {
    var total := width;
    var leftW := total * DefaultRatio - DividerPx / 2.0;
    assert leftW == DefaultRatio * (total - DividerPx);
    assert leftW / (total - DividerPx) == DefaultRatio;
  }

  /**
    The ratio a drag asks for: the pointer's offset into the container over
    the width available to the panes, held between the ratios that leave
    each pane `MinPanePx` wide. When the container is too narrow for two such
    panes the lower bound wins.
  */
  function DragRatio(x: real, total: real): (r: real)
    requires total != 0.0
    ensures total > 0.0 ==> r >= MinPanePx / total
    ensures total >= 2.0 * MinPanePx ==> r <= 1.0 - MinPanePx / total
    ensures total > 0.0 ==> r * total >= MinPanePx
    ensures total >= 2.0 * MinPanePx ==> (1.0 - r) * total >= MinPanePx
    ensures MinPanePx / total <= x / total <= 1.0 - MinPanePx / total ==> r == x / total
  {
    var r := Max(MinPanePx / total, Min(1.0 - MinPanePx / total, x / total));
    ClampedRatioBounds(x, total, r);
    r
  }

  /** The pixel meaning of the clamp in `DragRatio`. */
  lemma ClampedRatioBounds(x: real, total: real, r: real)
    requires total != 0.0
    requires r == Max(MinPanePx / total, Min(1.0 - MinPanePx / total, x / total))
    ensures total > 0.0 ==> r * total >= MinPanePx
    ensures total >= 2.0 * MinPanePx ==> (1.0 - r) * total >= MinPanePx
  {
    var lo, hi := MinPanePx / total, 1.0 - MinPanePx / total;
    assert lo * total == MinPanePx;
    if total > 0.0 {
      assert r >= lo;
      assert r * total >= lo * total;
    }
    if total >= 2.0 * MinPanePx {
      assert lo <= hi by {
        assert MinPanePx / total <= 0.5;
      }
      assert r <= hi;
      RightPixels(r, total);
    }
  }

  /** A ratio at most 1 − `MinPanePx`/total leaves the right pane at least `MinPanePx` wide. */
  lemma RightPixels(r: real, total: real)
    requires total > 0.0 && r <= 1.0 - MinPanePx / total
    ensures (1.0 - r) * total >= MinPanePx
  {
    var lo := MinPanePx / total;
    assert lo * total == MinPanePx;
    assert (1.0 - r) * total - lo * total == (1.0 - r - lo) * total;
  }

  /**
    A drag step (`handleMouseMove`): ignored while not dragging; otherwise
    both `leftRatio` and the panes take the clamped ratio of the pointer's
    position. A container exactly as wide as the divider would divide by
    zero; the model ignores the move then.
  */
  function MouseMove(s: Split, clientX: real): (s': Split)
    ensures !s.dragging ==> s' == s
    ensures s'.dragging == s.dragging
    ensures s'.containerLeft == s.containerLeft && s'.containerWidth == s.containerWidth
    ensures s.dragging && s.containerWidth != DividerPx ==>
      var total := s.containerWidth - DividerPx;
      && s'.leftRatio == DragRatio(clientX - s.containerLeft, total)
      && s'.lastRatio == s'.leftRatio
      && s'.Valid() && s'.Shows(s'.leftRatio)
  {
    if !s.dragging then s
    else
      var total := s.containerWidth - DividerPx;
      if total == 0.0 then s
      else
        var ratio := DragRatio(clientX - s.containerLeft, total);
        UpdatePanes(s.(leftRatio := ratio), ratio)
  }

  /**
    However far the pointer strays, even outside the container, a drag
    leaves the left pane at least `MinPanePx` wide, and the right pane too
    when the container has room for both.
  */
  lemma DragKeepsMinimumWidths(s: Split, clientX: real)
    requires s.dragging && s.containerWidth > DividerPx
    ensures var s' := MouseMove(s, clientX);
      var total := s.containerWidth - DividerPx;
      && s'.leftRatio * total >= MinPanePx
      && (total >= 2.0 * MinPanePx ==> (1.0 - s'.leftRatio) * total >= MinPanePx)
  {
    var total := s.containerWidth - DividerPx;
    var r := DragRatio(clientX - s.containerLeft, total);
    assert r * total >= MinPanePx;
    assert total >= 2.0 * MinPanePx ==> (1.0 - r) * total >= MinPanePx;
    var s' := MouseMove(s, clientX);
    assert s'.leftRatio == r;
  }

  /** A drag inside the allowed band follows the pointer exactly. */
  lemma DragFollowsPointer(s: Split, clientX: real)
    requires s.dragging && s.containerWidth > DividerPx
    requires var total := s.containerWidth - DividerPx;
      var x := clientX - s.containerLeft;
      MinPanePx <= x <= total - MinPanePx
    ensures var total := s.containerWidth - DividerPx;
      MouseMove(s, clientX).leftRatio == (clientX - s.containerLeft) / total
  {
    var total := s.containerWidth - DividerPx;
    var x := clientX - s.containerLeft;
    DivideMonotone(MinPanePx, x, total);
    DivideMonotone(x, total - MinPanePx, total);
    assert (total - MinPanePx) / total == 1.0 - MinPanePx / total;
  }

  /** Dividing by a positive number keeps the order. */
  lemma DivideMonotone(a: real, b: real, t: real)
    requires t > 0.0 && a <= b
    ensures a / t <= b / t
  {
    assert b / t - a / t == (b - a) / t;
  }

  /** `handleMouseDown` on the divider starts a drag. */
  function MouseDown(s: Split): (s': Split)
    ensures s'.dragging && s' == s.(dragging := true)
  {
    s.(dragging := true)
  }

  /** `handleMouseUp`, listened for on the whole window, ends a drag wherever the pointer is. */
  function MouseUp(s: Split): (s': Split)
    ensures !s'.dragging && s' == s.(dragging := false)
  {
    s.(dragging := false)
  }

  /** `handleDividerDoubleClick`: back to the default split, dragging or not. */
  function DoubleClick(s: Split): (s': Split)
    ensures s'.leftRatio == DefaultRatio && s'.lastRatio == DefaultRatio
    ensures s'.leftPct == 50.0 && s'.rightPct == 50.0
    ensures s'.dragging == s.dragging
  {
    UpdatePanes(s.(leftRatio := DefaultRatio), DefaultRatio)
  }

  /**
    `handleResize` as written: the container takes its new width; unless a
    drag is under way, the left pane's laid-out width is divided by the width
    minus the divider and applied through `updatePanes`, leaving `leftRatio`
    alone.
  */
  function ResizeAsWritten(s: Split, width: real): (s': Split)
    ensures s'.containerWidth == width && s'.leftRatio == s.leftRatio && s'.dragging == s.dragging
    ensures s.dragging ==> s' == s.(containerWidth := width)
    ensures s'.containerLeft == s.containerLeft
    ensures !s.dragging && width != DividerPx ==>
      && s'.lastRatio * (width - DividerPx) == s.(containerWidth := width).LeftPaneWidth()
      && s'.Valid() && s'.Shows(s'.lastRatio)
  {
    var s1 := s.(containerWidth := width);
    if s.dragging || width - DividerPx == 0.0 then s1
    else UpdatePanes(s1, s1.LeftPaneWidth() / (width - DividerPx))
  }

  /**
    The left pane's width is a share of the whole container, but the resize
    handler divides it by the container minus the divider. So every resize
    event while idle, even one that leaves the width as it was, moves the
    divider to the right, until the pane reaches the 90 % stop.
  */
  lemma ResizeAsWrittenDrifts(s: Split, width: real)
    requires s.Valid() && !s.dragging && s.leftPct < 90.0
    requires width > DividerPx
    ensures ResizeAsWritten(s, width).leftPct > s.leftPct
  {
    var d, q := width - DividerPx, s.leftPct / 100.0;
    var r := width * s.leftPct / 100.0 / d;
    assert r * d == width * q;
    assert q * d == width * q - DividerPx * q;
    ScaleCancel(r, q, d);
  }

  /** Multiplying by a positive number keeps strict order, both ways. */
  lemma ScaleCancel(x: real, y: real, d: real)
    requires d > 0.0 && x * d > y * d
    ensures x > y
  {
    assert (x - y) * d == x * d - y * d;
  }

  /** A concrete case: an idle 1006 px container at 50 % moves to 50.3 % on a resize event that keeps its width. */
  lemma ResizeAsWrittenDriftExample()
    ensures var s := Split(0.0, 1006.0, 0.5, false, 0.5, 50.0, 50.0);
      ResizeAsWritten(s, 1006.0).leftPct == 50.3
  {
    var s := Split(0.0, 1006.0, 0.5, false, 0.5, 50.0, 50.0);
    assert s.LeftPaneWidth() == 503.0;
    assert 503.0 / (1006.0 - DividerPx) == 0.503;
  }

  /**
    `handleResize` corrected: the left pane's width is divided by the width of
    the whole container, the quantity its percentage is a share of.
  */
  function Resize(s: Split, width: real): (s': Split)
    ensures s'.containerWidth == width && s'.leftRatio == s.leftRatio && s'.dragging == s.dragging
    ensures s'.containerLeft == s.containerLeft
    ensures s.dragging ==> s' == s.(containerWidth := width)
    ensures !s.dragging && width != 0.0 ==>
      && s'.lastRatio * width == s.(containerWidth := width).LeftPaneWidth()
      && s'.Valid() && s'.Shows(s'.lastRatio)
  {
    var s1 := s.(containerWidth := width);
    if s.dragging || width == 0.0 then s1
    else UpdatePanes(s1, s1.LeftPaneWidth() / width)
  }

  /**
    With the correction, a resize keeps the split where it was on screen:
    the left pane keeps its percentage and `lastRatio` becomes that share.
  */
  lemma ResizePreservesSplit(s: Split, width: real)
    requires s.Valid() && width != 0.0
    ensures var s' := Resize(s, width);
      s'.leftPct == s.leftPct && s'.rightPct == s.rightPct
      && (!s.dragging ==> s'.lastRatio == s.leftPct / 100.0)
  {
    assert width * s.leftPct / 100.0 / width == s.leftPct / 100.0;
  }

  /** The events the divider reacts to. */
  datatype Event = MouseDownEvent | MouseMoveEvent(clientX: real) | MouseUpEvent | DoubleClickEvent | ResizeEvent(width: real)

  /**
    The component as written. Every event keeps the pane widths within 10 %
    and 90 % and summing to 100 %, and none moves the container.
  */
  function Step(s: Split, e: Event): (s': Split)
    ensures s.Valid() ==> s'.Valid()
    ensures s'.containerLeft == s.containerLeft
    ensures e.ResizeEvent? ==> s'.containerWidth == e.width
    ensures !e.ResizeEvent? ==> s'.containerWidth == s.containerWidth
  {
    match e
    case MouseDownEvent => MouseDown(s)
    case MouseMoveEvent(x) => MouseMove(s, x)
    case MouseUpEvent => MouseUp(s)
    case DoubleClickEvent => DoubleClick(s)
    case ResizeEvent(w) => ResizeAsWritten(s, w)
  }

  /** The component with the corrected resize handler; it keeps the same invariant. */
  function CorrectedStep(s: Split, e: Event): (s': Split)
    ensures s.Valid() ==> s'.Valid()
    ensures s'.containerLeft == s.containerLeft
    ensures e.ResizeEvent? && e.width != 0.0 && s.Valid() ==> s'.leftPct == s.leftPct && s'.rightPct == s.rightPct
    ensures !e.ResizeEvent? ==> s' == Step(s, e)
  {
    match e
    case ResizeEvent(w) =>
      if s.Valid() && w != 0.0 then ResizePreservesSplit(s, w); Resize(s, w) else Resize(s, w)
    case _ => Step(s, e)
  }

  /** Between a mouse-down and a mouse-up, no window resize changes the panes. */
  lemma ResizeIgnoredWhileDragging(s: Split, w: real)
    ensures Step(MouseDown(s), ResizeEvent(w)) == MouseDown(s).(containerWidth := w)
  {
  }
}
