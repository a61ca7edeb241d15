/**
  Proportional scroll synchronisation between the editor and the preview
  (`handleEditorScroll` and `handlePreviewScroll` in app/page.tsx).

  Each pane is a scrollable region. When synchronisation is on, scrolling the
  editor moves the preview to the same relative position and raises a guard
  flag; the flag is lowered by an animation-frame callback. A preview scroll
  drives the editor only while the flag is down, so the preview's own scroll
  event, caused by the programmatic move, is not echoed back to the editor.

  The DOM's scroll events and `requestAnimationFrame` become the explicit
  events of `Event`; the React setting `syncScroll` is passed to each step.
*/
module ScrollSync {
  import opened Wrappers
  import opened Reals

  /**
    A scrollable region: the height of its content (`scrollHeight`), the
    height of its viewport (`clientHeight`) and its offset (`scrollTop`).
  */
  datatype Pane = Pane(scrollHeight: real, clientHeight: real, top: real) {

    /** How far the region can scroll; not positive when the content fits. */
    function MaxScroll(): real {
      scrollHeight - clientHeight
    }

    /** The browser keeps the offset between 0 and the largest offset the content allows. */
    predicate Valid() {
      0.0 <= top <= Max(0.0, MaxScroll())
    }

    /**
      `scrollTo(0, y)` or an assignment to `scrollTop`: the browser clamps the
      requested offset into the scrollable range.
    */
    function ScrollTo(y: real): (p: Pane)
      ensures p.Valid()
      ensures p.scrollHeight == scrollHeight && p.clientHeight == clientHeight
      ensures 0.0 <= y <= MaxScroll() ==> p.top == y
      ensures y <= 0.0 || MaxScroll() <= 0.0 ==> p.top == 0.0
      ensures MaxScroll() >= 0.0 && y >= MaxScroll() ==> p.top == MaxScroll()
    {
      var limit := Max(0.0, MaxScroll());
      this.(top := if y <= 0.0 then 0.0 else if y >= limit then limit else y)
    }

    /**
      A new layout, as after the document changes or the window is resized:
      the content and viewport take new heights and the browser clamps the
      offset into the new range.
    */
    function Relaid(content: real, viewport: real): (p: Pane)
      ensures p.Valid() && p.scrollHeight == content && p.clientHeight == viewport
      ensures 0.0 <= top <= p.MaxScroll() ==> p.top == top
      ensures p.MaxScroll() >= 0.0 && top >= p.MaxScroll() ==> p.top == p.MaxScroll()
      ensures top <= 0.0 || p.MaxScroll() <= 0.0 ==> p.top == 0.0
    {
      Pane(content, viewport, top).ScrollTo(top)
    }
  }

  /**
    The relative position of a pane: its offset divided by its maximum
    offset, and 0 when the pane cannot scroll.
  */
  function Ratio(p: Pane): (r: real)
    ensures p.MaxScroll() <= 0.0 ==> r == 0.0
    ensures 0.0 <= p.top <= p.MaxScroll() ==> 0.0 <= r <= 1.0
    ensures p.MaxScroll() > 0.0 ==> r * p.MaxScroll() == p.top
  {
    if p.MaxScroll() > 0.0 then p.top / p.MaxScroll() else 0.0
  }

  /** The offset `target` is asked to take: the same ratio of its own maximum offset. */
  function TargetOffset(ratio: real, target: Pane): (y: real)
    ensures 0.0 <= ratio <= 1.0 && target.MaxScroll() >= 0.0 ==> 0.0 <= y <= target.MaxScroll()
    ensures ratio == 0.0 ==> y == 0.0
    ensures ratio == 1.0 ==> y == target.MaxScroll()
  {
    target.MaxScroll() * ratio
  }

  /** For a valid source pane, the requested offset is within the target's range whenever the target can scroll at all. */
  lemma TargetOffsetInRange(source: Pane, target: Pane)
    requires source.Valid() && target.MaxScroll() >= 0.0
    ensures 0.0 <= TargetOffset(Ratio(source), target) <= target.MaxScroll()
  {
    if source.MaxScroll() > 0.0 {
      assert 0.0 <= source.top <= source.MaxScroll();
    }
  }

  /**
    The synchroniser's state: each pane, absent while it is not mounted (on a
    narrow screen only one of them is), and the guard flag
    (`isUserScrollRef`).
  */
  datatype State = State(editor: Option<Pane>, preview: Option<Pane>, guard: bool) {

    predicate Valid() {
      && (editor.Some? ==> editor.value.Valid())
      && (preview.Some? ==> preview.value.Valid())
    }

    /** Both panes are mounted, as in the side-by-side layout. */
    predicate Mounted() {
      editor.Some? && preview.Some?
    }
  }

  /** `handleEditorScroll`, run against the panes as they are. */
  function OnEditorScroll(s: State, sync: bool): (s': State)
    ensures !sync || !s.Mounted() ==> s' == s
    ensures s'.editor == s.editor
    ensures sync && s.Mounted() ==> s'.guard && s'.preview.Some?
    ensures sync && s.Mounted() ==>
      s'.preview.value == s.preview.value.ScrollTo(TargetOffset(Ratio(s.editor.value), s.preview.value))
  {
    if !sync || s.editor.None? || s.preview.None? then s
    else
      var e, p := s.editor.value, s.preview.value;
      State(s.editor, Some(p.ScrollTo(TargetOffset(Ratio(e), p))), true)
  }

  /** `handlePreviewScroll`, run against the panes as they are. */
  function OnPreviewScroll(s: State, sync: bool): (s': State)
    ensures !sync || s.guard || !s.Mounted() ==> s' == s
    ensures s'.preview == s.preview && s'.guard == s.guard
    ensures sync && !s.guard && s.Mounted() ==>
      && s'.editor.Some?
      && s'.editor.value == s.editor.value.ScrollTo(TargetOffset(Ratio(s.preview.value), s.editor.value))
  {
    if !sync || s.guard || s.editor.None? || s.preview.None? then s
    else
      var e, p := s.editor.value, s.preview.value;
      State(Some(e.ScrollTo(TargetOffset(Ratio(p), e))), s.preview, s.guard)
  }

  /** `scrollTo(0, 0)` on whichever panes are mounted, as a reset does. */
  function ScrollToTop(s: State): (s': State)
    ensures s'.Valid() && s'.guard == s.guard
    ensures s'.editor.Some? == s.editor.Some? && s'.preview.Some? == s.preview.Some?
    ensures s'.editor.Some? ==> s'.editor.value.top == 0.0
    ensures s'.preview.Some? ==> s'.preview.value.top == 0.0
  {
    State(
      if s.editor.Some? then Some(s.editor.value.ScrollTo(0.0)) else None,
      if s.preview.Some? then Some(s.preview.value.ScrollTo(0.0)) else None,
      s.guard)
  }

  /**
    The events the synchroniser reacts to: a scroll of either pane to a new
    offset (by the user or by the page itself), the next animation frame,
    which runs the callbacks `handleEditorScroll` scheduled, and a new layout
    giving each pane's content and viewport heights. A relayout runs no
    handler: a scroll event it causes is delivered as a separate event.
  */
  datatype Event =
    | EditorScroll(top: real)
    | PreviewScroll(top: real)
    | AnimationFrame
    | Relayout(editorContent: real, editorViewport: real, previewContent: real, previewViewport: real)

  /**
    One event: the pane moves (the browser clamps), then its scroll handler
    runs. Every event keeps both offsets within their panes' ranges, and none
    mounts or unmounts a pane.
  */
  function Step(s: State, sync: bool, e: Event): (s': State)
    ensures s.Valid() ==> s'.Valid()
    ensures s'.editor.Some? == s.editor.Some? && s'.preview.Some? == s.preview.Some?
    ensures e.AnimationFrame? ==> !s'.guard && s'.editor == s.editor && s'.preview == s.preview
    ensures e.Relayout? ==> s'.Valid() && s'.guard == s.guard
  {
    match e
    case EditorScroll(t) =>
      if s.editor.None? then s
      else OnEditorScroll(s.(editor := Some(s.editor.value.ScrollTo(t))), sync)
    case PreviewScroll(t) =>
      if s.preview.None? then s
      else OnPreviewScroll(s.(preview := Some(s.preview.value.ScrollTo(t))), sync)
    case AnimationFrame =>
      s.(guard := false)
    case Relayout(ec, ev, pc, pv) =>
      State(
        if s.editor.Some? then Some(s.editor.value.Relaid(ec, ev)) else None,
        if s.preview.Some? then Some(s.preview.value.Relaid(pc, pv)) else None,
        s.guard)
  }

  /** With synchronisation off, neither handler moves a pane or touches the guard. */
  lemma SyncOffIsInert(s: State)
    ensures OnEditorScroll(s, false) == s && OnPreviewScroll(s, false) == s
  {
  }

  /**
    With synchronisation on, an editor scroll raises the guard and puts the
    preview at the editor's relative position: when the preview can scroll,
    the two ratios agree.
  */
  lemma EditorScrollDrivesPreview(s: State, t: real)
    requires s.Valid() && s.Mounted()
    requires s.preview.value.MaxScroll() > 0.0
    ensures var s' := Step(s, true, EditorScroll(t));
      && s'.guard
      && s'.editor == Some(s.editor.value.ScrollTo(t))
      && Ratio(s'.preview.value) == Ratio(s'.editor.value)
  {
    var e := s.editor.value.ScrollTo(t);
    var p := s.preview.value;
    TargetOffsetInRange(e, p);
    var y := TargetOffset(Ratio(e), p);
    assert p.ScrollTo(y).top == y;
    assert y / p.MaxScroll() == Ratio(e);
  }

  /** While the guard is up, a preview scroll leaves the editor where it is. */
  lemma GuardBlocksPreview(s: State, sync: bool, t: real)
    requires s.guard
    ensures Step(s, sync, PreviewScroll(t)).editor == s.editor
  {
  }

  /**
    The feedback loop is broken: the preview scroll event that the page's
    own move of the preview produces, delivered before the next frame, does
    not move the editor.
  */
  lemma EchoIsSuppressed(s: State, t: real)
    requires s.Mounted()
    ensures var s1 := Step(s, true, EditorScroll(t));
      var s2 := Step(s1, true, PreviewScroll(s1.preview.value.top));
      s2.editor == s1.editor && s2.preview == s1.preview
  {
    var s1 := Step(s, true, EditorScroll(t));
    assert s1.guard;
    var p := s1.preview.value;
    assert p.ScrollTo(p.top) == p by {
      assert p.Valid();
    }
  }

  /** The animation frame lowers the guard, after which a preview scroll drives the editor again. */
  lemma FrameReenablesPreview(s: State, t: real)
    requires s.Valid() && s.Mounted()
    ensures var s1 := Step(s, true, AnimationFrame);
      var s2 := Step(s1, true, PreviewScroll(t));
      var p := s.preview.value.ScrollTo(t);
      && !s1.guard
      && s2.preview == Some(p)
      && s2.editor == Some(s.editor.value.ScrollTo(TargetOffset(Ratio(p), s.editor.value)))
  {
  }

  /**
    A preview scroll that is not blocked puts the editor at the preview's
    relative position when the editor can scroll.
  */
  lemma PreviewScrollDrivesEditor(s: State, t: real)
    requires s.Valid() && s.Mounted() && !s.guard
    requires s.editor.value.MaxScroll() > 0.0
    ensures var s' := Step(s, true, PreviewScroll(t));
      && s'.preview == Some(s.preview.value.ScrollTo(t))
      && Ratio(s'.editor.value) == Ratio(s'.preview.value)
  {
    var p := s.preview.value.ScrollTo(t);
    var e := s.editor.value;
    TargetOffsetInRange(p, e);
    var y := TargetOffset(Ratio(p), e);
    assert e.ScrollTo(y).top == y;
    assert y / e.MaxScroll() == Ratio(p);
  }
}
