/** Scroll-position rules: the message list that sticks to its bottom while new
    messages arrive (`AutoScrollMessages`), and the chat composer's keyboard and
    anchoring decisions (`ChatComposer`).

    Scroll metrics are whole pixels. Element sizes come from layout, which is not
    modelled: they are inputs. */
module Scrolling {
  import opened Wrappers

  /** Distance from the bottom, in pixels, that still counts as "at the bottom". */
  const BottomThreshold := 96

  /** A scrollable element's metrics. */
  datatype Viewport = Viewport(scrollHeight: int, scrollTop: int, clientHeight: int)

  /** The largest `scrollTop` the browser allows. */
  function MaxScrollTop(v: Viewport): nat
  {
    if v.scrollHeight - v.clientHeight > 0 then v.scrollHeight - v.clientHeight else 0
  }

  /** Metrics a browser can produce: non-negative sizes, scroll position within range. */
  predicate ValidViewport(v: Viewport)
  {
    v.clientHeight >= 0 && 0 <= v.scrollTop <= MaxScrollTop(v)
  }

  /** `isNearBottom`: the unseen part below the visible area is at most 96 pixels. For
      metrics a browser produces, that is being within 96 pixels of the furthest scroll
      position. */
  predicate IsNearBottom(v: Viewport): (near: bool)
    ensures ValidViewport(v) ==> (near <==> MaxScrollTop(v) - v.scrollTop <= BottomThreshold)
  {
    v.scrollHeight - v.scrollTop - v.clientHeight <= BottomThreshold
  }

  /** Scrolling further down never leaves the bottom zone; a list shorter than its
      window plus the threshold is always near the bottom. */
  lemma NearBottomMonotone(v: Viewport, top: int)
    requires v.scrollTop <= top
    ensures IsNearBottom(v) ==> IsNearBottom(v.(scrollTop := top))
    ensures v.scrollHeight <= v.clientHeight + BottomThreshold && v.scrollTop >= 0
            ==> IsNearBottom(v)
  {
  }

  /** `scrollToBottom` sets `scrollTop` to the scroll height, which the browser clamps to
      the largest position allowed: the element ends up at its bottom. */
  function ScrollToBottom(v: Viewport): (r: Viewport)
    requires ValidViewport(v)
    ensures ValidViewport(r)
    ensures r.scrollHeight == v.scrollHeight && r.clientHeight == v.clientHeight
    ensures r.scrollTop >= v.scrollTop
    ensures r.scrollTop == MaxScrollTop(r)
    ensures IsNearBottom(r)
  {
    v.(scrollTop := MaxScrollTop(v))
  }

  /** The message-list hook's state: the list's metrics and whether it sticks to the
      bottom on the next update. */
  datatype AutoScroll = AutoScroll(view: Viewport, stick: bool)

  /** `mounted`: the list starts at its bottom and sticking. */
  function Mounted(v: Viewport): (h: AutoScroll)
    requires ValidViewport(v)
    ensures h.stick && IsNearBottom(h.view) && ValidViewport(h.view)
    ensures h.view.scrollHeight == v.scrollHeight && h.view.clientHeight == v.clientHeight
    ensures h.view.scrollTop == MaxScrollTop(h.view)
  {
    AutoScroll(ScrollToBottom(v), true)
  }

  /** The scroll listener: the reader moves to `top`; sticking follows the new position. */
  function OnScroll(h: AutoScroll, top: int): (r: AutoScroll)
    ensures r.view == h.view.(scrollTop := top)
    ensures r.stick <==> IsNearBottom(r.view)
  {
    var view := h.view.(scrollTop := top);
    AutoScroll(view, IsNearBottom(view))
  }

  /** `beforeUpdate`: remember whether the reader is at the bottom. */
  function BeforeUpdate(h: AutoScroll): (r: AutoScroll)
    ensures r.view == h.view
    ensures r.stick <==> IsNearBottom(h.view)
  {
    h.(stick := IsNearBottom(h.view))
  }

  /** The page update changes the list's content height; the browser keeps `scrollTop`
      unless the content shrank below it. */
  function ContentChanged(h: AutoScroll, scrollHeight: int): (r: AutoScroll)
    requires ValidViewport(h.view)
    ensures ValidViewport(r.view) && r.stick == h.stick
    ensures r.view.scrollHeight == scrollHeight && r.view.clientHeight == h.view.clientHeight
    ensures h.view.scrollTop <= MaxScrollTop(r.view) ==> r.view.scrollTop == h.view.scrollTop
    ensures h.view.scrollTop > MaxScrollTop(r.view) ==> r.view.scrollTop == MaxScrollTop(r.view)
  {
    var grown := h.view.(scrollHeight := scrollHeight);
    var top := if h.view.scrollTop <= MaxScrollTop(grown) then h.view.scrollTop
               else MaxScrollTop(grown);
    h.(view := grown.(scrollTop := top))
  }

  /** `updated`: a sticking list scrolls to its new bottom; otherwise nothing moves. */
  function Updated(h: AutoScroll): (r: AutoScroll)
    requires ValidViewport(h.view)
    ensures ValidViewport(r.view)
    ensures h.stick ==> IsNearBottom(r.view) && r.view.scrollTop == MaxScrollTop(h.view) && r.stick
    ensures h.stick ==> r.view == h.view.(scrollTop := MaxScrollTop(h.view))
    ensures !h.stick ==> r == h
  {
    if !h.stick then h else AutoScroll(ScrollToBottom(h.view), true)
  }

  /** The point of the hook: across a page update that changes the content height to
      anything, a reader who was near the bottom ends up exactly at the new bottom, and
      a reader who had scrolled up keeps their position (up to the browser's clamp). */
  lemma StickyAcrossUpdate(h: AutoScroll, scrollHeight: int)
    requires ValidViewport(h.view)
    ensures var after := Updated(ContentChanged(BeforeUpdate(h), scrollHeight));
            && (IsNearBottom(h.view) ==>
                  after.view.scrollTop == MaxScrollTop(after.view) && IsNearBottom(after.view))
            && (!IsNearBottom(h.view) ==>
                  after.view == ContentChanged(h, scrollHeight).view && !after.stick)
  {
  }

  // ---------------------------------------------------------------------------
  // The chat composer

  /** The parts of a keydown event the composer looks at. */
  datatype KeyEvent = KeyEvent(
    key: string, shiftKey: bool, altKey: bool, ctrlKey: bool, metaKey: bool, isComposing: bool)

  /** The composer hook's flags: an input-method composition is in progress, the text box
      has focus, and the message list should stay anchored to its bottom while typing. */
  datatype Composer = Composer(composing: bool, focused: bool, stickToBottom: bool)

  /** The guard in `handleKeyDown`: plain Enter submits the enclosing form, unless a
      modifier is held, a composition is in progress (by the event's account or the
      hook's), or there is no form. */
  function SubmitsOnKeyDown(c: Composer, ev: KeyEvent, hasForm: bool): (submits: bool)
    ensures submits ==> ev.key == "Enter" && hasForm
    ensures ev.shiftKey || ev.altKey || ev.ctrlKey || ev.metaKey ==> !submits
    ensures ev.isComposing || c.composing ==> !submits
    ensures ev == KeyEvent("Enter", false, false, false, false, false) && !c.composing && hasForm
            ==> submits
  {
    if ev.key != "Enter" then false
    else if ev.shiftKey || ev.altKey || ev.ctrlKey || ev.metaKey then false
    else if ev.isComposing || c.composing then false
    else hasForm
  }

  /** `isWrapperNearBottom`: false when the message list is not on the page. */
  function WrapperNearBottom(wrapper: Option<Viewport>): (near: bool)
    ensures near ==> wrapper.Some?
    ensures wrapper.Some? ==> (near <==> IsNearBottom(wrapper.value))
  {
    wrapper.Some? && IsNearBottom(wrapper.value)
  }

  /** Events the composer reacts to. A focus or a scroll of the message list carries the
      list's metrics at that moment (absent when the list is not on the page). */
  datatype ComposerEvent =
    | CompositionStart
    | CompositionEnd
    | KeyDown(ev: KeyEvent)
    | Focus(wrapper: Option<Viewport>)
    | Blur
    | MessagesScroll(wrapper: Option<Viewport>)

  /** One event's effect on the composer's flags. */
  function Step(c: Composer, event: ComposerEvent): (r: Composer)
    ensures event.CompositionStart? ==> r.composing
    ensures event.CompositionEnd? ==> !r.composing
    ensures !event.CompositionStart? && !event.CompositionEnd? ==> r.composing == c.composing
    ensures event.Focus? ==> r.focused && (r.stickToBottom <==> WrapperNearBottom(event.wrapper))
    ensures event.Blur? ==> !r.focused && r.stickToBottom == c.stickToBottom
    ensures event.MessagesScroll? && !c.focused ==> r == c
    ensures event.MessagesScroll? && c.focused ==>
              r.stickToBottom == WrapperNearBottom(event.wrapper)
    ensures event.KeyDown? ==> r == c
    ensures !event.Focus? && !event.Blur? ==> r.focused == c.focused
    ensures !event.Focus? && !event.MessagesScroll? ==> r.stickToBottom == c.stickToBottom
  {
    match event
    case CompositionStart => c.(composing := true)
    case CompositionEnd => c.(composing := false)
    case KeyDown(_) => c
    case Focus(wrapper) => c.(focused := true, stickToBottom := WrapperNearBottom(wrapper))
    case Blur => c.(focused := false)
    case MessagesScroll(wrapper) =>
      if !c.focused then c else c.(stickToBottom := WrapperNearBottom(wrapper))
  }

  /** How many form submissions a run of events triggers. */
  function Submissions(c: Composer, events: seq<ComposerEvent>, hasForm: bool): nat
    decreases |events|
  {
    if |events| == 0 then 0
    else
      var now := if events[0].KeyDown? && SubmitsOnKeyDown(c, events[0].ev, hasForm) then 1 else 0;
      now + Submissions(Step(c, events[0]), events[1..], hasForm)
  }

  /** While a composition is open, Enter never submits: from a composing state, a run of
      events without a composition end triggers no submission, whatever keys it holds. */
  lemma {:induction false} NoSubmitWhileComposing(c: Composer, events: seq<ComposerEvent>, hasForm: bool)
    requires c.composing
    requires forall i :: 0 <= i < |events| ==> !events[i].CompositionEnd?
    ensures Submissions(c, events, hasForm) == 0
    decreases |events|
  {
    if |events| > 0 {
      NoSubmitWhileComposing(Step(c, events[0]), events[1..], hasForm);
    }
  }

  /** The first half of `resizeComposer`: whether to keep the message list anchored to
      its bottom while the text box grows. Only a focused composer anchors. */
  function ShouldAnchorBottom(c: Composer, wrapper: Option<Viewport>): (anchor: bool)
    ensures !c.focused ==> !anchor
    ensures anchor ==> c.stickToBottom || WrapperNearBottom(wrapper)
    ensures c.focused && (c.stickToBottom || WrapperNearBottom(wrapper)) ==> anchor
  {
    c.focused && (c.stickToBottom || WrapperNearBottom(wrapper))
  }

  /** Right after focusing, the composer anchors exactly when the message list is near
      its bottom; after blurring it never does. */
  lemma AnchorAfterFocusAndBlur(c: Composer, wrapper: Option<Viewport>, later: Option<Viewport>)
    ensures ShouldAnchorBottom(Step(c, Focus(wrapper)), wrapper) == WrapperNearBottom(wrapper)
    ensures !ShouldAnchorBottom(Step(c, Blur), later)
  {
  }
}
