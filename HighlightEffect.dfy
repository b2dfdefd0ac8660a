/** The default (halo) highlight effect, the scheduler that mounts an
    effect on a clicked element, and the `Highlight` wrapper that decides
    whether clicks are listened to at all. The halo's inline style is a
    record that each update merges into, later properties winning, exactly
    as an object spread does. */
module HighlightEffect {
  import opened Results
  import opened Strings
  import opened BackgroundColor
  import opened Dom

  /** A CSS property value: a JavaScript number or a string. */
  datatype CssValue = Num(n: real) | Text(s: string)

  /** The inline style properties the halo sets by name, and any other
      property a style may carry. */
  datatype Property =
    | Width | Height | BackgroundColor | BorderRadius | Opacity | BoxShadow | Transition
    | Other(name: string)

  type Style = map<Property, CssValue>

  /** The JavaScript name of each property the halo sets by name. */
  const NamedProperties: set<string> :=
    {"width", "height", "backgroundColor", "borderRadius", "opacity", "boxShadow", "transition"}

  /** No `Other` key spells a property that has a constructor of its own,
      so each CSS property has at most one key. */
  predicate WellKeyed(style: Style) {
    forall p :: p in style && p.Other? ==> p.name !in NamedProperties
  }

  /** The halo's style before anything is measured. */
  const InitialStyle: Style := map[
    BackgroundColor := Text("transparent"),
    Width := Num(0.0),
    Height := Num(0.0),
    BorderRadius := Text("0px"),
    Opacity := Num(0.2),
    BoxShadow := Text("none")]

  const HaloTransition := "box-shadow 400ms var(--ease-in-out-circ), opacity 2000ms var(--ease-in-out-circ)"

  /** The computed corner radii of the target. */
  datatype Corners = Corners(topLeft: string, topRight: string, bottomRight: string, bottomLeft: string)

  /** What is read from the target when it is measured: its offset size,
      its computed background colour (`None` when missing) and its radii. */
  datatype Measurement = Measurement(offsetWidth: nat, offsetHeight: nat, background: Option<string>, radii: Corners)

  /** The `borderRadius` shorthand: the four corners, top-left first and
      clockwise, joined by single spaces. */
  function RadiusShorthand(c: Corners): string {
    Join([c.topLeft, c.topRight, c.bottomRight, c.bottomLeft], ' ')
  }

  /** When no corner value holds a space, the shorthand splits back into the
      four corners in the order top-left, top-right, bottom-right,
      bottom-left. */
  lemma RadiusShorthandOrder(c: Corners)
    requires ' ' !in c.topLeft && ' ' !in c.topRight && ' ' !in c.bottomRight && ' ' !in c.bottomLeft
    ensures Split(RadiusShorthand(c), ' ') == [c.topLeft, c.topRight, c.bottomRight, c.bottomLeft]
  {
    SplitJoin([c.topLeft, c.topRight, c.bottomRight, c.bottomLeft], ' ');
  }

  /** The position fields: size, accent colour and radius shorthand. */
  function Position(width: nat, height: nat, accent: string, radius: string): (r: Style)
    ensures forall p :: p in r <==> p.Width? || p.Height? || p.BackgroundColor? || p.BorderRadius?
    ensures r[Width] == Num(width as real) && r[Height] == Num(height as real)
    ensures r[BackgroundColor] == Text(accent) && r[BorderRadius] == Text(radius)
  {
    map[
      Width := Num(width as real),
      Height := Num(height as real),
      BackgroundColor := Text(accent),
      BorderRadius := Text(radius)]
  }

  /** `updateHighlightPosition`: nothing without a target, otherwise the
      target's offset size, its extracted accent colour and its corner radii
      as one shorthand. */
  function UpdateHighlightPosition(target: Option<Measurement>): (r: Option<Style>)
    ensures r.Some? <==> target.Some?
    ensures r.Some? ==> forall p :: p in r.value <==> p.Width? || p.Height? || p.BackgroundColor? || p.BorderRadius?
    ensures r.Some? ==> (r.value[BackgroundColor] == Text(ExtractBackgroundColor(target.value.background))
      && r.value[BorderRadius] == Text(RadiusShorthand(target.value.radii))
      && r.value[Width] == Num(target.value.offsetWidth as real)
      && r.value[Height] == Num(target.value.offsetHeight as real))
  {
    match target
    case None => None
    case Some(m) => Some(Position(m.offsetWidth, m.offsetHeight, ExtractBackgroundColor(m.background), RadiusShorthand(m.radii)))
  }

  /** The start of the fade: fully transparent, no fill, a 6px ring in the
      accent colour, and the ring and opacity transitions. */
  function Fade(accent: string): (r: Style)
    ensures forall p :: p in r <==> p.Opacity? || p.BackgroundColor? || p.BoxShadow? || p.Transition?
    ensures r[Opacity] == Num(0.0) && r[BackgroundColor] == Text("transparent")
    ensures r[BoxShadow] == Text("0 0 0 6px " + accent) && r[Transition] == Text(HaloTransition)
  {
    map[
      Opacity := Num(0.0),
      BackgroundColor := Text("transparent"),
      BoxShadow := Text("0 0 0 6px " + accent),
      Transition := Text(HaloTransition)]
  }

  /** What the measured update writes over the previous style: the
      position, then the fade, whose transparent background replaces the
      accent the position carries; the accent moves into the ring. */
  function MeasuredOverlay(width: nat, height: nat, radius: string, accent: string): (r: Style)
    ensures forall p :: p in r <==> !p.Other?
    ensures r[Opacity] == Num(0.0) && r[BackgroundColor] == Text("transparent")
    ensures r[BoxShadow] == Text("0 0 0 6px " + accent)
    ensures r[Width] == Num(width as real) && r[Height] == Num(height as real)
    ensures r[BorderRadius] == Text(radius)
    ensures r[Transition] == Text(HaloTransition)
  {
    Position(width, height, accent, radius) + Fade(accent)
  }

  /** The style after the 50 ms position timer: the previous style, then
      the measured position, then the start of the fade. */
  function MeasuredStyle(prev: Style, m: Measurement): (r: Style)
    ensures forall p :: p in r <==> p in prev || !p.Other?
    ensures r[Opacity] == Num(0.0) && r[BackgroundColor] == Text("transparent")
    ensures r[BoxShadow] == Text("0 0 0 6px " + ExtractBackgroundColor(m.background))
    ensures r[Width] == Num(m.offsetWidth as real) && r[Height] == Num(m.offsetHeight as real)
    ensures r[BorderRadius] == Text(RadiusShorthand(m.radii))
    ensures r[Transition] == Text(HaloTransition)
    ensures forall p :: p in prev && p.Other? ==> r[p] == prev[p]
  {
    prev + MeasuredOverlay(m.offsetWidth, m.offsetHeight, RadiusShorthand(m.radii), ExtractBackgroundColor(m.background))
  }

  /** The initial style is keyed once per property. */
  lemma InitialStyleWellKeyed()
    ensures WellKeyed(InitialStyle)
  {
  }

  /** The measured update keeps every property under one key. */
  lemma MeasuredStyleWellKeyed(prev: Style, m: Measurement)
    requires WellKeyed(prev)
    ensures WellKeyed(MeasuredStyle(prev, m))
  {
  }

  /** The ring never takes a white or transparent colour. */
  lemma RingColourNeverWhite(prev: Style, m: Measurement)
    ensures exists c :: MeasuredStyle(prev, m)[BoxShadow] == Text("0 0 0 6px " + c) && !IsTransparentOrWhite(c)
  {
    ExtractNeverWhite(m.background);
    var c := ExtractBackgroundColor(m.background);
    assert MeasuredStyle(prev, m)[BoxShadow] == Text("0 0 0 6px " + c);
  }

  /** Measuring the same target again leaves the style as it is. */
  lemma MeasuredStyleIdempotent(prev: Style, m: Measurement)
    ensures MeasuredStyle(MeasuredStyle(prev, m), m) == MeasuredStyle(prev, m)
  {
    var o := MeasuredOverlay(m.offsetWidth, m.offsetHeight, RadiusShorthand(m.radii), ExtractBackgroundColor(m.background));
    assert MeasuredStyle(prev, m) == prev + o;
    assert MeasuredStyle(prev + o, m) == prev + o + o;
    MergeTwice(prev, o);
  }

  /** Spreading the same fields twice is spreading them once. */
  lemma MergeTwice(prev: Style, o: Style)
    ensures prev + o + o == prev + o
  {
    var once, twice := prev + o, prev + o + o;
    assert twice.Keys == once.Keys;
    forall k | k in once ensures twice[k] == once[k] {
    }
  }

  /** One session of the halo effect on a target: its style, whether the
      50 ms position timer is pending, whether the `transitionend` listener
      is attached, and how many times it has called `cleanup`. */
  class DefaultEffect {
    var style: Style
    var positionTimer: bool
    var listening: bool
    var cleanupCalls: nat

    /** Mounting: without a target `cleanup` is called at once and no timer
        is set; with one the position timer starts. The listener is
        attached either way, since the halo element always renders. */
    constructor (hasTarget: bool)
      ensures style == InitialStyle && listening
      ensures !hasTarget ==> cleanupCalls == 1 && !positionTimer
      ensures hasTarget ==> cleanupCalls == 0 && positionTimer
    {
      style := InitialStyle;
      listening := true;
      if hasTarget {
        positionTimer := true;
        cleanupCalls := 0;
      } else {
        positionTimer := false;
        cleanupCalls := 1;
      }
    }

    /** The position timer fires, the target measuring as `m`. */
    method PositionTimerFires(m: Measurement)
      modifies this
      ensures old(positionTimer) ==> style == MeasuredStyle(old(style), m) && !positionTimer
      ensures !old(positionTimer) ==> style == old(style) && positionTimer == old(positionTimer)
      ensures listening == old(listening) && cleanupCalls == old(cleanupCalls)
    {
      if positionTimer {
        style := MeasuredStyle(style, m);
        positionTimer := false;
      }
    }

    /** A `transitionend` event for `propertyName` reaches the halo: only
        the end of the opacity fade calls `cleanup`. */
    method TransitionEnd(propertyName: string)
      modifies this
      ensures cleanupCalls == old(cleanupCalls) + (if old(listening) && propertyName == "opacity" then 1 else 0)
      ensures style == old(style) && positionTimer == old(positionTimer) && listening == old(listening)
    {
      if listening && propertyName == "opacity" {
        cleanupCalls := cleanupCalls + 1;
      }
    }

    /** Unmounting clears the timer and detaches the listener. */
    method Unmount()
      modifies this
      ensures !positionTimer && !listening
      ensures style == old(style) && cleanupCalls == old(cleanupCalls)
    {
      positionTimer := false;
      listening := false;
    }
  }

  /** The inline style of the holder the scheduler creates. */
  const HolderStyle: map<string, string> :=
    map["position" := "absolute", "left" := "0px", "top" := "0px", "pointerEvents" := "none"]

  /** `showHighlightEffect`: nothing without a target; otherwise the target
      gets the `relative` class and a new holder as its first child, and the
      effect is rendered into that holder. The `cleanup` handed to the
      effect does nothing, so the holder stays in place. */
  method ShowHighlightEffect(target: Element?) returns (holder: Element?)
    modifies target
    ensures target == null ==> holder == null
    ensures target != null ==> (holder != null && fresh(holder)
      && target.children == [holder] + old(target.children)
      && target.classes == old(target.classes) + {"relative"}
      && target.style == old(target.style)
      && holder.style == HolderStyle && holder.children == [])
  {
    if target == null {
      return null;
    }
    target.classes := target.classes + {"relative"};
    holder := new Element(HolderStyle);
    target.children := [holder] + target.children;
  }

  /** The `cleanup` the scheduler hands to the effect: it removes nothing. */
  method RemoveHolder(target: Element, holder: Element)
    ensures target.children == old(target.children)
  {
  }

  /** The child of a `Highlight`: text or another non-element, or an element
      whose component may carry a display name. */
  datatype Child = NotAnElement | ElementNode(displayName: Option<string>)

  /** `isAllowedElement`: a valid element that is not itself a `Highlight`. */
  predicate IsAllowedElement(child: Child) {
    child.ElementNode? && child.displayName != Some("Highlight")
  }

  /** What `Highlight` does with its child: whether the ref is attached to
      the (cloned) child, and whether a click listener is attached. */
  datatype Wrapped = Wrapped(child: Child, refAttached: bool, listening: bool)

  /** `Highlight` with `disabled` and a child; `refResolves` says whether
      the child hands the ref to a DOM node. */
  function Highlight(child: Child, disabled: bool, refResolves: bool): (r: Wrapped)
    ensures r.child == child
    ensures r.refAttached <==> !disabled && IsAllowedElement(child)
    ensures r.listening <==> r.refAttached && refResolves
    ensures r.listening ==> !disabled && IsAllowedElement(child) && r.refAttached
    ensures disabled || !IsAllowedElement(child) ==> !r.refAttached && !r.listening
    ensures !disabled && IsAllowedElement(child) && refResolves ==> r.listening
  {
    var refAttached := !disabled && IsAllowedElement(child);
    Wrapped(child, refAttached, !disabled && refAttached && refResolves)
  }
}
