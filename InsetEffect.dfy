/** The inset (ripple) highlight effect: a holder appended to the target,
    a dot inside it that one animation frame grows and fades, and a
    `transitionend` handler that takes the holder out again. */
module InsetEffect {
  import opened Dom

  /** The inline style of the holder. */
  const HolderStyle: map<string, string> := map[
    "position" := "absolute", "left" := "0", "top" := "0",
    "width" := "100%", "height" := "100%",
    "overflow" := "hidden", "pointerEvents" := "none"]

  /** The dot's inline style at the click point `left`/`top` (pixel text)
      in the target's foreground `color`: no size yet, and 0.8 opacity. */
  function DotStyle(left: string, top: string, color: string): (r: map<string, string>)
    ensures "width" in r && r["width"] == "0px" && "height" in r && r["height"] == "0px"
    ensures "opacity" in r && r["opacity"] == "0.8"
    ensures "left" in r && r["left"] == left + "px" && "top" in r && r["top"] == top + "px"
    ensures "backgroundColor" in r && r["backgroundColor"] == color
  {
    map[
      "position" := "absolute", "left" := left + "px", "top" := top + "px",
      "width" := "0px", "height" := "0px", "borderRadius" := "50%",
      "backgroundColor" := color, "transform" := "translate(-50%, -50%)",
      "transition" := "width 1s ease, height 1s ease, opacity 1s ease",
      "opacity" := "0.8"]
  }

  /** The dot's style once the frame has run: 200px across and fully
      faded, everything else as before. */
  function Grown(style: map<string, string>): (r: map<string, string>)
    ensures r.Keys == style.Keys + {"width", "height", "opacity"}
    ensures r["width"] == "200px" && r["height"] == "200px" && r["opacity"] == "0"
    ensures forall k :: k in style && k !in {"width", "height", "opacity"} ==> r[k] == style[k]
  {
    style["width" := "200px"]["height" := "200px"]["opacity" := "0"]
  }

  /** One mounted inset effect. `holder` and `dot` exist only when there
      is a target; `handlerSet` says whether the frame has attached the
      dot's `transitionend` handler. */
  class Inset {
    const target: Element?
    const holder: Element?
    const dot: Element?
    var framePending: bool
    var handlerSet: bool
    var removeCalls: nat

    /** The holder and the dot are distinct from the target and from each
        other, and exist exactly when the target does. */
    ghost predicate Valid()
      reads this
    {
      (target == null <==> holder == null) && (target == null <==> dot == null)
      && (target != null ==> target != holder && target != dot && holder != dot)
      && (framePending ==> target != null) && (handlerSet ==> target != null)
    }

    /** Mounting: without a target `onRemove` is called at once and nothing
        is created; otherwise a holder is appended as the target's last
        child, holding one dot, and the animation frame is requested. */
    constructor (target: Element?, left: string, top: string, color: string)
      modifies target
      ensures Valid() && this.target == target && !handlerSet
      ensures target == null ==> removeCalls == 1 && !framePending
      ensures target != null ==> (removeCalls == 0 && framePending
        && fresh(holder) && fresh(dot)
        && target.children == old(target.children) + [holder]
        && target.classes == old(target.classes) && target.style == old(target.style)
        && holder.style == HolderStyle && holder.children == [dot]
        && dot.style == DotStyle(left, top, color) && dot.children == [])
    {
      this.target := target;
      handlerSet := false;
      if target == null {
        holder := null;
        dot := null;
        removeCalls := 1;
        framePending := false;
      } else {
        var h := new Element(HolderStyle);
        var d := new Element(DotStyle(left, top, color));
        h.children := [d];
        target.children := target.children + [h];
        holder := h;
        dot := d;
        removeCalls := 0;
        framePending := true;
      }
    }

    /** The requested frame runs: it attaches the handler and starts the
        dot growing and fading. */
    method Frame()
      requires Valid() && framePending
      modifies this, dot
      ensures Valid() && !framePending && handlerSet
      ensures dot.style == Grown(old(dot.style)) && dot.children == old(dot.children)
      ensures dot.classes == old(dot.classes)
      ensures removeCalls == old(removeCalls)
    {
      framePending := false;
      handlerSet := true;
      dot.style := Grown(dot.style);
    }

    /** A `transitionend` event of any property reaches the dot. With the
        handler attached, the holder leaves its parent and `onRemove` is
        called, once per event. */
    method TransitionEnd(propertyName: string)
      requires Valid()
      modifies this, target
      ensures Valid() && framePending == old(framePending) && handlerSet == old(handlerSet)
      ensures old(handlerSet) ==> (removeCalls == old(removeCalls) + 1
        && target.children == Without(old(target.children), holder))
      ensures !old(handlerSet) ==> (removeCalls == old(removeCalls)
        && (target != null ==> target.children == old(target.children)))
      ensures target != null ==> target.classes == old(target.classes) && target.style == old(target.style)
    {
      if handlerSet {
        target.children := Without(target.children, holder);
        removeCalls := removeCalls + 1;
      }
    }

    /** Teardown: the pending frame is cancelled and the holder is taken
        out if the target still contains it. */
    method Teardown()
      requires Valid()
      modifies this, target
      ensures Valid() && !framePending && handlerSet == old(handlerSet)
      ensures removeCalls == old(removeCalls)
      ensures target != null ==> (holder !in target.children
        && (holder in old(target.children) ==> target.children == Without(old(target.children), holder))
        && (holder !in old(target.children) ==> target.children == old(target.children))
        && target.classes == old(target.classes) && target.style == old(target.style))
    {
      framePending := false;
      if target != null && holder in target.children {
        target.children := Without(target.children, holder);
      }
    }

    /** The width, height and opacity transitions each end on the dot, and
        since the handler does not look at the property, `onRemove` runs
        three times. */
    method DotTransitionsEnd()
      requires Valid() && handlerSet
      modifies this, target
      ensures Valid() && removeCalls == old(removeCalls) + 3
      ensures framePending == old(framePending) && handlerSet == old(handlerSet)
      ensures target.children == Without(old(target.children), holder) && holder !in target.children
      ensures target.classes == old(target.classes) && target.style == old(target.style)
    {
      TransitionEnd("width");
      TransitionEnd("height");
      TransitionEnd("opacity");
    }
  }
}
