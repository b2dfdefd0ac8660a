/** The styled disclosure layer: the size a trigger resolves to, and the
    animated `CollapseContent` region. The region keeps `isRendered` and a
    re-render counter beside the item's `isOpen`; a 300 ms timer started when
    the item closes unmounts it, and a size observer bumps the counter while
    the item is open. Time is abstract: the timer expiring and the observer
    reporting a resize are events. */
module ContentRegion {
  import opened Results
  import opened Strings
  import Disclosure

  datatype Size = Sm | Md | Lg

  /** What the styled `Collapse` provides: its size, "md" unless given. */
  datatype StyledGroup = StyledGroup(size: Size)

  /** What the styled `CollapseItem` provides: its own size, if any. */
  datatype StyledItem = StyledItem(size: Option<Size>)

  function MakeStyledGroup(size: Option<Size>): (g: StyledGroup)
    ensures size.None? ==> g.size == Md
    ensures size.Some? ==> g.size == size.value
  {
    StyledGroup(size.GetOr(Md))
  }

  /** `computedSize` of a `CollapseTrigger`: the item's size when set, else
      the group's; outside a group or an item the lookup throws. */
  function TriggerSize(group: Option<StyledGroup>, item: Option<StyledItem>): (r: Result<Size>)
    ensures group.None? ==> r == Err(Disclosure.CollapseOutsideGroup)
    ensures group.Some? && item.None? ==> r == Err(Disclosure.ItemOutsideItem)
    ensures r.Ok? <==> group.Some? && item.Some?
    ensures r.Ok? && item.value.size.Some? ==> r.value == item.value.size.value
    ensures r.Ok? && item.value.size.None? ==> r.value == group.value.size
  {
    if group.None? then Err(Disclosure.CollapseOutsideGroup)
    else if item.None? then Err(Disclosure.ItemOutsideItem)
    else Ok(item.value.size.GetOr(group.value.size))
  }

  /** With no size anywhere a trigger is "md". */
  lemma TriggerSizeDefaultsToMd()
    ensures TriggerSize(Some(MakeStyledGroup(None)), Some(StyledItem(None))) == Ok(Md)
  {
  }

  /** What happens to a region: the item's `isOpen` takes a value, the close
      timer expires, or the size observer reports a resize. */
  datatype Event = SetOpen(open: bool) | TimerFires | Resize

  /** The region's state: the item's `isOpen`, `isRendered`, the number of
      close timers outstanding, whether the size observer is connected and
      the `forceUpdate` counter. */
  datatype Region = Region(isOpen: bool, isRendered: bool, timers: nat, observing: bool, forceUpdate: nat)

  datatype Phase = Closed | Open | Closing

  function PhaseOf(s: Region): (p: Phase)
    ensures p == Closed <==> !s.isOpen && !s.isRendered
    ensures p == Open <==> s.isOpen
  {
    if s.isOpen then Open else if s.isRendered then Closing else Closed
  }

  /** The invariant every reachable state keeps: an open region is rendered
      and has no timer; at most one timer is outstanding; a closed region
      without a timer is unmounted; the observer is connected exactly while
      the item is open. */
  predicate Valid(s: Region) {
    && (s.isOpen ==> s.isRendered && s.timers == 0)
    && s.timers <= 1
    && (!s.isOpen && s.timers == 0 ==> !s.isRendered)
    && s.observing == s.isOpen
  }

  /** The state right after mounting: `isRendered` starts as `isOpen`, the
      first run of the open/close effect starts a timer when closed, and the
      observer is connected when open. */
  function Mount(open: bool): (s: Region)
    ensures Valid(s)
    ensures s.isRendered == open && s.isOpen == open && s.forceUpdate == 0
    ensures s.timers == (if open then 0 else 1) && s.observing == open
  {
    Region(open, open, if open then 0 else 1, open, 0)
  }

  /** One event. A change of `isOpen` first runs the previous effects'
      clean-ups (clear the timer, disconnect the observer), then either
      renders at once and reconnects the observer, or starts the timer. */
  function Step(s: Region, e: Event): Region {
    match e
    case SetOpen(open) =>
      if open == s.isOpen then s
      else
        var cleared := s.(timers := 0, observing := false);
        if open then cleared.(isOpen := true, isRendered := true, observing := true)
        else cleared.(isOpen := false, timers := cleared.timers + 1)
    case TimerFires =>
      if s.timers > 0 then s.(isRendered := false, timers := s.timers - 1) else s
    case Resize =>
      if s.observing then s.(forceUpdate := s.forceUpdate + 1) else s
  }

  /** The state after a sequence of events, the first applied first. */
  function Run(s: Region, evs: seq<Event>): Region
    decreases |evs|
  {
    if evs == [] then s else Step(Run(s, evs[..|evs| - 1]), evs[|evs| - 1])
  }

  lemma StepKeepsValid(s: Region, e: Event)
    requires Valid(s)
    ensures Valid(Step(s, e))
  {
  }

  /** Whatever happens after mounting, the invariant holds; in particular
      never more than one close timer is outstanding. */
  lemma {:induction false} RunKeepsValid(open: bool, evs: seq<Event>)
    ensures Valid(Run(Mount(open), evs))
    ensures Run(Mount(open), evs).timers <= 1
    decreases |evs|
  {
    if evs != [] {
      RunKeepsValid(open, evs[..|evs| - 1]);
      StepKeepsValid(Run(Mount(open), evs[..|evs| - 1]), evs[|evs| - 1]);
    }
  }

  /** Opening renders at once and cancels the pending close timer, so a
      region reopened during its closing window stays mounted. */
  lemma OpenRendersAtOnce(s: Region)
    requires Valid(s)
    ensures Step(s, SetOpen(true)).isRendered && Step(s, SetOpen(true)).timers == 0
  {
  }

  /** Only an expiring timer unmounts a region, and only after a close. */
  lemma OnlyTimerUnmounts(s: Region, e: Event)
    requires Valid(s) && PhaseOf(s) != Closed && PhaseOf(Step(s, e)) == Closed
    ensures e == TimerFires && PhaseOf(s) == Closing && s.timers == 1
  {
  }

  /** Closing keeps the region mounted with one timer; that timer expiring
      unmounts it. */
  lemma CloseThenTimerUnmounts(s: Region)
    requires Valid(s) && s.isOpen
    ensures PhaseOf(Step(s, SetOpen(false))) == Closing && Step(s, SetOpen(false)).timers == 1
    ensures PhaseOf(Step(Step(s, SetOpen(false)), TimerFires)) == Closed
  {
  }

  /** Each reported resize bumps the counter by exactly one while open and
      is not seen while closed. */
  lemma ResizeBumpsWhileOpen(s: Region)
    requires Valid(s)
    ensures Step(s, Resize).forceUpdate == s.forceUpdate + (if s.isOpen then 1 else 0)
  {
  }

  /** The item was never opened after mounting closed. */
  predicate NeverOpened(open: bool, evs: seq<Event>) {
    !open && forall i :: 0 <= i < |evs| ==> evs[i] != SetOpen(true)
  }

  /** At `i` the item was closed and not reopened since. */
  predicate ClosedSince(evs: seq<Event>, i: int) {
    0 <= i < |evs| && evs[i] == SetOpen(false) && forall k :: i <= k < |evs| ==> evs[k] != SetOpen(true)
  }

  /** The item was closed, and a timer expired afterwards without a reopen. */
  predicate SettledAfterClose(evs: seq<Event>) {
    exists i, j :: 0 <= i < j < |evs| && evs[j] == TimerFires && ClosedSince(evs, i)
  }

  /** The region is unmounted exactly when it was never opened, or it was
      closed and the 300 ms timer expired without a reopen. */
  lemma ClosedIff(open: bool, evs: seq<Event>)
    ensures PhaseOf(Run(Mount(open), evs)) == Closed <==> NeverOpened(open, evs) || SettledAfterClose(evs)
  {
    RunFacts(open, evs);
  }

  lemma {:induction false} RunFacts(open: bool, evs: seq<Event>)
    ensures var s := Run(Mount(open), evs);
      && Valid(s)
      && (s.isOpen ==> !NeverOpened(open, evs))
      && ((exists i :: ClosedSince(evs, i)) ==> !s.isOpen)
      && (s.timers == 1 ==> NeverOpened(open, evs) || exists i :: ClosedSince(evs, i))
      && (PhaseOf(s) == Closed <==> NeverOpened(open, evs) || SettledAfterClose(evs))
    decreases |evs|
  {
    if evs == [] {
      return;
    }
    var pre := evs[..|evs| - 1];
    var e := evs[|evs| - 1];
    assert evs == pre + [e];
    RunFacts(open, pre);
    var p := Run(Mount(open), pre);
    var s := Run(Mount(open), evs);
    assert s == Step(p, e);
    StepKeepsValid(p, e);
    assert forall i :: 0 <= i < |pre| ==> evs[i] == pre[i];
    // facts about the trace extended by one event
    assert NeverOpened(open, evs) <==> NeverOpened(open, pre) && e != SetOpen(true);
    forall i | ClosedSince(evs, i) && i < |pre|
      ensures ClosedSince(pre, i)
    {
    }
    forall i | ClosedSince(pre, i) && e != SetOpen(true)
      ensures ClosedSince(evs, i)
    {
    }
    if SettledAfterClose(pre) && e != SetOpen(true) {
      var i, j :| 0 <= i < j < |pre| && pre[j] == TimerFires && ClosedSince(pre, i);
      assert ClosedSince(evs, i);
    }
    if SettledAfterClose(evs) && e != TimerFires {
      var i, j :| 0 <= i < j < |evs| && evs[j] == TimerFires && ClosedSince(evs, i);
      assert j < |pre|;
      assert ClosedSince(pre, i);
    }
    match e
    case SetOpen(b) =>
      if b {
        assert !ClosedSince(evs, |pre|);
        assert forall i :: !ClosedSince(evs, i);
        assert !SettledAfterClose(evs);
      } else if p.isOpen {
        assert ClosedSince(evs, |pre|);
      } else {
      }
    case TimerFires =>
      if p.timers == 1 {
        if !NeverOpened(open, pre) {
          var i :| ClosedSince(pre, i);
          assert ClosedSince(evs, i);
          assert SettledAfterClose(evs);
        }
      } else if exists i :: ClosedSince(evs, i) {
        var i :| ClosedSince(evs, i);
        if i < |pre| {
          assert ClosedSince(pre, i);
        }
      }
    case Resize =>
  }

  /** What the region renders: nothing, or the height wrapper around the
      measuring node, whose headless content shows the children or not. */
  datatype View = Nothing | Wrapper(height: string, forceUpdate: nat, showsChildren: bool)

  /** `currentHeight`: the measured `scrollHeight` when open and the content
      node exists, 0 otherwise. */
  function CurrentHeight(isOpen: bool, scrollHeight: Option<nat>): (h: nat)
    ensures isOpen && scrollHeight.Some? ==> h == scrollHeight.value
    ensures !isOpen || scrollHeight.None? ==> h == 0
  {
    if isOpen && scrollHeight.Some? then scrollHeight.value else 0
  }

  /** The wrapper's `height` style. */
  function HeightStyle(isOpen: bool, current: nat): (r: string)
    ensures !isOpen ==> r == "0px"
    ensures isOpen ==> r == NatToString(current) + "px"
  {
    if isOpen then NatToString(current) + "px" else "0px"
  }

  /** The output of `CollapseContent` in state `s`, given the `scrollHeight`
      of its content node when that node exists. */
  function Render(s: Region, scrollHeight: Option<nat>): (v: View)
    ensures v.Nothing? <==> !s.isOpen && !s.isRendered
    ensures v.Wrapper? ==> v.forceUpdate == s.forceUpdate && v.showsChildren == s.isOpen
    ensures v.Wrapper? && !s.isOpen ==> v.height == "0px"
    ensures v.Wrapper? && s.isOpen && scrollHeight.Some? ==> v.height == NatToString(scrollHeight.value) + "px"
    ensures v.Wrapper? && s.isOpen && scrollHeight.None? ==> v.height == "0px"
  {
    if !s.isOpen && !s.isRendered then Nothing
    else Wrapper(HeightStyle(s.isOpen, CurrentHeight(s.isOpen, scrollHeight)), s.forceUpdate, s.isOpen)
  }

  /** The wrapper shows children exactly as the headless content of the same
      item does. */
  lemma ShowsChildrenAsHeadless(s: Region, item: Disclosure.Item, scrollHeight: Option<nat>)
    requires item.isOpen == s.isOpen && Render(s, scrollHeight).Wrapper?
    ensures Disclosure.HeadlessContentRenders(Some(item)) == Ok(Render(s, scrollHeight).showsChildren)
  {
  }

  /** During the closing window the wrapper stays mounted at height "0px"
      while the headless content inside already renders nothing. */
  lemma ClosingWindow(s: Region, scrollHeight: Option<nat>)
    requires Valid(s) && PhaseOf(s) == Closing
    ensures Render(s, scrollHeight) == Wrapper("0px", s.forceUpdate, false)
  {
  }

  /** The animated `CollapseContent` of one item, its state updated in
      place by the events. */
  class CollapseContent {
    var isOpen: bool
    var isRendered: bool
    var pendingTimers: nat
    var observing: bool
    var forceUpdate: nat

    function State(): Region
      reads this
    {
      Region(isOpen, isRendered, pendingTimers, observing, forceUpdate)
    }

    constructor (open: bool)
      ensures State() == Mount(open) && Valid(State())
    {
      isOpen := open;
      isRendered := open;
      observing := open;
      forceUpdate := 0;
      pendingTimers := if open then 0 else 1;
    }

    /** The item's `isOpen` takes the value `open`. */
    method SetOpen(open: bool)
      requires Valid(State())
      modifies this
      ensures Valid(State())
      ensures State() == Step(old(State()), Event.SetOpen(open))
    {
      if open != isOpen {
        pendingTimers := 0;
        observing := false;
        isOpen := open;
        if open {
          isRendered := true;
          observing := true;
        } else {
          pendingTimers := pendingTimers + 1;
        }
      }
    }

    /** The close timer expires. */
    method TimerFires()
      requires Valid(State())
      modifies this
      ensures Valid(State())
      ensures State() == Step(old(State()), Event.TimerFires)
    {
      if pendingTimers > 0 {
        isRendered := false;
        pendingTimers := pendingTimers - 1;
      }
    }

    /** The size observer reports a resize. */
    method Resize()
      requires Valid(State())
      modifies this
      ensures Valid(State())
      ensures State() == Step(old(State()), Event.Resize)
    {
      if observing {
        forceUpdate := forceUpdate + 1;
      }
    }
  }
}
