# Disclosure and highlight core, modelled in Dafny

This project models the logic inside the aakriti-ui React components. It has three parts.

- **Disclosure group** (`Disclosure.dfy`). This is the headless `Collapse`. It keeps an ordered list of expanded tags, and `toggleItem` updates that list under the `accordion` or `multiple` policy. Each child gets a tag: its own, or a synthesized `jv-item-<index>`. `CollapseItem` rejects a missing or empty tag. The headless `CollapseContent` renders nothing while its item is closed. All of these are functions on `seq<string>`. React context is passed in explicitly as an `Option`, and the errors the code throws are `Err` results that carry the exact messages.
- **Animated content region** (`ContentRegion.dfy`). This is the styled `CollapseContent`. Its state is `isOpen`, `isRendered`, the pending 300 ms close timers, the resize observer and the `forceUpdate` counter. This state is a `Region` record. `Step` changes it in response to the events `SetOpen(b)`, `TimerFires` and `Resize`, and `Run` replays a list of those events. The class `CollapseContent` holds the same state in fields, and each of its event methods is proved to perform `Step`. The module also covers three pure pieces:
  - the render-or-null decision;
  - the wrapper height;
  - the trigger size fallback.
- **Highlight effects**:
  - `BackgroundColor.dfy` covers `extractBackgroundColor`. The white `rgb`/`rgba` regular expression is written as a parser with a printer. The two are proved inverse, so the regex's language is exactly the set of printed strings.
  - `HighlightEffect.dfy` covers:
    - the default halo effect: its style merge, border-radius shorthand and cleanup triggers;
    - `showHighlightEffect`, which is the DOM mutation done on a click;
    - the `disabled` and element guard in `Highlight`.
  - `ShakeEffect.dfy` covers the frame-stepped shake loop.
  - `InsetEffect.dfy` covers the lifecycle of the ripple's holder.
  - `Dom.dfy` holds the few parts of a DOM element that these effects touch.

Timers and animation frames are events, or methods the caller invokes. DOM measurements are parameters.

Where the code's behaviour differs from what the components are meant to do, the model follows the code:

- **The shake stops at step 40.** The stop test `!next` is also true for the final `0` of `[0, -15, 15, -5, 5, 0]`. So the 5° to 0° segment is never animated. Exactly 40 rotations are shown, and the last one is 4°. See `ShakeEffect.StopsIff` and `ShakeEffect.Shake.RunFrames`.
- **The ripple calls cleanup once per transition.** The inset effect's `transitionend` handler does not look at the property name. The dot animates three properties (width, height and opacity), and each of their transition ends that reaches the dot calls `onRemove`, so one ripple can call it up to three times. `InsetEffect.Inset.DotTransitionsEnd` states the case where all three ends arrive.
- **The halo counts every opacity event.** The default effect calls `cleanup` on each `transitionend` whose property is `opacity`, not just the first one.
- **The holder is never removed.** The `cleanup` that `showHighlightEffect` hands to an effect does nothing, so the holder it prepends stays inside the target.

Angles are integer tenths of a degree. Every angle the shake loop computes is an exact multiple of half a degree, and `ShakeEffect.AngleMatchesFormula` ties the tenths back to the loop's own formula over the reals.

## Model

| member | source | states |
|---|---|---|
| Strings.Trim | src/components/highlight.tsx:23 | the slice left once the white space at both ends is dropped, starting and ending with a non-space; `TrimEmptyIffAllSpace`, `TrimSurrounded` and `TrimIdempotent` state its behaviour |
| Strings.Lower | src/components/highlight.tsx:40 | `color.toLowerCase()`: the same length, each ASCII capital lowered and every other character kept (ASCII only, see Left out) |
| Disclosure.ModeOrDefault | src/components/headless/collapse.tsx:31 | an absent mode is `multiple`; a given mode is kept |
| Disclosure.RemoveAll | src/components/headless/collapse.tsx:41 | the key is gone, every other entry keeps its count, and the result is a subsequence of the input (relative order kept) |
| Disclosure.Toggle | src/components/headless/collapse.tsx:36-44 | the key's membership flips; accordion leaves at most the key alone; multiple keeps every other key's membership; an absent key is appended after the unchanged old list; a present key is filtered out, order kept |
| Disclosure.ToggleMembership | src/components/headless/collapse.tsx:40-43 | in multiple mode, after toggling `key`, `x` is expanded iff it was expanded xor `x == key` |
| Disclosure.IsItemExpanded | src/components/headless/collapse.tsx:49-52 | a tag is expanded iff it is in the list; after toggle sequences `ReplayMembership` and `ExpandedAreOddToggled` say which tags those are |
| Disclosure.Replay | src/components/headless/collapse.tsx:32-44 | the list after successive `toggleItem` dispatches; `ReplayMembership`, `ReplayNoDuplicates` and `ReplayAccordionAtMostOne` state what it keeps |
| Disclosure.ReplayMembership | src/components/headless/collapse.tsx:36-44 | after a sequence of multiple-mode toggles, `x` is expanded iff it started expanded xor it was toggled an odd number of times |
| Disclosure.ExpandedAreOddToggled | src/components/headless/collapse.tsx:32-44 | from the initial `[]`, the expanded tags are exactly those toggled an odd number of times |
| Disclosure.RemoveAllKeepsNoDuplicates | src/components/headless/collapse.tsx:41 | filtering a list without duplicates leaves one without duplicates |
| Disclosure.ToggleKeepsNoDuplicates | src/components/headless/collapse.tsx:40-43 | a multiple-mode toggle of a duplicate-free list is duplicate-free |
| Disclosure.ReplayNoDuplicates | src/components/headless/collapse.tsx:32-44 | any multiple-mode toggle sequence from a duplicate-free list, in particular from `[]`, never produces a duplicate tag |
| Disclosure.ReplayAccordionAtMostOne | src/components/headless/collapse.tsx:37-38 | in accordion mode, starting from at most one tag, the list never holds more than one |
| Disclosure.DoubleToggleAbsent | src/components/headless/collapse.tsx:40-43 | toggling an absent key twice gives back exactly the original list |
| Disclosure.DoubleTogglePresent | src/components/headless/collapse.tsx:40-43 | toggling a present key twice gives the other entries in order followed by the key, so the same set of tags |
| Disclosure.DoubleToggleRestoresExpanded | src/components/headless/collapse.tsx:36-44 | in both modes a double toggle restores whether the key is expanded |
| Disclosure.RemoveAllAppend | src/components/headless/collapse.tsx:41 | filtering distributes over concatenation |
| Disclosure.RemoveAllAbsent | src/components/headless/collapse.tsx:41 | filtering out an absent key changes nothing |
| Disclosure.GenerateChildTag | src/components/headless/collapse.tsx:26-28 | any given string tag, the empty one included, is returned unchanged; otherwise the tag is `jv-item-` followed by the decimal index |
| Disclosure.SynthesizedTagsDistinct | src/components/headless/collapse.tsx:27 | synthesized tags for distinct indices differ |
| Disclosure.ChildTags | src/components/headless/collapse.tsx:65-78 | each child receives the tag `GenerateChildTag` gives for its position |
| Disclosure.UntaggedChildrenDistinct | src/components/headless/collapse.tsx:65-78 | children that are all untagged receive pairwise distinct tags |
| Disclosure.CollapseItem | src/components/headless/collapse.tsx:107-119 | outside a group it fails with the "must be used within a Collapse" message; a missing or empty tag fails with "tag is required for CollapseItem"; otherwise the item is open iff its tag is in the expanded list |
| Disclosure.ToggleOpen | src/components/headless/collapse.tsx:117 | an item's toggle flips whether its own tag is expanded |
| Disclosure.ToggleOpenFlipsOnlyThatItem | src/components/headless/collapse.tsx:115-118 | in multiple mode, an item's toggle leaves every other tag's expanded state unchanged |
| Disclosure.HeadlessContentRenders | src/components/headless/collapse.tsx:153-166 | outside an item it fails with the "must be used within a CollapseItem" message; otherwise it renders exactly when the item is open |
| Disclosure.ContentShownIffTagExpanded | src/components/headless/collapse.tsx:157-159 | the headless content of an item renders iff the item's tag is expanded in its group |
| ContentRegion.MakeStyledGroup | src/components/collapse.tsx:35 | the group size defaults to `md` |
| ContentRegion.TriggerSize | src/components/collapse.tsx:115-117 | the trigger size is the item's size when set, else the group's; a missing group or item is the corresponding context error |
| ContentRegion.TriggerSizeDefaultsToMd | src/components/collapse.tsx:35 | with no size anywhere the trigger is `md` |
| ContentRegion.PhaseOf | src/components/collapse.tsx:164 | closed means neither open nor rendered; open means `isOpen` |
| ContentRegion.Mount | src/components/collapse.tsx:136-162 | `isRendered` starts equal to the initial `isOpen`, `forceUpdate` at 0; the first effect run starts the close timer when mounted closed and connects the observer when mounted open |
| ContentRegion.Step | src/components/collapse.tsx:140-162 | one open/close, timer or resize event; `StepKeepsValid`, `OpenRendersAtOnce`, `OnlyTimerUnmounts`, `CloseThenTimerUnmounts` and `ResizeBumpsWhileOpen` state its effect |
| ContentRegion.Run | src/components/collapse.tsx:140-162 | the state after an event sequence; `RunKeepsValid` and `ClosedIff` state what any run from mount leads to |
| ContentRegion.StepKeepsValid | src/components/collapse.tsx:140-162 | every event keeps: open implies rendered with no timer; at most one close timer; closed without a timer implies unmounted; the observer connected exactly while open |
| ContentRegion.RunKeepsValid | src/components/collapse.tsx:140-149 | from mount, any event sequence leaves at most one outstanding timer |
| ContentRegion.OpenRendersAtOnce | src/components/collapse.tsx:140-142 | opening renders immediately and leaves no timer |
| ContentRegion.OnlyTimerUnmounts | src/components/collapse.tsx:143-148 | the only event that reaches the unmounted state from a mounted one is the close timer firing while closing |
| ContentRegion.CloseThenTimerUnmounts | src/components/collapse.tsx:143-148 | closing keeps the content mounted with one timer; the timer then unmounts it |
| ContentRegion.ResizeBumpsWhileOpen | src/components/collapse.tsx:151-162 | a resize bumps `forceUpdate` by exactly 1 while open and does nothing otherwise |
| ContentRegion.ClosedIff | src/components/collapse.tsx:136-164 | after any event sequence the region renders null iff it never opened, or it was last closed and a timer has fired since |
| ContentRegion.CurrentHeight | src/components/collapse.tsx:166-167 | the height is the measured scroll height when open and the node exists, else 0 |
| ContentRegion.HeightStyle | src/components/collapse.tsx:173 | the height style is `0px` whenever closed, else the height in pixels |
| ContentRegion.Render | src/components/collapse.tsx:164-187 | renders null iff neither open nor rendered; the wrapper carries `forceUpdate`, shows children iff open, and has height `0px` when closed |
| ContentRegion.ShowsChildrenAsHeadless | src/components/collapse.tsx:178-185 | the inner headless content renders exactly when the wrapper shows its children |
| ContentRegion.ClosingWindow | src/components/collapse.tsx:164-185 | while closing the wrapper stays mounted at height `0px` but the inner content renders nothing |
| ContentRegion.CollapseContent.constructor | src/components/collapse.tsx:135-138 | the mounted component's state is `Mount(isOpen)` |
| ContentRegion.CollapseContent.SetOpen | src/components/collapse.tsx:140-149 | a change of `isOpen` clears the timer first, then renders at once or starts one timer, as `Step` does |
| ContentRegion.CollapseContent.TimerFires | src/components/collapse.tsx:144-146 | the timer firing unmounts the content, as `Step` does |
| ContentRegion.CollapseContent.Resize | src/components/collapse.tsx:154-156 | an observed resize increments `forceUpdate`, as `Step` does |
| BackgroundColor.ParseHead | src/components/highlight.tsx:36 | a successful parse splits the text into `rgb`, an optional `a`, `(` and the rest |
| BackgroundColor.ParseWhiteRgb | src/components/highlight.tsx:35-36 | the regular expression as a parser into the varying parts; `ParsePrint` and `PrintParse` prove it accepts exactly the printed white spellings |
| BackgroundColor.MatchesWhiteRgb | src/components/highlight.tsx:35-41 | `transparentRegex.test`: the parser succeeds; `WhiteRgbFallsBack`, `MatchStartsLowerR` and `UpperCaseWhiteKept` state what it accepts and rejects |
| BackgroundColor.IsTransparentOrWhite | src/components/highlight.tsx:25-43 | empty, a listed spelling in any case, or a regex match; `ExtractNeverWhite` and `PrimaryIsKept` state that the result of the extraction never passes it |
| BackgroundColor.ParsePrint | src/components/highlight.tsx:35-36 | every well-formed white `rgb`/`rgba` spelling parses back to itself |
| BackgroundColor.PrintParse | src/components/highlight.tsx:35-36 | every text the regular expression accepts is the printing of a well-formed white spelling |
| BackgroundColor.RawColor | src/components/highlight.tsx:23 | the trimmed colour, or `var(--primary)` when it is missing or blank |
| BackgroundColor.ExtractBackgroundColor | src/components/highlight.tsx:22-46 | a missing, blank, listed (case-insensitively) or regex-matched white colour gives `var(--primary)`; any other colour is returned trimmed |
| BackgroundColor.PrimaryIsKept | src/components/highlight.tsx:23 | the fallback itself is neither white nor transparent and is already trimmed |
| BackgroundColor.ExtractNeverWhite | src/components/highlight.tsx:38-45 | the result is never white/transparent and never a listed spelling in any case |
| BackgroundColor.ExtractIdempotent | src/components/highlight.tsx:22-46 | extracting from an extracted colour changes nothing |
| BackgroundColor.ExtractOfKept | src/components/highlight.tsx:45 | a trimmed, non-empty, non-white colour passes through unchanged |
| BackgroundColor.BlankFallsBack | src/components/highlight.tsx:23 | an all-white-space colour gives `var(--primary)` |
| BackgroundColor.WhiteRgbFallsBack | src/components/highlight.tsx:35-41 | a white `rgb`/`rgba` spelling with any surrounding white space gives `var(--primary)` |
| BackgroundColor.MatchStartsLowerR | src/components/highlight.tsx:36 | the regular expression only accepts text starting with lower-case `r` |
| BackgroundColor.UpperCaseWhiteKept | src/components/highlight.tsx:36-41 | the case-sensitive regex lets `RGB(255,255,255)` through unchanged |
| BackgroundColor.HalfTransparentWhiteFallsBack | src/components/highlight.tsx:35-36 | `rgba(255, 255, 255, 0.5)` gives `var(--primary)` |
| HighlightEffect.RadiusShorthand | src/components/highlight.tsx:71-76 | the four corners joined by spaces; `RadiusShorthandOrder` states the corner order |
| HighlightEffect.RadiusShorthandOrder | src/components/highlight.tsx:71-76 | the radius shorthand splits back into the corners top-left, top-right, bottom-right, bottom-left |
| HighlightEffect.Position | src/components/highlight.tsx:67-77 | exactly the four fields width, height, background colour and border radius, holding the given size, accent and shorthand |
| HighlightEffect.Fade | src/components/highlight.tsx:92-95 | exactly opacity 0, a transparent background, a 6px ring in the accent colour and the ring/opacity transition |
| HighlightEffect.UpdateHighlightPosition | src/components/highlight.tsx:62-78 | nothing without a target, else exactly width, height, background colour and border radius |
| HighlightEffect.MeasuredOverlay | src/components/highlight.tsx:89-96 | the written fields: opacity 0, transparent background, ring in the extracted colour, offset size, radius shorthand and transition |
| HighlightEffect.MeasuredStyle | src/components/highlight.tsx:89-96 | after measurement the style has those fields and every other previous field unchanged |
| HighlightEffect.MeasuredStyleWellKeyed | src/components/highlight.tsx:89-96 | the merge never leaves two keys for one CSS property when the previous style had none |
| HighlightEffect.InitialStyleWellKeyed | src/components/highlight.tsx:53-60 | the initial style has one key per CSS property |
| HighlightEffect.RingColourNeverWhite | src/components/highlight.tsx:94 | the ring colour is never white or transparent |
| HighlightEffect.MeasuredStyleIdempotent | src/components/highlight.tsx:89-96 | measuring the same target twice gives the same style as once |
| HighlightEffect.DefaultEffect.constructor | src/components/highlight.tsx:80-98 | with no target cleanup is called at once and no timer is set; otherwise the position timer starts |
| HighlightEffect.DefaultEffect.PositionTimerFires | src/components/highlight.tsx:86-98 | a pending timer applies the measured style and is spent; nothing else changes |
| HighlightEffect.DefaultEffect.TransitionEnd | src/components/highlight.tsx:117-121 | cleanup is called exactly for an `opacity` transition end while listening |
| HighlightEffect.DefaultEffect.Unmount | src/components/highlight.tsx:107-110 | the timer is cleared and the listener detached |
| HighlightEffect.ShowHighlightEffect | src/components/highlight.tsx:142-166 | nothing without a target; otherwise the target gains `relative` and a fresh, styled holder as first child |
| HighlightEffect.RemoveHolder | src/components/highlight.tsx:158-160 | the cleanup handed to the effect leaves the target's children as they are |
| HighlightEffect.IsAllowedElement | src/components/highlight.tsx:16-20 | a valid element whose display name is not `Highlight`; `Highlight` states that only such children get the ref and the listener |
| HighlightEffect.Highlight | src/components/highlight.tsx:168-191 | the ref is attached exactly when the child is enabled and an allowed element (lines 189-190); a click listener is attached exactly when the ref is attached and resolves to a node, so the early return on `disabled \|\| !targetElement` (line 177) leaves none |
| ShakeEffect.Next | src/stories/utils/highlight.tsx:26-28 | the next key angle exists iff the segment index is inside the sequence |
| ShakeEffect.Stops | src/stories/utils/highlight.tsx:30 | the `!next` test, true for a missing or zero next angle; `StopsIff` says it holds exactly from step 40 |
| ShakeEffect.AngleTenths | src/stories/utils/highlight.tsx:38 | the interpolated angle in tenths; `AngleMatchesFormula` ties it to the loop's formula and `AngleBounds` bounds it |
| ShakeEffect.StopsIff | src/stories/utils/highlight.tsx:26-30 | the stop test holds exactly from step 40 on |
| ShakeEffect.AngleBounds | src/stories/utils/highlight.tsx:16-38 | every angle before the stop lies in [-15°, 15°] and is a multiple of 0.5° |
| ShakeEffect.AngleMatchesFormula | src/stories/utils/highlight.tsx:38 | the tenths model equals the loop's interpolation formula evaluated exactly |
| ShakeEffect.FirstAndLastAngles | src/stories/utils/highlight.tsx:38 | the first rotation is 0° and the one at step 39 is 4° |
| ShakeEffect.Degrees | src/stories/utils/highlight.tsx:39 | the printed angle starts with `-` iff negative and has a decimal point iff not whole |
| ShakeEffect.DegreesInjective | src/stories/utils/highlight.tsx:39 | distinct angles print differently |
| ShakeEffect.ReadDegreesOf | src/stories/utils/highlight.tsx:39 | the printed angle, read back as a decimal number of degrees (sign, digits, optional one-digit fraction), is exactly the angle the loop computed |
| ShakeEffect.RotateText | src/stories/utils/highlight.tsx:39 | `rotate(${angle}deg)` with the angle printed by `Degrees`, which `ReadDegreesOf` reads back as the angle |
| ShakeEffect.Reset | src/stories/utils/highlight.tsx:31-32 | transform and transition become empty, other properties unchanged |
| ShakeEffect.Rotated | src/stories/utils/highlight.tsx:39-40 | transform becomes the rotation and transition `none`, other properties unchanged |
| ShakeEffect.Shake.constructor | src/stories/utils/highlight.tsx:10-19 | with no target `onRemove` is called once and nothing is scheduled; otherwise the first frame is requested at step 0 |
| ShakeEffect.Shake.Frame | src/stories/utils/highlight.tsx:21-44 | at step 40 it resets the target and calls `onRemove` with no further frame; before that it writes the step's rotation, advances by exactly 1 and requests one frame |
| ShakeEffect.Shake.Teardown | src/stories/utils/highlight.tsx:51-55 | the pending frame is cancelled and transform/transition reset |
| ShakeEffect.Shake.RunFrames | src/stories/utils/highlight.tsx:21-48 | running to the end shows exactly 40 rotations, all within ±15° and on half degrees, the last 4°; the target's transform and transition are reset, its classes and children untouched, and `onRemove` called once |
| InsetEffect.DotStyle | src/stories/utils/highlight.tsx:103-114 | the dot starts 0×0 at the click point, in the target's colour, at opacity 0.8 |
| InsetEffect.Grown | src/stories/utils/highlight.tsx:125-127 | the dot is driven to 200px at opacity 0, other properties unchanged |
| InsetEffect.Inset.constructor | src/stories/utils/highlight.tsx:79-119 | with no target `onRemove` is called at once; otherwise a fresh holder holding the dot is appended as the target's last child and a frame is requested |
| InsetEffect.Inset.Frame | src/stories/utils/highlight.tsx:119-128 | the frame attaches the handler and grows the dot to 200px at opacity 0; the dot's classes and children and the `onRemove` count are untouched |
| InsetEffect.Inset.TransitionEnd | src/stories/utils/highlight.tsx:120-123 | with the handler attached any property's end removes the holder from the target and calls `onRemove` once more |
| InsetEffect.Inset.Teardown | src/stories/utils/highlight.tsx:131-136 | the frame is cancelled and the holder removed only if the target still contains it |
| InsetEffect.Inset.DotTransitionsEnd | src/stories/utils/highlight.tsx:120-123 | the three transitions of one ripple call `onRemove` three times; the holder is taken out of the target's children, the other children keep their order, and the target's classes, style and the effect's flags are unchanged |

## Left out

- DOM measurement is left out: `getComputedStyle`, `offsetWidth`, `offsetHeight`, `scrollHeight` and `getBoundingClientRect`. The values they return are parameters (`Measurement`, `scrollHeight`, the dot's `left`/`top` text and colour).
- Real time, `setTimeout` and `requestAnimationFrame` are events or methods that the caller invokes. Durations and easing curves are not modelled.
- The click-point arithmetic of the inset effect (`clientX - rect.left`) is float pixel arithmetic. It enters as text.
- The `ResizeObserver` in the default halo effect is never given a node to observe, so its re-measurement cannot run.
- The `console.log` of the computed trigger size is output only.
- The `cva` class strings, Tailwind class names and the button component are styling, not logic.
- `renderToPortal` (src/components/utils/portal.tsx) and React's rendering of the effect component into the holder are not part of this model. `ShowHighlightEffect` covers the DOM changes it makes before rendering.
- React context lookup, memoisation and re-render scheduling are not modelled. Group and item handles are passed in explicitly, and the errors the code throws are `Err` results.
- The click listener itself, and re-attaching it when `effect` or `disabled` changes, are not modelled. `HighlightEffect.Highlight` records whether a listener is attached.
- Storybook stories and the documentation site configuration hold no logic.
- Disclosure.ChildTags: every child is assumed to be an element. `React.Children.map` also counts text children in the index, and they keep their own value and get no tag.
- Strings.Lower: only ASCII letters are lowered. The only non-ASCII characters that JavaScript lowers into the alphabet of the listed patterns are the Kelvin sign (to `k`, which no pattern contains) and U+0130 (to two characters). So no listed pattern can be reached by any other route.
- ContentRegion.Render: only the wrapper's height, its `data-force-update` value and whether children show are modelled. The constant `overflow`, `transition` and `willChange` styles are left out.
- RadiusShorthandOrder: stated only for corner values without spaces. A computed elliptical radius such as `10px 20px` is joined as it is, so the shorthand has eight tokens and is not a valid four-corner shorthand; the model builds the same text but proves nothing about reading it back.
