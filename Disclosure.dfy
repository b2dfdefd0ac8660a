/** The headless disclosure group: the ordered list of expanded tags kept by
    `Collapse`, the toggle it hands to its items under the "accordion" and
    "multiple" modes, the membership query, the positional tags it gives to
    untagged children, and the checks `CollapseItem` and `CollapseContent`
    make. Every update returns a new list; nothing is changed in place. */
module Disclosure {
  import opened Results
  import opened Strings

  /** `mode` of a `Collapse`; "multiple" when the caller gives none. */
  datatype Mode = Accordion | Multiple

  function ModeOrDefault(mode: Option<Mode>): (m: Mode)
    ensures mode.None? ==> m == Multiple
    ensures mode.Some? ==> m == mode.value
  {
    mode.GetOr(Multiple)
  }

  /** The number of times `x` occurs in `s`. */
  function Count(s: seq<string>, x: string): nat {
    if s == [] then 0 else (if s[0] == x then 1 else 0) + Count(s[1..], x)
  }

  predicate NoDuplicates(s: seq<string>) {
    forall i, j :: 0 <= i < j < |s| ==> s[i] != s[j]
  }

  /** `s` can be obtained from `t` by deleting entries: the entries of `s`
      appear in `t` in the same relative order. */
  predicate IsSubsequence(s: seq<string>, t: seq<string>)
    decreases |t|
  {
    if s == [] then true
    else if t == [] then false
    else if s[0] == t[0] then IsSubsequence(s[1..], t[1..])
    else IsSubsequence(s, t[1..])
  }

  /** `prev.filter((item) => item !== key)`: every occurrence of `key` is
      dropped, every other entry is kept as many times as before and in the
      same order. */
  function RemoveAll(prev: seq<string>, key: string): (r: seq<string>)
    ensures key !in r
    ensures multiset(r) == multiset(prev)[key := 0]
    ensures IsSubsequence(r, prev)
  {
    if prev == [] then []
    else
      var rest := RemoveAll(prev[1..], key);
      assert prev == [prev[0]] + prev[1..];
      if prev[0] == key then rest else [prev[0]] + rest
  }

  /** The state updater of `toggleItem(key)` applied to the list `prev`. */
  function Toggle(mode: Mode, prev: seq<string>, key: string): (r: seq<string>)
    // the toggled key flips, in both modes
    ensures key in r <==> key !in prev
    // accordion: the list holds the key alone or nothing
    ensures mode == Accordion ==> |r| <= 1 && forall x :: x in r ==> x == key
    // multiple: every other key keeps its membership
    ensures mode == Multiple ==> forall x :: x != key ==> (x in r <==> x in prev)
    // multiple, key absent: appended at the end, earlier entries untouched
    ensures mode == Multiple && key !in prev ==> |r| == |prev| + 1 && r[..|prev|] == prev && r[|prev|] == key
    // multiple, key present: every occurrence removed, the rest kept in order
    ensures mode == Multiple && key in prev ==>
      multiset(r) == multiset(prev)[key := 0] && IsSubsequence(r, prev)
  {
    if mode == Accordion then
      (if key in prev then [] else [key])
    else if key in prev then
      var r := RemoveAll(prev, key);
      assert forall x :: x != key ==> (x in r <==> x in multiset(r));
      r
    else
      prev + [key]
  }

  /** `isItemExpanded(key)`: membership of the key in the list. */
  predicate IsItemExpanded(expanded: seq<string>, key: string) {
    key in expanded
  }

  /** The list after a sequence of toggles, the first applied first. */
  function Replay(mode: Mode, start: seq<string>, keys: seq<string>): seq<string>
    decreases |keys|
  {
    if keys == [] then start else Replay(mode, Toggle(mode, start, keys[0]), keys[1..])
  }

  /** Multiple mode: a key is expanded after a sequence of toggles exactly
      when its initial membership was flipped an odd number of times. */
  lemma {:induction false} ReplayMembership(start: seq<string>, keys: seq<string>, x: string)
    ensures IsItemExpanded(Replay(Multiple, start, keys), x) <==> ((x in start) != (Count(keys, x) % 2 == 1))
    decreases |keys|
  {
    if keys != [] {
      var next := Toggle(Multiple, start, keys[0]);
      ToggleMembership(start, keys[0], x);
      ReplayMembership(next, keys[1..], x);
      ReplayStep(start, keys);
      CountParity(keys, x);
    }
  }

  /** Replaying a non-empty sequence toggles its first key, then replays
      the rest. */
  lemma ReplayStep(start: seq<string>, keys: seq<string>)
    requires keys != []
    ensures Replay(Multiple, start, keys) == Replay(Multiple, Toggle(Multiple, start, keys[0]), keys[1..])
  {
  }

  /** The parity of the count flips exactly when the first key is `x`. */
  lemma CountParity(keys: seq<string>, x: string)
    requires keys != []
    ensures (Count(keys, x) % 2 == 1) == ((Count(keys[1..], x) % 2 == 1) != (keys[0] == x))
  {
    var c := Count(keys[1..], x);
    assert Count(keys, x) == (if keys[0] == x then 1 else 0) + c;
  }

  lemma ToggleMembership(prev: seq<string>, key: string, x: string)
    ensures (x in Toggle(Multiple, prev, key)) == ((x in prev) != (x == key))
  {
  }

  /** Multiple mode from the empty list: the expanded tags are exactly the
      keys toggled an odd number of times. */
  lemma ExpandedAreOddToggled(keys: seq<string>, x: string)
    ensures IsItemExpanded(Replay(Multiple, [], keys), x) <==> Count(keys, x) % 2 == 1
  {
    ReplayMembership([], keys, x);
  }

  lemma {:induction false} RemoveAllKeepsNoDuplicates(prev: seq<string>, key: string)
    requires NoDuplicates(prev)
    ensures NoDuplicates(RemoveAll(prev, key))
    decreases |prev|
  {
    if prev != [] {
      var tail := prev[1..];
      assert NoDuplicates(tail) by {
        forall i, j | 0 <= i < j < |tail| ensures tail[i] != tail[j] {
          assert tail[i] == prev[i + 1] && tail[j] == prev[j + 1];
        }
      }
      RemoveAllKeepsNoDuplicates(tail, key);
      var rest := RemoveAll(tail, key);
      if prev[0] != key {
        assert prev[0] !in tail by {
          forall j | 0 <= j < |tail| ensures tail[j] != prev[0] {
            assert tail[j] == prev[j + 1];
          }
        }
        RemoveAllWithin(tail, key);
        ConsNoDuplicates(prev[0], rest);
      }
    }
  }

  /** Filtering only keeps entries that were there. */
  lemma RemoveAllWithin(prev: seq<string>, key: string)
    ensures forall x :: x in RemoveAll(prev, key) ==> x in prev
  {
    var r := RemoveAll(prev, key);
    forall x | x in r ensures x in prev {
      assert x in multiset(r);
    }
  }

  /** A new entry in front of a list without duplicates keeps it so. */
  lemma ConsNoDuplicates(x: string, s: seq<string>)
    requires NoDuplicates(s) && x !in s
    ensures NoDuplicates([x] + s)
  {
    var r := [x] + s;
    forall i, j | 0 <= i < j < |r| ensures r[i] != r[j] {
      assert r[j] == s[j - 1];
      if i > 0 { assert r[i] == s[i - 1]; }
    }
  }

  /** A toggle in multiple mode never introduces a duplicate tag. */
  lemma ToggleKeepsNoDuplicates(prev: seq<string>, key: string)
    requires NoDuplicates(prev)
    ensures NoDuplicates(Toggle(Multiple, prev, key))
  {
    if key in prev {
      RemoveAllKeepsNoDuplicates(prev, key);
    }
  }

  /** Multiple mode from a list without duplicates, in particular from the
      initial empty list, never produces a duplicate tag. */
  lemma {:induction false} ReplayNoDuplicates(start: seq<string>, keys: seq<string>)
    requires NoDuplicates(start)
    ensures NoDuplicates(Replay(Multiple, start, keys))
    decreases |keys|
  {
    if keys != [] {
      ToggleKeepsNoDuplicates(start, keys[0]);
      ReplayNoDuplicates(Toggle(Multiple, start, keys[0]), keys[1..]);
    }
  }

  /** Accordion mode keeps at most one tag expanded, whatever the toggles. */
  lemma {:induction false} ReplayAccordionAtMostOne(start: seq<string>, keys: seq<string>)
    requires |start| <= 1
    ensures |Replay(Accordion, start, keys)| <= 1
    decreases |keys|
  {
    if keys != [] {
      ReplayAccordionAtMostOne(Toggle(Accordion, start, keys[0]), keys[1..]);
    }
  }

  /** Multiple mode, key absent: toggling twice gives back the list exactly. */
  lemma DoubleToggleAbsent(prev: seq<string>, key: string)
    requires key !in prev
    ensures Toggle(Multiple, Toggle(Multiple, prev, key), key) == prev
  {
    RemoveAllAppend(prev, [key], key);
    RemoveAllAbsent(prev, key);
  }

  /** Multiple mode, key present: toggling twice keeps the same set of tags,
      every other entry in its order, and moves the key to the end. */
  lemma DoubleTogglePresent(prev: seq<string>, key: string)
    requires key in prev
    ensures Toggle(Multiple, Toggle(Multiple, prev, key), key) == RemoveAll(prev, key) + [key]
    ensures forall x :: x in Toggle(Multiple, Toggle(Multiple, prev, key), key) <==> x in prev
  {
    var once := Toggle(Multiple, prev, key);
    assert key !in once;
    assert forall x :: x in RemoveAll(prev, key) <==> x in multiset(RemoveAll(prev, key));
  }

  /** Both modes: toggling the same key twice in a row restores whether it
      is expanded. */
  lemma DoubleToggleRestoresExpanded(mode: Mode, prev: seq<string>, key: string)
    ensures IsItemExpanded(Toggle(mode, Toggle(mode, prev, key), key), key) == IsItemExpanded(prev, key)
  {
  }

  lemma {:induction false} RemoveAllAppend(a: seq<string>, b: seq<string>, key: string)
    ensures RemoveAll(a + b, key) == RemoveAll(a, key) + RemoveAll(b, key)
    decreases |a|
  {
    if a != [] {
      assert (a + b)[1..] == a[1..] + b;
      RemoveAllAppend(a[1..], b, key);
    } else {
      assert a + b == b;
    }
  }

  lemma {:induction false} RemoveAllAbsent(s: seq<string>, key: string)
    requires key !in s
    ensures RemoveAll(s, key) == s
    decreases |s|
  {
    if s != [] {
      RemoveAllAbsent(s[1..], key);
      assert s == [s[0]] + s[1..];
    }
  }

  /** `generateChildTag(tag, index)`: a string tag is kept as given, even
      the empty one; a missing tag becomes `jv-item-<index>`. */
  function GenerateChildTag(tag: Option<string>, index: nat): (r: string)
    ensures tag.Some? ==> r == tag.value
    ensures tag.None? ==> r == "jv-item-" + NatToString(index)
  {
    match tag
    case Some(t) => t
    case None => "jv-item-" + NatToString(index)
  }

  /** Tags synthesised for two different positions differ. */
  lemma SynthesizedTagsDistinct(i: nat, j: nat)
    requires i != j
    ensures GenerateChildTag(None, i) != GenerateChildTag(None, j)
  {
    PrefixedNatInjective("jv-item-", i, j);
  }

  /** The tags `Collapse` gives its children, position by position. */
  function ChildTags(tags: seq<Option<string>>): (r: seq<string>)
    ensures |r| == |tags|
    ensures forall i :: 0 <= i < |tags| ==> r[i] == GenerateChildTag(tags[i], i)
  {
    seq(|tags|, i requires 0 <= i < |tags| => GenerateChildTag(tags[i], i))
  }

  /** Children that all come untagged get pairwise distinct tags. */
  lemma UntaggedChildrenDistinct(tags: seq<Option<string>>)
    requires forall i :: 0 <= i < |tags| ==> tags[i].None?
    ensures NoDuplicates(ChildTags(tags))
  {
    var r := ChildTags(tags);
    forall i, j | 0 <= i < j < |r| ensures r[i] != r[j] {
      SynthesizedTagsDistinct(i, j);
    }
  }

  /** What a `Collapse` hands to its items: its mode and expanded list. */
  datatype Group = Group(mode: Mode, expanded: seq<string>)

  /** What a `CollapseItem` hands to its trigger and content. */
  datatype Item = Item(tag: string, isOpen: bool)

  const CollapseOutsideGroup := "useCollapse must be used within a Collapse"
  const TagRequired := "tag is required for CollapseItem"
  const ItemOutsideItem := "useCollapseItem must be used within a CollapseItem"

  /** `CollapseItem` with the group it finds (`None` outside any) and its
      tag: a missing group or a missing or empty tag throws; otherwise the
      item is open exactly when its tag is expanded. */
  function CollapseItem(group: Option<Group>, tag: Option<string>): (r: Result<Item>)
    ensures group.None? ==> r == Err(CollapseOutsideGroup)
    ensures group.Some? && (tag.None? || tag.value == "") ==> r == Err(TagRequired)
    ensures r.Ok? <==> group.Some? && tag.Some? && tag.value != ""
    ensures r.Ok? ==> r.value.tag == tag.value && (r.value.isOpen <==> IsItemExpanded(group.value.expanded, tag.value))
  {
    if group.None? then Err(CollapseOutsideGroup)
    else if tag.None? || tag.value == "" then Err(TagRequired)
    else Ok(Item(tag.value, IsItemExpanded(group.value.expanded, tag.value)))
  }

  /** The list after the item's `toggleOpen`, i.e. `toggleItem(tag)`. */
  function ToggleOpen(group: Group, item: Item): (r: seq<string>)
    ensures IsItemExpanded(r, item.tag) <==> !IsItemExpanded(group.expanded, item.tag)
  {
    Toggle(group.mode, group.expanded, item.tag)
  }

  /** Toggling an item opens it exactly when it was closed, and in multiple
      mode leaves every other item as it was. */
  lemma ToggleOpenFlipsOnlyThatItem(group: Group, tag: string, other: string)
    requires CollapseItem(Some(group), Some(tag)).Ok?
    requires group.mode == Multiple && other != tag
    ensures var item := CollapseItem(Some(group), Some(tag)).value;
      var after := Group(group.mode, ToggleOpen(group, item));
      CollapseItem(Some(after), Some(tag)).value.isOpen == !item.isOpen
      && IsItemExpanded(after.expanded, other) == IsItemExpanded(group.expanded, other)
  {
  }

  /** The headless `CollapseContent`: throws outside an item; renders its
      children (`Some(true)`) only while the item is open, nothing otherwise. */
  function HeadlessContentRenders(item: Option<Item>): (r: Result<bool>)
    ensures item.None? ==> r == Err(ItemOutsideItem)
    ensures item.Some? ==> r == Ok(item.value.isOpen)
  {
    match item
    case None => Err(ItemOutsideItem)
    case Some(it) => Ok(it.isOpen)
  }

  /** Inside a group, the headless content shows its children exactly when
      the item's tag is in the expanded list. */
  lemma ContentShownIffTagExpanded(group: Group, tag: string)
    requires tag != ""
    ensures var item := CollapseItem(Some(group), Some(tag));
      item.Ok? && (HeadlessContentRenders(Some(item.value)) == Ok(true) <==> tag in group.expanded)
  {
  }
}
