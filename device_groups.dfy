/**
 * The device-group splitter: lists the device groups of a Panorama export,
 * and for one group builds a stand-alone configuration holding the group,
 * every `<shared>` section merged into one, the matching template and every
 * template stack that lists the group.
 *
 * The shared merge works in place: the first category element seen for a
 * tag (`address`, `service`, ...) is adopted into the merged section, and
 * the entries of every later category with that tag are appended to it,
 * skipping nameless entries and names it already holds. Categories are
 * therefore objects whose entry list the merge updates.
 */
module DeviceGroups {
  import opened Wrappers
  import opened Text
  import opened ScopeResolver

  // ---------------------------------------------------------------------
  // Listing device groups
  // ---------------------------------------------------------------------

  /** A `device-group/entry`: its `name` attribute and, abstractly, its contents. */
  datatype DeviceGroupEntry = DeviceGroupEntry(name: Option<string>, body: string)

  /** The name as the listing tests it: a missing name counts as empty. */
  function GroupName(g: DeviceGroupEntry): string
  {
    g.name.GetOr("")
  }

  /** `parse_device_groups`: each non-empty name once, in order of first occurrence. */
  method ParseDeviceGroups(groups: seq<DeviceGroupEntry>) returns (names: seq<string>)
    ensures names == NameSeq(FirstSeen(groups, GroupName), GroupName)
  {
    names := [];
    var seen: set<string> := {};
    for i := 0 to |groups|
      invariant names == NameSeq(FirstSeen(groups[..i], GroupName), GroupName)
      invariant seen == NamesOf(FirstSeen(groups[..i], GroupName), GroupName)
    {
      var g := groups[i];
      ghost var kept := FirstSeen(groups[..i], GroupName);
      assert groups[..i + 1][..i] == groups[..i];
      var name := GroupName(g);
      if name != "" && name !in seen {
        NamesOfAppend(kept, g, GroupName);
        assert NameSeq(kept + [g], GroupName) == NameSeq(kept, GroupName) + [name];
        names := names + [name];
        seen := seen + {name};
      }
    }
    assert groups[..|groups|] == groups;
  }

  /**
   * The listing holds every non-empty name exactly once, each the name of
   * the first group entry carrying it, in order of first occurrence.
   */
  lemma DeviceGroupListing(groups: seq<DeviceGroupEntry>)
    ensures var names := NameSeq(FirstSeen(groups, GroupName), GroupName);
      && (forall i, j :: 0 <= i < j < |names| ==> names[i] != names[j])
      && (forall n :: n in names <==> n != "" && exists g :: g in groups && GroupName(g) == n)
  {
    var kept := FirstSeen(groups, GroupName);
    FirstSeenDistinct(groups, GroupName);
    FirstSeenNames(groups, GroupName);
    var names := NameSeq(kept, GroupName);
    forall n ensures n in names <==> n in NamesOf(kept, GroupName) {
      if n in names {
        var k :| 0 <= k < |names| && names[k] == n;
        assert kept[k] in kept;
      }
      if n in NamesOf(kept, GroupName) {
        var g :| g in kept && GroupName(g) == n;
        var k :| 0 <= k < |kept| && kept[k] == g;
        assert names[k] == n;
      }
    }
  }

  /** The first device-group entry named exactly `name` (`entry[@name='...']`). */
  function FindDeviceGroup(groups: seq<DeviceGroupEntry>, name: string): (r: Option<DeviceGroupEntry>)
    ensures r.Some? ==> r.value in groups && r.value.name == Some(name)
    ensures r.Some? ==> exists k :: 0 <= k < |groups| && groups[k] == r.value && forall j :: 0 <= j < k ==> groups[j].name != Some(name)
    ensures r.None? <==> forall g :: g in groups ==> g.name != Some(name)
  {
    if groups == [] then None
    else if groups[0].name == Some(name) then Some(groups[0])
    else
      var r := FindDeviceGroup(groups[1..], name);
      assert forall g :: g in groups ==> g == groups[0] || g in groups[1..];
      assert r.Some? ==> exists k :: 0 <= k < |groups| && groups[k] == r.value && forall j :: 0 <= j < k ==> groups[j].name != Some(name) by {
        if r.Some? {
          var k :| 0 <= k < |groups[1..]| && groups[1..][k] == r.value && forall j :: 0 <= j < k ==> groups[1..][j].name != Some(name);
          assert groups[k + 1] == r.value;
          forall j | 0 <= j < k + 1 ensures groups[j].name != Some(name) {
            if j > 0 { assert groups[j] == groups[1..][j - 1]; }
          }
        }
      }
      r
  }

  /** Every listed group is found again by name, so the batch loop never skips one. */
  lemma ListedGroupsFound(groups: seq<DeviceGroupEntry>, name: string)
    requires name in NameSeq(FirstSeen(groups, GroupName), GroupName)
    ensures FindDeviceGroup(groups, name).Some?
  {
    DeviceGroupListing(groups);
    var g :| g in groups && GroupName(g) == name;
    assert g.name == Some(name);
  }

  // ---------------------------------------------------------------------
  // Merging entries into one category
  // ---------------------------------------------------------------------

  /** An `entry` element: its `name` attribute and, abstractly, its contents. */
  datatype Entry = Entry(name: Option<string>, body: string)

  /** The `name` attributes of the entries, missing ones included. */
  function EntryNames(es: seq<Entry>): set<Option<string>>
  {
    set e | e in es :: e.name
  }

  /** `if entry_name:` a present, non-empty name. */
  predicate Named(e: Entry)
  {
    e.name.Some? && e.name.value != ""
  }

  /**
   * The entries of a category after the entries `incoming` were merged into
   * it one by one: a named entry is appended when no entry already there
   * (including those appended before it) has its name.
   */
  function MergeEntries(existing: seq<Entry>, incoming: seq<Entry>): seq<Entry>
  {
    if incoming == [] then existing
    else
      var acc := MergeEntries(existing, incoming[..|incoming| - 1]);
      var e := incoming[|incoming| - 1];
      if Named(e) && e.name !in EntryNames(acc) then acc + [e] else acc
  }

  lemma EntryNamesAppend(es: seq<Entry>, e: Entry)
    ensures EntryNames(es + [e]) == EntryNames(es) + {e.name}
  {
    forall n | n in EntryNames(es + [e]) ensures n in EntryNames(es) + {e.name} {
      var x :| x in es + [e] && x.name == n;
      if x != e { assert x in es; }
    }
    forall n | n in EntryNames(es) ensures n in EntryNames(es + [e]) {
      var x :| x in es && x.name == n;
      assert x in es + [e];
    }
    assert e in es + [e];
  }

  /**
   * Merging only appends: the entries already there stay, in place. Every
   * appended entry is named, comes from `incoming`, and has a name that no
   * entry before it has.
   */
  lemma {:induction false} MergeEntriesAppends(existing: seq<Entry>, incoming: seq<Entry>)
    ensures var r := MergeEntries(existing, incoming);
      && existing <= r
      && (forall k :: |existing| <= k < |r| ==> Named(r[k]) && r[k] in incoming)
      && (forall k, l :: 0 <= k < l < |r| && |existing| <= l ==> r[k].name != r[l].name)
  {
    if incoming != [] {
      var init, e := incoming[..|incoming| - 1], incoming[|incoming| - 1];
      MergeEntriesAppends(existing, init);
      var acc := MergeEntries(existing, init);
      assert forall x :: x in init ==> x in incoming;
      if Named(e) && e.name !in EntryNames(acc) {
        var r := acc + [e];
        forall k, l | 0 <= k < l < |r| && |existing| <= l ensures r[k].name != r[l].name {
          if l == |acc| {
            assert r[k] in acc;
          }
        }
      }
    }
  }

  /** After merging, the name of every named incoming entry is present. */
  lemma {:induction false} MergeEntriesCovers(existing: seq<Entry>, incoming: seq<Entry>)
    ensures forall e :: e in incoming && Named(e) ==> e.name in EntryNames(MergeEntries(existing, incoming))
  {
    if incoming != [] {
      var init, last := incoming[..|incoming| - 1], incoming[|incoming| - 1];
      MergeEntriesCovers(existing, init);
      var acc := MergeEntries(existing, init);
      MergeEntriesAppends(existing, init);
      if Named(last) && last.name !in EntryNames(acc) {
        EntryNamesAppend(acc, last);
      }
      forall e | e in incoming && Named(e) ensures e.name in EntryNames(MergeEntries(existing, incoming)) {
        if e != last {
          assert e in init;
        }
      }
    }
  }

  /** Merging entries whose names are all present already changes nothing. */
  lemma {:induction false} MergeEntriesNoop(existing: seq<Entry>, incoming: seq<Entry>)
    requires forall e :: e in incoming && Named(e) ==> e.name in EntryNames(existing)
    ensures MergeEntries(existing, incoming) == existing
  {
    if incoming != [] {
      MergeEntriesNoop(existing, incoming[..|incoming| - 1]);
      assert incoming[|incoming| - 1] in incoming;
    }
  }

  /** Merging the same entries a second time changes nothing. */
  lemma MergeEntriesIdempotent(existing: seq<Entry>, incoming: seq<Entry>)
    ensures var r := MergeEntries(existing, incoming);
      MergeEntries(r, incoming) == r
  {
    MergeEntriesCovers(existing, incoming);
    MergeEntriesNoop(MergeEntries(existing, incoming), incoming);
  }

  // ---------------------------------------------------------------------
  // Merging the shared sections, on values
  // ---------------------------------------------------------------------

  /** The state of a category element: its tag and its `.//entry` descendants in document order. */
  datatype CategoryValue = CategoryValue(tag: string, entries: seq<Entry>)

  /** The position of the first category with tag `t`, or the length when there is none. */
  function TagIndex(cs: seq<CategoryValue>, t: string): (k: nat)
    ensures k <= |cs|
    ensures k < |cs| ==> cs[k].tag == t
    ensures forall j :: 0 <= j < k ==> cs[j].tag != t
  {
    if cs == [] then 0 else if cs[0].tag == t then 0 else 1 + TagIndex(cs[1..], t)
  }

  /** One child of a shared section, against the merged section built so far. */
  function MergeStep(acc: seq<CategoryValue>, c: CategoryValue): seq<CategoryValue>
  {
    var k := TagIndex(acc, c.tag);
    if k == |acc| then acc + [c]
    else acc[k := CategoryValue(acc[k].tag, MergeEntries(acc[k].entries, c.entries))]
  }

  /** The merged shared section built from the children of all shared sections, in order. */
  function MergedValues(cs: seq<CategoryValue>): seq<CategoryValue>
  {
    if cs == [] then [] else MergeStep(MergedValues(cs[..|cs| - 1]), cs[|cs| - 1])
  }

  /** Appending a category keeps the first position of every tag already present. */
  lemma TagIndexAppend(acc: seq<CategoryValue>, c: CategoryValue, t: string)
    ensures TagIndex(acc + [c], t) ==
      if TagIndex(acc, t) < |acc| then TagIndex(acc, t) else if c.tag == t then |acc| else |acc| + 1
  {
    assert forall j :: 0 <= j < |acc| ==> (acc + [c])[j] == acc[j];
    assert (acc + [c])[|acc|] == c;
  }

  /** Extending a sequence keeps the first position of every tag found in it. */
  lemma TagIndexPrefix(init: seq<CategoryValue>, cs: seq<CategoryValue>, t: string)
    requires init <= cs && TagIndex(init, t) < |init|
    ensures TagIndex(cs, t) == TagIndex(init, t)
  {
    assert forall j :: 0 <= j < |init| ==> cs[j] == init[j];
  }

  /** Sequences with the same tag at every position agree on every tag's position. */
  lemma TagIndexSameTags(a: seq<CategoryValue>, b: seq<CategoryValue>, t: string)
    requires |a| == |b| && forall i :: 0 <= i < |a| ==> a[i].tag == b[i].tag
    ensures TagIndex(a, t) == TagIndex(b, t)
  {
  }

  /** A step either appends a category with a new tag or rewrites the entries of one in place. */
  lemma MergeStepShape(acc: seq<CategoryValue>, c: CategoryValue)
    ensures var out := MergeStep(acc, c);
      && (TagIndex(acc, c.tag) == |acc| ==> out == acc + [c])
      && (TagIndex(acc, c.tag) < |acc| ==>
            && |out| == |acc|
            && out[TagIndex(acc, c.tag)].entries == MergeEntries(acc[TagIndex(acc, c.tag)].entries, c.entries)
            && forall i :: 0 <= i < |acc| ==> out[i].tag == acc[i].tag && (i != TagIndex(acc, c.tag) ==> out[i] == acc[i]))
  {
  }

  /** Every tag of the input has a category in the merged section. */
  lemma {:induction false} MergedCovers(cs: seq<CategoryValue>)
    ensures forall c :: c in cs ==> TagIndex(MergedValues(cs), c.tag) < |MergedValues(cs)|
  {
    if cs != [] {
      var init, last := cs[..|cs| - 1], cs[|cs| - 1];
      MergedCovers(init);
      var acc, out := MergedValues(init), MergedValues(cs);
      MergeStepShape(acc, last);
      forall x | x in cs ensures TagIndex(out, x.tag) < |out| {
        if TagIndex(acc, last.tag) == |acc| {
          TagIndexAppend(acc, last, x.tag);
        } else {
          TagIndexSameTags(out, acc, x.tag);
        }
        if x != last {
          assert x in init;
        }
      }
    }
  }

  /** The covering property for one tag, as an implication. */
  lemma MergedCoversTag(cs: seq<CategoryValue>, t: string)
    ensures TagIndex(cs, t) < |cs| ==> TagIndex(MergedValues(cs), t) < |MergedValues(cs)|
  {
    MergedCovers(cs);
    if TagIndex(cs, t) < |cs| {
      assert cs[TagIndex(cs, t)] in cs;
    }
  }

  /**
   * The merged section holds only tags of the input, each once, in the
   * order the tags first appear in the input.
   */
  lemma {:induction false} MergedFirstSeen(cs: seq<CategoryValue>)
    ensures forall i :: 0 <= i < |MergedValues(cs)| ==> TagIndex(cs, MergedValues(cs)[i].tag) < |cs|
    ensures forall i, j :: 0 <= i < j < |MergedValues(cs)| ==>
      TagIndex(cs, MergedValues(cs)[i].tag) < TagIndex(cs, MergedValues(cs)[j].tag)
  {
    if cs != [] {
      var init, last := cs[..|cs| - 1], cs[|cs| - 1];
      assert cs == init + [last];
      MergedFirstSeen(init);
      var acc := MergedValues(init);
      var out := MergeStep(acc, last);
      assert MergedValues(cs) == out;
      MergeStepShape(acc, last);
      forall i | 0 <= i < |acc| ensures TagIndex(cs, acc[i].tag) == TagIndex(init, acc[i].tag) {
        TagIndexPrefix(init, cs, acc[i].tag);
      }
      if TagIndex(acc, last.tag) == |acc| {
        MergedCoversTag(init, last.tag);
        TagIndexAppend(init, last, last.tag);
        assert TagIndex(cs, out[|acc|].tag) == |init|;
      }
    }
  }

  /** The tags of the merged section are pairwise distinct. */
  lemma MergedDistinct(cs: seq<CategoryValue>)
    ensures forall i, j :: 0 <= i < j < |MergedValues(cs)| ==> MergedValues(cs)[i].tag != MergedValues(cs)[j].tag
  {
    MergedFirstSeen(cs);
  }

  /**
   * The entries of the merged category for tag `t`: those of the first
   * category with that tag, then those of each later one merged in.
   */
  function Gathered(cs: seq<CategoryValue>, t: string): seq<Entry>
  {
    if cs == [] then []
    else
      var init, c := cs[..|cs| - 1], cs[|cs| - 1];
      if c.tag != t then Gathered(init, t)
      else if TagIndex(init, t) == |init| then c.entries
      else MergeEntries(Gathered(init, t), c.entries)
  }

  /** Each merged category holds the gathered entries of its tag. */
  lemma {:induction false} MergedContent(cs: seq<CategoryValue>)
    ensures forall i :: 0 <= i < |MergedValues(cs)| ==> MergedValues(cs)[i].entries == Gathered(cs, MergedValues(cs)[i].tag)
  {
    if cs != [] {
      var init, c := cs[..|cs| - 1], cs[|cs| - 1];
      MergedContent(init);
      MergedDistinct(init);
      var acc, out := MergedValues(init), MergedValues(cs);
      MergeStepShape(acc, c);
      var k := TagIndex(acc, c.tag);
      assert out == MergeStep(acc, c);
      forall i | 0 <= i < |out| ensures out[i].entries == Gathered(cs, out[i].tag) {
        var t := out[i].tag;
        if i < |acc| && i != k {
          assert t == acc[i].tag != c.tag;
          assert Gathered(cs, t) == Gathered(init, t);
        } else if i < |acc| {
          MergedFirstSeen(init);
          assert Gathered(cs, t) == MergeEntries(Gathered(init, t), c.entries);
        } else {
          MergedCoversTag(init, c.tag);
          assert Gathered(cs, c.tag) == c.entries;
        }
      }
    }
  }

  /** The gathered entries of a tag begin with the entries of the first category carrying it. */
  lemma {:induction false} GatheredKeepsFirst(cs: seq<CategoryValue>, t: string)
    requires TagIndex(cs, t) < |cs|
    ensures cs[TagIndex(cs, t)].entries <= Gathered(cs, t)
  {
    var init, last := cs[..|cs| - 1], cs[|cs| - 1];
    if TagIndex(init, t) < |init| {
      TagIndexPrefix(init, cs, t);
      GatheredKeepsFirst(init, t);
      if last.tag == t {
        MergeEntriesAppends(Gathered(init, t), last.entries);
      }
    } else {
      assert cs == init + [last];
      TagIndexAppend(init, last, t);
    }
  }

  /** Names present in the gathered entries stay present as more categories are gathered. */
  lemma GatheredGrows(init: seq<CategoryValue>, last: CategoryValue, t: string)
    requires TagIndex(init, t) < |init|
    ensures EntryNames(Gathered(init, t)) <= EntryNames(Gathered(init + [last], t))
  {
    var cs := init + [last];
    assert cs[..|cs| - 1] == init;
    var g, g' := Gathered(init, t), Gathered(cs, t);
    if last.tag == t {
      MergeEntriesAppends(g, last.entries);
      forall n | n in EntryNames(g) ensures n in EntryNames(g') {
        var x :| x in g && x.name == n;
        var k :| 0 <= k < |g| && g[k] == x;
        assert g'[k] == x;
      }
    }
  }

  /**
   * The gathered entries of a tag hold the name of every named entry of
   * every category carrying the tag.
   */
  lemma {:induction false} GatheredCovers(cs: seq<CategoryValue>, t: string)
    ensures forall c, e :: c in cs && c.tag == t && e in c.entries && Named(e) ==> e.name in EntryNames(Gathered(cs, t))
  {
    if cs != [] {
      var init, last := cs[..|cs| - 1], cs[|cs| - 1];
      assert cs == init + [last];
      GatheredCovers(init, t);
      if last.tag == t {
        if TagIndex(init, t) < |init| {
          MergeEntriesCovers(Gathered(init, t), last.entries);
          GatheredGrows(init, last, t);
        } else {
          forall c | c in init ensures c.tag != t {
            var k :| 0 <= k < |init| && init[k] == c;
          }
        }
      } else {
        assert Gathered(cs, t) == Gathered(init, t);
      }
      forall c | c in cs && c != last ensures c in init {
      }
    }
  }

  /**
   * The merged section, category by category: each is the first input
   * category with its tag, with its entries kept in place at the front,
   * and it holds the name of every named entry of every input category
   * carrying that tag.
   */
  lemma MergedSection(cs: seq<CategoryValue>)
    ensures forall i :: 0 <= i < |MergedValues(cs)| ==>
      var out := MergedValues(cs)[i];
      && TagIndex(cs, out.tag) < |cs|
      && cs[TagIndex(cs, out.tag)].entries <= out.entries
      && forall c, e :: c in cs && c.tag == out.tag && e in c.entries && Named(e) ==> e.name in EntryNames(out.entries)
  {
    MergedContent(cs);
    MergedFirstSeen(cs);
    forall i | 0 <= i < |MergedValues(cs)|
      ensures var out := MergedValues(cs)[i];
        && cs[TagIndex(cs, out.tag)].entries <= out.entries
        && forall c, e :: c in cs && c.tag == out.tag && e in c.entries && Named(e) ==> e.name in EntryNames(out.entries)
    {
      GatheredKeepsFirst(cs, MergedValues(cs)[i].tag);
      GatheredCovers(cs, MergedValues(cs)[i].tag);
    }
  }

  /**
   * The shared children as the merge leaves them: the first child with
   * each tag now holds the merged entries of that tag, the others are as
   * they were.
   */
  function AfterMerge(cs: seq<CategoryValue>): (r: seq<CategoryValue>)
    ensures |r| == |cs|
    ensures forall k :: 0 <= k < |cs| ==> r[k].tag == cs[k].tag
  {
    var out := MergedValues(cs);
    seq(|cs|, k requires 0 <= k < |cs| =>
      var j := TagIndex(out, cs[k].tag);
      if TagIndex(cs, cs[k].tag) == k && j < |out| then out[j] else cs[k])
  }

  /** Sequences with the same tags position by position merge into the same tags. */
  lemma {:induction false} MergedSameTags(a: seq<CategoryValue>, b: seq<CategoryValue>)
    requires |a| == |b| && forall k :: 0 <= k < |a| ==> a[k].tag == b[k].tag
    ensures |MergedValues(a)| == |MergedValues(b)|
    ensures forall i :: 0 <= i < |MergedValues(a)| ==> MergedValues(a)[i].tag == MergedValues(b)[i].tag
  {
    if a != [] {
      var ia, ib := a[..|a| - 1], b[..|b| - 1];
      MergedSameTags(ia, ib);
      var accA, accB := MergedValues(ia), MergedValues(ib);
      TagIndexSameTags(accA, accB, a[|a| - 1].tag);
      MergeStepShape(accA, a[|a| - 1]);
      MergeStepShape(accB, b[|b| - 1]);
    }
  }

  /**
   * When every named entry of the later categories with tag `t` is already
   * named in the first one, gathering leaves the first one's entries as
   * they are.
   */
  lemma {:induction false} GatheredSteady(cs: seq<CategoryValue>, t: string)
    requires TagIndex(cs, t) < |cs|
    requires forall k, e :: TagIndex(cs, t) < k < |cs| && cs[k].tag == t && e in cs[k].entries && Named(e) ==>
      e.name in EntryNames(cs[TagIndex(cs, t)].entries)
    ensures Gathered(cs, t) == cs[TagIndex(cs, t)].entries
  {
    var init, last := cs[..|cs| - 1], cs[|cs| - 1];
    if TagIndex(init, t) < |init| {
      TagIndexPrefix(init, cs, t);
      assert forall k :: 0 <= k < |init| ==> init[k] == cs[k];
      GatheredSteady(init, t);
      if last.tag == t {
        MergeEntriesNoop(Gathered(init, t), last.entries);
      }
    } else {
      assert cs == init + [last];
      TagIndexAppend(init, last, t);
    }
  }

  /** Where the merged category of a tag sits, and what the first child with the tag holds after the merge. */
  lemma AfterMergeAdopted(cs: seq<CategoryValue>, i: nat)
    requires i < |MergedValues(cs)|
    ensures TagIndex(MergedValues(cs), MergedValues(cs)[i].tag) == i
    ensures TagIndex(cs, MergedValues(cs)[i].tag) < |cs|
    ensures AfterMerge(cs)[TagIndex(cs, MergedValues(cs)[i].tag)] == MergedValues(cs)[i]
  {
    MergedFirstSeen(cs);
    MergedDistinct(cs);
  }

  /**
   * Merging the merged children again yields the same merged section and
   * leaves the children as they are: this is what every extraction after
   * the first one does.
   */
  lemma MergeAgain(cs: seq<CategoryValue>)
    ensures MergedValues(AfterMerge(cs)) == MergedValues(cs)
    ensures AfterMerge(AfterMerge(cs)) == AfterMerge(cs)
  {
    var a, out := AfterMerge(cs), MergedValues(cs);
    MergedSameTags(a, cs);
    MergedContent(a);
    MergedContent(cs);
    MergedFirstSeen(cs);
    forall t | TagIndex(cs, t) < |cs| ensures Gathered(a, t) == Gathered(cs, t) {
      TagIndexSameTags(a, cs, t);
      var f := TagIndex(cs, t);
      MergedCoversTag(cs, t);
      assert a[f] == out[TagIndex(out, t)];
      GatheredCovers(cs, t);
      forall k | f < k < |cs| && cs[k].tag == t ensures a[k] == cs[k] {
      }
      GatheredSteady(a, t);
    }
    forall i | 0 <= i < |out| ensures MergedValues(a)[i] == out[i] {
      TagIndexSameTags(a, cs, out[i].tag);
    }
    var out' := MergedValues(a);
    forall k | 0 <= k < |a| ensures AfterMerge(a)[k] == a[k] {
      TagIndexSameTags(a, cs, a[k].tag);
      TagIndexSameTags(out', out, a[k].tag);
    }
  }

  // ---------------------------------------------------------------------
  // Merging the shared sections, in place
  // ---------------------------------------------------------------------

  /** A child element of a `<shared>` section. */
  class Category {
    const tag: string
    var entries: seq<Entry>

    constructor (tag: string, entries: seq<Entry>)
      ensures this.tag == tag && this.entries == entries
    {
      this.tag := tag;
      this.entries := entries;
    }

    function Value(): CategoryValue
      reads this
    {
      CategoryValue(tag, entries)
    }
  }

  function Values(cs: seq<Category>): (vs: seq<CategoryValue>)
    reads set c | c in cs
    ensures |vs| == |cs|
    ensures forall i :: 0 <= i < |cs| ==> vs[i] == cs[i].Value()
  {
    if cs == [] then [] else Values(cs[..|cs| - 1]) + [cs[|cs| - 1].Value()]
  }

  /** Distinct elements of one document are distinct objects. */
  ghost predicate DistinctObjects(cs: seq<Category>)
  {
    forall i, j :: 0 <= i < j < |cs| ==> cs[i] != cs[j]
  }

  /** The inner loop of the merge: append the new entries to the adopted category. */
  method MergeInto(existing: Category, incoming: seq<Entry>)
    modifies existing
    ensures existing.entries == MergeEntries(old(existing.entries), incoming)
  {
    ghost var start := existing.entries;
    for m := 0 to |incoming|
      invariant existing.entries == MergeEntries(start, incoming[..m])
    {
      assert incoming[..m + 1][..m] == incoming[..m];
      var entry := incoming[m];
      if entry.name.Some? && entry.name.value != "" {
        var existingNames := EntryNames(existing.entries);
        if entry.name !in existingNames {
          existing.entries := existing.entries + [entry];
        }
      }
    }
    assert incoming[..|incoming|] == incoming;
  }

  /**
   * The state of the merge after the first `p` children, whose merged
   * value is `spec`: `merged` lists the adopted categories, each the first
   * child with its tag, holding the merged entries; `seen` maps each merged
   * tag to its category; children not adopted still hold their original
   * entries `vals`.
   */
  ghost predicate MergeInv(children: seq<Category>, vals: seq<CategoryValue>, p: nat, spec: seq<CategoryValue>,
                           merged: seq<Category>, seen: map<string, Category>)
    reads children, merged
  {
    && p <= |vals| == |children|
    && (forall k :: 0 <= k < |children| ==> vals[k].tag == children[k].tag)
    && |merged| == |spec|
    && (forall i :: 0 <= i < |merged| ==> merged[i].Value() == spec[i])
    && (forall i :: 0 <= i < |merged| ==>
          TagIndex(vals, merged[i].tag) < p && merged[i] == children[TagIndex(vals, merged[i].tag)])
    && (forall t :: t in seen <==> TagIndex(spec, t) < |merged|)
    && (forall t :: t in seen ==> seen[t] == merged[TagIndex(spec, t)])
    && (forall k :: 0 <= k < |children| && children[k] !in merged ==> children[k].entries == vals[k].entries)
  }

  /** A child not reached yet is not adopted, and holds its original entries. */
  lemma NotYetAdopted(children: seq<Category>, vals: seq<CategoryValue>, p: nat, spec: seq<CategoryValue>,
                      merged: seq<Category>, seen: map<string, Category>)
    requires DistinctObjects(children) && MergeInv(children, vals, p, spec, merged, seen) && p < |children|
    ensures children[p] !in merged && vals[p] == children[p].Value()
  {
    forall i | 0 <= i < |merged| ensures merged[i] != children[p] {
      assert merged[i] == children[TagIndex(vals, merged[i].tag)];
    }
  }

  /** `merged_shared.append(child)`: the first child with a tag is adopted. */
  method AdoptChild(children: seq<Category>, ghost vals: seq<CategoryValue>, p: nat, ghost spec: seq<CategoryValue>,
                    merged: seq<Category>, seen: map<string, Category>)
    returns (merged': seq<Category>, seen': map<string, Category>)
    requires DistinctObjects(children) && MergeInv(children, vals, p, spec, merged, seen)
    requires p < |children| && children[p].tag !in seen && TagIndex(vals, children[p].tag) == p
    ensures merged' == merged + [children[p]] && seen' == seen[children[p].tag := children[p]]
    ensures MergeInv(children, vals, p + 1, MergeStep(spec, vals[p]), merged', seen')
  {
    var child := children[p];
    NotYetAdopted(children, vals, p, spec, merged, seen);
    ghost var next := MergeStep(spec, vals[p]);
    MergeStepShape(spec, vals[p]);
    merged' := merged + [child];
    seen' := seen[child.tag := child];
    assert next == spec + [vals[p]];
    forall t ensures t in seen' <==> TagIndex(next, t) < |merged'|
      ensures t in seen' ==> seen'[t] == merged'[TagIndex(next, t)]
    {
      TagIndexAppend(spec, vals[p], t);
    }
    assert forall i :: 0 <= i < |merged| ==> merged'[i] == merged[i];
  }

  /** A later child with a seen tag: its entries are merged into the adopted category. */
  method AbsorbChild(children: seq<Category>, ghost vals: seq<CategoryValue>, p: nat, ghost spec: seq<CategoryValue>,
                     merged: seq<Category>, seen: map<string, Category>)
    requires DistinctObjects(children) && MergeInv(children, vals, p, spec, merged, seen)
    requires p < |children| && children[p].tag in seen
    requires forall i, j :: 0 <= i < j < |spec| ==> spec[i].tag != spec[j].tag
    modifies seen[children[p].tag]
    ensures MergeInv(children, vals, p + 1, MergeStep(spec, vals[p]), merged, seen)
  {
    var child := children[p];
    NotYetAdopted(children, vals, p, spec, merged, seen);
    ghost var next := MergeStep(spec, vals[p]);
    MergeStepShape(spec, vals[p]);
    var existing := seen[child.tag];
    ghost var k := TagIndex(spec, child.tag);
    var incoming := child.entries;
    forall i | 0 <= i < |merged| && i != k ensures merged[i] != existing {
      assert merged[i].tag == spec[i].tag;
    }
    MergeInto(existing, incoming);
    forall t ensures TagIndex(next, t) == TagIndex(spec, t) {
      TagIndexSameTags(next, spec, t);
    }
  }

  /** One child of the shared sections: adopted when its tag is new, merged in otherwise. */
  method MergeChild(children: seq<Category>, ghost vals: seq<CategoryValue>, p: nat,
                    merged: seq<Category>, seen: map<string, Category>)
    returns (merged': seq<Category>, seen': map<string, Category>)
    requires DistinctObjects(children) && p < |children| == |vals|
    requires MergeInv(children, vals, p, MergedValues(vals[..p]), merged, seen)
    modifies set c | c in children
    ensures MergeInv(children, vals, p + 1, MergedValues(vals[..p + 1]), merged', seen')
  {
    ghost var spec := MergedValues(vals[..p]);
    assert vals[..p + 1][..p] == vals[..p];
    assert MergedValues(vals[..p + 1]) == MergeStep(spec, vals[p]);
    if children[p].tag !in seen {
      AdoptStep(vals, p, spec);
      merged', seen' := AdoptChild(children, vals, p, spec, merged, seen);
    } else {
      MergedDistinct(vals[..p]);
      AbsorbChild(children, vals, p, spec, merged, seen);
      merged', seen' := merged, seen;
    }
  }

  /** Once every child is processed, the invariant states the result of the merge. */
  lemma MergeDone(children: seq<Category>, vals: seq<CategoryValue>, merged: seq<Category>, seen: map<string, Category>)
    requires DistinctObjects(children)
    requires |vals| == |children| && MergeInv(children, vals, |children|, MergedValues(vals[..|children|]), merged, seen)
    ensures |merged| == |MergedValues(vals)|
    ensures forall i :: 0 <= i < |merged| ==> merged[i].Value() == MergedValues(vals)[i]
    ensures forall i :: 0 <= i < |merged| ==>
      TagIndex(vals, merged[i].tag) < |children| && merged[i] == children[TagIndex(vals, merged[i].tag)]
    ensures forall k :: 0 <= k < |children| && children[k] !in merged ==> children[k].entries == vals[k].entries
    ensures forall k :: 0 <= k < |children| ==> children[k].Value() == AfterMerge(vals)[k]
  {
    assert vals[..|children|] == vals;
    var out := MergedValues(vals);
    {
      MergedFirstSeen(vals);
      forall k | 0 <= k < |children| ensures children[k].Value() == AfterMerge(vals)[k] {
        var t := vals[k].tag;
        MergedCoversTag(vals, t);
        var j := TagIndex(out, t);
        if TagIndex(vals, t) == k {
          assert merged[j] == children[TagIndex(vals, merged[j].tag)];
        } else {
          forall i | 0 <= i < |merged| ensures merged[i] != children[k] {
            assert merged[i] == children[TagIndex(vals, merged[i].tag)];
          }
        }
      }
    }
  }

  /**
   * The merge of all shared sections (their children taken in document
   * order): the merged section lists the adopted categories, whose entries
   * now are the merged ones; every other category is left as it was.
   */
  method MergeShared(children: seq<Category>) returns (merged: seq<Category>)
    requires DistinctObjects(children)
    modifies set c | c in children
    ensures |merged| == |MergedValues(old(Values(children)))|
    ensures forall i :: 0 <= i < |merged| ==> merged[i].Value() == MergedValues(old(Values(children)))[i]
    ensures forall i :: 0 <= i < |merged| ==>
      TagIndex(old(Values(children)), merged[i].tag) < |children| && merged[i] == children[TagIndex(old(Values(children)), merged[i].tag)]
    ensures forall c :: c in children && c !in merged ==> c.entries == old(c.entries)
    ensures Values(children) == AfterMerge(old(Values(children)))
  {
    ghost var vals := Values(children);
    merged := [];
    var seenChildren: map<string, Category> := map[];
    for p := 0 to |children|
      invariant MergeInv(children, vals, p, MergedValues(vals[..p]), merged, seenChildren)
    {
      merged, seenChildren := MergeChild(children, vals, p, merged, seenChildren);
    }
    MergeDone(children, vals, merged, seenChildren);
  }

  /** A child whose tag is not yet merged is the first child with that tag. */
  lemma AdoptStep(vals: seq<CategoryValue>, p: nat, acc: seq<CategoryValue>)
    requires p < |vals| && acc == MergedValues(vals[..p])
    requires TagIndex(acc, vals[p].tag) == |acc|
    ensures TagIndex(vals, vals[p].tag) == p
  {
    MergedCoversTag(vals[..p], vals[p].tag);
    assert forall j :: 0 <= j < p ==> vals[..p][j] == vals[j];
  }

  // ---------------------------------------------------------------------
  // Template and template-stack association
  // ---------------------------------------------------------------------

  datatype TemplateEntry = TemplateEntry(name: Option<string>, body: string)

  /** A `template-stack/entry`: its name and the names of its `.//devices/entry` members. */
  datatype TemplateStackEntry = TemplateStackEntry(name: Option<string>, members: seq<Option<string>>)

  /** The template name tried first: every `DG-`, then every `dg-`, removed from the group name. */
  function TemplateNameFor(group: string): (t: string)
    ensures |t| <= |group|
  {
    RemoveAll(RemoveAll(group, "DG-"), "dg-")
  }

  /**
   * A `DG-` in the group name splits the template name: each side loses its
   * own markers and neither side's text is joined with the marker's.
   */
  lemma TemplateNameForSplits(x: string, y: string)
    ensures TemplateNameFor(x + "DG-" + y) == RemoveAll(RemoveAll(x, "DG-") + RemoveAll(y, "DG-"), "dg-")
  {
    FirstCharUniqueSelfOverlapFree("DG-");
    RemoveAllAround(x, y, "DG-");
  }

  /** A single `DG-` marker in an otherwise clean name is dropped: `Site-DG-East` gives `Site-East`. */
  lemma TemplateNameForDropsMarker(x: string, y: string)
    requires !Contains(x, "DG-") && !Contains(y, "DG-") && !Contains(x + y, "dg-")
    ensures TemplateNameFor(x + "DG-" + y) == x + y
  {
    TemplateNameForSplits(x, y);
    RemoveAllAbsent(x, "DG-");
    RemoveAllAbsent(y, "DG-");
    RemoveAllAbsent(x + y, "dg-");
  }

  /** A single `dg-` marker in an otherwise clean name is dropped as well. */
  lemma TemplateNameForDropsLowerMarker(x: string, y: string)
    requires !Contains(x + "dg-" + y, "DG-") && !Contains(x, "dg-") && !Contains(y, "dg-")
    ensures TemplateNameFor(x + "dg-" + y) == x + y
  {
    RemoveAllAbsent(x + "dg-" + y, "DG-");
    FirstCharUniqueSelfOverlapFree("dg-");
    RemoveAllAround(x, y, "dg-");
    RemoveAllAbsent(x, "dg-");
    RemoveAllAbsent(y, "dg-");
  }

  /** The first template named exactly `n`. */
  function FindTemplateNamed(ts: seq<TemplateEntry>, n: string): (r: Option<TemplateEntry>)
    ensures r.Some? ==> r.value in ts && r.value.name == Some(n)
    ensures r.Some? ==> exists k :: 0 <= k < |ts| && ts[k] == r.value && forall j :: 0 <= j < k ==> ts[j].name != Some(n)
    ensures r.None? <==> forall t :: t in ts ==> t.name != Some(n)
  {
    if ts == [] then None
    else if ts[0].name == Some(n) then Some(ts[0])
    else
      var r := FindTemplateNamed(ts[1..], n);
      assert forall t :: t in ts ==> t == ts[0] || t in ts[1..];
      assert r.Some? ==> exists k :: 0 <= k < |ts| && ts[k] == r.value && forall j :: 0 <= j < k ==> ts[j].name != Some(n) by {
        if r.Some? {
          var k :| 0 <= k < |ts[1..]| && ts[1..][k] == r.value && forall j :: 0 <= j < k ==> ts[1..][j].name != Some(n);
          assert ts[k + 1] == r.value;
          forall j | 0 <= j < k + 1 ensures ts[j].name != Some(n) {
            if j > 0 { assert ts[j] == ts[1..][j - 1]; }
          }
        }
      }
      r
  }

  /** The fallback test: the lowercased template name contains the lowercased, unstripped group name. */
  predicate LooseMatch(t: TemplateEntry, group: string)
  {
    Contains(Lower(t.name.GetOr("")), Lower(group))
  }

  /** The first template that matches loosely. */
  function FindTemplateLoose(ts: seq<TemplateEntry>, group: string): (r: Option<TemplateEntry>)
    ensures r.Some? ==> r.value in ts && LooseMatch(r.value, group)
    ensures r.Some? ==> exists k :: 0 <= k < |ts| && ts[k] == r.value && forall j :: 0 <= j < k ==> !LooseMatch(ts[j], group)
    ensures r.None? <==> forall t :: t in ts ==> !LooseMatch(t, group)
  {
    if ts == [] then None
    else if LooseMatch(ts[0], group) then Some(ts[0])
    else
      var r := FindTemplateLoose(ts[1..], group);
      assert forall t :: t in ts ==> t == ts[0] || t in ts[1..];
      assert r.Some? ==> exists k :: 0 <= k < |ts| && ts[k] == r.value && forall j :: 0 <= j < k ==> !LooseMatch(ts[j], group) by {
        if r.Some? {
          var k :| 0 <= k < |ts[1..]| && ts[1..][k] == r.value && forall j :: 0 <= j < k ==> !LooseMatch(ts[1..][j], group);
          assert ts[k + 1] == r.value;
          forall j | 0 <= j < k + 1 ensures !LooseMatch(ts[j], group) {
            if j > 0 { assert ts[j] == ts[1..][j - 1]; }
          }
        }
      }
      r
  }

  /** Exact match on the stripped name first, then the loose match, else none. */
  function FindTemplate(ts: seq<TemplateEntry>, group: string): (r: Option<TemplateEntry>)
    ensures FindTemplateNamed(ts, TemplateNameFor(group)).Some? ==> r == FindTemplateNamed(ts, TemplateNameFor(group))
    ensures FindTemplateNamed(ts, TemplateNameFor(group)).None? ==> r == FindTemplateLoose(ts, group)
    ensures r.None? <==> forall t :: t in ts ==> t.name != Some(TemplateNameFor(group)) && !LooseMatch(t, group)
    ensures r.Some? ==>
      exists k :: 0 <= k < |ts| && ts[k] == r.value && (
        if ts[k].name == Some(TemplateNameFor(group)) then
          forall j :: 0 <= j < k ==> ts[j].name != Some(TemplateNameFor(group))
        else
          (forall t :: t in ts ==> t.name != Some(TemplateNameFor(group)))
          && LooseMatch(ts[k], group)
          && (forall j :: 0 <= j < k ==> !LooseMatch(ts[j], group)))
  {
    var exact := FindTemplateNamed(ts, TemplateNameFor(group));
    if exact.Some? then exact else FindTemplateLoose(ts, group)
  }

  /** The template lookup with its fallback loop. */
  method LookupTemplate(ts: seq<TemplateEntry>, group: string) returns (r: Option<TemplateEntry>)
    ensures r == FindTemplate(ts, group)
  {
    r := FindTemplateNamed(ts, TemplateNameFor(group));
    if r.None? {
      var i := 0;
      while i < |ts|
        invariant 0 <= i <= |ts|
        invariant FindTemplateLoose(ts, group) == FindTemplateLoose(ts[i..], group)
      {
        assert ts[i..][1..] == ts[i + 1..];
        if Contains(Lower(ts[i].name.GetOr("")), Lower(group)) {
          r := Some(ts[i]);
          return;
        }
        i := i + 1;
      }
    }
  }

  /** `member.get('name') == device_group_name` for some member. */
  predicate ListsGroup(s: TemplateStackEntry, group: string)
  {
    Some(group) in s.members
  }

  /** The stacks attached for `group`: those listing it, in document order. */
  function StacksFor(stacks: seq<TemplateStackEntry>, group: string): (r: seq<TemplateStackEntry>)
    ensures forall s :: s in r <==> s in stacks && ListsGroup(s, group)
    ensures forall s :: multiset(r)[s] == if ListsGroup(s, group) then multiset(stacks)[s] else 0
    ensures |r| <= |stacks|
  {
    if stacks == [] then []
    else
      var init, last := stacks[..|stacks| - 1], stacks[|stacks| - 1];
      assert stacks == init + [last];
      StacksFor(init, group) + if ListsGroup(last, group) then [last] else []
  }

  /** The template-stack loop: the member loop stops at the first match, so a stack is attached once. */
  method AttachStacks(stacks: seq<TemplateStackEntry>, group: string) returns (attached: seq<TemplateStackEntry>)
    ensures attached == StacksFor(stacks, group)
  {
    attached := [];
    for i := 0 to |stacks|
      invariant attached == StacksFor(stacks[..i], group)
    {
      assert stacks[..i + 1][..i] == stacks[..i];
      var members := stacks[i].members;
      for m := 0 to |members|
        invariant attached == StacksFor(stacks[..i], group)
        invariant Some(group) !in members[..m]
      {
        if members[m] == Some(group) {
          attached := attached + [stacks[i]];
          assert ListsGroup(stacks[i], group);
          break;
        }
        assert members[..m + 1] == members[..m] + [members[m]];
      }
      assert Some(group) !in members ==> attached == StacksFor(stacks[..i + 1], group);
      if Some(group) !in members {
        assert members[..|members|] == members;
      }
    }
    assert stacks[..|stacks|] == stacks;
  }

  // ---------------------------------------------------------------------
  // Extraction
  // ---------------------------------------------------------------------

  /** What the splitter reads from a Panorama export. */
  datatype Panorama = Panorama(
    version: Option<string>,
    deviceGroups: seq<DeviceGroupEntry>,
    sharedChildren: Option<seq<Category>>,
    templates: seq<TemplateEntry>,
    templateStacks: seq<TemplateStackEntry>)

  /** The configuration built for one device group. */
  datatype Extracted = Extracted(
    version: string,
    deviceGroup: DeviceGroupEntry,
    shared: Option<seq<Category>>,
    template: Option<TemplateEntry>,
    templateStacks: seq<TemplateStackEntry>)

  /** `root.get('version', '10.0.0')`. */
  const DefaultVersion: string := "10.0.0"

  /**
   * `extract_device_group_config`. `sharedChildren` is `None` when the
   * export has no `<shared>` section and otherwise lists the children of
   * all of them in document order. No configuration is built when no
   * device-group entry has the name.
   */
  method ExtractDeviceGroupConfig(root: Panorama, group: string) returns (config: Option<Extracted>)
    requires root.sharedChildren.Some? ==> DistinctObjects(root.sharedChildren.value)
    modifies if root.sharedChildren.Some? then set c | c in root.sharedChildren.value else {}
    ensures config.None? <==> FindDeviceGroup(root.deviceGroups, group).None?
    ensures config.Some? ==>
      && config.value.version == root.version.GetOr(DefaultVersion)
      && Some(config.value.deviceGroup) == FindDeviceGroup(root.deviceGroups, group)
      && config.value.template == FindTemplate(root.templates, group)
      && config.value.templateStacks == StacksFor(root.templateStacks, group)
      && (config.value.shared.Some? <==> root.sharedChildren.Some?)
    ensures config.Some? && root.sharedChildren.Some? ==>
      var children, merged := root.sharedChildren.value, config.value.shared.value;
      && |merged| == |MergedValues(old(Values(children)))|
      && (forall i :: 0 <= i < |merged| ==> merged[i].Value() == MergedValues(old(Values(children)))[i])
      && (forall i :: 0 <= i < |merged| ==>
            TagIndex(old(Values(children)), merged[i].tag) < |children| && merged[i] == children[TagIndex(old(Values(children)), merged[i].tag)])
      && Values(children) == AfterMerge(old(Values(children)))
    ensures config.None? && root.sharedChildren.Some? ==>
      Values(root.sharedChildren.value) == old(Values(root.sharedChildren.value))
  {
    var version := root.version.GetOr(DefaultVersion);
    var source := FindDeviceGroup(root.deviceGroups, group);
    if source.None? {
      return None;
    }
    var shared: Option<seq<Category>> := None;
    if root.sharedChildren.Some? {
      var merged := MergeShared(root.sharedChildren.value);
      shared := Some(merged);
    }
    var template := LookupTemplate(root.templates, group);
    var stacks := AttachStacks(root.templateStacks, group);
    config := Some(Extracted(version, source.value, shared, template, stacks));
  }

  // ---------------------------------------------------------------------
  // Batch split and file names
  // ---------------------------------------------------------------------

  /** `dg_name.replace('/', '_').replace(' ', '_')`. */
  function SafeName(group: string): (r: string)
    ensures |r| == |group|
    ensures '/' !in r && ' ' !in r
    ensures forall i :: 0 <= i < |group| ==> r[i] == if group[i] == '/' || group[i] == ' ' then '_' else group[i]
  {
    var r := ReplaceChar(ReplaceChar(group, '/', '_'), ' ', '_');
    assert forall i :: 0 <= i < |r| ==> r[i] != '/' && r[i] != ' ';
    r
  }

  /** The first child of each tag of `vals`, in the order of the merged section of `vals`. */
  ghost function AdoptedOf(children: seq<Category>, vals: seq<CategoryValue>): (r: seq<Category>)
    requires |vals| == |children|
    ensures |r| == |MergedValues(vals)|
    ensures forall i :: 0 <= i < |r| ==>
      TagIndex(vals, MergedValues(vals)[i].tag) < |children| && r[i] == children[TagIndex(vals, MergedValues(vals)[i].tag)]
  {
    MergedFirstSeen(vals);
    seq(|MergedValues(vals)|, i requires 0 <= i < |MergedValues(vals)| => children[TagIndex(vals, MergedValues(vals)[i].tag)])
  }

  /**
   * The file written for `group`: named after the group, holding the
   * export's version, the group's entry, a shared section exactly when the
   * export has one, its template and its template stacks.
   */
  ghost predicate FileFor(file: (string, Extracted), root: Panorama, group: string)
  {
    && file.0 == SafeName(group)
    && file.1.version == root.version.GetOr(DefaultVersion)
    && (file.1.shared.Some? <==> root.sharedChildren.Some?)
    && Some(file.1.deviceGroup) == FindDeviceGroup(root.deviceGroups, group)
    && file.1.template == FindTemplate(root.templates, group)
    && file.1.templateStacks == StacksFor(root.templateStacks, group)
  }

  /**
   * The loop of `split_panorama_config`: each listed group is extracted in
   * turn and stored under its sanitised file name; a group that cannot be
   * extracted is skipped. Every extraction merges the shared sections again
   * into the same elements; since merging twice changes nothing, every
   * file carries the same merged shared section.
   */
  method SplitAll(root: Panorama) returns (files: seq<(string, Extracted)>)
    requires root.sharedChildren.Some? ==> DistinctObjects(root.sharedChildren.value)
    modifies if root.sharedChildren.Some? then set c | c in root.sharedChildren.value else {}
    ensures var groups := NameSeq(FirstSeen(root.deviceGroups, GroupName), GroupName);
      && |files| == |groups|
      && forall i :: 0 <= i < |files| ==> FileFor(files[i], root, groups[i])
    ensures root.sharedChildren.Some? ==>
      var children := root.sharedChildren.value;
      var out := MergedValues(old(Values(children)));
      forall i :: 0 <= i < |files| ==>
        && files[i].1.shared.Some?
        && |files[i].1.shared.value| == |out|
        && forall j :: 0 <= j < |out| ==> files[i].1.shared.value[j].Value() == out[j]
  {
    ghost var vals0 := if root.sharedChildren.Some? then Values(root.sharedChildren.value) else [];
    var groups := ParseDeviceGroups(root.deviceGroups);
    files := [];
    for i := 0 to |groups|
      invariant SplitInv(root, groups, vals0, files)
      invariant |files| == i
    {
      ListedGroupsFound(root.deviceGroups, groups[i]);
      files := SplitStep(root, groups, vals0, files);
    }
    if root.sharedChildren.Some? {
      SharedFinal(root.sharedChildren.value, vals0, files);
    }
  }

  /**
   * The batch after the first `|files|` groups: one file per group, and the
   * shared children hold their original values `vals0` (before the first
   * extraction) or the values the first merge left, which every file's
   * shared section holds.
   */
  ghost predicate SplitInv(root: Panorama, groups: seq<string>, vals0: seq<CategoryValue>, files: seq<(string, Extracted)>)
    reads if root.sharedChildren.Some? then set c | c in root.sharedChildren.value else {}
  {
    && |files| <= |groups|
    && (forall j :: 0 <= j < |files| ==> FileFor(files[j], root, groups[j]))
    && (root.sharedChildren.Some? ==>
          var children := root.sharedChildren.value;
          && |vals0| == |children|
          && (Values(children) == vals0 || Values(children) == AfterMerge(vals0))
          && (|files| > 0 ==> Values(children) == AfterMerge(vals0))
          && forall j :: 0 <= j < |files| ==> files[j].1.shared == Some(AdoptedOf(children, vals0)))
  }

  /** One turn of the batch loop: extract the next group, skip it if absent, name its file. */
  method SplitStep(root: Panorama, groups: seq<string>, ghost vals0: seq<CategoryValue>, files: seq<(string, Extracted)>)
    returns (files': seq<(string, Extracted)>)
    requires root.sharedChildren.Some? ==> DistinctObjects(root.sharedChildren.value)
    requires SplitInv(root, groups, vals0, files) && |files| < |groups|
    requires FindDeviceGroup(root.deviceGroups, groups[|files|]).Some?
    modifies if root.sharedChildren.Some? then set c | c in root.sharedChildren.value else {}
    ensures SplitInv(root, groups, vals0, files') && |files'| == |files| + 1
  {
    var group := groups[|files|];
    var config := ExtractInBatch(root, group, vals0);
    if config.None? {
      return files;
    }
    files' := files + [(SafeName(group), config.value)];
    assert forall j :: 0 <= j < |files| ==> files'[j] == files[j];
    assert FileFor(files'[|files|], root, groups[|files|]);
  }

  /**
   * One extraction of the batch, for a group that exists, while the shared
   * children hold their original values `vals0` or the values an earlier
   * merge left.
   */
  method ExtractInBatch(root: Panorama, group: string, ghost vals0: seq<CategoryValue>) returns (config: Option<Extracted>)
    requires root.sharedChildren.Some? ==> DistinctObjects(root.sharedChildren.value)
    requires FindDeviceGroup(root.deviceGroups, group).Some?
    requires root.sharedChildren.Some? ==>
      var children := root.sharedChildren.value;
      |vals0| == |children| && (Values(children) == vals0 || Values(children) == AfterMerge(vals0))
    modifies if root.sharedChildren.Some? then set c | c in root.sharedChildren.value else {}
    ensures config.Some?
    ensures config.value.version == root.version.GetOr(DefaultVersion)
    ensures config.value.shared.Some? <==> root.sharedChildren.Some?
    ensures Some(config.value.deviceGroup) == FindDeviceGroup(root.deviceGroups, group)
    ensures config.value.template == FindTemplate(root.templates, group)
    ensures config.value.templateStacks == StacksFor(root.templateStacks, group)
    ensures root.sharedChildren.Some? ==>
      var children := root.sharedChildren.value;
      && Values(children) == AfterMerge(vals0)
      && config.value.shared == Some(AdoptedOf(children, vals0))
  {
    ghost var before := if root.sharedChildren.Some? then Values(root.sharedChildren.value) else [];
    config := ExtractDeviceGroupConfig(root, group);
    if root.sharedChildren.Some? {
      MergeRepeated(vals0, before);
      ghost var merged, adopted := config.value.shared.value, AdoptedOf(root.sharedChildren.value, vals0);
      forall i | 0 <= i < |merged| ensures merged[i] == adopted[i] {
        assert merged[i].tag == MergedValues(vals0)[i].tag;
        TagIndexSameTags(before, vals0, merged[i].tag);
      }
      assert merged == adopted;
    }
  }

  /**
   * Before any extraction of the batch the shared children hold either
   * their original values or the values the first merge left: either way
   * the merge yields the same section and leaves the same values.
   */
  lemma MergeRepeated(vals0: seq<CategoryValue>, before: seq<CategoryValue>)
    requires before == vals0 || before == AfterMerge(vals0)
    ensures |before| == |vals0| && forall k :: 0 <= k < |vals0| ==> before[k].tag == vals0[k].tag
    ensures MergedValues(before) == MergedValues(vals0)
    ensures AfterMerge(before) == AfterMerge(vals0)
  {
    MergeAgain(vals0);
  }

  /** After the batch, every file's shared section holds the merged section of the original children. */
  lemma SharedFinal(children: seq<Category>, vals0: seq<CategoryValue>, files: seq<(string, Extracted)>)
    requires |vals0| == |children|
    requires |files| > 0 ==> Values(children) == AfterMerge(vals0)
    requires forall j :: 0 <= j < |files| ==> files[j].1.shared == Some(AdoptedOf(children, vals0))
    ensures forall i :: 0 <= i < |files| ==>
      && |files[i].1.shared.value| == |MergedValues(vals0)|
      && forall j :: 0 <= j < |MergedValues(vals0)| ==> files[i].1.shared.value[j].Value() == MergedValues(vals0)[j]
  {
    forall i, j | 0 <= i < |files| && 0 <= j < |MergedValues(vals0)|
      ensures files[i].1.shared.value[j].Value() == MergedValues(vals0)[j]
    {
      AfterMergeAdopted(vals0, j);
    }
  }

  // ---------------------------------------------------------------------
  // Scenarios
  // ---------------------------------------------------------------------

  /** Distinct group names can share a file name; the later file then overwrites the earlier. */
  lemma SafeNamesCanCollide()
    ensures SafeName("a/b") == SafeName("a b") == SafeName("a_b") == "a_b"
  {
    assert SafeName("a/b")[1] == '_';
    assert SafeName("a b")[1] == '_';
  }

  /** Every `DG-` and `dg-` is removed, not only a leading one. */
  lemma StripsEveryPrefixOccurrence()
    ensures TemplateNameFor("A-DG-B") == "A-B"
  {
    assert RemoveAll("B", "DG-") == "B";
    assert RemoveAll("DG-B", "DG-") == "B";
    assert RemoveAll("-DG-B", "DG-") == "-B";
    assert RemoveAll("A-DG-B", "DG-") == "A-B";
    assert RemoveAll("-B", "dg-") == "-B";
    assert RemoveAll("A-B", "dg-") == "A-B";
  }
}
