/**
 * `parse_interfaces`: ethernet, VLAN, loopback, tunnel and aggregate-ethernet
 * interfaces, scanned family by family with one `seen_names` set shared by
 * all of them. The set holds the raw `name` attribute, also for the
 * families whose output name carries a prefix (`vlan.`, `loopback.`,
 * `tunnel.`). The layer-3 sub-units of an aggregate interface are scanned
 * after the aggregate's name is marked as seen and are appended to the
 * list before the aggregate itself.
 */
module Interfaces {
  import opened Wrappers
  import opened Text

  // ---------------------------------------------------------------------
  // Entries as found in the configuration
  // ---------------------------------------------------------------------

  /**
   * A `layer3` element: the `name`s of its `ip/entry` and
   * `ipv6/address/entry` descendants and the text of its
   * `interface-management-profile` child (`None` when the child is missing
   * or has no text).
   */
  datatype Layer3Node = Layer3Node(ipNames: seq<string>, ipv6Names: seq<string>, managementProfile: Option<string>)

  /** An ethernet entry and which of the mode children it has. */
  datatype EthernetEntry = EthernetEntry(
    name: string, comment: Option<string>, layer3: Option<Layer3Node>,
    layer2: bool, virtualWire: bool, tap: bool, ha: bool, aggregateGroup: bool)

  /** A `units/entry` of a VLAN, loopback, tunnel or aggregate interface. */
  datatype UnitEntry = UnitEntry(
    name: string, comment: Option<string>, tag: Option<string>,
    ipNames: seq<string>, ipv6Names: seq<string>, managementProfile: Option<string>)

  /** The `layer3` element of an aggregate interface and its sub-units. */
  datatype AggregateLayer3 = AggregateLayer3(ipNames: seq<string>, managementProfile: Option<string>, units: seq<UnitEntry>)

  datatype AggregateEntry = AggregateEntry(
    name: string, comment: Option<string>, layer3: Option<AggregateLayer3>, layer2: bool)

  /** The entries of each family, in the order their two paths match them. */
  datatype InterfaceSources = InterfaceSources(
    ethernet: seq<EthernetEntry>, vlan: seq<UnitEntry>, loopback: seq<UnitEntry>,
    tunnel: seq<UnitEntry>, aggregate: seq<AggregateEntry>)

  /** One scanned entry, tagged with its family. */
  datatype InterfaceEntry =
    | Ethernet(eth: EthernetEntry)
    | Vlan(vlanUnit: UnitEntry)
    | Loopback(loopbackUnit: UnitEntry)
    | Tunnel(tunnelUnit: UnitEntry)
    | Aggregate(ae: AggregateEntry)

  // ---------------------------------------------------------------------
  // Records
  // ---------------------------------------------------------------------

  datatype InterfaceKind = EthernetKind | VlanKind | LoopbackKind | TunnelKind | AggregateKind | AggregateSubinterface
  datatype Mode = Layer3 | Layer2 | VirtualWire | Tap | Ha | AggregateGroup

  /** An interface record; `tag` is `None` for the families that have none. */
  datatype Interface = Interface(
    name: string, kind: InterfaceKind, mode: Option<Mode>,
    ipAddresses: seq<string>, ipv6Addresses: seq<string>,
    managementProfile: Option<string>, comment: Option<string>, tag: Option<string>)

  /**
   * The mode of an ethernet interface: the first of layer3, layer2,
   * virtual-wire, tap, ha and aggregate-group that is present, else none.
   */
  function EthernetMode(e: EthernetEntry): (m: Option<Mode>)
    ensures e.layer3.Some? ==> m == Some(Layer3)
    ensures m == Some(Layer2) <==> e.layer3.None? && e.layer2
    ensures m == Some(VirtualWire) <==> e.layer3.None? && !e.layer2 && e.virtualWire
    ensures m == Some(Tap) <==> e.layer3.None? && !e.layer2 && !e.virtualWire && e.tap
    ensures m == Some(Ha) <==> e.layer3.None? && !e.layer2 && !e.virtualWire && !e.tap && e.ha
    ensures m == Some(AggregateGroup) <==> e.layer3.None? && !e.layer2 && !e.virtualWire && !e.tap && !e.ha && e.aggregateGroup
    ensures m.None? <==> e.layer3.None? && !e.layer2 && !e.virtualWire && !e.tap && !e.ha && !e.aggregateGroup
  {
    if e.layer3.Some? then Some(Layer3)
    else if e.layer2 then Some(Layer2)
    else if e.virtualWire then Some(VirtualWire)
    else if e.tap then Some(Tap)
    else if e.ha then Some(Ha)
    else if e.aggregateGroup then Some(AggregateGroup)
    else None
  }

  /** The mode of an aggregate interface: layer3, else layer2, else none. */
  function AggregateMode(a: AggregateEntry): (m: Option<Mode>)
    ensures m == Some(Layer3) <==> a.layer3.Some?
    ensures m == Some(Layer2) <==> a.layer3.None? && a.layer2
    ensures m.None? <==> a.layer3.None? && !a.layer2
  {
    if a.layer3.Some? then Some(Layer3) else if a.layer2 then Some(Layer2) else None
  }

  /** An ethernet record: addresses and management profile only under layer3. */
  function EthernetRecord(e: EthernetEntry): Interface
  {
    match e.layer3
    case Some(l3) =>
      Interface(e.name, EthernetKind, EthernetMode(e), NonEmptyTexts(l3.ipNames), NonEmptyTexts(l3.ipv6Names),
                l3.managementProfile, e.comment, None)
    case None =>
      Interface(e.name, EthernetKind, EthernetMode(e), [], [], None, e.comment, None)
  }

  function VlanRecord(u: UnitEntry): Interface
  {
    Interface("vlan." + u.name, VlanKind, Some(Layer3), NonEmptyTexts(u.ipNames), NonEmptyTexts(u.ipv6Names),
              u.managementProfile, u.comment, u.tag)
  }

  /** Loopback units: no management profile and no tag are read. */
  function LoopbackRecord(u: UnitEntry): Interface
  {
    Interface("loopback." + u.name, LoopbackKind, Some(Layer3), NonEmptyTexts(u.ipNames), NonEmptyTexts(u.ipv6Names),
              None, u.comment, None)
  }

  /** Tunnel units: no tag is read. */
  function TunnelRecord(u: UnitEntry): Interface
  {
    Interface("tunnel." + u.name, TunnelKind, Some(Layer3), NonEmptyTexts(u.ipNames), NonEmptyTexts(u.ipv6Names),
              u.managementProfile, u.comment, None)
  }

  /** Aggregate sub-units: no IPv6 addresses are read. */
  function SubinterfaceRecord(u: UnitEntry): Interface
  {
    Interface(u.name, AggregateSubinterface, Some(Layer3), NonEmptyTexts(u.ipNames), [],
              u.managementProfile, u.comment, u.tag)
  }

  /** Aggregate interfaces: no IPv6 addresses are read. */
  function AggregateRecord(a: AggregateEntry): Interface
  {
    match a.layer3
    case Some(l3) =>
      Interface(a.name, AggregateKind, AggregateMode(a), NonEmptyTexts(l3.ipNames), [], l3.managementProfile, a.comment, None)
    case None =>
      Interface(a.name, AggregateKind, AggregateMode(a), [], [], None, a.comment, None)
  }

  /** The output-name prefix of each family. */
  function Prefix(k: InterfaceKind): string
  {
    match k
    case VlanKind => "vlan."
    case LoopbackKind => "loopback."
    case TunnelKind => "tunnel."
    case _ => ""
  }

  /** The name a record was entered under in `seen_names`: its name without the family prefix. */
  function SeenName(i: Interface): string
  {
    if Prefix(i.kind) <= i.name then i.name[|Prefix(i.kind)|..] else i.name
  }

  // ---------------------------------------------------------------------
  // The scan
  // ---------------------------------------------------------------------

  /** The parser's two pieces of state: `seen_names` and the `interfaces` list. */
  datatype ScanState = ScanState(seen: set<string>, out: seq<Interface>)

  /** Append `rec` when `raw` is a non-empty name not yet seen, and mark it seen. */
  function Accept(st: ScanState, raw: string, rec: Interface): ScanState
  {
    if raw == "" || raw in st.seen then st else ScanState(st.seen + {raw}, st.out + [rec])
  }

  /** The sub-unit loop of one aggregate interface. */
  function ScanUnits(st: ScanState, units: seq<UnitEntry>): ScanState
  {
    if units == [] then st
    else
      var u := units[|units| - 1];
      Accept(ScanUnits(st, units[..|units| - 1]), u.name, SubinterfaceRecord(u))
  }

  /**
   * An aggregate interface: its name is marked seen first, then its
   * sub-units are scanned (only under layer3), then the aggregate is appended.
   */
  function AcceptAggregate(st: ScanState, a: AggregateEntry): ScanState
  {
    if a.name == "" || a.name in st.seen then st
    else
      var marked := ScanState(st.seen + {a.name}, st.out);
      var afterUnits := if a.layer3.Some? then ScanUnits(marked, a.layer3.value.units) else marked;
      ScanState(afterUnits.seen, afterUnits.out + [AggregateRecord(a)])
  }

  function Step(st: ScanState, e: InterfaceEntry): ScanState
  {
    match e
    case Ethernet(x) => Accept(st, x.name, EthernetRecord(x))
    case Vlan(u) => Accept(st, u.name, VlanRecord(u))
    case Loopback(u) => Accept(st, u.name, LoopbackRecord(u))
    case Tunnel(u) => Accept(st, u.name, TunnelRecord(u))
    case Aggregate(a) => AcceptAggregate(st, a)
  }

  /** The state after scanning `es` in order from `st`. */
  function ScanAll(st: ScanState, es: seq<InterfaceEntry>): ScanState
  {
    if es == [] then st else Step(ScanAll(st, es[..|es| - 1]), es[|es| - 1])
  }

  /** The scan order: ethernet, VLAN, loopback, tunnel, aggregate. */
  function Stream(src: InterfaceSources): seq<InterfaceEntry>
  {
    seq(|src.ethernet|, i requires 0 <= i < |src.ethernet| => Ethernet(src.ethernet[i]))
    + seq(|src.vlan|, i requires 0 <= i < |src.vlan| => Vlan(src.vlan[i]))
    + seq(|src.loopback|, i requires 0 <= i < |src.loopback| => Loopback(src.loopback[i]))
    + seq(|src.tunnel|, i requires 0 <= i < |src.tunnel| => Tunnel(src.tunnel[i]))
    + seq(|src.aggregate|, i requires 0 <= i < |src.aggregate| => Aggregate(src.aggregate[i]))
  }

  // ---------------------------------------------------------------------
  // What the scan guarantees
  // ---------------------------------------------------------------------

  /** The names entered in `seen_names` for the records of `out`. */
  function SeenNames(out: seq<Interface>): set<string>
  {
    set i | i in out :: SeenName(i)
  }

  /**
   * The state invariant: the seen set is exactly the records' seen names
   * (plus `extra`, an aggregate whose record is still pending), no seen name
   * is empty and no two records share one.
   */
  ghost predicate Consistent(st: ScanState, extra: set<string>)
  {
    && st.seen == SeenNames(st.out) + extra
    && extra !! SeenNames(st.out)
    && "" !in st.seen
    && (forall k, l :: 0 <= k < l < |st.out| ==> SeenName(st.out[k]) != SeenName(st.out[l]))
  }

  lemma SeenNamesAppend(out: seq<Interface>, rec: Interface)
    ensures SeenNames(out + [rec]) == SeenNames(out) + {SeenName(rec)}
  {
    forall n | n in SeenNames(out + [rec]) ensures n in SeenNames(out) + {SeenName(rec)} {
      var i :| i in out + [rec] && SeenName(i) == n;
      if i != rec { assert i in out; }
    }
    forall n | n in SeenNames(out) ensures n in SeenNames(out + [rec]) {
      var i :| i in out && SeenName(i) == n;
      assert i in out + [rec];
    }
    assert rec in out + [rec];
  }

  lemma AcceptConsistent(st: ScanState, raw: string, rec: Interface, extra: set<string>)
    requires Consistent(st, extra) && SeenName(rec) == raw
    ensures Consistent(Accept(st, raw, rec), extra)
  {
    if raw != "" && raw !in st.seen {
      SeenNamesAppend(st.out, rec);
      var out' := st.out + [rec];
      forall k, l | 0 <= k < l < |out'| ensures SeenName(out'[k]) != SeenName(out'[l]) {
        if l == |st.out| {
          assert out'[k] in st.out;
        }
      }
    }
  }

  lemma {:induction false} ScanUnitsConsistent(st: ScanState, units: seq<UnitEntry>, extra: set<string>)
    requires Consistent(st, extra)
    ensures Consistent(ScanUnits(st, units), extra)
  {
    if units != [] {
      var u := units[|units| - 1];
      ScanUnitsConsistent(st, units[..|units| - 1], extra);
      AcceptConsistent(ScanUnits(st, units[..|units| - 1]), u.name, SubinterfaceRecord(u), extra);
    }
  }

  lemma {:induction false} ScanUnitsGrows(st: ScanState, units: seq<UnitEntry>)
    ensures st.seen <= ScanUnits(st, units).seen
  {
    if units != [] {
      ScanUnitsGrows(st, units[..|units| - 1]);
    }
  }

  /** A prefixed family's record is entered under its unprefixed name. */
  lemma PrefixedSeenName(rec: Interface, raw: string)
    requires rec.name == Prefix(rec.kind) + raw
    ensures SeenName(rec) == raw
  {
    assert (Prefix(rec.kind) + raw)[|Prefix(rec.kind)|..] == raw;
  }

  /** Appending the pending record of an aggregate restores the plain invariant. */
  lemma CompletePending(st: ScanState, rec: Interface)
    requires Consistent(st, {SeenName(rec)})
    ensures Consistent(ScanState(st.seen, st.out + [rec]), {})
  {
    SeenNamesAppend(st.out, rec);
    var out' := st.out + [rec];
    forall k, l | 0 <= k < l < |out'| ensures SeenName(out'[k]) != SeenName(out'[l]) {
      if l == |st.out| {
        assert out'[k] in st.out;
      }
    }
  }

  lemma AggregateConsistent(st: ScanState, a: AggregateEntry)
    requires Consistent(st, {})
    ensures Consistent(AcceptAggregate(st, a), {})
  {
    if a.name != "" && a.name !in st.seen {
      var marked := ScanState(st.seen + {a.name}, st.out);
      assert Consistent(marked, {a.name});
      var afterUnits := if a.layer3.Some? then ScanUnits(marked, a.layer3.value.units) else marked;
      if a.layer3.Some? {
        ScanUnitsConsistent(marked, a.layer3.value.units, {a.name});
      }
      var rec := AggregateRecord(a);
      PrefixedSeenName(rec, a.name);
      CompletePending(afterUnits, rec);
    }
  }

  lemma StepConsistent(st: ScanState, e: InterfaceEntry)
    requires Consistent(st, {})
    ensures Consistent(Step(st, e), {})
  {
    match e
    case Ethernet(x) =>
      PrefixedSeenName(EthernetRecord(x), x.name);
      AcceptConsistent(st, x.name, EthernetRecord(x), {});
    case Vlan(u) =>
      PrefixedSeenName(VlanRecord(u), u.name);
      AcceptConsistent(st, u.name, VlanRecord(u), {});
    case Loopback(u) =>
      PrefixedSeenName(LoopbackRecord(u), u.name);
      AcceptConsistent(st, u.name, LoopbackRecord(u), {});
    case Tunnel(u) =>
      PrefixedSeenName(TunnelRecord(u), u.name);
      AcceptConsistent(st, u.name, TunnelRecord(u), {});
    case Aggregate(a) =>
      AggregateConsistent(st, a);
  }

  /**
   * No two interfaces come from the same raw name, across all five families
   * and the aggregate sub-units; `seen_names` holds exactly the records'
   * raw names, and every named top-level entry's name ends up in it.
   */
  lemma {:induction false} ScanAllDistinct(es: seq<InterfaceEntry>)
    ensures var st := ScanAll(ScanState({}, []), es);
      && st.seen == SeenNames(st.out)
      && "" !in st.seen
      && (forall k, l :: 0 <= k < l < |st.out| ==> SeenName(st.out[k]) != SeenName(st.out[l]))
      && (forall e :: e in es && EntryName(e) != "" ==> EntryName(e) in st.seen)
  {
    if es == [] {
      assert SeenNames([]) == {};
    } else {
      var init, e := es[..|es| - 1], es[|es| - 1];
      ScanAllDistinct(init);
      var st0 := ScanAll(ScanState({}, []), init);
      StepConsistent(st0, e);
      StepSeesName(st0, e);
      StepGrows(st0, e);
      forall x | x in es && EntryName(x) != "" ensures EntryName(x) in ScanAll(ScanState({}, []), es).seen {
        if x != e {
          assert x in init;
        }
      }
    }
  }

  /** The name attribute of a top-level entry. */
  function EntryName(e: InterfaceEntry): string
  {
    match e
    case Ethernet(x) => x.name
    case Vlan(u) => u.name
    case Loopback(u) => u.name
    case Tunnel(u) => u.name
    case Aggregate(a) => a.name
  }

  lemma StepGrows(st: ScanState, e: InterfaceEntry)
    ensures st.seen <= Step(st, e).seen
  {
    if e.Aggregate? && e.ae.name != "" && e.ae.name !in st.seen && e.ae.layer3.Some? {
      ScanUnitsGrows(ScanState(st.seen + {e.ae.name}, st.out), e.ae.layer3.value.units);
    }
  }

  lemma StepSeesName(st: ScanState, e: InterfaceEntry)
    ensures EntryName(e) != "" ==> EntryName(e) in Step(st, e).seen
  {
    if e.Aggregate? && e.ae.name != "" && e.ae.name !in st.seen && e.ae.layer3.Some? {
      ScanUnitsGrows(ScanState(st.seen + {e.ae.name}, st.out), e.ae.layer3.value.units);
    }
  }

  // ---------------------------------------------------------------------
  // The parser
  // ---------------------------------------------------------------------

  /** The `if not name or name in seen_names: continue` test and the append. */
  method AcceptEntry(seen0: set<string>, out0: seq<Interface>, raw: string, rec: Interface)
    returns (seen: set<string>, out: seq<Interface>)
    ensures ScanState(seen, out) == Accept(ScanState(seen0, out0), raw, rec)
  {
    seen, out := seen0, out0;
    if raw != "" && raw !in seen {
      seen := seen + {raw};
      out := out + [rec];
    }
  }

  /** One entry of any family; for an aggregate, the nested sub-unit loop. */
  method StepEntry(seen0: set<string>, out0: seq<Interface>, e: InterfaceEntry)
    returns (seen: set<string>, out: seq<Interface>)
    ensures ScanState(seen, out) == Step(ScanState(seen0, out0), e)
  {
    match e {
      case Ethernet(x) => seen, out := AcceptEntry(seen0, out0, x.name, EthernetRecord(x));
      case Vlan(u) => seen, out := AcceptEntry(seen0, out0, u.name, VlanRecord(u));
      case Loopback(u) => seen, out := AcceptEntry(seen0, out0, u.name, LoopbackRecord(u));
      case Tunnel(u) => seen, out := AcceptEntry(seen0, out0, u.name, TunnelRecord(u));
      case Aggregate(a) =>
        seen, out := seen0, out0;
        if a.name == "" || a.name in seen {
          return;
        }
        seen := seen + {a.name};
        if a.layer3.Some? {
          var units := a.layer3.value.units;
          ghost var marked := ScanState(seen, out);
          for j := 0 to |units|
            invariant ScanState(seen, out) == ScanUnits(marked, units[..j])
          {
            assert units[..j + 1][..j] == units[..j];
            seen, out := AcceptEntry(seen, out, units[j].name, SubinterfaceRecord(units[j]));
          }
          assert units[..|units|] == units;
        }
        out := out + [AggregateRecord(a)];
    }
  }

  /** The loop over the entries of one family, from the state left by the previous families. */
  method ScanFamily(es: seq<InterfaceEntry>, seen0: set<string>, out0: seq<Interface>)
    returns (seen: set<string>, out: seq<Interface>)
    ensures ScanState(seen, out) == ScanAll(ScanState(seen0, out0), es)
  {
    seen, out := seen0, out0;
    for i := 0 to |es|
      invariant ScanState(seen, out) == ScanAll(ScanState(seen0, out0), es[..i])
    {
      assert es[..i + 1][..i] == es[..i];
      seen, out := StepEntry(seen, out, es[i]);
    }
    assert es[..|es|] == es;
  }

  lemma {:induction false} ScanAllAppend(st: ScanState, a: seq<InterfaceEntry>, b: seq<InterfaceEntry>)
    ensures ScanAll(st, a + b) == ScanAll(ScanAll(st, a), b)
  {
    if b == [] {
      assert a + b == a;
    } else {
      ScanAllAppend(st, a, b[..|b| - 1]);
      assert (a + b)[..|a + b| - 1] == a + b[..|b| - 1];
    }
  }

  /** `parse_interfaces`: the interface list, families in order, duplicates by raw name dropped. */
  method ParseInterfaces(src: InterfaceSources) returns (interfaces: seq<Interface>)
    ensures interfaces == ScanAll(ScanState({}, []), Stream(src)).out
  {
    var eth := seq(|src.ethernet|, i requires 0 <= i < |src.ethernet| => Ethernet(src.ethernet[i]));
    var vlan := seq(|src.vlan|, i requires 0 <= i < |src.vlan| => Vlan(src.vlan[i]));
    var loopback := seq(|src.loopback|, i requires 0 <= i < |src.loopback| => Loopback(src.loopback[i]));
    var tunnel := seq(|src.tunnel|, i requires 0 <= i < |src.tunnel| => Tunnel(src.tunnel[i]));
    var aggregate := seq(|src.aggregate|, i requires 0 <= i < |src.aggregate| => Aggregate(src.aggregate[i]));
    var seen: set<string> := {};
    var st0 := ScanState({}, []);
    seen, interfaces := ScanFamily(eth, seen, []);
    seen, interfaces := ScanFamily(vlan, seen, interfaces);
    ScanAllAppend(st0, eth, vlan);
    seen, interfaces := ScanFamily(loopback, seen, interfaces);
    ScanAllAppend(st0, eth + vlan, loopback);
    seen, interfaces := ScanFamily(tunnel, seen, interfaces);
    ScanAllAppend(st0, eth + vlan + loopback, tunnel);
    seen, interfaces := ScanFamily(aggregate, seen, interfaces);
    ScanAllAppend(st0, eth + vlan + loopback + tunnel, aggregate);
  }

  // ---------------------------------------------------------------------
  // Scenarios
  // ---------------------------------------------------------------------

  /** A VLAN unit whose name an ethernet interface already took is dropped. */
  lemma SharedSeenSet(x: EthernetEntry, u: UnitEntry)
    requires x.name == u.name != ""
    ensures ScanAll(ScanState({}, []), [Ethernet(x), Vlan(u)]).out == [EthernetRecord(x)]
  {
    var st0 := ScanState({}, []);
    assert [Ethernet(x), Vlan(u)][..1] == [Ethernet(x)];
    assert [Ethernet(x)][..0] == [];
    var st1 := ScanAll(st0, [Ethernet(x)]);
    assert st1 == Step(ScanAll(st0, []), Ethernet(x)) == Accept(st0, x.name, EthernetRecord(x));
    assert st1 == ScanState({x.name}, [EthernetRecord(x)]);
    assert ScanAll(st0, [Ethernet(x), Vlan(u)]) == Step(st1, Vlan(u)) == st1;
  }

  /**
   * An aggregate's sub-unit comes out before the aggregate, and a sub-unit
   * carrying the aggregate's own name is dropped.
   */
  lemma SubunitsBeforeParent(a: AggregateEntry, u: UnitEntry, v: UnitEntry)
    requires a.name != "" && u.name != "" && u.name != a.name && v.name == a.name
    requires a.layer3.Some? && a.layer3.value.units == [u, v]
    ensures ScanAll(ScanState({}, []), [Aggregate(a)]).out == [SubinterfaceRecord(u), AggregateRecord(a)]
  {
    var st0 := ScanState({}, []);
    assert [Aggregate(a)][..0] == [];
    assert [u, v][..1] == [u];
    assert [u][..0] == [];
    var marked := ScanState({a.name}, []);
    assert ScanUnits(marked, [u]) == Accept(ScanUnits(marked, []), u.name, SubinterfaceRecord(u));
    assert ScanUnits(marked, [u]) == ScanState({a.name, u.name}, [SubinterfaceRecord(u)]);
    assert ScanUnits(marked, [u, v]) == Accept(ScanUnits(marked, [u]), v.name, SubinterfaceRecord(v));
    assert ScanUnits(marked, [u, v]) == ScanState({a.name, u.name}, [SubinterfaceRecord(u)]);
    assert st0.seen + {a.name} == marked.seen;
    assert AcceptAggregate(st0, a).out == ScanUnits(marked, [u, v]).out + [AggregateRecord(a)];
    assert ScanAll(st0, [Aggregate(a)]) == Step(ScanAll(st0, []), Aggregate(a)) == AcceptAggregate(st0, a);
  }
}
