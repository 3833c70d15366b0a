/**
 * The four object types the parser resolves with content overrides:
 * address objects, address groups, service objects and service groups.
 *
 * For each type: the entry as found in the configuration (only the children
 * the parser looks at), the record the parser builds from it, the
 * reference-only ("id" stub) test, the "carries content" test that decides
 * whether an entry may overwrite an earlier record, and the parse method,
 * which is the generic content-overrides resolver followed by the record
 * construction.
 *
 * A child element's text is `None` when the element has no text, as
 * ElementTree reports it.
 */
module ObjectKinds {
  import opened Wrappers
  import opened ScopeResolver
  import opened Text

  /** An optional child element and its text (`None` for an element without text). */
  datatype Child = Absent | Present(text: Option<string>)

  /** The member texts of an optional container; none when the container is missing. */
  function MemberTexts(members: Option<seq<string>>): (r: seq<string>)
    ensures members.None? ==> r == []
    ensures members.Some? ==> forall t :: t in r <==> t in members.value && t != ""
  {
    match members
    case None => []
    case Some(ts) => NonEmptyTexts(ts)
  }

  // ---------------------------------------------------------------------
  // Address objects
  // ---------------------------------------------------------------------

  datatype AddressEntry = AddressEntry(
    name: string, id: bool,
    ipNetmask: Child, ipRange: Child, fqdn: Child,
    description: Child, tagMembers: seq<string>)

  datatype AddressKind = IpNetmask | IpRange | Fqdn
  datatype AddressValue = NoValue | Value(kind: AddressKind, text: Option<string>)
  datatype Address = Address(name: string, value: AddressValue, description: Child, tags: seq<string>)

  /** A reference-only address: an `id` child and none of ip-netmask, ip-range, fqdn or description. */
  predicate IsAddressStub(e: AddressEntry)
  {
    e.id && e.ipNetmask.Absent? && e.ipRange.Absent? && e.fqdn.Absent? && e.description.Absent?
  }

  /** An address carries content when it defines a value: ip-netmask, ip-range or fqdn. */
  predicate HasAddressValue(e: AddressEntry): (b: bool)
    ensures b ==> !IsAddressStub(e)
  {
    e.ipNetmask.Present? || e.ipRange.Present? || e.fqdn.Present?
  }

  /**
   * The type and value of an address: the three children are tested in
   * the order ip-netmask, ip-range, fqdn and each one found overwrites the
   * previous, so fqdn beats ip-range, which beats ip-netmask.
   */
  function AddressValueOf(e: AddressEntry): (v: AddressValue)
    ensures e.fqdn.Present? ==> v == Value(Fqdn, e.fqdn.text)
    ensures e.fqdn.Absent? && e.ipRange.Present? ==> v == Value(IpRange, e.ipRange.text)
    ensures e.fqdn.Absent? && e.ipRange.Absent? && e.ipNetmask.Present? ==> v == Value(IpNetmask, e.ipNetmask.text)
    ensures v.NoValue? <==> !HasAddressValue(e)
  {
    var v1 := if e.ipNetmask.Present? then Value(IpNetmask, e.ipNetmask.text) else NoValue;
    var v2 := if e.ipRange.Present? then Value(IpRange, e.ipRange.text) else v1;
    if e.fqdn.Present? then Value(Fqdn, e.fqdn.text) else v2
  }

  function ToAddress(e: AddressEntry): (a: Address)
    ensures a.name == e.name
    ensures a.value.Value? <==> HasAddressValue(e)
    ensures forall t :: t in a.tags <==> t in e.tagMembers && t != ""
  {
    Address(e.name, AddressValueOf(e), e.description, NonEmptyTexts(e.tagMembers))
  }

  const AddressPolicy: Policy<AddressEntry> :=
    Policy((e: AddressEntry) => e.name, IsAddressStub, HasAddressValue)

  /** `parse_address_objects`: the records of the resolved catalog, in first-insertion order. */
  method ParseAddressObjects(scopes: seq<seq<AddressEntry>>) returns (addresses: seq<Address>)
    ensures var c := Overrides(Concat(scopes), AddressPolicy);
      && |addresses| == |c.order|
      && forall i :: 0 <= i < |addresses| ==> c.order[i] in c.entries && addresses[i] == ToAddress(c.entries[c.order[i]])
  {
    var winners := ResolveWithOverrides(scopes, AddressPolicy);
    addresses := seq(|winners|, i requires 0 <= i < |winners| => ToAddress(winners[i]));
  }

  // ---------------------------------------------------------------------
  // Address groups
  // ---------------------------------------------------------------------

  /**
   * What an address group has under `.//dynamic`: nothing, a dynamic element
   * without filter, or a filter and its text.
   */
  datatype Dynamic = NoDynamic | DynamicWithoutFilter | DynamicFilter(text: Option<string>)

  /** `staticMembers` is `None` when there is no `static` element, else the `member` texts under it. */
  datatype AddressGroupEntry = AddressGroupEntry(
    name: string, id: bool,
    staticMembers: Option<seq<string>>, dynamic: Dynamic, description: Child)

  datatype AddressGroup = AddressGroup(
    name: string, staticMembers: seq<string>, dynamicFilter: Option<string>, description: Child)

  /** A reference-only group: an `id` and no static, no dynamic and no description. */
  predicate IsAddressGroupStub(e: AddressGroupEntry)
  {
    e.id && e.staticMembers.None? && e.dynamic.NoDynamic? && e.description.Absent?
  }

  /** A group carries content when it has a non-empty static member or a dynamic filter. */
  predicate HasGroupMembers(e: AddressGroupEntry): (b: bool)
    ensures b ==> !IsAddressGroupStub(e)
  {
    MemberTexts(e.staticMembers) != [] || e.dynamic.DynamicFilter?
  }

  function ToAddressGroup(e: AddressGroupEntry): (g: AddressGroup)
    ensures g.name == e.name
    ensures e.dynamic.DynamicFilter? ==> g.dynamicFilter == e.dynamic.text
    ensures !e.dynamic.DynamicFilter? ==> g.dynamicFilter.None?
    ensures HasGroupMembers(e) <==> g.staticMembers != [] || e.dynamic.DynamicFilter?
  {
    AddressGroup(
      e.name, MemberTexts(e.staticMembers),
      if e.dynamic.DynamicFilter? then e.dynamic.text else None,
      e.description)
  }

  const AddressGroupPolicy: Policy<AddressGroupEntry> :=
    Policy((e: AddressGroupEntry) => e.name, IsAddressGroupStub, HasGroupMembers)

  /** `parse_address_groups`: the records of the resolved catalog, in first-insertion order. */
  method ParseAddressGroups(scopes: seq<seq<AddressGroupEntry>>) returns (groups: seq<AddressGroup>)
    ensures var c := Overrides(Concat(scopes), AddressGroupPolicy);
      && |groups| == |c.order|
      && forall i :: 0 <= i < |groups| ==> c.order[i] in c.entries && groups[i] == ToAddressGroup(c.entries[c.order[i]])
  {
    var winners := ResolveWithOverrides(scopes, AddressGroupPolicy);
    groups := seq(|winners|, i requires 0 <= i < |winners| => ToAddressGroup(winners[i]));
  }

  // ---------------------------------------------------------------------
  // Service objects
  // ---------------------------------------------------------------------

  /** A `protocol` element: its `tcp` and `udp` children, each with its optional `port` child. */
  datatype ProtocolNode = ProtocolNode(tcp: Option<Child>, udp: Option<Child>)

  datatype ServiceEntry = ServiceEntry(
    name: string, id: bool, protocol: Option<ProtocolNode>, description: Child)

  datatype Transport = Tcp | Udp
  datatype Service = Service(name: string, transport: Option<Transport>, port: Child, description: Child)

  /** A reference-only service: an `id` and no protocol and no description. */
  predicate IsServiceStub(e: ServiceEntry)
  {
    e.id && e.protocol.None? && e.description.Absent?
  }

  /** A service carries content when its protocol element has a tcp or udp child. */
  predicate HasTransport(e: ServiceEntry): (b: bool)
    ensures b ==> !IsServiceStub(e)
  {
    e.protocol.Some? && (e.protocol.value.tcp.Some? || e.protocol.value.udp.Some?)
  }

  /** The transport and port of a service: tcp is preferred over udp. */
  function ToService(e: ServiceEntry): (s: Service)
    ensures s.name == e.name
    ensures s.transport.Some? <==> HasTransport(e)
    ensures HasTransport(e) && e.protocol.value.tcp.Some? ==> s.transport == Some(Tcp) && s.port == e.protocol.value.tcp.value
    ensures HasTransport(e) && e.protocol.value.tcp.None? ==> s.transport == Some(Udp) && s.port == e.protocol.value.udp.value
    ensures !HasTransport(e) ==> s.port.Absent?
  {
    var d := e.description;
    match e.protocol
    case None => Service(e.name, None, Absent, d)
    case Some(p) =>
      if p.tcp.Some? then Service(e.name, Some(Tcp), p.tcp.value, d)
      else if p.udp.Some? then Service(e.name, Some(Udp), p.udp.value, d)
      else Service(e.name, None, Absent, d)
  }

  const ServicePolicy: Policy<ServiceEntry> :=
    Policy((e: ServiceEntry) => e.name, IsServiceStub, HasTransport)

  /** `parse_service_objects`: the records of the resolved catalog, in first-insertion order. */
  method ParseServiceObjects(scopes: seq<seq<ServiceEntry>>) returns (services: seq<Service>)
    ensures var c := Overrides(Concat(scopes), ServicePolicy);
      && |services| == |c.order|
      && forall i :: 0 <= i < |services| ==> c.order[i] in c.entries && services[i] == ToService(c.entries[c.order[i]])
  {
    var winners := ResolveWithOverrides(scopes, ServicePolicy);
    services := seq(|winners|, i requires 0 <= i < |winners| => ToService(winners[i]));
  }

  // ---------------------------------------------------------------------
  // Service groups
  // ---------------------------------------------------------------------

  /** `members` is `None` when there is no `members` element, else its `member` texts. */
  datatype ServiceGroupEntry = ServiceGroupEntry(
    name: string, id: bool, members: Option<seq<string>>, description: Child)

  datatype ServiceGroup = ServiceGroup(name: string, members: seq<string>, description: Child)

  /** A reference-only service group: an `id` and no members and no description. */
  predicate IsServiceGroupStub(e: ServiceGroupEntry)
  {
    e.id && e.members.None? && e.description.Absent?
  }

  /** A service group carries content when it has a non-empty member. */
  predicate HasServiceMembers(e: ServiceGroupEntry): (b: bool)
    ensures b ==> !IsServiceGroupStub(e)
  {
    MemberTexts(e.members) != []
  }

  function ToServiceGroup(e: ServiceGroupEntry): (g: ServiceGroup)
    ensures g.name == e.name
    ensures g.members != [] <==> HasServiceMembers(e)
  {
    ServiceGroup(e.name, MemberTexts(e.members), e.description)
  }

  const ServiceGroupPolicy: Policy<ServiceGroupEntry> :=
    Policy((e: ServiceGroupEntry) => e.name, IsServiceGroupStub, HasServiceMembers)

  /** `parse_service_groups`: the records of the resolved catalog, in first-insertion order. */
  method ParseServiceGroups(scopes: seq<seq<ServiceGroupEntry>>) returns (groups: seq<ServiceGroup>)
    ensures var c := Overrides(Concat(scopes), ServiceGroupPolicy);
      && |groups| == |c.order|
      && forall i :: 0 <= i < |groups| ==> c.order[i] in c.entries && groups[i] == ToServiceGroup(c.entries[c.order[i]])
  {
    var winners := ResolveWithOverrides(scopes, ServiceGroupPolicy);
    groups := seq(|winners|, i requires 0 <= i < |winners| => ToServiceGroup(winners[i]));
  }

  // ---------------------------------------------------------------------
  // Scenarios
  // ---------------------------------------------------------------------

  /**
   * A device-group stub followed by the shared definition of the same
   * address yields the shared definition; a valueless (description-only)
   * definition after it does not displace it.
   */
  lemma StubThenDefinition(stub: AddressEntry, full: AddressEntry, bare: AddressEntry)
    requires stub.name == full.name == bare.name != ""
    requires IsAddressStub(stub) && HasAddressValue(full)
    requires !IsAddressStub(bare) && !HasAddressValue(bare)
    ensures Overrides(Concat([[stub], [full], [bare]]), AddressPolicy) == Catalog([full.name], map[full.name := full])
  {
    var scopes := [[stub], [full], [bare]];
    assert Concat(scopes) == [stub, full, bare] by {
      assert scopes[..2] == [[stub], [full]];
      assert scopes[..2][..1] == [[stub]];
      assert scopes[..2][..1][..0] == [];
      assert Concat(scopes[..2][..1]) == [stub];
      assert Concat(scopes[..2]) == [stub, full];
    }
    var c1 := Catalog([full.name], map[full.name := full]);
    assert Overrides([stub, full], AddressPolicy) == c1 by {
      assert [stub, full][..1] == [stub];
      assert [stub][..0] == [];
      assert Overrides([stub], AddressPolicy) == Catalog([], map[]);
    }
    assert [stub, full, bare][..2] == [stub, full];
    assert Overrides([stub, full, bare], AddressPolicy) == Absorb(c1, AddressPolicy, bare);
  }
}
