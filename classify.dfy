/**
 * The small classification rules of the parser: which of several optional
 * children an element has decides a type, a mode or an action. Some are
 * if/elif cascades (the first child found wins); others test every child
 * and let a later assignment overwrite an earlier one (the last child in
 * test order wins). Each rule is a total function of the children's
 * presence; its contract says which outcome each combination gives.
 *
 * A child that may be missing and whose text is read is an
 * `Option<Option<string>>`: the outer option is the child, the inner one
 * its text (`None` when the element has no text).
 */
module Classify {
  import opened Wrappers

  /** `elem.text if elem is not None else None`. */
  function TextOf(child: Option<Option<string>>): (t: Option<string>)
    ensures child.None? ==> t.None?
    ensures child.Some? ==> t == child.value
  {
    if child.Some? then child.value else None
  }

  // ---------------------------------------------------------------------
  // Zone type (parse_zones)
  // ---------------------------------------------------------------------

  /** Which of `network/layer2`, `network/tap`, `network/virtual-wire`, `network/tunnel` a zone has. */
  datatype ZoneNetwork = ZoneNetwork(layer2: bool, tap: bool, virtualWire: bool, tunnel: bool)

  datatype ZoneType = ZoneLayer3 | ZoneLayer2 | ZoneTap | ZoneVirtualWire | ZoneTunnel

  /** layer2, then tap, then virtual-wire, then tunnel; layer3 when none is present. */
  function ZoneTypeOf(n: ZoneNetwork): (t: ZoneType)
    ensures t == ZoneLayer2 <==> n.layer2
    ensures t == ZoneTap <==> !n.layer2 && n.tap
    ensures t == ZoneVirtualWire <==> !n.layer2 && !n.tap && n.virtualWire
    ensures t == ZoneTunnel <==> !n.layer2 && !n.tap && !n.virtualWire && n.tunnel
    ensures t == ZoneLayer3 <==> !n.layer2 && !n.tap && !n.virtualWire && !n.tunnel
  {
    if n.layer2 then ZoneLayer2
    else if n.tap then ZoneTap
    else if n.virtualWire then ZoneVirtualWire
    else if n.tunnel then ZoneTunnel
    else ZoneLayer3
  }

  // ---------------------------------------------------------------------
  // External dynamic lists (parse_external_lists)
  // ---------------------------------------------------------------------

  /**
   * A `type` element: its `ip`, `domain` and `url` children (each with the
   * text of its `url` child) and which `recurring/...` descendants it has.
   */
  datatype ListTypeNode = ListTypeNode(
    ip: Option<Option<string>>, domain: Option<Option<string>>, url: Option<Option<string>>,
    hourly: bool, fiveMinute: bool, daily: bool)

  datatype ListKind = IpList | DomainList | UrlList
  datatype Recurrence = Hourly | FiveMinute | Daily

  datatype ExternalListClass = ExternalListClass(kind: Option<ListKind>, url: Option<string>, recurring: Option<Recurrence>)

  /** hourly, then five-minute, then daily. */
  function RecurrenceOf(n: ListTypeNode): (r: Option<Recurrence>)
    ensures r == Some(Hourly) <==> n.hourly
    ensures r == Some(FiveMinute) <==> !n.hourly && n.fiveMinute
    ensures r == Some(Daily) <==> !n.hourly && !n.fiveMinute && n.daily
    ensures r.None? <==> !n.hourly && !n.fiveMinute && !n.daily
  {
    if n.hourly then Some(Hourly)
    else if n.fiveMinute then Some(FiveMinute)
    else if n.daily then Some(Daily)
    else None
  }

  /**
   * ip, then domain, then url decides the list type and where its URL is
   * read; the recurrence is read only when one of the three is present.
   * Without a `type` element, or with none of the three, nothing is set.
   */
  function ExternalListOf(t: Option<ListTypeNode>): (c: ExternalListClass)
    ensures t.None? ==> c == ExternalListClass(None, None, None)
    ensures t.Some? && t.value.ip.Some? ==> c == ExternalListClass(Some(IpList), t.value.ip.value, RecurrenceOf(t.value))
    ensures t.Some? && t.value.ip.None? && t.value.domain.Some? ==>
      c == ExternalListClass(Some(DomainList), t.value.domain.value, RecurrenceOf(t.value))
    ensures t.Some? && t.value.ip.None? && t.value.domain.None? && t.value.url.Some? ==>
      c == ExternalListClass(Some(UrlList), t.value.url.value, RecurrenceOf(t.value))
    ensures c.kind.None? ==> c.url.None? && c.recurring.None?
  {
    match t
    case None => ExternalListClass(None, None, None)
    case Some(n) =>
      if n.ip.Some? then ExternalListClass(Some(IpList), n.ip.value, RecurrenceOf(n))
      else if n.domain.Some? then ExternalListClass(Some(DomainList), n.domain.value, RecurrenceOf(n))
      else if n.url.Some? then ExternalListClass(Some(UrlList), n.url.value, RecurrenceOf(n))
      else ExternalListClass(None, None, None)
  }

  // ---------------------------------------------------------------------
  // Decryption rule type (parse_decryption_rules)
  // ---------------------------------------------------------------------

  datatype DecryptionTypeNode = DecryptionTypeNode(sslForwardProxy: bool, sslInboundInspection: bool, sshProxy: bool)
  datatype DecryptionType = SslForwardProxy | SslInboundInspection | SshProxy

  /** ssl-forward-proxy, then ssl-inbound-inspection, then ssh-proxy; none without a `type` element. */
  function DecryptionTypeOf(t: Option<DecryptionTypeNode>): (d: Option<DecryptionType>)
    ensures d == Some(SslForwardProxy) <==> t.Some? && t.value.sslForwardProxy
    ensures d == Some(SslInboundInspection) <==> t.Some? && !t.value.sslForwardProxy && t.value.sslInboundInspection
    ensures d == Some(SshProxy) <==>
      t.Some? && !t.value.sslForwardProxy && !t.value.sslInboundInspection && t.value.sshProxy
    ensures d.None? <==>
      t.None? || (!t.value.sslForwardProxy && !t.value.sslInboundInspection && !t.value.sshProxy)
  {
    match t
    case None => None
    case Some(n) =>
      if n.sslForwardProxy then Some(SslForwardProxy)
      else if n.sslInboundInspection then Some(SslInboundInspection)
      else if n.sshProxy then Some(SshProxy)
      else None
  }

  // ---------------------------------------------------------------------
  // Policy-based forwarding action (parse_pbf_rules)
  // ---------------------------------------------------------------------

  /** A `forward` element: the texts of `nexthop/ip-address` and `egress-interface`. */
  datatype ForwardNode = ForwardNode(nexthopIp: Option<string>, egressInterface: Option<string>)

  /** An `action` element: its `forward` child and whether it has `discard` and `no-pbf`. */
  datatype ActionNode = ActionNode(forward: Option<ForwardNode>, discard: bool, noPbf: bool)

  datatype PbfAction = Forward(nexthopIp: Option<string>, egressInterface: Option<string>) | Discard | NoPbf

  /**
   * forward, discard and no-pbf are each tested and each overwrites the
   * action, so no-pbf beats discard, which beats forward.
   */
  function PbfActionOf(a: Option<ActionNode>): (act: Option<PbfAction>)
    ensures act == Some(NoPbf) <==> a.Some? && a.value.noPbf
    ensures act == Some(Discard) <==> a.Some? && !a.value.noPbf && a.value.discard
    ensures act.Some? && act.value.Forward? <==>
      a.Some? && !a.value.noPbf && !a.value.discard && a.value.forward.Some?
    ensures act.Some? && act.value.Forward? ==>
      act.value == Forward(a.value.forward.value.nexthopIp, a.value.forward.value.egressInterface)
  {
    match a
    case None => None
    case Some(n) =>
      var afterForward := if n.forward.Some? then Some(Forward(n.forward.value.nexthopIp, n.forward.value.egressInterface)) else None;
      var afterDiscard := if n.discard then Some(Discard) else afterForward;
      if n.noPbf then Some(NoPbf) else afterDiscard
  }

  // ---------------------------------------------------------------------
  // OSPF area type (parse_virtual_router_protocols)
  // ---------------------------------------------------------------------

  datatype AreaTypeNode = AreaTypeNode(stub: bool, nssa: bool)
  datatype AreaType = Normal | Stub | Nssa

  /** stub, then nssa; normal otherwise. */
  function AreaTypeOf(n: AreaTypeNode): (t: AreaType)
    ensures t == Stub <==> n.stub
    ensures t == Nssa <==> !n.stub && n.nssa
    ensures t == Normal <==> !n.stub && !n.nssa
  {
    if n.stub then Stub else if n.nssa then Nssa else Normal
  }

  // ---------------------------------------------------------------------
  // IPsec tunnel type (parse_ipsec_tunnels)
  // ---------------------------------------------------------------------

  /** An `auto-key` element: the name of its `ike-gateway/entry` and its `ipsec-crypto-profile` text. */
  datatype AutoKeyNode = AutoKeyNode(ikeGateway: Option<Option<string>>, cryptoProfile: Option<Option<string>>)

  datatype TunnelNode = TunnelNode(autoKey: Option<AutoKeyNode>, manualKey: bool)

  datatype TunnelType = AutoKey | ManualKey

  datatype TunnelClass = TunnelClass(tunnelType: TunnelType, ikeGateway: Option<string>, cryptoProfile: Option<string>)

  /**
   * The type starts as auto-key; a `manual-key` child overwrites it. The
   * auto-key details are read whenever `auto-key` is present, so a tunnel
   * with both children is manual-key and still carries them.
   */
  function TunnelOf(t: TunnelNode): (c: TunnelClass)
    ensures c.tunnelType == ManualKey <==> t.manualKey
    ensures t.autoKey.None? ==> c.ikeGateway.None? && c.cryptoProfile.None?
    ensures t.autoKey.Some? ==>
      c.ikeGateway == TextOf(t.autoKey.value.ikeGateway) && c.cryptoProfile == TextOf(t.autoKey.value.cryptoProfile)
  {
    var details := match t.autoKey
      case Some(ak) => TunnelClass(AutoKey, TextOf(ak.ikeGateway), TextOf(ak.cryptoProfile))
      case None => TunnelClass(AutoKey, None, None);
    if t.manualKey then details.(tunnelType := ManualKey) else details
  }

  // ---------------------------------------------------------------------
  // IKE gateway version and peer (parse_ike_gateways)
  // ---------------------------------------------------------------------

  /** A `protocol` element: its `ikev1` and `ikev2` children, each with its `ike-crypto-profile` child. */
  datatype IkeProtocolNode = IkeProtocolNode(ikev1: Option<Option<Option<string>>>, ikev2: Option<Option<Option<string>>>)

  datatype IkeVersion = Ikev1 | Ikev2

  /** ikev1 by default; ikev1, then ikev2, when the protocol element names one. */
  function IkeVersionOf(p: Option<IkeProtocolNode>): (v: IkeVersion)
    ensures v == Ikev2 <==> p.Some? && p.value.ikev1.None? && p.value.ikev2.Some?
  {
    if p.Some? && p.value.ikev1.None? && p.value.ikev2.Some? then Ikev2 else Ikev1
  }

  /**
   * The crypto profile is read from the child named by the chosen version;
   * when the version is the default ikev1 and there is no `ikev1` child,
   * there is none, even if an `ikev2` child is present.
   */
  function IkeCryptoProfileOf(p: Option<IkeProtocolNode>): (prof: Option<string>)
    ensures p.None? ==> prof.None?
    ensures p.Some? && p.value.ikev1.Some? ==> prof == TextOf(p.value.ikev1.value)
    ensures p.Some? && p.value.ikev1.None? && p.value.ikev2.Some? ==> prof == TextOf(p.value.ikev2.value)
    ensures p.Some? && p.value.ikev1.None? && p.value.ikev2.None? ==> prof.None?
  {
    match p
    case None => None
    case Some(n) =>
      var node := if IkeVersionOf(p) == Ikev1 then n.ikev1 else n.ikev2;
      if node.Some? then TextOf(node.value) else None
  }

  datatype Peer = Peer(address: Option<string>, isFqdn: bool)

  /**
   * The peer address is the `peer-address/ip` text, overwritten by the
   * `peer-address/fqdn` text when that element exists, even when it has
   * no text; only then is the address marked as an FQDN.
   */
  function PeerOf(ip: Option<Option<string>>, fqdn: Option<Option<string>>): (p: Peer)
    ensures p.isFqdn <==> fqdn.Some?
    ensures fqdn.Some? ==> p.address == fqdn.value
    ensures fqdn.None? ==> p.address == TextOf(ip)
  {
    var afterIp := Peer(TextOf(ip), false);
    if fqdn.Some? then Peer(fqdn.value, true) else afterIp
  }
}
