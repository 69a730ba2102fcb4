/** Pairing two gateways: which configurations are accepted, and whom both then record as active. */
module Pairing {
  import opened Words
  import Overlay
  import ReturnPaths

  /** A parsed IPv4 network. */
  type Cidr = c: (u32, u8) | c.1 <= 32 witness (0, 0)

  /** How a node reads addresses and networks from text. */
  datatype Reader = Reader(address: string -> Option<u32>, network: string -> Option<Cidr>)

  datatype Identity = Identity(
    name: string, publicIp: string, underlayIp: string, overlayCidr: string,
    dscp: u32, vni: u32, vxlanPort: u16, mtu: u32)

  datatype Peer = Peer(name: string, publicIp: Option<string>, underlayIp: string)

  /** The HA configuration; `vipValid` stands for the checks on its VIP settings, which pairing passes on unchanged. */
  datatype HaConfig = HaConfig(
    enabled: bool, peers: seq<Peer>, selfIndex: u32, preferred: Option<string>, vipValid: bool)

  // ---- Text ------------------------------------------------------------------------------------

  predicate IsSpace(c: char) {
    c == ' ' || '\t' <= c <= '\r'
  }

  function TrimStart(s: string): (r: string)
    decreases |s|
  {
    if s != [] && IsSpace(s[0]) then TrimStart(s[1..]) else s
  }

  function TrimEnd(s: string): (r: string)
    decreases |s|
  {
    if s != [] && IsSpace(s[|s| - 1]) then TrimEnd(s[..|s| - 1]) else s
  }

  function Trim(s: string): (r: string) {
    TrimEnd(TrimStart(s))
  }

  function NonEmpty(s: string): (r: Option<string>) {
    if Trim(s) == "" then None else Some(s)
  }

  // ---- Acceptance ------------------------------------------------------------------------------

  /** `cidr_overlaps` on parsed networks: equal under the shorter prefix. */
  predicate Overlaps(a: Cidr, b: Cidr) {
    var prefix := if a.1 < b.1 then a.1 else b.1;
    Overlay.Network(a.0, 32 - prefix) == Overlay.Network(b.0, 32 - prefix)
  }

  /** `validate_identity_pair`. */
  predicate ValidPair(local: Identity, peer: Identity, reader: Reader) {
    var a, b := reader.address(local.underlayIp), reader.address(peer.underlayIp);
    var m, n := reader.network(local.overlayCidr), reader.network(peer.overlayCidr);
    Trim(local.name) != "" && Trim(peer.name) != "" && local.name != peer.name
    && a.Some? && b.Some? && a.value != 0 && b.value != 0 && a.value != b.value
    && local.dscp != peer.dscp
    && m.Some? && n.Some? && !Overlaps(m.value, n.value)
    && local.vni == peer.vni && local.vxlanPort == peer.vxlanPort && local.mtu == peer.mtu
  }

  /** `ensure_peer_slot_available`. */
  predicate SlotAvailable(cfg: HaConfig, peer: Identity) {
    |cfg.peers| <= 1
    && (cfg.peers == [] || cfg.peers[0].name == peer.name || cfg.peers[0].underlayIp == peer.underlayIp)
  }

  /** `validate`. */
  predicate ValidConfig(cfg: HaConfig, reader: Reader) {
    |cfg.peers| <= 1 && (cfg.enabled ==> cfg.peers != [] && cfg.selfIndex <= |cfg.peers|)
    && (forall p :: p in cfg.peers ==>
          Trim(p.name) != "" && Trim(p.underlayIp) != "" && reader.address(p.underlayIp).Some?
          && (p.publicIp.Some? ==> reader.address(p.publicIp.value).Some?))
    && cfg.vipValid
  }

  function PeerFrom(id: Identity): (p: Peer) {
    Peer(id.name, NonEmpty(id.publicIp), id.underlayIp)
  }

  /** `config_with_peer`, on the gateway that asks for the pairing. */
  function ConfigWithPeer(cfg: HaConfig, local: Identity, peer: Identity, reader: Reader): (r: Option<HaConfig>) {
    if !ValidPair(local, peer, reader) || !SlotAvailable(cfg, peer) then None
    else
      var next := cfg.(enabled := true, peers := [PeerFrom(peer)]);
      if ValidConfig(next, reader) then Some(next) else None
  }

  /** `reciprocal_config`, on the gateway that is asked. */
  function ReciprocalConfig(cfg: HaConfig, local: Identity, peer: Identity, reader: Reader): (r: Option<HaConfig>) {
    if !ValidPair(local, peer, reader) then None
    else
      var next := cfg.(
        enabled := true, peers := [PeerFrom(peer)], selfIndex := if cfg.selfIndex == 0 then 1 else 0,
        preferred := if cfg.preferred == Some("") then None else cfg.preferred);
      if ValidConfig(next, reader) then Some(next) else None
  }

  /** `initial_active_gateway_key`. */
  function InitialActive(cfg: HaConfig, local: Identity, peer: Identity): (key: string) {
    if cfg.preferred.Some? && Trim(cfg.preferred.value) != "" then Trim(cfg.preferred.value)
    else if cfg.selfIndex == 0 then local.name
    else peer.name
  }

  /** The address is in the network. */
  predicate Inside(x: u32, c: Cidr) {
    Overlay.Network(x, 32 - c.1) == Overlay.Network(c.0, 32 - c.1)
  }

  /** Two networks overlap exactly if some address is in both. */
  lemma OverlapsIff(a: Cidr, b: Cidr)
    ensures Overlaps(a, b) <==> exists x: u32 :: Inside(x, a) && Inside(x, b)
  {
    var bits := 32 - (if a.1 < b.1 then a.1 else b.1);
    if Overlaps(a, b) {
      var x := if a.1 < b.1 then b.0 else a.0;
      assert Inside(x, a) && Inside(x, b);
    }
    if x: u32 :| Inside(x, a) && Inside(x, b) {
      Overlay.NetworkCoarser(x, a.0, 32 - a.1, bits);
      Overlay.NetworkCoarser(x, b.0, 32 - b.1, bits);
    }
  }

  /** What an accepted pairing guarantees: two named gateways with addresses, networks and DSCPs of their own on one
      overlay, and a configuration that is enabled with exactly the peer. */
  lemma AcceptedPair(cfg: HaConfig, a: Identity, b: Identity, reader: Reader, x: u32)
    requires ConfigWithPeer(cfg, a, b, reader).Some?
    ensures Trim(a.name) != "" && Trim(b.name) != "" && a.name != b.name && a.dscp != b.dscp
    ensures var p, q := reader.address(a.underlayIp), reader.address(b.underlayIp);
            p.Some? && q.Some? && p.value != q.value && p.value != 0 && q.value != 0
    ensures var m, n := reader.network(a.overlayCidr), reader.network(b.overlayCidr);
            m.Some? && n.Some? && !(Inside(x, m.value) && Inside(x, n.value))
    ensures (a.vni, a.vxlanPort, a.mtu) == (b.vni, b.vxlanPort, b.mtu)
    ensures var next := ConfigWithPeer(cfg, a, b, reader).value;
            next.enabled && |next.peers| == 1
            && next.peers[0].name == b.name && next.peers[0].underlayIp == b.underlayIp
            && next.selfIndex == cfg.selfIndex && next.preferred == cfg.preferred
            && (cfg.peers == [] || cfg.peers[0].name == b.name || cfg.peers[0].underlayIp == b.underlayIp)
  {
    OverlapsIff(reader.network(a.overlayCidr).value, reader.network(b.overlayCidr).value);
  }

  /** Paired gateways have return paths a backend can tell apart: what either derives from its DSCP, in any slot, passes
      the contract together, as long as both DSCPs are in range. */
  lemma PairedPathsPass(a: Identity, b: Identity, reader: Reader, p: ReturnPaths.ReturnPath, q: ReturnPaths.ReturnPath)
    requires ValidPair(a, b, reader) && ReturnPaths.Derived(p) && ReturnPaths.Derived(q)
    requires p.dscp == a.dscp && q.dscp == b.dscp
    ensures ReturnPaths.Contract([p, q]) <==> 1 <= a.dscp <= 63 && 1 <= b.dscp <= 63
  {
    var paths := [p, q];
    assert paths[0] == p && paths[1] == q;
    ReturnPaths.DerivedContract(paths);
  }

  // ---- Agreement -------------------------------------------------------------------------------

  /** Both gateways judge the pair of identities alike. */
  lemma ValidPairSymmetric(a: Identity, b: Identity, reader: Reader)
    ensures ValidPair(a, b, reader) <==> ValidPair(b, a, reader)
  {
  }

  /** Whatever configuration both gateways accept, both record the same active gateway: the preferred one, or without a
      preference the asking gateway if its index is 0, and the other one otherwise. */
  lemma PairingAgrees(cfg: HaConfig, a: Identity, b: Identity, reader: Reader)
    requires ConfigWithPeer(cfg, a, b, reader).Some? && ReciprocalConfig(cfg, b, a, reader).Some?
    ensures var atA := ConfigWithPeer(cfg, a, b, reader).value;
            var atB := ReciprocalConfig(cfg, b, a, reader).value;
            InitialActive(atA, a, b) == InitialActive(atB, b, a)
            && InitialActive(atA, a, b) == if cfg.preferred.Some? && Trim(cfg.preferred.value) != ""
                                           then Trim(cfg.preferred.value)
                                           else if cfg.selfIndex == 0 then a.name else b.name
  {
    assert Trim("") == "";
  }

  /** A pairing that the asking gateway accepts fails on the other only over the asking gateway's own public address. */
  lemma ReceiverAcceptsIff(cfg: HaConfig, a: Identity, b: Identity, reader: Reader)
    requires ConfigWithPeer(cfg, a, b, reader).Some?
    ensures ReciprocalConfig(cfg, b, a, reader).Some?
       <==> Trim(a.underlayIp) != "" && (Trim(a.publicIp) != "" ==> reader.address(a.publicIp).Some?)
  {
    ValidPairSymmetric(a, b, reader);
    var next := cfg.(
      enabled := true, peers := [PeerFrom(a)], selfIndex := if cfg.selfIndex == 0 then 1 else 0,
      preferred := if cfg.preferred == Some("") then None else cfg.preferred);
    assert PeerFrom(a) in next.peers;
  }
}
