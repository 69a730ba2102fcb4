/** In-place packet edits: DSCP marking and the redirect with its TTL decrement. */
module PacketEdit {
  import opened Words
  import opened Checksum

  /** `f` with `bytes` stored at `offset`. */
  function Stored(f: seq<u8>, offset: nat, bytes: seq<u8>): (r: seq<u8>)
    requires offset + |bytes| <= |f|
    ensures |r| == |f|
  {
    f[..offset] + bytes + f[offset + |bytes|..]
  }

  method StoreBytes(frame: array<u8>, offset: nat, bytes: seq<u8>)
    requires offset + |bytes| <= frame.Length
    modifies frame
    ensures frame[..] == Stored(old(frame[..]), offset, bytes)
  {
    for i := 0 to |bytes|
      invariant forall j :: 0 <= j < frame.Length ==>
                  frame[j] == if offset <= j < offset + i then bytes[j - offset] else old(frame[j])
    {
      frame[offset + i] := bytes[i];
    }
  }

  // ---- DSCP marking ----------------------------------------------------------------------------

  const DEFAULT_DSCP: u32 := 46

  /** `DSCP_CFG` with values above 63 replaced by the default. */
  function EffectiveDscp(cfg: Option<u32>): (d: u32)
    ensures d < 64
  {
    if cfg.Some? && cfg.value < 64 then cfg.value else DEFAULT_DSCP
  }

  /** Header length in bytes. */
  function HeaderLen(f: seq<u8>): (n: nat)
    requires |f| >= 15
    ensures n % 2 == 0
  {
    f[14] % 16 * 4
  }

  /** An IPv4 TCP or UDP packet whose transport header can be loaded. */
  predicate Markable(f: seq<u8>) {
    |f| >= 34 && Half(f[12], f[13]) == 0x0800
    && f[14] / 16 == 4 && HeaderLen(f) >= 20
    && ((f[23] == 6 && 14 + HeaderLen(f) + 20 <= |f|) || (f[23] == 17 && 14 + HeaderLen(f) + 8 <= |f|))
  }

  function DestinationPort(f: seq<u8>): (p: u16)
    requires Markable(f)
  {
    Half(f[14 + HeaderLen(f) + 2], f[14 + HeaderLen(f) + 3])
  }

  /** New DSCP in the upper six bits, ECN bits kept. */
  function NewTos(tos: u8, dscp: u32): (r: u8)
    requires dscp < 64
  {
    dscp * 4 + tos % 4
  }

  /** The IPv4 header of a frame. */
  function Header(f: seq<u8>): (h: seq<u8>)
    requires Markable(f)
    ensures |h| == HeaderLen(f)
  {
    f[14..14 + HeaderLen(f)]
  }

  /** One header byte and the header checksum replaced. */
  function Edited(f: seq<u8>, at: nat, byte: u8, c: u16): (r: seq<u8>)
    requires |f| >= 34 && at < |f|
    ensures |r| == |f|
  {
    f[at := byte][24 := Hi(c)][25 := Lo(c)]
  }

  /** The incrementally updated checksum for a new TOS byte. */
  function TosCheck(f: seq<u8>, tos: u8): (c: u16)
    requires |f| >= 34
  {
    IncrementalCsum(Half(f[24], f[25]), Half(f[14], f[15]), Half(f[14], tos))
  }

  /** The frame after marking. */
  function Marked(f: seq<u8>, dscp: u32): (r: seq<u8>)
    requires Markable(f) && dscp < 64
  {
    var tos := NewTos(f[15], dscp);
    if tos == f[15] then f else Edited(f, 15, tos, TosCheck(f, tos))
  }

  /** Which of the two stores of `try_dscp_mark` succeed. */
  datatype Stores = Stores(tos: bool, check: bool)

  /** What the two stores leave: nothing new, a new TOS byte with the old checksum, or the marked frame. */
  function MarkedWith(f: seq<u8>, dscp: u32, stores: Stores): (r: seq<u8>)
    requires Markable(f) && dscp < 64
  {
    if !stores.tos then f
    else if !stores.check then f[15 := NewTos(f[15], dscp)]
    else Marked(f, dscp)
  }

  /** What `try_dscp_mark` leaves of a frame, with the two stores' outcomes given. */
  function AfterMark(f: seq<u8>, ports: set<u32>, cfg: Option<u32>, stores: Stores): (r: seq<u8>) {
    if Markable(f) && DestinationPort(f) in ports then MarkedWith(f, EffectiveDscp(cfg), stores) else f
  }

  /** `try_dscp_mark`; the packet is passed on whatever happens. */
  method MarkDscp(frame: array<u8>, ports: set<u32>, cfg: Option<u32>, stores: Stores) returns (changed: bool)
    modifies frame
    ensures frame[..] == AfterMark(old(frame[..]), ports, cfg, stores)
    ensures changed <==> frame[..] != old(frame[..]) && stores == Stores(true, true)
  {
    changed := false;
    if frame.Length < 34 || Half(frame[12], frame[13]) != 0x0800 {
      return;
    }
    var version, ihl := frame[14] / 16, frame[14] % 16 * 4;
    if version != 4 || ihl < 20 || (frame[23] != 6 && frame[23] != 17) {
      return;
    }
    var l4 := 14 + ihl;
    if l4 + (if frame[23] == 6 then 20 else 8) > frame.Length {
      return;
    }
    var dport := Half(frame[l4 + 2], frame[l4 + 3]);
    if dport !in ports {
      return;
    }
    var dscp := EffectiveDscp(cfg);
    if frame[15] == NewTos(frame[15], dscp) {
      assert frame[..][15 := frame[15]] == frame[..];
      return;
    }
    changed := WriteTos(frame, dscp, version * 16 + ihl / 4, stores);
  }

  /** The writes of `try_dscp_mark`: the TOS byte, then the checksum. */
  method WriteTos(frame: array<u8>, dscp: u32, firstByte: u8, stores: Stores) returns (ok: bool)
    requires Markable(frame[..]) && dscp < 64 && NewTos(frame[15], dscp) != frame[15] && firstByte == frame[14]
    modifies frame
    ensures frame[..] == MarkedWith(old(frame[..]), dscp, stores)
    ensures ok <==> frame[..] != old(frame[..]) && stores == Stores(true, true)
  {
    var oldTos := frame[15];
    var newTos := NewTos(oldTos, dscp);
    var check := IncrementalCsum(Half(frame[24], frame[25]), Half(firstByte, oldTos), Half(firstByte, newTos));
    if !stores.tos {
      return false;
    }
    frame[15] := newTos;
    if !stores.check {
      assert frame[..] == old(frame[..])[15 := newTos];
      return false;
    }
    frame[24] := Hi(check);
    frame[25] := Lo(check);
    assert frame[..] == Edited(old(frame[..]), 15, newTos, check);
    assert frame[15] != old(frame[15]);
    ok := true;
  }

  /** Editing the frame edits the header at the same place. */
  lemma EditedHeader(f: seq<u8>, n: nat, k: nat, byte: u8, c: u16)
    requires 20 <= n && 14 + n <= |f| && k < 10
    ensures Edited(f, 14 + k, byte, c)[14..14 + n] == f[14..14 + n][k := byte][10 := Hi(c)][11 := Lo(c)]
  {
    var r, h := Edited(f, 14 + k, byte, c), f[14..14 + n];
    var e := h[k := byte][10 := Hi(c)][11 := Lo(c)];
    forall j | 0 <= j < n
      ensures r[14..14 + n][j] == e[j]
    {
      assert r[14..14 + n][j] == r[14 + j] && h[j] == f[14 + j];
    }
  }

  /** The two single-byte edits as rewrites of a header word. */
  lemma EditIsRewrite(h: seq<u8>, byte: u8, c: u16)
    requires |h| >= 20
    ensures h[1 := byte][10 := Hi(c)][11 := Lo(c)] == Rewritten(h, 0, h[0], byte, 5, c)
    ensures h[8 := byte][10 := Hi(c)][11 := Lo(c)] == Rewritten(h, 4, byte, h[9], 5, c)
  {
    assert h[0 := h[0]] == h;
    assert h[8 := byte][9 := h[9]] == h[8 := byte];
  }

  /** Marking sets the DSCP, keeps ECN and changes no byte but the TOS and the checksum. */
  lemma MarkingChangesOnlyTos(f: seq<u8>, dscp: u32)
    requires Markable(f) && dscp < 64
    ensures var r := Marked(f, dscp);
            |r| == |f| && Markable(r) && HeaderLen(r) == HeaderLen(f)
            && r[15] / 4 == dscp && r[15] % 4 == f[15] % 4
            && (forall j :: 0 <= j < |f| && j != 15 && j != 24 && j != 25 ==> r[j] == f[j])
  {
    var tos := NewTos(f[15], dscp);
    EditKeepsShape(f, tos, TosCheck(f, tos));
  }

  lemma EditKeepsShape(f: seq<u8>, tos: u8, c: u16)
    requires Markable(f)
    ensures Markable(Edited(f, 15, tos, c)) && HeaderLen(Edited(f, 15, tos, c)) == HeaderLen(f)
  {
    var r := Edited(f, 15, tos, c);
    assert r[12] == f[12] && r[13] == f[13] && r[14] == f[14] && r[23] == f[23];
  }

  /** Marking keeps an intact header intact and a broken one broken, options included. */
  lemma MarkingKeepsChecksum(f: seq<u8>, dscp: u32)
    requires Markable(f) && dscp < 64
    ensures var r := Marked(f, dscp);
            Markable(r) && (Valid(WordsOf(Header(r))) <==> Valid(WordsOf(Header(f))))
  {
    var tos := NewTos(f[15], dscp);
    MarkingChangesOnlyTos(f, dscp);
    if tos != f[15] {
      TosEditKeepsChecksum(f, tos);
    }
  }

  /** The header of a frame with a new TOS byte and checksum. */
  lemma TosHeader(f: seq<u8>, tos: u8, c: u16)
    requires Markable(f)
    ensures Markable(Edited(f, 15, tos, c))
    ensures Header(Edited(f, 15, tos, c)) == Rewritten(Header(f), 0, f[14], tos, 5, c)
  {
    EditKeepsShape(f, tos, c);
    HeaderBytes(f);
    EditedHeader(f, HeaderLen(f), 1, tos, c);
    EditIsRewrite(Header(f), tos, c);
  }

  lemma TosRewriteKeeps(h: seq<u8>, first: u8, oldTos: u8, tos: u8, oldCheck: u16, c: u16)
    requires |h| >= 20 && |h| % 2 == 0 && h[0] == first > 0 && h[1] == oldTos && Half(h[10], h[11]) == oldCheck
    requires c == IncrementalCsum(oldCheck, Half(first, oldTos), Half(first, tos))
    ensures Valid(WordsOf(Rewritten(h, 0, first, tos, 5, c))) <==> Valid(WordsOf(h))
  {
    RewrittenValidIff(h, 0, first, tos, 5, c);
  }

  lemma TosEditKeepsChecksum(f: seq<u8>, tos: u8)
    requires Markable(f)
    ensures var r := Edited(f, 15, tos, TosCheck(f, tos));
            Markable(r) && (Valid(WordsOf(Header(r))) <==> Valid(WordsOf(Header(f))))
  {
    TosHeader(f, tos, TosCheck(f, tos));
    HeaderBytes(f);
    TosRewriteKeeps(Header(f), f[14], f[15], tos, Half(f[24], f[25]), TosCheck(f, tos));
  }

  lemma HeaderBytes(f: seq<u8>)
    requires Markable(f)
    ensures forall j :: 0 <= j < HeaderLen(f) ==> Header(f)[j] == f[14 + j]
    ensures Header(f)[0] == f[14] > 0 && Header(f)[1] == f[15] && Header(f)[10] == f[24] && Header(f)[11] == f[25]
  {
  }

  /** A frame whose second store failed goes out with a header that is no longer intact. */
  lemma HalfMarkedIsBroken(f: seq<u8>, dscp: u32)
    requires Markable(f) && dscp < 64 && NewTos(f[15], dscp) != f[15] && Valid(WordsOf(Header(f)))
    ensures var r := MarkedWith(f, dscp, Stores(true, false));
            Markable(r) && !Valid(WordsOf(Header(r)))
  {
    var tos, h := NewTos(f[15], dscp), Header(f);
    var r := f[15 := tos];
    HeaderBytes(f);
    TosAlone(f, tos);
    var ws := WordsOf(h);
    assert WordsOf(Header(r)) == ws[0 := Half(f[14], tos)];
    StaleChecksumBreaks(ws, Half(f[14], tos));
  }

  /** An intact header goes out intact exactly if the first store failed, the second succeeded, or nothing was to
      change. */
  lemma MarkedIntactIff(f: seq<u8>, dscp: u32, stores: Stores)
    requires Markable(f) && dscp < 64 && Valid(WordsOf(Header(f)))
    ensures var r := MarkedWith(f, dscp, stores);
            Markable(r)
            && (Valid(WordsOf(Header(r))) <==> !stores.tos || stores.check || NewTos(f[15], dscp) == f[15])
  {
    MarkingKeepsChecksum(f, dscp);
    if NewTos(f[15], dscp) != f[15] {
      HalfMarkedIsBroken(f, dscp);
    } else {
      assert f[15 := f[15]] == f;
    }
  }

  lemma TosAlone(f: seq<u8>, tos: u8)
    requires Markable(f)
    ensures var r := f[15 := tos];
            Markable(r) && HeaderLen(r) == HeaderLen(f) && Header(r) == Header(f)[1 := tos]
  {
    var r := f[15 := tos];
    assert r[12] == f[12] && r[13] == f[13] && r[14] == f[14] && r[23] == f[23];
    HeaderBytes(f);
  }

  // ---- Which frames are marked -----------------------------------------------------------------

  /** An IPv4 header with the given protocol: its first byte gives its length, of up to 15 words. */
  predicate IpHeader(h: seq<u8>, proto: u8) {
    20 <= |h| <= 60 && |h| % 4 == 0 && h[0] == 0x40 + |h| / 4 && h[9] == proto
  }

  /** The frame is two MAC addresses, the IPv4 Ethernet type, a header, the two ports in network byte order, and what is
      left of a whole TCP or UDP header with its payload. */
  predicate Frames(f: seq<u8>, macs: seq<u8>, h: seq<u8>, sport: u16, dport: u16, rest: seq<u8>) {
    |macs| == 12
    && ((IpHeader(h, 6) && |rest| >= 16) || (IpHeader(h, 17) && |rest| >= 4))
    && f == macs + [0x08, 0x00] + h + [sport / 256, sport % 256, dport / 256, dport % 256] + rest
  }

  lemma FrameBytes(f: seq<u8>, macs: seq<u8>, h: seq<u8>, sport: u16, dport: u16, rest: seq<u8>)
    requires Frames(f, macs, h, sport, dport, rest)
    ensures |f| == 18 + |h| + |rest| && f[12] == 0x08 && f[13] == 0x00
    ensures forall j :: 0 <= j < |h| ==> f[14 + j] == h[j]
    ensures f[14 + |h| + 2] == dport / 256 && f[14 + |h| + 3] == dport % 256
  {
  }

  /** Such frames are the markable ones, and their destination port is the second of the two. */
  lemma FramesAreMarkable(f: seq<u8>, macs: seq<u8>, h: seq<u8>, sport: u16, dport: u16, rest: seq<u8>)
    requires Frames(f, macs, h, sport, dport, rest)
    ensures Markable(f) && HeaderLen(f) == |h| && DestinationPort(f) == dport
  {
    FrameBytes(f, macs, h, sport, dport, rest);
    assert f[14] == h[0] && f[23] == h[9];
  }

  lemma MarkableIsFramed(f: seq<u8>)
    returns (macs: seq<u8>, h: seq<u8>, sport: u16, dport: u16, rest: seq<u8>)
    requires Markable(f)
    ensures Frames(f, macs, h, sport, dport, rest)
  {
    var n := 14 + HeaderLen(f);
    macs, h, rest := f[..12], f[14..n], f[n + 4..];
    sport, dport := Half(f[n], f[n + 1]), Half(f[n + 2], f[n + 3]);
    assert sport / 256 == f[n] && sport % 256 == f[n + 1] && dport / 256 == f[n + 2] && dport % 256 == f[n + 3];
    assert f[12..14] == [0x08, 0x00] && f[n..n + 4] == [f[n], f[n + 1], f[n + 2], f[n + 3]];
    assert f == f[..12] + f[12..14] + f[14..n] + f[n..n + 4] + f[n + 4..];
  }

  /** The DSCP a configuration asks for; one without a usable value asks for expedited forwarding. */
  predicate Asks(cfg: Option<u32>, d: u32) {
    if cfg.Some? && cfg.value < 64 then d == cfg.value else d == 46
  }

  /** An IPv4 TCP or UDP frame is marked if and only if its destination port is listed, whatever its source port: then
      its TOS byte is the DSCP with the old ECN bits, and otherwise the frame is as it was. */
  lemma MarkedIffPortListed(f: seq<u8>, macs: seq<u8>, h: seq<u8>, sport: u16, dport: u16, rest: seq<u8>,
                            ports: set<u32>, cfg: Option<u32>, d: u32)
    requires Frames(f, macs, h, sport, dport, rest) && Asks(cfg, d)
    ensures var r := AfterMark(f, ports, cfg, Stores(true, true));
            if dport in ports
            then |r| == |f| && r[15] == d * 4 + h[1] % 4
                 && forall j :: 0 <= j < |f| && j != 15 && j != 24 && j != 25 ==> r[j] == f[j]
            else r == f
  {
    FramesAreMarkable(f, macs, h, sport, dport, rest);
    FrameBytes(f, macs, h, sport, dport, rest);
    assert f[15] == h[1];
    MarkingChangesOnlyTos(f, d);
  }

  /** No other frame is ever changed. */
  lemma OnlyFramesAreMarked(f: seq<u8>, ports: set<u32>, cfg: Option<u32>, stores: Stores)
    requires AfterMark(f, ports, cfg, stores) != f
    ensures exists macs, h, sport: u16, dport: u16, rest :: Frames(f, macs, h, sport, dport, rest) && dport in ports
  {
    var macs, h, sport, dport, rest := MarkableIsFramed(f);
    FramesAreMarkable(f, macs, h, sport, dport, rest);
  }

  // ---- Redirect --------------------------------------------------------------------------------

  type Mac = m: seq<u8> | |m| == 6 witness [0, 0, 0, 0, 0, 0]

  predicate UnicastMac(m: Mac) {
    m != [0, 0, 0, 0, 0, 0] && m[0] % 2 == 0
  }

  datatype Route = Route(
    expiresNs: u64, target: u32, ingressIfindex: u32, ifindex: u32, mtu: u32, targetPort: u16, dscp: u8, pad: u8,
    sourceMac: Mac, destinationMac: Mac)

  /** The socket buffer fields admission looks at. */
  datatype Skb = Skb(mark: u32, pktType: u32, vlanPresent: u32, gsoSegs: u32, gsoSize: u32, ingressIfindex: u32)

  datatype RedirectPacket = RedirectPacket(
    target: u32, targetPort: u16, ingressIfindex: u32, ipLen: u16, ttl: u8, dscp: u8)

  datatype Fallback = InvalidRoute | Expired | TargetChanged | Ttl | Mtu | Unsupported

  /** `NativeTargetRoute::validate`: the first reason not to use the route. */
  function Validate(r: Route, p: RedirectPacket, now: u64): (why: Option<Fallback>) {
    if r.ifindex == 0 || r.ingressIfindex == 0 || r.mtu < 68 || r.dscp > 63 || r.pad != 0
       || !UnicastMac(r.sourceMac) || !UnicastMac(r.destinationMac) then Some(InvalidRoute)
    else if r.expiresNs <= now then Some(Expired)
    else if r.target != p.target || r.targetPort != p.targetPort then Some(TargetChanged)
    else if r.ingressIfindex != p.ingressIfindex || r.dscp != p.dscp then Some(Unsupported)
    else if p.ttl <= 1 then Some(Ttl)
    else if p.ipLen > r.mtu then Some(Mtu)
    else None
  }

  function Address(h: seq<u8>, at: nat): (a: u32)
    requires at + 4 <= |h|
  {
    var a, b, c, d: int := h[at], h[at + 1], h[at + 2], h[at + 3];
    a * 0x100_0000 + b * 0x1_0000 + c * 0x100 + d
  }

  /** No options, not a fragment, and nothing left for the kernel to do on the buffer. */
  predicate PlainPacket(h: seq<u8>, skb: Skb)
    requires |h| == 20
  {
    h[0] == 0x45 && (Half(h[6], h[7]) == 0 || Half(h[6], h[7]) == 0x4000)
    && skb.mark == 0 && skb.pktType == 0 && skb.vlanPresent == 0 && skb.gsoSegs <= 1 && skb.gsoSize == 0
  }

  /** The IP length is the frame's, and leaves room for the transport header. */
  predicate WholePacket(h: seq<u8>, frameLen: nat)
    requires |h| == 20
  {
    Half(h[2], h[3]) + 14 == frameLen
    && ((h[9] == 6 && Half(h[2], h[3]) >= 40) || (h[9] == 17 && Half(h[2], h[3]) >= 28))
  }

  predicate ForwardableSource(h: seq<u8>, localAddresses: set<u32>)
    requires |h| == 20
  {
    h[12] != 0 && h[12] != 127 && h[12] < 224 && !(h[12] == 169 && h[13] == 254)
    && Address(h, 12) !in localAddresses
  }

  function PacketOf(f: seq<u8>, skb: Skb): (p: RedirectPacket)
    requires |f| >= 38
  {
    RedirectPacket(Address(f, 30), Half(f[36], f[37]), skb.ingressIfindex, Half(f[16], f[17]), f[22], f[15] / 4)
  }

  /** Everything `redirect::forward` asks before it touches the packet. */
  predicate Admits(f: seq<u8>, route: Option<Route>, skb: Skb, localAddresses: set<u32>, now: u64) {
    route.Some? && |f| >= 38
    && PlainPacket(f[14..34], skb) && ForwardableSource(f[14..34], localAddresses) && WholePacket(f[14..34], |f|)
    && Validate(route.value, PacketOf(f, skb), now) == None
    && Valid(WordsOf(f[14..34]))
  }

  /** Byte by byte, what either redirect asks of a packet: an IPv4 header without options or fragment bits but "do not
      fragment", as long as the frame says and long enough for TCP or UDP, and an untouched buffer. */
  predicate Plain(f: seq<u8>, skb: Skb) {
    |f| >= 34 && f[14] == 0x45 && f[20] in {0x00, 0x40} && f[21] == 0
    && skb.mark == 0 && skb.pktType == 0 && skb.vlanPresent == 0 && skb.gsoSegs <= 1 && skb.gsoSize == 0
    && f[16] as int * 256 + f[17] == |f| - 14
    && ((f[23] == 6 && |f| >= 54) || (f[23] == 17 && |f| >= 42))
  }

  /** The one's complement sum of the header's words is all ones. */
  predicate IntactHeader(f: seq<u8>)
    requires |f| >= 34
  {
    Valid(WordsOf(f[14..34]))
  }

  lemma PlainIff(f: seq<u8>, skb: Skb)
    requires |f| >= 34
    ensures PlainPacket(f[14..34], skb) && WholePacket(f[14..34], |f|) <==> Plain(f, skb)
  {
    var h := f[14..34];
    assert h[0] == f[14] && h[2] == f[16] && h[3] == f[17] && h[6] == f[20] && h[7] == f[21] && h[9] == f[23];
  }

  /** The address at `at` is that of one host somewhere else. */
  predicate Unicast(f: seq<u8>, at: nat)
    requires at + 4 <= |f|
  {
    f[at] != 0 && f[at] != 127 && f[at] < 224 && !(f[at] == 169 && f[at + 1] == 254)
  }

  /** The route is well formed, has not expired, and is for the packet's destination address and port, its ingress
      interface and its DSCP, with a hop and room left. */
  predicate RouteFits(f: seq<u8>, r: Route, skb: Skb, now: u64)
    requires |f| >= 38
  {
    now < r.expiresNs
    && r.target == f[30] as int * 0x100_0000 + f[31] as int * 0x1_0000 + f[32] as int * 0x100 + f[33]
    && r.targetPort == f[36] as int * 256 + f[37]
    && r.ingressIfindex == skb.ingressIfindex != 0 && r.dscp == f[15] / 4
    && f[22] > 1 && f[16] as int * 256 + f[17] <= r.mtu && r.mtu >= 68
    && r.ifindex != 0 && r.pad == 0 && OneStation(r.sourceMac) && OneStation(r.destinationMac)
  }

  lemma RouteFitsIff(f: seq<u8>, r: Route, skb: Skb, now: u64)
    requires |f| >= 38
    ensures Validate(r, PacketOf(f, skb), now) == None <==> RouteFits(f, r, skb, now)
  {
    StationIffUnicast(r.sourceMac);
    StationIffUnicast(r.destinationMac);
  }

  lemma SourceIff(f: seq<u8>, localAddresses: set<u32>)
    requires |f| >= 34
    ensures ForwardableSource(f[14..34], localAddresses) <==> Unicast(f, 26) && Address(f, 26) !in localAddresses
  {
    var h := f[14..34];
    assert h[12] == f[26] && h[13] == f[27] && h[14] == f[28] && h[15] == f[29];
  }

  /** A packet is redirected to its target if and only if it is plain, with an intact header, from a foreign unicast
      address, and its route fits. */
  lemma AdmittedIff(f: seq<u8>, r: Route, skb: Skb, localAddresses: set<u32>, now: u64)
    requires |f| >= 38
    ensures Admits(f, Some(r), skb, localAddresses, now)
       <==> Plain(f, skb) && IntactHeader(f) && Unicast(f, 26) && Address(f, 26) !in localAddresses
            && RouteFits(f, r, skb, now)
  {
    PlainIff(f, skb);
    SourceIff(f, localAddresses);
    RouteFitsIff(f, r, skb, now);
  }

  /** A frame too short for the ports, or without a route, is never redirected. */
  lemma ShortOrLostNeverAdmitted(f: seq<u8>, route: Option<Route>, skb: Skb, localAddresses: set<u32>, now: u64)
    requires |f| < 38 || route.None?
    ensures !Admits(f, route, skb, localAddresses, now)
  {
  }

  /** The address of one interface: some bit set, and not the group bit. */
  predicate OneStation(m: Mac) {
    (exists j :: 0 <= j < 6 && m[j] != 0) && m[0] % 2 == 0
  }

  lemma StationIffUnicast(m: Mac)
    ensures UnicastMac(m) <==> OneStation(m)
  {
  }

  datatype Action = Pipe | Shot | Redirect(ifindex: u32)

  /** Which of the foreign calls of `transmit` succeed. */
  datatype Helpers = Helpers(storeHeader: bool, storeMacs: bool, redirect: bool)

  lemma SumNext(ws: seq<u16>, i: nat)
    requires i < |ws|
    ensures Sum(ws[..i + 1]) == Sum(ws[..i]) + ws[i]
  {
    assert ws[..i + 1][..i] == ws[..i];
  }

  /** The checksum loop: the plain sum of the ten header words. */
  method HeaderSum(h: seq<u8>) returns (sum: nat)
    requires |h| == 20
    ensures sum == Sum(WordsOf(h))
  {
    sum := 0;
    var offset := 0;
    ghost var ws, i := WordsOf(h), 0;
    while offset < 20
      invariant 0 <= i <= 10 && offset == 2 * i && sum == Sum(ws[..i])
    {
      SumNext(ws, i);
      sum := sum + Half(h[offset], h[offset + 1]);
      offset, i := offset + 2, i + 1;
    }
    assert ws[..10] == ws;
  }

  /** `sum` folded twice is all ones. */
  method ChecksumOk(h: seq<u8>) returns (ok: bool)
    requires |h| == 20
    ensures ok <==> Valid(WordsOf(h))
  {
    var sum := HeaderSum(h);
    ok := Fold(Fold(sum)) == 0xffff;
    TwoFoldsSuffice(WordsOf(h));
  }

  /** The incrementally updated checksum for a TTL one lower. */
  function TtlCheck(f: seq<u8>): (c: u16)
    requires |f| >= 34 && f[22] > 0
  {
    IncrementalCsum(Half(f[24], f[25]), Half(f[22], f[23]), Half(f[22] - 1, f[23]))
  }

  /** The frame as it leaves: new MAC addresses, TTL one lower, checksum updated. */
  function Transmitted(f: seq<u8>, sourceMac: Mac, destinationMac: Mac): (r: seq<u8>)
    requires |f| >= 34 && f[22] > 0
  {
    Edited(destinationMac + sourceMac + f[12..], 22, f[22] - 1, TtlCheck(f))
  }

  /** `redirect_packet::transmit`. */
  method Transmit(frame: array<u8>, ip: seq<u8>, ifindex: u32, sourceMac: Mac, destinationMac: Mac, helpers: Helpers)
    returns (action: Option<Action>)
    requires frame.Length >= 34 && ip == frame[14..34] && ip[8] > 0
    modifies frame
    ensures action ==
            if helpers.storeHeader && helpers.storeMacs && helpers.redirect then Some(Redirect(ifindex)) else None
    ensures action.Some? ==> frame[..] == Transmitted(old(frame[..]), sourceMac, destinationMac)
  {
    var oldWord := Half(ip[8], ip[9]);
    var newWord := Half(ip[8] - 1, ip[9]);
    var check := IncrementalCsum(Half(ip[10], ip[11]), oldWord, newWord);
    var edited := ip[8 := ip[8] - 1][10 := Hi(check)][11 := Lo(check)];
    if !helpers.storeHeader {
      return None;
    }
    StoredTwice(frame[..], ip[8] - 1, check, destinationMac + sourceMac);
    StoreBytes(frame, 14, edited);
    if !helpers.storeMacs {
      return None;
    }
    StoreBytes(frame, 0, destinationMac + sourceMac);
    if !helpers.redirect {
      return None;
    }
    action := Some(Redirect(ifindex));
  }

  /** Where the two writes of a transmission land. */
  lemma StoredTwice(f: seq<u8>, ttl: u8, c: u16, macs: seq<u8>)
    requires |f| >= 34 && |macs| == 12
    ensures Stored(Stored(f, 14, f[14..34][8 := ttl][10 := Hi(c)][11 := Lo(c)]), 0, macs)
         == Edited(macs + f[12..], 22, ttl, c)
  {
    var h := f[14..34][8 := ttl][10 := Hi(c)][11 := Lo(c)];
    var r, e := Stored(Stored(f, 14, h), 0, macs), Edited(macs + f[12..], 22, ttl, c);
    forall j | 0 <= j < |f|
      ensures r[j] == e[j]
    {
      if 14 <= j < 34 {
        assert r[j] == h[j - 14] && f[14..34][j - 14] == f[j];
      }
    }
  }

  /** `redirect::forward`: passed on untouched, or rewritten and sent, or dropped; never half-edited and passed on. */
  method Forward(frame: array<u8>, route: Option<Route>, skb: Skb, localAddresses: set<u32>, now: u64, helpers: Helpers)
    returns (action: Action)
    modifies frame
    ensures action.Pipe? <==> !Admits(old(frame[..]), route, skb, localAddresses, now)
    ensures action.Pipe? ==> frame[..] == old(frame[..])
    ensures action.Redirect? <==> !action.Pipe? && helpers == Helpers(true, true, true)
    ensures action.Redirect? ==>
              action.ifindex == route.value.ifindex && old(frame.Length >= 34 && frame[22] > 1)
              && frame[..] == Transmitted(old(frame[..]), route.value.sourceMac, route.value.destinationMac)
  {
    if route.None? || frame.Length < 34 {
      return Pipe;
    }
    var ip := frame[14..34];
    if !PlainPacket(ip, skb) || !ForwardableSource(ip, localAddresses) {
      return Pipe;
    }
    if !WholePacket(ip, frame.Length) {
      return Pipe;
    }
    var packet := RedirectPacket(Address(ip, 16), Half(frame[36], frame[37]), skb.ingressIfindex,
                                 Half(ip[2], ip[3]), ip[8], ip[1] / 4);
    assert packet == PacketOf(frame[..], skb);
    if Validate(route.value, packet, now) != None {
      return Pipe;
    }
    var ok := ChecksumOk(ip);
    if !ok {
      return Pipe;
    }
    var sent := Transmit(frame, ip, route.value.ifindex, route.value.sourceMac, route.value.destinationMac, helpers);
    action := if sent.Some? then sent.value else Shot;
  }

  /** New MAC addresses do not reach the header. */
  lemma BehindMacs(f: seq<u8>, macs: seq<u8>)
    requires |f| >= 34 && |macs| == 12
    ensures |macs + f[12..]| == |f| && (macs + f[12..])[14..34] == f[14..34]
    ensures forall j :: 12 <= j < |f| ==> (macs + f[12..])[j] == f[j]
  {
  }

  /** A transmitted packet has a TTL exactly one lower, an intact header if it had one, the new MACs, and is otherwise
      unchanged. */
  lemma TransmitPreserves(f: seq<u8>, sourceMac: Mac, destinationMac: Mac)
    requires |f| >= 34 && f[22] > 0 && f[14] > 0
    ensures var r := Transmitted(f, sourceMac, destinationMac);
            |r| == |f| && r[22] == f[22] - 1 && r[..12] == destinationMac + sourceMac
            && (forall j :: 12 <= j < |f| && j != 22 && j != 24 && j != 25 ==> r[j] == f[j])
            && (Valid(WordsOf(r[14..34])) <==> Valid(WordsOf(f[14..34])))
  {
    var g := destinationMac + sourceMac + f[12..];
    BehindMacs(f, destinationMac + sourceMac);
    TtlEditKeepsChecksum(g, f, TtlCheck(f));
    EditedElsewhere(g, f[22] - 1, TtlCheck(f));
  }

  lemma EditedElsewhere(g: seq<u8>, ttl: u8, c: u16)
    requires |g| >= 34
    ensures var r := Edited(g, 22, ttl, c);
            r[22] == ttl && r[..12] == g[..12]
            && forall j :: 0 <= j < |g| && j != 22 && j != 24 && j != 25 ==> r[j] == g[j]
  {
  }

  lemma TtlEditKeepsChecksum(g: seq<u8>, f: seq<u8>, c: u16)
    requires |f| >= 34 && f[22] > 0 && f[14] > 0 && |g| == |f| && g[14..34] == f[14..34] && c == TtlCheck(f)
    ensures Valid(WordsOf(Edited(g, 22, f[22] - 1, c)[14..34])) <==> Valid(WordsOf(f[14..34]))
  {
    var h := f[14..34];
    assert h[0] == f[14] && h[8] == f[22] && h[9] == f[23] && h[10] == f[24] && h[11] == f[25];
    EditedHeader(g, 20, 8, f[22] - 1, c);
    EditIsRewrite(h, f[22] - 1, c);
    RewrittenValidIff(h, 4, f[22] - 1, h[9], 5, c);
  }

  // ---- Return path -----------------------------------------------------------------------------

  /** What the kernel routing lookup and the admission lease say about a reply. */
  datatype ReturnRoute = ReturnRoute(ifindex: u32, sourceMac: Mac, destinationMac: Mac, vlan: bool, leaseExpiresNs: u64)

  predicate UnicastAddress(h: seq<u8>, at: nat)
    requires at + 4 <= |h|
  {
    h[at] != 0 && h[at] != 127 && h[at] < 224 && !(h[at] == 169 && h[at + 1] == 254)
  }

  /** What `redirect_packet::read` asks. */
  predicate Readable(f: seq<u8>, skb: Skb) {
    |f| >= 34 && PlainPacket(f[14..34], skb) && WholePacket(f[14..34], |f|) && Valid(WordsOf(f[14..34]))
  }

  /** A header can be read if and only if the packet is plain and the header intact. */
  lemma ReadableIff(f: seq<u8>, skb: Skb)
    ensures Readable(f, skb) <==> Plain(f, skb) && IntactHeader(f)
  {
    if |f| >= 34 {
      PlainIff(f, skb);
    }
  }

  predicate RouteUsable(r: ReturnRoute, hookIfindex: u32, now: u64) {
    r.leaseExpiresNs > now && r.ifindex != 0 && r.ifindex != hookIfindex && !r.vlan
    && UnicastMac(r.sourceMac) && UnicastMac(r.destinationMac)
  }

  /** Everything `return_redirect::forward` asks before it touches the packet. */
  predicate AdmitsReturn(f: seq<u8>, route: Option<ReturnRoute>, skb: Skb, hookIfindex: u32, now: u64) {
    Readable(f, skb)
    && f[22] > 1 && UnicastAddress(f[14..34], 12) && UnicastAddress(f[14..34], 16)
    && route.Some? && RouteUsable(route.value, hookIfindex, now)
  }

  lemma UnicastIff(f: seq<u8>, at: nat)
    requires |f| >= 34 && at + 4 <= 20
    ensures UnicastAddress(f[14..34], at) <==> Unicast(f, 14 + at)
  {
    assert f[14..34][at] == f[14 + at] && f[14..34][at + 1] == f[14 + at + 1];
  }

  /** The route is leased, leads to another interface without VLAN, and has the addresses of two stations. */
  predicate Leased(r: ReturnRoute, hookIfindex: u32, now: u64) {
    now < r.leaseExpiresNs && r.ifindex != 0 && r.ifindex != hookIfindex && !r.vlan
    && OneStation(r.sourceMac) && OneStation(r.destinationMac)
  }

  lemma LeasedIff(r: ReturnRoute, hookIfindex: u32, now: u64)
    ensures RouteUsable(r, hookIfindex, now) <==> Leased(r, hookIfindex, now)
  {
    StationIffUnicast(r.sourceMac);
    StationIffUnicast(r.destinationMac);
  }

  /** A reply is redirected if and only if its header can be read, with a hop left and unicast addresses, and its route
      is leased. */
  lemma ReturnAdmittedIff(f: seq<u8>, r: ReturnRoute, skb: Skb, hookIfindex: u32, now: u64)
    requires |f| >= 34
    ensures AdmitsReturn(f, Some(r), skb, hookIfindex, now)
       <==> Readable(f, skb) && f[22] > 1 && Unicast(f, 26) && Unicast(f, 30) && Leased(r, hookIfindex, now)
  {
    UnicastIff(f, 12);
    UnicastIff(f, 16);
    LeasedIff(r, hookIfindex, now);
  }

  /** `redirect_packet::read`. */
  method ReadHeader(frame: array<u8>, skb: Skb) returns (ip: Option<seq<u8>>)
    ensures ip.Some? <==> Readable(frame[..], skb)
    ensures ip.Some? ==> ip.value == frame[14..34]
  {
    if frame.Length < 34 {
      return None;
    }
    var h := frame[14..34];
    assert h == frame[..][14..34];
    if !PlainPacket(h, skb) || !WholePacket(h, frame.Length) {
      return None;
    }
    var ok := ChecksumOk(h);
    ip := if ok then Some(h) else None;
  }

  /** `return_redirect::forward`. */
  method ForwardReturn(frame: array<u8>, route: Option<ReturnRoute>, skb: Skb, hookIfindex: u32, now: u64,
                       helpers: Helpers)
    returns (action: Action)
    modifies frame
    ensures action.Pipe? <==> !AdmitsReturn(old(frame[..]), route, skb, hookIfindex, now)
    ensures action.Pipe? ==> frame[..] == old(frame[..])
    ensures action.Redirect? <==> !action.Pipe? && helpers == Helpers(true, true, true)
    ensures action.Redirect? ==>
              action.ifindex == route.value.ifindex && old(frame.Length >= 34 && frame[22] > 1)
              && frame[..] == Transmitted(old(frame[..]), route.value.sourceMac, route.value.destinationMac)
  {
    var header := ReadHeader(frame, skb);
    assert frame.Length >= 34 ==> frame[..][14..34] == frame[14..34];
    if header.None? {
      return Pipe;
    }
    var ip := header.value;
    if ip[8] <= 1 || !UnicastAddress(ip, 12) || !UnicastAddress(ip, 16) {
      return Pipe;
    }
    if route.None? || route.value.leaseExpiresNs <= now {
      return Pipe;
    }
    if route.value.ifindex == 0 || route.value.ifindex == hookIfindex || route.value.vlan
       || !UnicastMac(route.value.sourceMac) || !UnicastMac(route.value.destinationMac) {
      return Pipe;
    }
    var sent := Transmit(frame, ip, route.value.ifindex, route.value.sourceMac, route.value.destinationMac, helpers);
    action := if sent.Some? then sent.value else Shot;
  }
}
