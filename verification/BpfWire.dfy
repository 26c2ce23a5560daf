/** The compiled filter and a frame in octets alone. */
module BpfWire {
  import opened BpfMachine
  import opened BpfFilter
  import opened BpfFilterProofs
  import opened BpfFilterResults
  import opened SocketPorts

  // Which network header the frame carries, and where it starts.
  datatype Net = NoNet | ArpPacket | V4Packet(at: nat) | V6Packet(at: nat)

  function NetOfType(t: nat, at: nat): Net {
    if t == 2048 then V4Packet(at) else if t == 34525 then V6Packet(at) else if t == 2054 then ArpPacket else NoNet
  }

  function NetOfVersion(b: seq<byte>): Net {
    if |b| > 0 && 64 <= b[0] < 80 then V4Packet(0) else if |b| > 0 && 96 <= b[0] < 112 then V6Packet(0) else NoNet
  }

  function NetOfFamily(family: nat, platform: Platform): Net {
    if family == platform.pfInet then V4Packet(4)
    else if family == platform.pfInet6 then V6Packet(4)
    else NoNet
  }

  function NetOf(platform: Platform, rx: RxType, f: Frame): Net {
    var b := f.bytes;
    match rx
    case Ethernet => if |b| < 14 then NoNet else NetOfType(256 * b[12] as nat + b[13] as nat, 14)
    case NullLink =>
      if |b| < 4 then NoNet
      else if platform.littleEndian then
        NetOfFamily(16777216 * b[3] as nat + 65536 * b[2] as nat + 256 * b[1] as nat + b[0] as nat, platform)
      else
        NetOfFamily(16777216 * b[0] as nat + 65536 * b[1] as nat + 256 * b[2] as nat + b[3] as nat, platform)
    case Cooked =>
      if f.hatype == 1 || f.hatype == 772 then NetOfType(f.protocol, 0)
      else if f.hatype == 512 || (platform.sit && f.hatype == 776) || (platform.voidLink && f.hatype == 65535) then
        NetOfVersion(b)
      else NoNet
    case Raw => NetOfVersion(b)
    case Unsupported => NoNet
  }

  // A transport header whose source or destination port is in the list.
  predicate PortIn(ports: seq<Port>, b: seq<byte>, at: nat) {
    || (at + 2 <= |b| && 256 * b[at] as nat + b[at + 1] as nat in ports)
    || (at + 4 <= |b| && 256 * b[at + 2] as nat + b[at + 3] as nat in ports)
  }

  predicate KeepsV4(l: PortLists, b: seq<byte>, o: nat) {
    || (o + 8 <= |b| && (b[o + 6] % 32 != 0 || b[o + 7] != 0))
    || (o + 10 <= |b| &&
        (b[o + 9] == 1
         || (b[o + 9] == 17 && PortIn(l.udp4, b, o + 4 * (b[o] % 16)))
         || (b[o + 9] == 6 && PortIn(l.tcp4, b, o + 4 * (b[o] % 16)))))
  }

  predicate KeepsV6(l: PortLists, b: seq<byte>, o: nat) {
    o + 7 <= |b| &&
    (b[o + 6] in [0, 43, 44, 58, 60]
     || (b[o + 6] == 17 && PortIn(l.udp6, b, o + 40))
     || (b[o + 6] == 6 && PortIn(l.tcp6, b, o + 40)))
  }

  /** What the filter is to keep of what the link receives. */
  predicate Keeps(platform: Platform, rx: RxType, l: PortLists, f: Frame) {
    match NetOf(platform, rx, f)
    case NoNet => false
    case ArpPacket => true
    case V4Packet(o) => KeepsV4(l, f.bytes, o)
    case V6Packet(o) => KeepsV6(l, f.bytes, o)
  }

  // ---------- The same in the terms of the proofs ----------

  lemma NetIsFamily(platform: Platform, rx: RxType, f: Frame)
    requires Supported(platform, rx)
    ensures NetOf(platform, rx, f) ==
            match FamilyOf(platform, rx, f)
            case Arp => ArpPacket
            case Ip4 => V4Packet(IpOffset(rx))
            case Ip6 => V6Packet(IpOffset(rx))
            case Other => NoNet
  {
  }

  lemma PortInHit(ports: seq<Port>, b: seq<byte>, at: nat)
    ensures PortIn(ports, b, at) ==> PortsHit(ports, b, at) && |ports| > 0
    ensures |ports| <= 20 ==> (PortIn(ports, b, at) <==> PortsHit(ports, b, at))
  {
    hide MinPort, MaxPort;
  }

  // A hit settles the frame, whichever list comes next.
  lemma HitAccepts(ports: seq<Port>, b: seq<byte>, at: nat)
    ensures PortsHit(ports, b, at) ==> PortsVerdict(ports, b, at).Accept?
  {
    hide MinPort, MaxPort;
  }

  lemma FragmentIs(b: seq<byte>, o: nat)
    ensures Fragment(b, o) <==> o + 8 <= |b| && (b[o + 6] % 32 != 0 || b[o + 7] != 0)
  {
    if o + 8 <= |b| {
      var hi, lo: int := b[o + 6], b[o + 7];
      RemainderIs(256 * hi + lo, 0x2000, hi / 32, 256 * (hi % 32) + lo);
    }
  }

  lemma V4KeepsIs(l: PortLists, b: seq<byte>, o: nat)
    ensures KeepsV4(l, b, o) ==> V4Decides(l, b, o)
    ensures |l.udp4| <= 20 && |l.tcp4| <= 20 ==> (KeepsV4(l, b, o) <==> V4Wanted(l, b, o))
  {
    hide PortIn, PortsHit, PortsVerdict, Fragment, V6Decides;
    FragmentIs(b, o);
    if o + 10 <= |b| {
      var at := TransportOffset(b, o);
      PortInHit(l.udp4, b, at);
      PortInHit(l.tcp4, b, at);
      HitAccepts(l.udp4, b, at);
      HitAccepts(l.tcp4, b, at);
    }
  }

  lemma V6KeepsIs(l: PortLists, b: seq<byte>, o: nat)
    ensures KeepsV6(l, b, o) ==> V6Decides(l, b, o)
    ensures |l.udp6| <= 20 && |l.tcp6| <= 20 ==> (KeepsV6(l, b, o) <==> V6Wanted(l, b, o))
  {
    hide PortIn, PortsHit, PortsVerdict;
    PortInHit(l.udp6, b, o + 40);
    PortInHit(l.tcp6, b, o + 40);
    HitAccepts(l.udp6, b, o + 40);
    HitAccepts(l.tcp6, b, o + 40);
  }

  // ---------- The results ----------

  /** However long the lists are, what is to be kept is kept whole. */
  lemma KeptWhole(platform: Platform, rx: RxType, l: PortLists, f: Frame)
    requires platform.Valid() && Supported(platform, rx)
    requires Keeps(platform, rx, l, f) && |f.bytes| <= 65535
    ensures Run(Program(platform, rx, l), 0, 0, 0, f) >= |f.bytes|
    ensures Run(Program(platform, rx, l), 0, 0, 0, f) > 0
  {
    hide Program, Run, NetOf, FamilyOf, V4Decides, V6Decides, KeepsV4, KeepsV6, IpOffset;
    NetIsFamily(platform, rx, f);
    V4KeepsIs(l, f.bytes, IpOffset(rx));
    V6KeepsIs(l, f.bytes, IpOffset(rx));
    AcceptedWhole(platform, rx, l, f);
  }

  /** With at most 20 ports in each list nothing else passes. */
  lemma NothingElse(platform: Platform, rx: RxType, l: PortLists, f: Frame)
    requires platform.Valid() && Supported(platform, rx)
    requires |l.udp4| <= 20 && |l.tcp4| <= 20 && |l.udp6| <= 20 && |l.tcp6| <= 20
    ensures Run(Program(platform, rx, l), 0, 0, 0, f) == if Keeps(platform, rx, l, f) then 65535 else 0
  {
    hide Program, Run, NetOf, FamilyOf, V4Wanted, V6Wanted, KeepsV4, KeepsV6, IpOffset;
    NetIsFamily(platform, rx, f);
    V4KeepsIs(l, f.bytes, IpOffset(rx));
    V6KeepsIs(l, f.bytes, IpOffset(rx));
    ShortListsExact(platform, rx, l);
    AcceptedWhole(platform, rx, l, f);
  }

  /** Only an unknown link type, the null link where it is not compiled in and
      the cooked socket outside Linux get no filter. */
  lemma SupportedIs(platform: Platform, rx: RxType)
    ensures Supported(platform, rx) <==>
              rx == Ethernet || rx == Raw || (rx == NullLink && platform.nullLink) || (rx == Cooked && platform.linux)
  {
  }

  // ---------- From the open sockets to the frames kept ----------

  lemma {:induction false} SportsAre(fds: seq<Fd>, kind: FdType, p: Port)
    ensures p in SportsOf(fds, kind) <==> Fd(kind, p) in fds
    decreases |fds|
  {
    if fds != [] {
      SportsAre(fds[..|fds| - 1], kind, p);
      assert fds == fds[..|fds| - 1] + [fds[|fds| - 1]];
    }
  }

  // A transport header with the port of a socket of this kind.
  predicate SocketAt(fds: seq<Fd>, kind: FdType, b: seq<byte>, at: nat) {
    || (at + 2 <= |b| && Fd(kind, 256 * b[at] as nat + b[at + 1] as nat) in fds)
    || (at + 4 <= |b| && Fd(kind, 256 * b[at + 2] as nat + b[at + 3] as nat) in fds)
  }

  lemma SocketIsPort(fds: seq<Fd>, kind: FdType, b: seq<byte>, at: nat)
    ensures SocketAt(fds, kind, b, at) <==> PortIn(SportsOf(fds, kind), b, at)
  {
    hide SportsOf;
    if at + 2 <= |b| {
      SportsAre(fds, kind, 256 * b[at] as nat + b[at + 1] as nat);
    }
    if at + 4 <= |b| {
      SportsAre(fds, kind, 256 * b[at + 2] as nat + b[at + 3] as nat);
    }
  }

  /** The frames that scamper is to see: ARP, later IPv4 fragments, ICMP, IPv6
      extension headers, and UDP and TCP to or from one of its sockets. */
  predicate SeenBy(platform: Platform, rx: RxType, fds: seq<Fd>, f: Frame) {
    var b := f.bytes;
    match NetOf(platform, rx, f)
    case NoNet => false
    case ArpPacket => true
    case V4Packet(o) =>
      || (o + 8 <= |b| && (b[o + 6] % 32 != 0 || b[o + 7] != 0))
      || (o + 10 <= |b| &&
          (b[o + 9] == 1
           || (b[o + 9] == 17 && SocketAt(fds, Udp4dg, b, o + 4 * (b[o] % 16)))
           || (b[o + 9] == 6 && SocketAt(fds, Tcp4, b, o + 4 * (b[o] % 16)))))
    case V6Packet(o) =>
      o + 7 <= |b| &&
      (b[o + 6] in [0, 43, 44, 58, 60]
       || (b[o + 6] == 17 && SocketAt(fds, Udp6, b, o + 40))
       || (b[o + 6] == 6 && SocketAt(fds, Tcp6, b, o + 40)))
  }

  lemma SeenIsKept(platform: Platform, rx: RxType, fds: seq<Fd>, f: Frame)
    ensures var l := PortLists(SportsOf(fds, Udp4dg), SportsOf(fds, Tcp4), SportsOf(fds, Udp6), SportsOf(fds, Tcp6));
            SeenBy(platform, rx, fds, f) <==> Keeps(platform, rx, l, f)
  {
    hide NetOf, SportsOf, SocketAt, PortIn;
    var b := f.bytes;
    match NetOf(platform, rx, f)
    case V4Packet(o) =>
      if o + 10 <= |b| {
        SocketIsPort(fds, Udp4dg, b, o + 4 * (b[o] % 16));
        SocketIsPort(fds, Tcp4, b, o + 4 * (b[o] % 16));
      }
    case V6Packet(o) =>
      SocketIsPort(fds, Udp6, b, o + 40);
      SocketIsPort(fds, Tcp6, b, o + 40);
    case _ =>
  }

  /** From the open sockets to the frames: the filter compiled from what
      scamper_fds_sports lays out keeps every such frame whole, and with at most
      20 sockets of each kind no other. */
  lemma SocketsSee(platform: Platform, rx: RxType, fds: seq<Fd>, f: Frame)
    requires platform.Valid() && Supported(platform, rx) && CountsFit(fds)
    ensures WellLaidOut(Layout(fds))
    ensures var kept := Run(Program(platform, rx, Lists(Layout(fds))), 0, 0, 0, f);
            && (SeenBy(platform, rx, fds, f) && |f.bytes| <= 65535 ==> kept >= |f.bytes| && kept > 0)
            && (!SeenBy(platform, rx, fds, f) && (forall kind :: |SportsOf(fds, kind)| <= 20) ==> kept == 0)
  {
    hide Layout, Program, Run, SeenBy, Keeps, SportsOf, Lists;
    ListsOfLayout(fds);
    SeenIsKept(platform, rx, fds, f);
    var l := Lists(Layout(fds));
    if Keeps(platform, rx, l, f) && |f.bytes| <= 65535 {
      KeptWhole(platform, rx, l, f);
    }
    if forall kind :: |SportsOf(fds, kind)| <= 20 {
      NothingElse(platform, rx, l, f);
    }
  }
}
