/** The main results about the compiled filter: when it is exact, that it never
    drops a listed port, and that its jumps stay inside the program. */
module BpfFilterResults {
  import opened BpfMachine
  import opened BpfFilter
  import opened BpfFilterProofs

  // ---------- Exactness ----------

  predicate Short(ports: seq<Port>) {
    |ports| <= DYN_FILTER_PORT_MAX
  }

  // A range test that no destination port can run on from.
  predicate NeverRunsOn(ports: seq<Port>) {
    Short(ports) || MinPort(ports) == 0
  }

  // Every port that inner covers lies in the range of the long list outer.
  predicate Within(inner: seq<Port>, outer: seq<Port>)
    requires !Short(outer)
  {
    if Short(inner) then forall p :: p in inner ==> Covers(outer, p)
    else MinPort(outer) <= MinPort(inner) && MaxPort(inner) <= MaxPort(outer)
  }

  /** The port lists for which running on does no harm: either no list can run
      on, or what it runs on into can only accept what was wanted anyway. */
  predicate LeakFree(l: PortLists) {
    && (NeverRunsOn(l.udp4) || (|l.tcp4| > 0 && Short(l.tcp4) && Within(l.tcp4, l.udp4)))
    && NeverRunsOn(l.tcp4)
    && (NeverRunsOn(l.udp6) || Within(l.tcp6, l.udp6))
  }

  lemma VerdictIsHit(ports: seq<Port>, b: seq<byte>, at: nat)
    ensures PortsVerdict(ports, b, at).Accept? <==> PortsHit(ports, b, at)
    ensures NeverRunsOn(ports) ==> !PortsVerdict(ports, b, at).RunOn?
  {
    hide MinPort, MaxPort;
  }

  // Running on from outer into inner accepts nothing when inner is within outer.
  lemma RunOnHarmless(outer: seq<Port>, inner: seq<Port>, b: seq<byte>, at: nat)
    requires PortsVerdict(outer, b, at).RunOn? && Within(inner, outer)
    ensures !PortsVerdict(inner, b, at).Accept?
    ensures Short(inner) ==> PortsVerdict(inner, b, at).Reject?
  {
    hide MinPort, MaxPort;
  }

  lemma V6Exact(l: PortLists, b: seq<byte>, o: nat)
    requires NeverRunsOn(l.udp6) || Within(l.tcp6, l.udp6)
    ensures V6Decides(l, b, o) <==> V6Wanted(l, b, o)
  {
    hide PortsVerdict, PortsHit, Within;
    VerdictIsHit(l.udp6, b, o + 40);
    VerdictIsHit(l.tcp6, b, o + 40);
    NoPortsNoHit(l.udp6, b, o + 40);
    NoPortsNoHit(l.tcp6, b, o + 40);
    if PortsVerdict(l.udp6, b, o + 40).RunOn? {
      RunOnHarmless(l.udp6, l.tcp6, b, o + 40);
    }
  }

  lemma NoPortsNoHit(ports: seq<Port>, b: seq<byte>, at: nat)
    ensures |ports| == 0 ==> !PortsHit(ports, b, at)
  {
  }

  lemma V4Exact(l: PortLists, b: seq<byte>, o: nat)
    requires LeakFree(l)
    ensures V4Decides(l, b, o) <==> V4Wanted(l, b, o)
  {
    hide PortsVerdict, PortsHit, Within, MinPort, V6Decides, Fragment;
    if o < |b| {
      var at := TransportOffset(b, o);
      VerdictIsHit(l.udp4, b, at);
      VerdictIsHit(l.tcp4, b, at);
      NoPortsNoHit(l.udp4, b, at);
      NoPortsNoHit(l.tcp4, b, at);
      if PortsVerdict(l.udp4, b, at).RunOn? {
        RunOnHarmless(l.udp4, l.tcp4, b, at);
      }
    }
  }

  // ---------- Frames that show a leak ----------

  function Zeros(n: nat): (z: seq<byte>)
    ensures |z| == n && forall i :: 0 <= i < n ==> z[i] == 0
  {
    seq(n, _ => 0)
  }

  function FamilyBytes(platform: Platform, family: nat): (b: seq<byte>)
    requires family < 256
    ensures |b| == 4 && HostWord(platform, b) == family
  {
    if platform.littleEndian then [family, 0, 0, 0] else [0, 0, 0, family]
  }

  // The link header of an IPv4 (v4) or IPv6 frame.
  function LinkHeader(platform: Platform, rx: RxType, v4: bool): (b: seq<byte>)
    requires platform.Valid()
    ensures |b| == IpOffset(rx)
  {
    match rx
    case Ethernet => Zeros(12) + (if v4 then [0x08, 0x00] else [0x86, 0xDD])
    case NullLink => FamilyBytes(platform, if v4 then platform.pfInet else platform.pfInet6)
    case _ => []
  }

  function PortBytes(src: Port, dst: Port): (b: seq<byte>)
    ensures |b| == 4
  {
    [src / 256, src % 256, dst / 256, dst % 256]
  }

  function MakeV4(platform: Platform, rx: RxType, proto: byte, src: Port, dst: Port): Frame
    requires platform.Valid()
  {
    Frame(LinkHeader(platform, rx, true) +
          ([0x45] + Zeros(8) + [proto] + Zeros(10) + PortBytes(src, dst)), ARPHRD_PPP, 0)
  }

  function MakeV6(platform: Platform, rx: RxType, next: byte, src: Port, dst: Port): Frame
    requires platform.Valid()
  {
    Frame(LinkHeader(platform, rx, false) +
          ([0x60] + Zeros(5) + [next] + Zeros(33) + PortBytes(src, dst)), ARPHRD_PPP, 0)
  }

  lemma PortBytesAt(b: seq<byte>, at: nat, src: Port, dst: Port)
    requires at + 4 == |b| && b[at..] == PortBytes(src, dst)
    ensures Half16(b, at) == src && Half16(b, at + 2) == dst
  {
    assert b[at] == b[at..][0] && b[at + 1] == b[at..][1];
    assert b[at + 2] == b[at..][2] && b[at + 3] == b[at..][3];
  }

  lemma LinkHeaderFamily(platform: Platform, rx: RxType, v4: bool, ip: seq<byte>)
    requires platform.Valid() && Supported(platform, rx)
    requires |ip| > 0 && ip[0] / 16 == if v4 then 4 else 6
    ensures FamilyOf(platform, rx, Frame(LinkHeader(platform, rx, v4) + ip, ARPHRD_PPP, 0)) ==
            if v4 then Ip4 else Ip6
  {
    var link := LinkHeader(platform, rx, v4);
    var b := link + ip;
    if rx == Ethernet {
      assert b[12] == link[12] && b[13] == link[13];
    } else if rx == NullLink {
      assert b[0] == link[0] && b[1] == link[1] && b[2] == link[2] && b[3] == link[3];
    } else {
      assert b[0] == ip[0];
    }
  }

  lemma MakeV4Is(platform: Platform, rx: RxType, proto: byte, src: Port, dst: Port)
    requires platform.Valid() && Supported(platform, rx)
    ensures var f, o := MakeV4(platform, rx, proto, src, dst), IpOffset(rx);
            FamilyOf(platform, rx, f) == Ip4 && |f.bytes| == o + 24 && !Fragment(f.bytes, o) &&
            f.bytes[o + 6] == 0 && f.bytes[o + 9] == proto && TransportOffset(f.bytes, o) == o + 20 &&
            Half16(f.bytes, o + 20) == src && Half16(f.bytes, o + 22) == dst
  {
    hide FamilyOf, LinkHeader, PortBytes;
    var ip := [0x45] + Zeros(8) + [proto] + Zeros(10) + PortBytes(src, dst);
    LinkHeaderFamily(platform, rx, true, ip);
    var b, o := MakeV4(platform, rx, proto, src, dst).bytes, IpOffset(rx);
    assert b[o] == ip[0] && b[o + 6] == ip[6] && b[o + 7] == ip[7] && b[o + 9] == ip[9];
    assert b[o + 20..] == PortBytes(src, dst);
    PortBytesAt(b, o + 20, src, dst);
  }

  lemma MakeV6Is(platform: Platform, rx: RxType, next: byte, src: Port, dst: Port)
    requires platform.Valid() && Supported(platform, rx)
    ensures var f, o := MakeV6(platform, rx, next, src, dst), IpOffset(rx);
            FamilyOf(platform, rx, f) == Ip6 && |f.bytes| == o + 44 && f.bytes[o + 6] == next &&
            Half16(f.bytes, o + 40) == src && Half16(f.bytes, o + 42) == dst
  {
    hide FamilyOf, LinkHeader, PortBytes;
    var ip := [0x60] + Zeros(5) + [next] + Zeros(33) + PortBytes(src, dst);
    LinkHeaderFamily(platform, rx, false, ip);
    var b, o := MakeV6(platform, rx, next, src, dst).bytes, IpOffset(rx);
    assert b[o] == ip[0] && b[o + 6] == ip[6];
    assert b[o + 40..] == PortBytes(src, dst);
    PortBytesAt(b, o + 40, src, dst);
  }

  // The witness for one IPv4 leak: the list of proto does not cover src or 0,
  // and 0 is below its range.
  lemma V4LeakWitness(platform: Platform, rx: RxType, l: PortLists, udp: bool, src: Port) returns (f: Frame)
    requires platform.Valid() && Supported(platform, rx)
    requires var ports := if udp then l.udp4 else l.tcp4; !NeverRunsOn(ports) && !Covers(ports, src)
    requires udp ==> |l.tcp4| == 0 || Covers(l.tcp4, src)
    ensures Decides(platform, rx, l, f) && !Wanted(platform, rx, l, f)
  {
    hide FamilyOf, MakeV4, MinPort, MaxPort, Fragment, TransportOffset;
    f := MakeV4(platform, rx, if udp then IPPROTO_UDP else IPPROTO_TCP, src, 0);
    MakeV4Is(platform, rx, if udp then IPPROTO_UDP else IPPROTO_TCP, src, 0);
  }

  lemma V6LeakWitness(platform: Platform, rx: RxType, l: PortLists, src: Port) returns (f: Frame)
    requires platform.Valid() && Supported(platform, rx)
    requires !NeverRunsOn(l.udp6) && !Covers(l.udp6, src) && Covers(l.tcp6, src)
    ensures Decides(platform, rx, l, f) && !Wanted(platform, rx, l, f)
  {
    hide FamilyOf, MakeV6, MinPort, MaxPort;
    f := MakeV6(platform, rx, IPPROTO_UDP, src, 0);
    MakeV6Is(platform, rx, IPPROTO_UDP, src, 0);
  }

  // A port that inner covers and outer does not.
  lemma OutsideWitness(inner: seq<Port>, outer: seq<Port>) returns (p: Port)
    requires !Short(outer) && !Within(inner, outer)
    ensures Covers(inner, p) && !Covers(outer, p)
  {
    hide MinPort, MaxPort;
    if Short(inner) {
      p :| p in inner && !Covers(outer, p);
    } else if MinPort(inner) < MinPort(outer) {
      p := MinPort(inner);
    } else {
      p := MaxPort(inner);
    }
  }

  lemma LeakWitness(platform: Platform, rx: RxType, l: PortLists) returns (f: Frame)
    requires platform.Valid() && Supported(platform, rx)
    requires !LeakFree(l)
    ensures Decides(platform, rx, l, f) && !Wanted(platform, rx, l, f)
  {
    hide Decides, Wanted, MinPort, MaxPort, Within;
    if !NeverRunsOn(l.tcp4) {
      f := V4LeakWitness(platform, rx, l, false, 0);
    } else if !(NeverRunsOn(l.udp4) || (|l.tcp4| > 0 && Short(l.tcp4) && Within(l.tcp4, l.udp4))) {
      var src: Port := 0;
      if |l.tcp4| > 0 && Short(l.tcp4) {
        src := OutsideWitness(l.tcp4, l.udp4);
      }
      f := V4LeakWitness(platform, rx, l, true, src);
    } else {
      var src := OutsideWitness(l.tcp6, l.udp6);
      f := V6LeakWitness(platform, rx, l, src);
    }
  }

  ghost predicate ExactFilter(platform: Platform, rx: RxType, l: PortLists) {
    forall f: Frame :: Run(Program(platform, rx, l), 0, 0, 0, f) != 0 <==> Wanted(platform, rx, l, f)
  }

  /** The compiled filter accepts exactly the wanted frames if and only if the
      port lists are leak free: a condition a caller can check beforehand. */
  lemma ExactIffLeakFree(platform: Platform, rx: RxType, l: PortLists)
    requires platform.Valid() && Supported(platform, rx)
    ensures ExactFilter(platform, rx, l) <==> LeakFree(l)
  {
    hide Program, Run, LeakFree, V4Decides, V4Wanted, V6Decides, V6Wanted, FamilyOf;
    if LeakFree(l) {
      forall f: Frame
        ensures Run(Program(platform, rx, l), 0, 0, 0, f) != 0 <==> Wanted(platform, rx, l, f)
      {
        ProgramDecides(platform, rx, l, f);
        V4Exact(l, f.bytes, IpOffset(rx));
        LeakFreeV6(l);
        V6Exact(l, f.bytes, IpOffset(rx));
      }
    } else {
      var f := LeakWitness(platform, rx, l);
      ProgramDecides(platform, rx, l, f);
    }
  }

  lemma LeakFreeV6(l: PortLists)
    requires LeakFree(l)
    ensures NeverRunsOn(l.udp6) || Within(l.tcp6, l.udp6)
  {
  }

  /** With at most 20 ports in each list the filter is exact, and covering a
      port then means listing it. */
  lemma ShortListsExact(platform: Platform, rx: RxType, l: PortLists)
    requires platform.Valid() && Supported(platform, rx)
    requires Short(l.udp4) && Short(l.tcp4) && Short(l.udp6)
    ensures ExactFilter(platform, rx, l)
  {
    hide ExactFilter;
    ExactIffLeakFree(platform, rx, l);
  }

  // ---------- How much of a frame is kept ----------

  /** An accepted frame is kept to its last byte; a rejected one not at all. */
  lemma AcceptedWhole(platform: Platform, rx: RxType, l: PortLists, f: Frame)
    requires platform.Valid() && Supported(platform, rx)
    ensures Decides(platform, rx, l, f) && |f.bytes| <= 65535 ==>
              Run(Program(platform, rx, l), 0, 0, 0, f) >= |f.bytes|
    ensures Run(Program(platform, rx, l), 0, 0, 0, f) in {0, 65535}
    ensures Run(Program(platform, rx, l), 0, 0, 0, f) == 65535 <==> Decides(platform, rx, l, f)
  {
    hide Program, Run, Decides;
    ProgramDecides(platform, rx, l, f);
  }

  // ---------- No listed port is dropped ----------

  // A UDP or TCP frame of either family to or from a listed port.
  predicate Listed(platform: Platform, rx: RxType, l: PortLists, f: Frame) {
    var b, o := f.bytes, IpOffset(rx);
    match FamilyOf(platform, rx, f)
    case Ip4 =>
      o + 9 < |b| && TransportOffset(b, o) + 4 <= |b| &&
      var at := TransportOffset(b, o);
      var ports := if b[o + 9] == IPPROTO_UDP then l.udp4 else if b[o + 9] == IPPROTO_TCP then l.tcp4 else [];
      Half16(b, at) in ports || Half16(b, at + 2) in ports
    case Ip6 =>
      o + 44 <= |b| &&
      var ports := if b[o + 6] == IPPROTO_UDP then l.udp6 else if b[o + 6] == IPPROTO_TCP then l.tcp6 else [];
      Half16(b, o + 40) in ports || Half16(b, o + 42) in ports
    case _ => false
  }

  lemma ListedIsCovered(ports: seq<Port>, p: nat)
    ensures p in ports ==> Covers(ports, p)
  {
  }

  lemma ListedDecides(platform: Platform, rx: RxType, l: PortLists, f: Frame)
    requires Listed(platform, rx, l, f)
    ensures Decides(platform, rx, l, f) && |f.bytes| > 0
  {
    hide FamilyOf, Covers, Fragment;
    var b, o := f.bytes, IpOffset(rx);
    if FamilyOf(platform, rx, f) == Ip4 {
      var at := TransportOffset(b, o);
      ListedIsCovered(l.udp4, Half16(b, at));
      ListedIsCovered(l.udp4, Half16(b, at + 2));
      ListedIsCovered(l.tcp4, Half16(b, at));
      ListedIsCovered(l.tcp4, Half16(b, at + 2));
    } else {
      ListedIsCovered(l.udp6, Half16(b, o + 40));
      ListedIsCovered(l.udp6, Half16(b, o + 42));
      ListedIsCovered(l.tcp6, Half16(b, o + 40));
      ListedIsCovered(l.tcp6, Half16(b, o + 42));
    }
  }

  /** However long the lists are, a frame to or from a listed port passes,
      and up to 65535 bytes of it are kept. */
  lemma ListedAccepted(platform: Platform, rx: RxType, l: PortLists, f: Frame)
    requires platform.Valid() && Supported(platform, rx)
    requires Listed(platform, rx, l, f)
    ensures Run(Program(platform, rx, l), 0, 0, 0, f) == ACCEPT_LEN
    ensures |f.bytes| <= 65535 ==> Run(Program(platform, rx, l), 0, 0, 0, f) >= |f.bytes| > 0
  {
    hide Program, Run, Decides, Listed;
    ListedDecides(platform, rx, l, f);
    ProgramDecides(platform, rx, l, f);
    AcceptedWhole(platform, rx, l, f);
  }

  // ---------- Jumps ----------

  // Every jump of the code, standing at off, lands before end.
  ghost predicate LandsInside(code: seq<Insn>, off: nat, end: nat) {
    forall i :: 0 <= i < |code| && IsJump(code[i].code) ==>
                  off + i + 1 + code[i].jt < end && off + i + 1 + code[i].jf < end
  }

  lemma LandsJoin(first: seq<Insn>, second: seq<Insn>, off: nat, end: nat)
    requires LandsInside(first, off, end) && LandsInside(second, off + |first|, end)
    ensures LandsInside(first + second, off, end)
  {
    forall i | 0 <= i < |first + second| && IsJump((first + second)[i].code)
      ensures var j := (first + second)[i]; off + i + 1 + j.jt < end && off + i + 1 + j.jf < end
    {
      if i >= |first| {
        assert (first + second)[i] == second[i - |first|];
      }
    }
  }

  lemma PortInsnsLand(len: nat, off: nat, ports: seq<Port>, load: Code, k: nat)
    requires |ports| > 0 && PortLoad(load) && off + PortCount(ports) + 2 <= len < 256
    ensures LandsInside(PortInsns(len, off, ports, load, k), off, len)
  {
    hide MinPort, MaxPort;
    var n := TestCount(ports);
    var s, d := SourceTests(len, off + 1, ports), DestTests(len, off + 2 + n, ports);
    SourceTestsLand(len, off + 1, ports);
    DestTestsLand(len, off + 2 + n, ports);
    hide SourceTests, DestTests;
    LandsJoin([Stmt(load, k)], s, off, len);
    LandsJoin([Stmt(load, k)] + s, [Stmt(load, k + 2)], off, len);
    LandsJoin([Stmt(load, k)] + s + [Stmt(load, k + 2)], d, off, len);
  }

  lemma SourceTestsLand(len: nat, off: nat, ports: seq<Port>)
    requires |ports| > 0 && off + TestCount(ports) + 2 < len < 256
    ensures LandsInside(SourceTests(len, off, ports), off, len)
  {
    hide MinPort, MaxPort;
  }

  lemma DestTestsLand(len: nat, off: nat, ports: seq<Port>)
    requires |ports| > 0 && off + TestCount(ports) + 2 <= len < 256
    ensures LandsInside(DestTests(len, off, ports), off, len)
  {
    hide MinPort, MaxPort;
  }

  lemma PortBlocksLand(len: nat, off: nat, udp: seq<Port>, tcp: seq<Port>, load: Code, k: nat)
    requires PortLoad(load) && off + PortCount(udp) + PortCount(tcp) + 2 <= len < 256
    ensures LandsInside(PortBlocks(len, off, udp, tcp, load, k), off, len)
  {
    hide PortInsns, PortCount;
    if |udp| > 0 {
      PortInsnsLand(len, off, udp, load, k);
    }
    if |tcp| > 0 {
      PortInsnsLand(len, off + PortCount(udp), tcp, load, k);
    }
    LandsJoin(Opt(|udp| > 0, PortInsns(len, off, udp, load, k)),
              Opt(|tcp| > 0, PortInsns(len, off + PortCount(udp), tcp, load, k)), off, len);
  }

  lemma V4Land(l: PortLists, len: nat, off: nat, o: nat)
    requires off + V4Count(l) + V6Count(l) + 2 == len < 256
    ensures LandsInside(V4Insns(l, len, off, o), off, len)
  {
    hide PortCount, PortBlocks;
    var head, dispatch := V4Head(l, len, off, o), V4Dispatch(l, len, off + 4, o);
    V4HeadLands(l, len, off, o);
    V4DispatchLands(l, len, off + 4, o);
    hide V4Head, V4Dispatch, LandsInside;
    LandsJoin(head, dispatch, off, len);
    PortBlocksLand(len, off + 4 + |dispatch|, l.udp4, l.tcp4, LdInd(Half), o);
    LandsJoin(head + dispatch, PortBlocks(len, off + 4 + |dispatch|, l.udp4, l.tcp4, LdInd(Half), o), off, len);
  }

  lemma V4HeadLands(l: PortLists, len: nat, off: nat, o: nat)
    requires off + V4Count(l) + V6Count(l) + 2 == len < 256
    ensures LandsInside(V4Head(l, len, off, o), off, len)
  {
    hide PortCount;
  }

  lemma V4DispatchLands(l: PortLists, len: nat, off: nat, o: nat)
    requires off + |V4Dispatch(l, len, off, o)| + PortCount(l.udp4) + PortCount(l.tcp4) + 2 < len < 256
    ensures LandsInside(V4Dispatch(l, len, off, o), off, len)
  {
    hide PortCount;
  }

  lemma V6Land(l: PortLists, len: nat, off: nat, o: nat)
    requires off + V6Count(l) + 2 == len < 256
    ensures LandsInside(V6Insns(l, len, off, o), off, len)
  {
    hide PortCount, PortBlocks;
    var head := V6Head(l, len, off, o);
    var p := off + |head| + 4;
    assert LandsInside(V6Extensions(len, off + |head|), off + |head|, len);
    V6HeadLands(l, len, off, o);
    hide V6Head, V6Extensions;
    LandsJoin(head, V6Extensions(len, off + |head|), off, len);
    PortBlocksLand(len, p, l.udp6, l.tcp6, LdAbs(Half), o + 40);
    LandsJoin(head + V6Extensions(len, off + |head|),
              PortBlocks(len, p, l.udp6, l.tcp6, LdAbs(Half), o + 40), off, len);
  }

  lemma V6HeadLands(l: PortLists, len: nat, off: nat, o: nat)
    requires off + V6Count(l) + 2 == len < 256
    ensures LandsInside(V6Head(l, len, off, o), off, len)
  {
    hide PortCount;
  }

  lemma ProtocolLands(len: nat, h: nat, v4c: nat)
    requires h + v4c + 8 < len < 256
    ensures LandsInside(ProtocolInsns(len, h, v4c), h, len)
  {
  }

  lemma VersionLands(len: nat, off: nat, v4c: nat)
    requires off + v4c + 5 < len < 256
    ensures LandsInside(VersionInsns(len, off, v4c), off, len)
  {
  }

  lemma CookedLands(platform: Platform, len: nat, v4c: nat)
    requires LinkCount(platform, Cooked) + v4c + 2 < len < 256 && 20 < len
    ensures LandsInside(LinkInsns(platform, Cooked, len, v4c), 0, len)
  {
    HatypeLands(platform, len);
    hide HatypeInsns, ProtocolInsns, VersionInsns, LandsInside;
    var hatype := HatypeInsns(platform, len);
    var h := |hatype|;
    ProtocolLands(len, h, v4c);
    VersionLands(len, h + 4, v4c);
    LandsJoin(hatype, ProtocolInsns(len, h, v4c), 0, len);
    LandsJoin(hatype + ProtocolInsns(len, h, v4c), VersionInsns(len, h + 4, v4c), 0, len);
  }

  lemma LinkLands(platform: Platform, rx: RxType, l: PortLists)
    requires Supported(platform, rx)
    ensures var len := ProgramLength(platform, rx, l);
            LandsInside(LinkInsns(platform, rx, len, V4Count(l)), 0, len)
  {
    hide PortCount, HatypeInsns, ProtocolInsns;
    var len := ProgramLength(platform, rx, l);
    if rx == Cooked {
      CookedLands(platform, len, V4Count(l));
    }
  }

  lemma HatypeLands(platform: Platform, len: nat)
    requires 20 < len < 256
    ensures LandsInside(HatypeInsns(platform, len), 0, len)
  {
  }

  /** Every jump goes forward to an instruction of the program, and the whole
      program is short enough that no distance is cut by the 8 bit fields. */
  lemma JumpsInside(platform: Platform, rx: RxType, l: PortLists)
    requires Supported(platform, rx)
    ensures var p := Program(platform, rx, l);
            |p| < 256 &&
            forall i :: 0 <= i < |p| && IsJump(p[i].code) ==> i + 1 + p[i].jt < |p| && i + 1 + p[i].jf < |p|
  {
    hide LinkInsns, V4Insns, V6Insns;
    var p := Program(platform, rx, l);
    var len, v4, o := |p|, LinkCount(platform, rx), IpOffset(rx);
    var link, ip4 := LinkInsns(platform, rx, len, V4Count(l)), V4Insns(l, len, v4, o);
    var ip6 := V6Insns(l, len, v4 + V4Count(l), o);
    LinkLands(platform, rx, l);
    V4Land(l, len, v4, o);
    V6Land(l, len, v4 + V4Count(l), o);
    LandsJoin(link, ip4, 0, len);
    LandsJoin(link + ip4, ip6, 0, len);
    LandsJoin(link + ip4 + ip6, [Stmt(Ret, 0), Stmt(Ret, ACCEPT_LEN)], 0, len);
    assert LandsInside(p, 0, len);
  }
}
