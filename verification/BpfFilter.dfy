/** The datalink filter compiler of scamper_dl.c: four lists of ports become a
    classic BPF program whose forward jump distances are computed by hand.

    Each emitting method is proved to write exactly the instruction sequence
    of the function beside it; BpfFilterProofs says what those sequences do, and
    BpfFilterResults what the whole program is good for. Allocation of the array
    and installation of the filter are left to the caller. */
module BpfFilter {
  import opened Wrappers
  import opened BpfMachine

  type Port = p: int | 0 <= p < 0x1_0000

  // How many entries of the ports array belong to each family and protocol,
  // and the ports themselves.
  datatype PortLists = PortLists(udp4: seq<Port>, tcp4: seq<Port>, udp6: seq<Port>, tcp6: seq<Port>)

  datatype RxType = Unsupported | Ethernet | NullLink | Raw | Cooked

  // What the preprocessor and the C library settle for the source: whether it
  // is built for Linux, which optional ARPHRD constants exist, whether the
  // null link is compiled in, the byte order and the address families.
  datatype Platform = Platform(linux: bool, sit: bool, voidLink: bool, nullLink: bool,
                               littleEndian: bool, pfInet: nat, pfInet6: nat)
  {
    ghost predicate Valid() {
      pfInet < 256 && pfInet6 < 256 && pfInet != pfInet6
    }
  }

  const DYN_FILTER_PORT_MAX := 20
  const ETHERTYPE_IP := 0x0800
  const ETHERTYPE_ARP := 0x0806
  const ETHERTYPE_IPV6 := 0x86DD
  const ARPHRD_ETHER := 1
  const ARPHRD_PPP := 512
  const ARPHRD_LOOPBACK := 772
  const ARPHRD_SIT := 776
  const ARPHRD_VOID := 0xFFFF
  const IPPROTO_HOPOPTS := 0
  const IPPROTO_ICMP := 1
  const IPPROTO_TCP := 6
  const IPPROTO_UDP := 17
  const IPPROTO_ROUTING := 43
  const IPPROTO_FRAGMENT := 44
  const IPPROTO_ICMPV6 := 58
  const IPPROTO_DSTOPTS := 60
  const IP_OFFMASK := 0x1fff
  const ACCEPT_LEN := 65535

  /** jt and jf are eight bits wide; what is passed for them is cut to that. */
  function U8(distance: int): (b: nat)
    ensures b < 256
    ensures 0 <= distance < 256 ==> b == distance
  {
    distance % 256
  }

  /** htonl of an address family, a number below 256. */
  function Htonl(platform: Platform, family: nat): nat {
    if platform.littleEndian then 0x100_0000 * family else family
  }

  function RetFalse(len: nat, off: nat): int {
    len - off - 3
  }

  function RetTrue(len: nat, off: nat): int {
    len - off - 2
  }

  function Stmt(code: Code, k: nat): Insn {
    Insn(code, 0, 0, k)
  }

  function Jump(code: Code, k: nat, jt: int, jf: int): Insn {
    Insn(code, U8(jt), U8(jf), k)
  }

  function MinPort(ports: seq<Port>): (m: Port)
    requires |ports| > 0
    ensures m in ports && forall p :: p in ports ==> m <= p
  {
    var last := ports[|ports| - 1];
    assert ports == ports[..|ports| - 1] + [last];
    if |ports| == 1 then last
    else
      var m := MinPort(ports[..|ports| - 1]);
      if m > last then last else m
  }

  function MaxPort(ports: seq<Port>): (m: Port)
    requires |ports| > 0
    ensures m in ports && forall p :: p in ports ==> p <= m
  {
    var last := ports[|ports| - 1];
    assert ports == ports[..|ports| - 1] + [last];
    if |ports| == 1 then last
    else
      var m := MaxPort(ports[..|ports| - 1]);
      if m < last then last else m
  }

  function PortCount(ports: seq<Port>): (n: nat)
    ensures n <= 42 && (n == 0 <==> |ports| == 0)
  {
    if |ports| == 0 then 0
    else if |ports| <= DYN_FILTER_PORT_MAX then |ports| * 2 + 2
    else 6
  }

  function Opt(present: bool, code: seq<Insn>): seq<Insn> {
    if present then code else []
  }

  function One(present: bool): nat {
    if present then 1 else 0
  }

  function TestCount(ports: seq<Port>): nat {
    if |ports| > DYN_FILTER_PORT_MAX then 2 else |ports|
  }

  function SourceTests(len: nat, off: nat, ports: seq<Port>): (code: seq<Insn>)
    ensures |code| == TestCount(ports)
  {
    if |ports| > DYN_FILTER_PORT_MAX then
      [Jump(Jge, MinPort(ports), 0, 1), Jump(Jgt, MaxPort(ports), 0, RetTrue(len, off + 1))]
    else
      seq(|ports|, (i: nat) requires i < |ports| => Jump(Jeq, ports[i], RetTrue(len, off + i), 0))
  }

  function DestTests(len: nat, off: nat, ports: seq<Port>): (code: seq<Insn>)
    ensures |code| == TestCount(ports)
  {
    if |ports| > DYN_FILTER_PORT_MAX then
      [Jump(Jge, MinPort(ports), 0, 1),
       Jump(Jgt, MaxPort(ports), RetFalse(len, off + 1), RetTrue(len, off + 1))]
    else
      seq(|ports|, (i: nat) requires i < |ports| =>
        Jump(Jeq, ports[i], RetTrue(len, off + i), if |ports| - i > 1 then 0 else RetFalse(len, off + i)))
  }

  function PortInsns(len: nat, off: nat, ports: seq<Port>, load: Code, k: nat): (code: seq<Insn>)
    ensures |ports| > 0 ==> |code| == PortCount(ports)
  {
    [Stmt(load, k)] + SourceTests(len, off + 1, ports) +
    [Stmt(load, k + 2)] + DestTests(len, off + 2 + TestCount(ports), ports)
  }

  function V4Count(l: PortLists): nat {
    4 + One(|l.udp4| > 0 || |l.tcp4| > 0)
    + (if |l.udp4| > 0 then 1 + PortCount(l.udp4) else 0)
    + (if |l.tcp4| > 0 then 1 + PortCount(l.tcp4) else 0)
  }

  function V6Count(l: PortLists): nat {
    6
    + (if |l.udp6| > 0 then 1 + PortCount(l.udp6) else 0)
    + (if |l.tcp6| > 0 then 1 + PortCount(l.tcp6) else 0)
  }

  predicate Supported(platform: Platform, rx: RxType) {
    match rx
    case Unsupported => false
    case Ethernet => true
    case Raw => true
    case NullLink => platform.nullLink
    case Cooked => platform.linux
  }

  function LinkCount(platform: Platform, rx: RxType): nat {
    match rx
    case Cooked => 12 + One(platform.sit) + One(platform.voidLink)
    case NullLink => 3
    case _ => 4
  }

  function IpOffset(rx: RxType): nat {
    match rx
    case Ethernet => 14
    case NullLink => 4
    case _ => 0
  }

  function ProgramLength(platform: Platform, rx: RxType, l: PortLists): nat {
    LinkCount(platform, rx) + V4Count(l) + V6Count(l) + 2
  }

  function VersionInsns(len: nat, off: nat, v4c: nat): (code: seq<Insn>)
    ensures |code| == 4
  {
    [Stmt(LdAbs(Byte), 0),
     Stmt(Rsh, 4),
     Jump(Jeq, 4, 1, 0),
     Jump(Jeq, 6, v4c, RetFalse(len, off + 3))]
  }

  // The tests of the hardware type; extra counts the optional ones.
  function HatypeInsns(platform: Platform, len: nat): (code: seq<Insn>)
    ensures |code| == 4 + One(platform.sit) + One(platform.voidLink)
  {
    var extra := One(platform.sit) + One(platform.voidLink);
    [Stmt(LdAbs(Half), SKF_AD_OFF + SKF_AD_HATYPE),
     Jump(Jeq, ARPHRD_ETHER, 2 + extra, 0),
     Jump(Jeq, ARPHRD_LOOPBACK, 1 + extra, 0)] +
    Opt(platform.sit, [Jump(Jeq, ARPHRD_SIT, 5 + One(platform.voidLink), 0)]) +
    Opt(platform.voidLink, [Jump(Jeq, ARPHRD_VOID, 5, 0)]) +
    [Jump(Jeq, ARPHRD_PPP, 4, RetFalse(len, 3 + extra))]
  }

  function ProtocolInsns(len: nat, off: nat, v4c: nat): (code: seq<Insn>)
    ensures |code| == 4
  {
    [Stmt(LdAbs(Half), SKF_AD_OFF + SKF_AD_PROTOCOL),
     Jump(Jeq, ETHERTYPE_IP, 4 + 2, 0),
     Jump(Jeq, ETHERTYPE_IPV6, 4 + v4c + 1, 0),
     Jump(Jeq, ETHERTYPE_ARP, RetTrue(len, off + 3), RetFalse(len, off + 3))]
  }

  function LinkInsns(platform: Platform, rx: RxType, len: nat, v4c: nat): (code: seq<Insn>)
    ensures |code| == LinkCount(platform, rx)
  {
    match rx
    case Ethernet =>
      [Stmt(LdAbs(Half), 12),
       Jump(Jeq, ETHERTYPE_IP, 2, 0),
       Jump(Jeq, ETHERTYPE_IPV6, v4c + 1, 0),
       Jump(Jeq, ETHERTYPE_ARP, RetTrue(len, 3), RetFalse(len, 3))]
    case Cooked =>
      var h := |HatypeInsns(platform, len)|;
      HatypeInsns(platform, len) + ProtocolInsns(len, h, v4c) + VersionInsns(len, h + 4, v4c)
    case NullLink =>
      [Stmt(LdAbs(Word), 0),
       Jump(Jeq, Htonl(platform, platform.pfInet), 1, 0),
       Jump(Jeq, Htonl(platform, platform.pfInet6), v4c, RetFalse(len, 2))]
    case _ =>
      VersionInsns(len, 0, v4c)
  }

  function V4Head(l: PortLists, len: nat, off: nat, o: nat): (code: seq<Insn>)
    ensures |code| == 4
  {
    [Stmt(LdAbs(Half), o + 6),
     Jump(Jset, IP_OFFMASK, V6Count(l) + V4Count(l) - 1, 0),
     Stmt(LdAbs(Byte), o + 9),
     Jump(Jeq, IPPROTO_ICMP, RetTrue(len, off + 3),
          if |l.udp4| > 0 || |l.tcp4| > 0 then 0 else RetFalse(len, off + 3))]
  }

  function V4Dispatch(l: PortLists, len: nat, off: nat, o: nat): (code: seq<Insn>)
    ensures |code| == One(|l.udp4| > 0 || |l.tcp4| > 0) + One(|l.udp4| > 0) + One(|l.tcp4| > 0)
  {
    var udp, tcp := |l.udp4| > 0, |l.tcp4| > 0;
    Opt(udp || tcp, [Stmt(LdxMsh, o)]) +
    Opt(udp, [Jump(Jeq, IPPROTO_UDP, One(tcp), if tcp then 0 else RetFalse(len, off + 1))]) +
    Opt(tcp, [Jump(Jeq, IPPROTO_TCP, PortCount(l.udp4), RetFalse(len, off + 1 + One(udp)))])
  }

  // The two lists of port tests of one address family.
  function PortBlocks(len: nat, off: nat, udp: seq<Port>, tcp: seq<Port>, load: Code, k: nat): (code: seq<Insn>)
    ensures |code| == PortCount(udp) + PortCount(tcp)
  {
    Opt(|udp| > 0, PortInsns(len, off, udp, load, k)) +
    Opt(|tcp| > 0, PortInsns(len, off + PortCount(udp), tcp, load, k))
  }

  function V4Insns(l: PortLists, len: nat, off: nat, o: nat): (code: seq<Insn>)
    ensures |code| == V4Count(l)
  {
    var dispatch := V4Dispatch(l, len, off + 4, o);
    V4Head(l, len, off, o) + dispatch +
    PortBlocks(len, off + 4 + |dispatch|, l.udp4, l.tcp4, LdInd(Half), o)
  }

  function V6Head(l: PortLists, len: nat, off: nat, o: nat): (code: seq<Insn>)
    ensures |code| == 2 + One(|l.udp6| > 0) + One(|l.tcp6| > 0)
  {
    [Stmt(LdAbs(Byte), o + 6),
     Jump(Jeq, IPPROTO_ICMPV6, RetTrue(len, off + 1), 0)] +
    Opt(|l.udp6| > 0, [Jump(Jeq, IPPROTO_UDP, 4 + One(|l.tcp6| > 0), 0)]) +
    Opt(|l.tcp6| > 0, [Jump(Jeq, IPPROTO_TCP, 4 + PortCount(l.udp6), 0)])
  }

  function V6Extensions(len: nat, off: nat): (code: seq<Insn>)
    ensures |code| == 4
  {
    [Jump(Jeq, IPPROTO_FRAGMENT, RetTrue(len, off), 0),
     Jump(Jeq, IPPROTO_HOPOPTS, RetTrue(len, off + 1), 0),
     Jump(Jeq, IPPROTO_DSTOPTS, RetTrue(len, off + 2), 0),
     Jump(Jeq, IPPROTO_ROUTING, RetTrue(len, off + 3), RetFalse(len, off + 3))]
  }

  function V6Insns(l: PortLists, len: nat, off: nat, o: nat): (code: seq<Insn>)
    ensures |code| == V6Count(l)
  {
    var head := V6Head(l, len, off, o);
    head + V6Extensions(len, off + |head|) +
    PortBlocks(len, off + |head| + 4, l.udp6, l.tcp6, LdAbs(Half), o + 40)
  }

  /** The whole program that the compiler emits. */
  function Program(platform: Platform, rx: RxType, l: PortLists): (prog: seq<Insn>)
    ensures |prog| == ProgramLength(platform, rx, l)
  {
    var len := ProgramLength(platform, rx, l);
    var v4 := LinkCount(platform, rx);
    LinkInsns(platform, rx, len, V4Count(l)) +
    V4Insns(l, len, v4, IpOffset(rx)) +
    V6Insns(l, len, v4 + V4Count(l), IpOffset(rx)) +
    [Stmt(Ret, 0), Stmt(Ret, ACCEPT_LEN)]
  }

  // ---------- The emitters ----------

  /** The instructions stand in the array from off on. */
  ghost predicate Written(insns: array<Insn>, off: nat, code: seq<Insn>)
    reads insns
  {
    off + |code| <= insns.Length && forall i :: 0 <= i < |code| ==> insns[off + i] == code[i]
  }

  lemma Join(insns: array<Insn>, off: nat, first: seq<Insn>, second: seq<Insn>)
    requires Written(insns, off, first) && Written(insns, off + |first|, second)
    ensures Written(insns, off, first + second)
  {
    forall i | 0 <= i < |first + second|
      ensures insns[off + i] == (first + second)[i]
    {
      if i >= |first| {
        assert insns[off + |first| + (i - |first|)] == second[i - |first|];
      }
    }
  }

  /** Nothing before off has changed. */
  twostate predicate Kept(insns: array<Insn>, off: nat)
    reads insns
  {
    forall i :: 0 <= i < off && i < insns.Length ==> insns[i] == old(insns[i])
  }

  method BpfStmt(insns: array<Insn>, len: nat, off: nat, code: Code, k: nat) returns (next: nat)
    requires len == insns.Length
    modifies insns
    ensures off < len ==> next == off + 1 && insns[off] == Stmt(code, k)
    ensures Kept(insns, off)
    ensures off >= len ==> next == off && insns[..] == old(insns[..])
  {
    if off >= len {
      return off;
    }
    insns[off] := Insn(code, 0, 0, k);
    next := off + 1;
  }

  method BpfJump(insns: array<Insn>, len: nat, off: nat, code: Code, k: nat, jt: int, jf: int)
    returns (next: nat)
    requires len == insns.Length
    modifies insns
    ensures off < len ==> next == off + 1 && insns[off] == Jump(code, k, jt, jf)
    ensures Kept(insns, off)
    ensures off >= len ==> next == off && insns[..] == old(insns[..])
  {
    if off >= len {
      return off;
    }
    insns[off] := Insn(code, U8(jt), U8(jf), k);
    next := off + 1;
  }

  /** How many instructions a port list needs, and its extremes where the
      list is long enough to be tested as a range. */
  method BpfPortInsnsCalc(ports: seq<Port>) returns (count: nat, min: Port, max: Port)
    ensures count == PortCount(ports)
    ensures |ports| > DYN_FILTER_PORT_MAX ==> min == MinPort(ports) && max == MaxPort(ports)
  {
    min, max := 0, 0;
    if |ports| == 0 {
      return 0, min, max;
    }
    if |ports| <= DYN_FILTER_PORT_MAX {
      return |ports| * 2 + 2, min, max;
    }
    min, max := ports[0], ports[0];
    for i := 1 to |ports|
      invariant min == MinPort(ports[..i]) && max == MaxPort(ports[..i])
    {
      assert ports[..i + 1][..i] == ports[..i];
      if min > ports[i] {
        min := ports[i];
      } else if max < ports[i] {
        max := ports[i];
      }
    }
    assert ports[..|ports|] == ports;
    count := 6;
  }

  method BpfPortInsnsEnc(insns: array<Insn>, len: nat, off: nat, ports: seq<Port>, min: Port, max: Port,
                         load: Code, k: nat)
    returns (next: nat)
    requires len == insns.Length
    requires |ports| > 0
    requires |ports| > DYN_FILTER_PORT_MAX ==> min == MinPort(ports) && max == MaxPort(ports)
    requires off + PortCount(ports) <= len
    modifies insns
    ensures next == off + PortCount(ports)
    ensures Kept(insns, off) && Written(insns, off, PortInsns(len, off, ports, load, k))
  {
    hide SourceTests, DestTests, MinPort, MaxPort;
    var at := BpfStmt(insns, len, off, load, k);
    at := EmitSource(insns, len, at, ports, min, max);
    ghost var source := [Stmt(load, k)] + SourceTests(len, off + 1, ports);
    Join(insns, off, [Stmt(load, k)], SourceTests(len, off + 1, ports));
    at := BpfStmt(insns, len, at, load, k + 2);
    Join(insns, off, source, [Stmt(load, k + 2)]);
    ghost var second := at;
    next := EmitDest(insns, len, at, ports, min, max);
    Join(insns, off, source + [Stmt(load, k + 2)], DestTests(len, second, ports));
  }

  // The two loops of bpf_portinsns_enc.
  method EmitSource(insns: array<Insn>, len: nat, off: nat, ports: seq<Port>, min: Port, max: Port)
    returns (next: nat)
    requires len == insns.Length
    requires |ports| > DYN_FILTER_PORT_MAX ==> min == MinPort(ports) && max == MaxPort(ports)
    requires off + TestCount(ports) <= len
    modifies insns
    ensures next == off + TestCount(ports)
    ensures Kept(insns, off) && Written(insns, off, SourceTests(len, off, ports))
  {
    next := off;
    if |ports| <= DYN_FILTER_PORT_MAX {
      for i := 0 to |ports|
        invariant next == off + i
        invariant Kept(insns, off) && Written(insns, off, SourceTests(len, off, ports)[..i])
      {
        next := BpfJump(insns, len, next, Jeq, ports[i], RetTrue(len, next), 0);
      }
    } else {
      next := BpfJump(insns, len, next, Jge, min, 0, 1);
      next := BpfJump(insns, len, next, Jgt, max, 0, RetTrue(len, next));
    }
  }

  method EmitDest(insns: array<Insn>, len: nat, off: nat, ports: seq<Port>, min: Port, max: Port)
    returns (next: nat)
    requires len == insns.Length
    requires |ports| > DYN_FILTER_PORT_MAX ==> min == MinPort(ports) && max == MaxPort(ports)
    requires off + TestCount(ports) <= len
    modifies insns
    ensures next == off + TestCount(ports)
    ensures Kept(insns, off) && Written(insns, off, DestTests(len, off, ports))
  {
    next := off;
    if |ports| <= DYN_FILTER_PORT_MAX {
      for i := 0 to |ports|
        invariant next == off + i
        invariant Kept(insns, off) && Written(insns, off, DestTests(len, off, ports)[..i])
      {
        next := BpfJump(insns, len, next, Jeq, ports[i], RetTrue(len, next),
                        if |ports| - i > 1 then 0 else RetFalse(len, next));
      }
    } else {
      next := BpfJump(insns, len, next, Jge, min, 0, 1);
      next := BpfJump(insns, len, next, Jgt, max, RetFalse(len, next), RetTrue(len, next));
    }
  }

  method EmitLink(insns: array<Insn>, len: nat, platform: Platform, rx: RxType, v4c: nat) returns (off: nat)
    requires len == insns.Length && LinkCount(platform, rx) <= len
    requires Supported(platform, rx)
    modifies insns
    ensures off == LinkCount(platform, rx)
    ensures Written(insns, 0, LinkInsns(platform, rx, len, v4c))
  {
    off := 0;
    match rx
    case Ethernet =>
      off := BpfStmt(insns, len, off, LdAbs(Half), 12);
      off := BpfJump(insns, len, off, Jeq, ETHERTYPE_IP, 2, 0);
      off := BpfJump(insns, len, off, Jeq, ETHERTYPE_IPV6, v4c + 1, 0);
      off := BpfJump(insns, len, off, Jeq, ETHERTYPE_ARP, RetTrue(len, off), RetFalse(len, off));
    case Cooked =>
      off := EmitCooked(insns, len, platform, v4c);
    case NullLink =>
      off := BpfStmt(insns, len, off, LdAbs(Word), 0);
      off := BpfJump(insns, len, off, Jeq, Htonl(platform, platform.pfInet), 1, 0);
      off := BpfJump(insns, len, off, Jeq, Htonl(platform, platform.pfInet6), v4c, RetFalse(len, off));
    case Raw =>
      off := EmitVersion(insns, len, off, v4c);
    case Unsupported =>
      assert false;
  }

  method EmitCooked(insns: array<Insn>, len: nat, platform: Platform, v4c: nat) returns (off: nat)
    requires len == insns.Length && LinkCount(platform, Cooked) <= len
    modifies insns
    ensures off == LinkCount(platform, Cooked)
    ensures Written(insns, 0, LinkInsns(platform, Cooked, len, v4c))
  {
    hide HatypeInsns, VersionInsns, ProtocolInsns;
    off := EmitHatype(insns, len, platform);
    ghost var h := off;
    off := EmitProtocol(insns, len, off, v4c);
    Join(insns, 0, HatypeInsns(platform, len), ProtocolInsns(len, h, v4c));
    off := EmitVersion(insns, len, off, v4c);
    Join(insns, 0, HatypeInsns(platform, len) + ProtocolInsns(len, h, v4c), VersionInsns(len, h + 4, v4c));
  }

  // handle ARPHRD_ETHER, ARPHRD_LOOPBACK
  method EmitProtocol(insns: array<Insn>, len: nat, off: nat, v4c: nat) returns (next: nat)
    requires len == insns.Length && off + 4 <= len
    modifies insns
    ensures next == off + 4
    ensures Kept(insns, off) && Written(insns, off, ProtocolInsns(len, off, v4c))
  {
    next := BpfStmt(insns, len, off, LdAbs(Half), SKF_AD_OFF + SKF_AD_PROTOCOL);
    next := BpfJump(insns, len, next, Jeq, ETHERTYPE_IP, 4 + 2, 0);
    next := BpfJump(insns, len, next, Jeq, ETHERTYPE_IPV6, 4 + v4c + 1, 0);
    next := BpfJump(insns, len, next, Jeq, ETHERTYPE_ARP, RetTrue(len, next), RetFalse(len, next));
  }

  method EmitHatype(insns: array<Insn>, len: nat, platform: Platform) returns (off: nat)
    requires len == insns.Length && LinkCount(platform, Cooked) <= len
    modifies insns
    ensures off == |HatypeInsns(platform, len)|
    ensures Written(insns, 0, HatypeInsns(platform, len))
  {
    var extra := 0;
    if platform.sit {
      extra := extra + 1;
    }
    if platform.voidLink {
      extra := extra + 1;
    }
    off := 0;
    off := BpfStmt(insns, len, off, LdAbs(Half), SKF_AD_OFF + SKF_AD_HATYPE);
    off := BpfJump(insns, len, off, Jeq, ARPHRD_ETHER, 2 + extra, 0);
    off := BpfJump(insns, len, off, Jeq, ARPHRD_LOOPBACK, 1 + extra, 0);
    if platform.sit {
      extra := extra - 1;
      off := BpfJump(insns, len, off, Jeq, ARPHRD_SIT, 5 + extra, 0);
    }
    if platform.voidLink {
      off := BpfJump(insns, len, off, Jeq, ARPHRD_VOID, 5, 0);
    }
    off := BpfJump(insns, len, off, Jeq, ARPHRD_PPP, 4, RetFalse(len, off));
  }

  method EmitVersion(insns: array<Insn>, len: nat, off: nat, v4c: nat) returns (next: nat)
    requires len == insns.Length && off + 4 <= len
    modifies insns
    ensures next == off + 4
    ensures Kept(insns, off) && Written(insns, off, VersionInsns(len, off, v4c))
  {
    next := BpfStmt(insns, len, off, LdAbs(Byte), 0);
    next := BpfStmt(insns, len, next, Rsh, 4);
    next := BpfJump(insns, len, next, Jeq, 4, 1, 0);
    next := BpfJump(insns, len, next, Jeq, 6, v4c, RetFalse(len, next));
  }

  method EmitV4(insns: array<Insn>, len: nat, off: nat, l: PortLists, v4c: nat, v6c: nat, udpc: nat, o: nat)
    returns (next: nat)
    requires len == insns.Length
    requires v4c == V4Count(l) && v6c == V6Count(l) && udpc == PortCount(l.udp4)
    requires off + 4 + |V4Dispatch(l, len, off + 4, o)| <= len
    modifies insns
    ensures next == off + 4 + |V4Dispatch(l, len, off + 4, o)|
    ensures Kept(insns, off) && Written(insns, off, V4Head(l, len, off, o) + V4Dispatch(l, len, off + 4, o))
  {
    // we know the packet is IPv4; if the fragment offset is > 0, pass it
    next := BpfStmt(insns, len, off, LdAbs(Half), o + 6);
    next := BpfJump(insns, len, next, Jset, IP_OFFMASK, v6c + v4c - 1, 0);
    // load the protocol type into the accumulator; pass ICMP
    next := BpfStmt(insns, len, next, LdAbs(Byte), o + 9);
    next := BpfJump(insns, len, next, Jeq, IPPROTO_ICMP, RetTrue(len, next),
                    if |l.udp4| > 0 || |l.tcp4| > 0 then 0 else RetFalse(len, next));
    next := EmitV4Dispatch(insns, len, next, l, udpc, o);
    assert Written(insns, off, V4Head(l, len, off, o));
    Join(insns, off, V4Head(l, len, off, o), V4Dispatch(l, len, off + 4, o));
  }

  method EmitV4Dispatch(insns: array<Insn>, len: nat, off: nat, l: PortLists, udpc: nat, o: nat)
    returns (next: nat)
    requires len == insns.Length
    requires udpc == PortCount(l.udp4)
    requires off + |V4Dispatch(l, len, off, o)| <= len
    modifies insns
    ensures next == off + |V4Dispatch(l, len, off, o)|
    ensures Kept(insns, off) && Written(insns, off, V4Dispatch(l, len, off, o))
  {
    var udp, tcp := |l.udp4| > 0, |l.tcp4| > 0;
    ghost var code: seq<Insn> := [];
    next := off;
    // the length of the IP header leads to the transport header
    if udp || tcp {
      next := BpfStmt(insns, len, next, LdxMsh, o);
      code := code + [Stmt(LdxMsh, o)];
    }
    assert Written(insns, off, code);
    if udp {
      next := BpfJump(insns, len, next, Jeq, IPPROTO_UDP, if tcp then 1 else 0,
                      if tcp then 0 else RetFalse(len, next));
      code := code + [Jump(Jeq, IPPROTO_UDP, One(tcp), if tcp then 0 else RetFalse(len, off + 1))];
    }
    assert Written(insns, off, code);
    if tcp {
      next := BpfJump(insns, len, next, Jeq, IPPROTO_TCP, udpc, RetFalse(len, next));
      code := code + [Jump(Jeq, IPPROTO_TCP, PortCount(l.udp4), RetFalse(len, off + 1 + One(udp)))];
    }
    assert Written(insns, off, code);
    assert code == V4Dispatch(l, len, off, o);
  }

  method EmitV6(insns: array<Insn>, len: nat, off: nat, l: PortLists, udpc: nat, o: nat)
    returns (next: nat)
    requires len == insns.Length
    requires udpc == PortCount(l.udp6)
    requires off + |V6Head(l, len, off, o)| + 4 <= len
    modifies insns
    ensures next == off + |V6Head(l, len, off, o)| + 4
    ensures Kept(insns, off)
    ensures Written(insns, off, V6Head(l, len, off, o) + V6Extensions(len, off + |V6Head(l, len, off, o)|))
  {
    next := EmitV6Head(insns, len, off, l, udpc, o);
    ghost var e := next;
    // just pass these packets through
    next := BpfJump(insns, len, next, Jeq, IPPROTO_FRAGMENT, RetTrue(len, next), 0);
    next := BpfJump(insns, len, next, Jeq, IPPROTO_HOPOPTS, RetTrue(len, next), 0);
    next := BpfJump(insns, len, next, Jeq, IPPROTO_DSTOPTS, RetTrue(len, next), 0);
    next := BpfJump(insns, len, next, Jeq, IPPROTO_ROUTING, RetTrue(len, next), RetFalse(len, next));
    assert Written(insns, e, V6Extensions(len, e));
    Join(insns, off, V6Head(l, len, off, o), V6Extensions(len, e));
  }

  method EmitV6Head(insns: array<Insn>, len: nat, off: nat, l: PortLists, udpc: nat, o: nat)
    returns (next: nat)
    requires len == insns.Length
    requires udpc == PortCount(l.udp6)
    requires off + |V6Head(l, len, off, o)| <= len
    modifies insns
    ensures next == off + |V6Head(l, len, off, o)|
    ensures Kept(insns, off) && Written(insns, off, V6Head(l, len, off, o))
  {
    var udp, tcp := |l.udp6| > 0, |l.tcp6| > 0;
    // load the IPv6 next header into the accumulator; pass ICMPv6
    next := BpfStmt(insns, len, off, LdAbs(Byte), o + 6);
    next := BpfJump(insns, len, next, Jeq, IPPROTO_ICMPV6, RetTrue(len, next), 0);
    ghost var code := [Stmt(LdAbs(Byte), o + 6), Jump(Jeq, IPPROTO_ICMPV6, RetTrue(len, off + 1), 0)];
    assert Written(insns, off, code);
    if udp {
      next := BpfJump(insns, len, next, Jeq, IPPROTO_UDP, 4 + (if tcp then 1 else 0), 0);
      code := code + [Jump(Jeq, IPPROTO_UDP, 4 + One(tcp), 0)];
    }
    assert Written(insns, off, code);
    if tcp {
      next := BpfJump(insns, len, next, Jeq, IPPROTO_TCP, 4 + udpc, 0);
      code := code + [Jump(Jeq, IPPROTO_TCP, 4 + PortCount(l.udp6), 0)];
    }
    assert Written(insns, off, code);
    assert code == V6Head(l, len, off, o);
  }

  // What bpf_portinsns_calc found out about one list of ports.
  datatype Sizes = Sizes(count: nat, min: Port, max: Port)

  ghost predicate SizesOf(z: Sizes, ports: seq<Port>) {
    z.count == PortCount(ports) &&
    (|ports| > DYN_FILTER_PORT_MAX ==> z.min == MinPort(ports) && z.max == MaxPort(ports))
  }

  method EmitPorts(insns: array<Insn>, len: nat, off: nat, udp: seq<Port>, tcp: seq<Port>,
                   udpz: Sizes, tcpz: Sizes, load: Code, k: nat)
    returns (next: nat)
    requires len == insns.Length
    requires SizesOf(udpz, udp) && SizesOf(tcpz, tcp)
    requires off + PortCount(udp) + PortCount(tcp) <= len
    modifies insns
    ensures next == off + PortCount(udp) + PortCount(tcp)
    ensures Kept(insns, off) && Written(insns, off, PortBlocks(len, off, udp, tcp, load, k))
  {
    hide PortInsns;
    next := off;
    ghost var first, second: seq<Insn> := [], [];
    if |udp| > 0 {
      next := BpfPortInsnsEnc(insns, len, next, udp, udpz.min, udpz.max, load, k);
      first := PortInsns(len, off, udp, load, k);
    }
    if |tcp| > 0 {
      second := PortInsns(len, next, tcp, load, k);
      next := BpfPortInsnsEnc(insns, len, next, tcp, tcpz.min, tcpz.max, load, k);
    }
    Join(insns, off, first, second);
  }

  method EmitIpv4(insns: array<Insn>, len: nat, off: nat, l: PortLists, v4c: nat, v6c: nat,
                  udp: Sizes, tcp: Sizes, o: nat)
    returns (next: nat)
    requires len == insns.Length
    requires v4c == V4Count(l) && v6c == V6Count(l) && off + v4c <= len
    requires SizesOf(udp, l.udp4) && SizesOf(tcp, l.tcp4)
    modifies insns
    ensures next == off + v4c
    ensures Kept(insns, off) && Written(insns, off, V4Insns(l, len, off, o))
  {
    hide PortInsns, PortBlocks, V4Head, V4Dispatch;
    var p := EmitV4(insns, len, off, l, v4c, v6c, udp.count, o);
    next := EmitPorts(insns, len, p, l.udp4, l.tcp4, udp, tcp, LdInd(Half), o);
    Join(insns, off, V4Head(l, len, off, o) + V4Dispatch(l, len, off + 4, o),
         PortBlocks(len, p, l.udp4, l.tcp4, LdInd(Half), o));
  }

  method EmitIpv6(insns: array<Insn>, len: nat, off: nat, l: PortLists, v6c: nat,
                  udp: Sizes, tcp: Sizes, o: nat)
    returns (next: nat)
    requires len == insns.Length
    requires v6c == V6Count(l) && off + v6c <= len
    requires SizesOf(udp, l.udp6) && SizesOf(tcp, l.tcp6)
    modifies insns
    ensures next == off + v6c
    ensures Kept(insns, off) && Written(insns, off, V6Insns(l, len, off, o))
  {
    hide PortInsns, PortBlocks, V6Head, V6Extensions;
    var p := EmitV6(insns, len, off, l, udp.count, o);
    next := EmitPorts(insns, len, p, l.udp6, l.tcp6, udp, tcp, LdAbs(Half), o + 40);
    Join(insns, off, V6Head(l, len, off, o) + V6Extensions(len, p - 4),
         PortBlocks(len, p, l.udp6, l.tcp6, LdAbs(Half), o + 40));
  }

  method EmitProgram(insns: array<Insn>, platform: Platform, rx: RxType, l: PortLists, v4c: nat, v6c: nat,
                     udp4: Sizes, tcp4: Sizes, udp6: Sizes, tcp6: Sizes)
    requires Supported(platform, rx)
    requires insns.Length == ProgramLength(platform, rx, l)
    requires v4c == V4Count(l) && v6c == V6Count(l)
    requires SizesOf(udp4, l.udp4) && SizesOf(tcp4, l.tcp4) && SizesOf(udp6, l.udp6) && SizesOf(tcp6, l.tcp6)
    modifies insns
    ensures insns[..] == Program(platform, rx, l)
  {
    hide LinkInsns, V4Insns, V6Insns, V4Count, V6Count, LinkCount, IpOffset, Supported, SizesOf;
    var len := insns.Length;
    var o := IpOffset(rx);
    var v4 := EmitLink(insns, len, platform, rx, v4c);
    ghost var link := LinkInsns(platform, rx, len, v4c);
    var off := EmitIp(insns, len, v4, l, v4c, v6c, udp4, tcp4, udp6, tcp6, o);
    ghost var ip := V4Insns(l, len, v4, o) + V6Insns(l, len, v4 + v4c, o);
    Join(insns, 0, link, ip);
    EmitReturns(insns, len, off);
    Join(insns, 0, link + ip, [Stmt(Ret, 0), Stmt(Ret, ACCEPT_LEN)]);
    hide Written, Kept;
    WholeArray(insns, link, V4Insns(l, len, v4, o), V6Insns(l, len, v4 + v4c, o),
               [Stmt(Ret, 0), Stmt(Ret, ACCEPT_LEN)]);
  }

  // branch targets to cause the packet to fail or pass the filter
  method EmitReturns(insns: array<Insn>, len: nat, off: nat)
    requires off + 2 == len == insns.Length
    modifies insns
    ensures Kept(insns, off) && Written(insns, off, [Stmt(Ret, 0), Stmt(Ret, ACCEPT_LEN)])
  {
    var next := BpfStmt(insns, len, off, Ret, 0);
    next := BpfStmt(insns, len, next, Ret, ACCEPT_LEN);
  }

  lemma WholeArray(insns: array<Insn>, a: seq<Insn>, b: seq<Insn>, c: seq<Insn>, d: seq<Insn>)
    requires Written(insns, 0, a + (b + c) + d) && insns.Length == |a + (b + c) + d|
    ensures insns[..] == a + b + c + d
  {
    var code := a + (b + c) + d;
    assert forall i :: 0 <= i < |code| ==> insns[0 + i] == code[i];
    assert insns[..] == code;
    assert a + (b + c) == a + b + c;
  }

  method EmitIp(insns: array<Insn>, len: nat, off: nat, l: PortLists, v4c: nat, v6c: nat,
                udp4: Sizes, tcp4: Sizes, udp6: Sizes, tcp6: Sizes, o: nat)
    returns (next: nat)
    requires len == insns.Length
    requires v4c == V4Count(l) && v6c == V6Count(l) && off + v4c + v6c <= len
    requires SizesOf(udp4, l.udp4) && SizesOf(tcp4, l.tcp4) && SizesOf(udp6, l.udp6) && SizesOf(tcp6, l.tcp6)
    modifies insns
    ensures next == off + v4c + v6c
    ensures Kept(insns, off) && Written(insns, off, V4Insns(l, len, off, o) + V6Insns(l, len, off + v4c, o))
  {
    hide V4Insns, V6Insns, V4Count, V6Count, SizesOf;
    var v6 := EmitIpv4(insns, len, off, l, v4c, v6c, udp4, tcp4, o);
    next := EmitIpv6(insns, len, v6, l, v6c, udp6, tcp6, o);
    Join(insns, off, V4Insns(l, len, off, o), V6Insns(l, len, v6, o));
  }

  /** The layout of the ports array: four counts, then the four lists. */
  predicate WellLaidOut(ports: seq<Port>) {
    |ports| >= 4 && 4 + ports[0] + ports[1] + ports[2] + ports[3] <= |ports|
  }

  function Lists(ports: seq<Port>): PortLists
    requires WellLaidOut(ports)
  {
    var u4: nat := 4;
    var t4: nat := u4 + ports[0];
    var u6: nat := t4 + ports[1];
    var t6: nat := u6 + ports[2];
    PortLists(ports[u4..t4], ports[t4..u6], ports[u6..t6], ports[t6..t6 + ports[3]])
  }

  // The sizing pass: how many instructions each address family needs.
  method SizeProgram(l: PortLists) returns (v4c: nat, v6c: nat, udp4: Sizes, tcp4: Sizes, udp6: Sizes, tcp6: Sizes)
    ensures v4c == V4Count(l) && v6c == V6Count(l)
    ensures SizesOf(udp4, l.udp4) && SizesOf(tcp4, l.tcp4) && SizesOf(udp6, l.udp6) && SizesOf(tcp6, l.tcp6)
  {
    hide MinPort, MaxPort;
    var udp4c, udp4min, udp4max := BpfPortInsnsCalc(l.udp4);
    var tcp4c, tcp4min, tcp4max := BpfPortInsnsCalc(l.tcp4);
    v4c := 4;
    if |l.udp4| > 0 || |l.tcp4| > 0 {
      v4c := v4c + 1;
    }
    if udp4c > 0 {
      v4c := v4c + 1 + udp4c;
    }
    if tcp4c > 0 {
      v4c := v4c + 1 + tcp4c;
    }
    var udp6c, udp6min, udp6max := BpfPortInsnsCalc(l.udp6);
    var tcp6c, tcp6min, tcp6max := BpfPortInsnsCalc(l.tcp6);
    v6c := 2 + 4;
    if udp6c > 0 {
      v6c := v6c + 1 + udp6c;
    }
    if tcp6c > 0 {
      v6c := v6c + 1 + tcp6c;
    }
    udp4, tcp4 := Sizes(udp4c, udp4min, udp4max), Sizes(tcp4c, tcp4min, tcp4max);
    udp6, tcp6 := Sizes(udp6c, udp6min, udp6max), Sizes(tcp6c, tcp6min, tcp6max);
  }

  lemma ProgramShort(platform: Platform, rx: RxType, l: PortLists)
    ensures ProgramLength(platform, rx, l) < 256
  {
    hide PortCount;
  }

  /** dl_filter_compile: None stands for its -1. */
  method DlFilterCompile(platform: Platform, rx: RxType, ports: seq<Port>) returns (prog: Option<array<Insn>>)
    requires WellLaidOut(ports)
    ensures prog.None? <==> !Supported(platform, rx)
    ensures prog.Some? ==> fresh(prog.value) && prog.value[..] == Program(platform, rx, Lists(ports))
  {
    hide Program, SizesOf, Lists, V4Count, V6Count;
    var l := Lists(ports);
    var v4c, v6c, udp4, tcp4, udp6, tcp6 := SizeProgram(l);
    if !Supported(platform, rx) {
      return None;
    }
    ProgramShort(platform, rx, l);
    var len := LinkCount(platform, rx) + 2 + v4c + v6c;
    // prog.len is an unsigned short on linux
    if platform.linux && len > 65535 {
      return None;
    }
    var insns := new Insn[len];
    EmitProgram(insns, platform, rx, l, v4c, v6c, udp4, tcp4, udp6, tcp6);
    prog := Some(insns);
  }
}
