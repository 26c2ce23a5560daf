/** What the emitted programs decide. Running the program is shown to be the
    predicate Decides on the bytes of the frame, for port lists of any length;
    Decides is then compared with Wanted, what the filter is for. */
module BpfFilterProofs {
  import opened Wrappers
  import opened BpfMachine
  import opened BpfFilter

  // ---------- The plain predicates on a frame ----------

  /** A short list covers its members; a long one covers their range. */
  predicate Covers(ports: seq<Port>, p: nat) {
    if |ports| > DYN_FILTER_PORT_MAX then MinPort(ports) <= p <= MaxPort(ports) else p in ports
  }

  datatype Family = Arp | Ip4 | Ip6 | Other

  function FamilyOfType(t: nat): Family {
    if t == ETHERTYPE_IP then Ip4
    else if t == ETHERTYPE_IPV6 then Ip6
    else if t == ETHERTYPE_ARP then Arp
    else Other
  }

  function FamilyOfVersion(b: seq<byte>): Family {
    if |b| == 0 then Other
    else if b[0] / 16 == 4 then Ip4
    else if b[0] / 16 == 6 then Ip6
    else Other
  }

  // The address family at the start of a null link frame, in host byte order.
  function HostWord(platform: Platform, b: seq<byte>): nat
    requires |b| >= 4
  {
    if platform.littleEndian then
      b[0] as nat + 0x100 * b[1] as nat + 0x1_0000 * b[2] as nat + 0x100_0000 * b[3] as nat
    else
      Word32(b, 0)
  }

  function FamilyOf(platform: Platform, rx: RxType, f: Frame): Family {
    match rx
    case Ethernet => if |f.bytes| < 14 then Other else FamilyOfType(Half16(f.bytes, 12))
    case NullLink =>
      if |f.bytes| < 4 then Other
      else if HostWord(platform, f.bytes) == platform.pfInet then Ip4
      else if HostWord(platform, f.bytes) == platform.pfInet6 then Ip6
      else Other
    case Cooked =>
      if f.hatype == ARPHRD_ETHER || f.hatype == ARPHRD_LOOPBACK then FamilyOfType(f.protocol)
      else if (platform.sit && f.hatype == ARPHRD_SIT) || (platform.voidLink && f.hatype == ARPHRD_VOID)
           || f.hatype == ARPHRD_PPP then FamilyOfVersion(f.bytes)
      else Other
    case _ => FamilyOfVersion(f.bytes)
  }

  /** The source or the destination port of the transport header is covered. */
  predicate PortsHit(ports: seq<Port>, b: seq<byte>, at: nat) {
    at + 2 <= |b| &&
    (Covers(ports, Half16(b, at)) || (at + 4 <= |b| && Covers(ports, Half16(b, at + 2))))
  }

  // Section 3.1 of RFC 791: the fragment offset is the low 13 bits at octet
  // 6, the protocol is octet 9, and the header is 4 * IHL octets long.
  predicate Fragment(b: seq<byte>, o: nat) {
    o + 8 <= |b| && Half16(b, o + 6) % 0x2000 != 0
  }

  function TransportOffset(b: seq<byte>, o: nat): nat
    requires o < |b|
  {
    o + 4 * (b[o] % 16)
  }

  predicate V4Wanted(l: PortLists, b: seq<byte>, o: nat) {
    Fragment(b, o) ||
    (o + 9 < |b| &&
     (b[o + 9] == IPPROTO_ICMP
      || (b[o + 9] == IPPROTO_UDP && PortsHit(l.udp4, b, TransportOffset(b, o)))
      || (b[o + 9] == IPPROTO_TCP && PortsHit(l.tcp4, b, TransportOffset(b, o)))))
  }

  // Section 3 of RFC 8200: the next header is octet 6 of a 40 octet header.
  predicate PassedNextHeader(n: nat) {
    n == IPPROTO_ICMPV6 || n == IPPROTO_FRAGMENT || n == IPPROTO_HOPOPTS
    || n == IPPROTO_DSTOPTS || n == IPPROTO_ROUTING
  }

  predicate V6Wanted(l: PortLists, b: seq<byte>, o: nat) {
    o + 6 < |b| &&
    (PassedNextHeader(b[o + 6])
     || (b[o + 6] == IPPROTO_UDP && PortsHit(l.udp6, b, o + 40))
     || (b[o + 6] == IPPROTO_TCP && PortsHit(l.tcp6, b, o + 40)))
  }

  /** What the filter is for: ARP, later IPv4 fragments, ICMP, IPv6 extension
      headers, and UDP or TCP to or from a covered port. */
  predicate Wanted(platform: Platform, rx: RxType, l: PortLists, f: Frame) {
    match FamilyOf(platform, rx, f)
    case Arp => true
    case Ip4 => V4Wanted(l, f.bytes, IpOffset(rx))
    case Ip6 => V6Wanted(l, f.bytes, IpOffset(rx))
    case Other => false
  }

  // ---------- What the program decides ----------

  // The tests of one list either settle the frame or, when the list is tested
  // as a range and the destination port is below it, run on into whatever
  // instruction follows.
  datatype Verdict = Accept | Reject | RunOn

  function PortsVerdict(ports: seq<Port>, b: seq<byte>, at: nat): (v: Verdict)
    ensures v.RunOn? ==> at + 4 <= |b|
  {
    if at + 2 > |b| then Reject
    else if Covers(ports, Half16(b, at)) then Accept
    else if at + 4 > |b| then Reject
    else if Covers(ports, Half16(b, at + 2)) then Accept
    else if |ports| > DYN_FILTER_PORT_MAX && Half16(b, at + 2) < MinPort(ports) then RunOn
    else Reject
  }

  predicate V6TcpDecides(l: PortLists, b: seq<byte>, o: nat) {
    |l.tcp6| > 0 && PortsVerdict(l.tcp6, b, o + 40).Accept?
  }

  predicate V6UdpDecides(l: PortLists, b: seq<byte>, o: nat) {
    match PortsVerdict(l.udp6, b, o + 40)
    case Accept => true
    case Reject => false
    case RunOn => V6TcpDecides(l, b, o)
  }

  predicate V6Decides(l: PortLists, b: seq<byte>, o: nat) {
    o + 6 < |b| &&
    (PassedNextHeader(b[o + 6])
     || (b[o + 6] == IPPROTO_UDP && |l.udp6| > 0 && V6UdpDecides(l, b, o))
     || (b[o + 6] == IPPROTO_TCP && V6TcpDecides(l, b, o)))
  }

  // Running on from the last IPv4 list ends up in the IPv6 tests.
  predicate V4TcpDecides(l: PortLists, b: seq<byte>, o: nat, at: nat) {
    if |l.tcp4| == 0 then V6Decides(l, b, o)
    else
      match PortsVerdict(l.tcp4, b, at)
      case Accept => true
      case Reject => false
      case RunOn => V6Decides(l, b, o)
  }

  predicate V4UdpDecides(l: PortLists, b: seq<byte>, o: nat, at: nat) {
    match PortsVerdict(l.udp4, b, at)
    case Accept => true
    case Reject => false
    case RunOn => V4TcpDecides(l, b, o, at)
  }

  predicate V4Decides(l: PortLists, b: seq<byte>, o: nat) {
    Fragment(b, o) ||
    (o + 9 < |b| &&
     (b[o + 9] == IPPROTO_ICMP
      || (b[o + 9] == IPPROTO_UDP && |l.udp4| > 0 && V4UdpDecides(l, b, o, TransportOffset(b, o)))
      || (b[o + 9] == IPPROTO_TCP && |l.tcp4| > 0 && V4TcpDecides(l, b, o, TransportOffset(b, o)))))
  }

  predicate Decides(platform: Platform, rx: RxType, l: PortLists, f: Frame) {
    match FamilyOf(platform, rx, f)
    case Arp => true
    case Ip4 => V4Decides(l, f.bytes, IpOffset(rx))
    case Ip6 => V6Decides(l, f.bytes, IpOffset(rx))
    case Other => false
  }

  // ---------- Running the tests of one port list ----------

  function Answer(accept: bool): nat {
    if accept then ACCEPT_LEN else 0
  }

  // A program short enough for its jumps, ending in the two returns.
  ghost predicate Ends(p: seq<Insn>) {
    2 <= |p| < 256 && p[|p| - 2] == Stmt(Ret, 0) && p[|p| - 1] == Stmt(Ret, ACCEPT_LEN)
  }

  lemma {:induction false} ShortSource(p: seq<Insn>, pc: nat, ports: seq<Port>, i: nat, a: nat, x: nat, f: Frame)
    requires Ends(p) && |ports| <= DYN_FILTER_PORT_MAX && i <= |ports|
    requires Holds(p, pc, SourceTests(|p|, pc, ports)) && pc + |ports| <= |p| - 2
    ensures Run(p, pc + i, a, x, f) ==
            if a in ports[i..] then ACCEPT_LEN else Run(p, pc + |ports|, a, x, f)
    decreases |ports| - i
  {
    if i < |ports| {
      assert p[pc + i] == SourceTests(|p|, pc, ports)[i];
      assert ports[i..] == [ports[i]] + ports[i + 1..];
      ShortSource(p, pc, ports, i + 1, a, x, f);
    }
  }

  lemma {:induction false} ShortDest(p: seq<Insn>, pc: nat, ports: seq<Port>, i: nat, a: nat, x: nat, f: Frame)
    requires Ends(p) && |ports| <= DYN_FILTER_PORT_MAX && i < |ports|
    requires Holds(p, pc, DestTests(|p|, pc, ports)) && pc + |ports| <= |p| - 2
    ensures Run(p, pc + i, a, x, f) == Answer(a in ports[i..])
    decreases |ports| - i
  {
    assert p[pc + i] == DestTests(|p|, pc, ports)[i];
    assert ports[i..] == [ports[i]] + ports[i + 1..];
    if i + 1 < |ports| {
      ShortDest(p, pc, ports, i + 1, a, x, f);
    }
  }

  lemma SourceRun(p: seq<Insn>, pc: nat, ports: seq<Port>, a: nat, x: nat, f: Frame)
    requires Ends(p) && |ports| > 0
    requires Holds(p, pc, SourceTests(|p|, pc, ports)) && pc + TestCount(ports) <= |p| - 2
    ensures Run(p, pc, a, x, f) ==
            if Covers(ports, a) then ACCEPT_LEN else Run(p, pc + TestCount(ports), a, x, f)
  {
    if |ports| <= DYN_FILTER_PORT_MAX {
      ShortSource(p, pc, ports, 0, a, x, f);
      assert ports[0..] == ports;
    } else {
      assert p[pc + 0] == SourceTests(|p|, pc, ports)[0];
      assert p[pc + 1] == SourceTests(|p|, pc, ports)[1];
      assert Run(p, pc + 1, a, x, f) ==
             if a > MaxPort(ports) then Run(p, pc + 2, a, x, f) else ACCEPT_LEN;
    }
  }

  lemma DestRun(p: seq<Insn>, pc: nat, ports: seq<Port>, a: nat, x: nat, f: Frame)
    requires Ends(p) && |ports| > 0
    requires Holds(p, pc, DestTests(|p|, pc, ports)) && pc + TestCount(ports) <= |p| - 2
    ensures Run(p, pc, a, x, f) ==
            if Covers(ports, a) then ACCEPT_LEN
            else if |ports| > DYN_FILTER_PORT_MAX && a < MinPort(ports) then Run(p, pc + 2, a, x, f)
            else 0
  {
    if |ports| <= DYN_FILTER_PORT_MAX {
      ShortDest(p, pc, ports, 0, a, x, f);
      assert ports[0..] == ports;
    } else {
      assert p[pc + 0] == DestTests(|p|, pc, ports)[0];
      assert p[pc + 1] == DestTests(|p|, pc, ports)[1];
      assert Run(p, pc + 1, a, x, f) == if a > MaxPort(ports) then 0 else ACCEPT_LEN;
    }
  }

  // Where a port load with operand k reads, given the index register.
  function LoadsAt(load: Code, k: nat, x: nat): nat {
    if load.LdInd? then x + k else k
  }

  predicate PortLoad(load: Code) {
    load == LdAbs(Half) || load == LdInd(Half)
  }

  lemma HalfLoad(p: seq<Insn>, pc: nat, load: Code, k: nat, a: nat, x: nat, f: Frame)
    requires pc < |p| && p[pc] == Stmt(load, k) && PortLoad(load)
    requires k + x < SKF_AD_OFF
    ensures var at := LoadsAt(load, k, x);
            Run(p, pc, a, x, f) ==
            if at + 2 <= |f.bytes| then Run(p, pc + 1, Half16(f.bytes, at), x, f) else 0
  {
  }

  /** A whole list of port tests: PortsVerdict says what it does. */
  lemma PortsRun(p: seq<Insn>, pc: nat, ports: seq<Port>, load: Code, k: nat, a: nat, x: nat, f: Frame)
    requires Ends(p) && |ports| > 0 && PortLoad(load)
    requires k + 2 + x < SKF_AD_OFF
    requires Holds(p, pc, PortInsns(|p|, pc, ports, load, k)) && pc + PortCount(ports) <= |p| - 2
    ensures var at := LoadsAt(load, k, x);
            match PortsVerdict(ports, f.bytes, at)
            case Accept => Run(p, pc, a, x, f) == ACCEPT_LEN
            case Reject => Run(p, pc, a, x, f) == 0
            case RunOn =>
              Run(p, pc, a, x, f) == Run(p, pc + PortCount(ports), Half16(f.bytes, at + 2), x, f)
  {
    hide SourceTests, DestTests, MinPort, MaxPort, Holds, Run;
    var n := TestCount(ports);
    var at := LoadsAt(load, k, x);
    var s, d := SourceTests(|p|, pc + 1, ports), DestTests(|p|, pc + 2 + n, ports);
    PortPieces(p, pc, ports, load, k);
    HalfLoad(p, pc, load, k, a, x, f);
    if at + 2 <= |f.bytes| {
      var src := Half16(f.bytes, at);
      SourceRun(p, pc + 1, ports, src, x, f);
      if !Covers(ports, src) {
        HalfLoad(p, pc + 1 + n, load, k + 2, src, x, f);
        if at + 4 <= |f.bytes| {
          DestRun(p, pc + 2 + n, ports, Half16(f.bytes, at + 2), x, f);
        }
      }
    }
  }

  lemma PortPieces(p: seq<Insn>, pc: nat, ports: seq<Port>, load: Code, k: nat)
    requires Holds(p, pc, PortInsns(|p|, pc, ports, load, k))
    ensures var n := TestCount(ports);
            pc + 2 + n < |p| + 1 &&
            p[pc] == Stmt(load, k) && p[pc + 1 + n] == Stmt(load, k + 2) &&
            Holds(p, pc + 1, SourceTests(|p|, pc + 1, ports)) &&
            Holds(p, pc + 2 + n, DestTests(|p|, pc + 2 + n, ports))
  {
    hide SourceTests, DestTests;
    var n := TestCount(ports);
    var s, d := SourceTests(|p|, pc + 1, ports), DestTests(|p|, pc + 2 + n, ports);
    HoldsSplit(p, pc, [Stmt(load, k)] + s + [Stmt(load, k + 2)], d);
    HoldsSplit(p, pc, [Stmt(load, k)] + s, [Stmt(load, k + 2)]);
    HoldsSplit(p, pc, [Stmt(load, k)], s);
    assert p[pc + 0] == [Stmt(load, k)][0];
    assert p[pc + 1 + n + 0] == [Stmt(load, k + 2)][0];
  }

  // ---------- Running the IPv6 part ----------

  lemma ReturnsRun(p: seq<Insn>, a: nat, x: nat, f: Frame)
    requires Ends(p)
    ensures Run(p, |p| - 2, a, x, f) == 0 && Run(p, |p| - 1, a, x, f) == ACCEPT_LEN
  {
  }

  // One comparison of the accumulator, wherever it stands.
  lemma EqualRun(p: seq<Insn>, pc: nat, k: nat, jt: int, jf: int, a: nat, x: nat, f: Frame)
    requires pc < |p| && p[pc] == Jump(Jeq, k, jt, jf)
    requires 0 <= jt < 256 && 0 <= jf < 256
    ensures Run(p, pc, a, x, f) == Run(p, pc + 1 + (if a == k then jt else jf), a, x, f)
  {
  }

  lemma ByteRun(p: seq<Insn>, pc: nat, k: nat, a: nat, x: nat, f: Frame)
    requires pc < |p| && p[pc] == Stmt(LdAbs(Byte), k) && k < SKF_AD_OFF
    ensures Run(p, pc, a, x, f) == if k < |f.bytes| then Run(p, pc + 1, f.bytes[k], x, f) else 0
  {
  }

  // The IPv6 tests stand at pc, and the two returns follow their port tests.
  ghost predicate V6At(p: seq<Insn>, pc: nat, l: PortLists, o: nat) {
    Ends(p) && o < 64 && pc + V6Count(l) == |p| - 2 && Holds(p, pc, V6Insns(l, |p|, pc, o))
  }

  lemma V6Pieces(p: seq<Insn>, pc: nat, l: PortLists, o: nat)
    requires V6At(p, pc, l, o)
    ensures var h := |V6Head(l, |p|, pc, o)|;
            Holds(p, pc, V6Head(l, |p|, pc, o)) &&
            Holds(p, pc + h, V6Extensions(|p|, pc + h)) &&
            (|l.udp6| > 0 ==> Holds(p, pc + h + 4, PortInsns(|p|, pc + h + 4, l.udp6, LdAbs(Half), o + 40))) &&
            (|l.tcp6| > 0 ==>
               var t := pc + h + 4 + PortCount(l.udp6);
               Holds(p, t, PortInsns(|p|, t, l.tcp6, LdAbs(Half), o + 40)))
  {
    hide V6Head, V6Extensions, PortInsns, Holds;
    var h := |V6Head(l, |p|, pc, o)|;
    var head, ext := V6Head(l, |p|, pc, o), V6Extensions(|p|, pc + h);
    var blocks := PortBlocks(|p|, pc + h + 4, l.udp6, l.tcp6, LdAbs(Half), o + 40);
    HoldsSplit(p, pc, head + ext, blocks);
    HoldsSplit(p, pc, head, ext);
    BlockPieces(p, pc + h + 4, l.udp6, l.tcp6, LdAbs(Half), o + 40);
  }

  lemma BlockPieces(p: seq<Insn>, pc: nat, udp: seq<Port>, tcp: seq<Port>, load: Code, k: nat)
    requires Holds(p, pc, PortBlocks(|p|, pc, udp, tcp, load, k))
    ensures |udp| > 0 ==> Holds(p, pc, PortInsns(|p|, pc, udp, load, k))
    ensures |tcp| > 0 ==> var t := pc + PortCount(udp); Holds(p, t, PortInsns(|p|, t, tcp, load, k))
  {
    hide PortInsns, Holds;
    HoldsSplit(p, pc, Opt(|udp| > 0, PortInsns(|p|, pc, udp, load, k)),
               Opt(|tcp| > 0, PortInsns(|p|, pc + PortCount(udp), tcp, load, k)));
  }

  lemma V6ExtensionsCode(p: seq<Insn>, pc: nat)
    requires Holds(p, pc, V6Extensions(|p|, pc))
    ensures p[pc] == Jump(Jeq, IPPROTO_FRAGMENT, RetTrue(|p|, pc), 0)
    ensures p[pc + 1] == Jump(Jeq, IPPROTO_HOPOPTS, RetTrue(|p|, pc + 1), 0)
    ensures p[pc + 2] == Jump(Jeq, IPPROTO_DSTOPTS, RetTrue(|p|, pc + 2), 0)
    ensures p[pc + 3] == Jump(Jeq, IPPROTO_ROUTING, RetTrue(|p|, pc + 3), RetFalse(|p|, pc + 3))
  {
    var code := V6Extensions(|p|, pc);
    assert p[pc + 0] == code[0] && p[pc + 1] == code[1] && p[pc + 2] == code[2] && p[pc + 3] == code[3];
  }

  lemma V6ExtensionsRun(p: seq<Insn>, pc: nat, a: nat, x: nat, f: Frame)
    requires Ends(p) && pc + 4 <= |p| - 2 && Holds(p, pc, V6Extensions(|p|, pc))
    ensures Run(p, pc, a, x, f) == Answer(a != IPPROTO_ICMPV6 && PassedNextHeader(a))
  {
    hide Run, Holds, V6Extensions, Jump;
    V6ExtensionsCode(p, pc);
    EqualRun(p, pc, IPPROTO_FRAGMENT, RetTrue(|p|, pc), 0, a, x, f);
    EqualRun(p, pc + 1, IPPROTO_HOPOPTS, RetTrue(|p|, pc + 1), 0, a, x, f);
    EqualRun(p, pc + 2, IPPROTO_DSTOPTS, RetTrue(|p|, pc + 2), 0, a, x, f);
    EqualRun(p, pc + 3, IPPROTO_ROUTING, RetTrue(|p|, pc + 3), RetFalse(|p|, pc + 3), a, x, f);
    ReturnsRun(p, a, x, f);
  }

  lemma V6HeadInsns(p: seq<Insn>, pc: nat, l: PortLists, o: nat)
    requires Holds(p, pc, V6Head(l, |p|, pc, o))
    ensures p[pc] == Stmt(LdAbs(Byte), o + 6)
    ensures p[pc + 1] == Jump(Jeq, IPPROTO_ICMPV6, RetTrue(|p|, pc + 1), 0)
    ensures |l.udp6| > 0 ==> p[pc + 2] == Jump(Jeq, IPPROTO_UDP, 4 + One(|l.tcp6| > 0), 0)
    ensures |l.tcp6| > 0 ==>
              p[pc + 2 + One(|l.udp6| > 0)] == Jump(Jeq, IPPROTO_TCP, 4 + PortCount(l.udp6), 0)
  {
    hide PortCount;
    var head := V6Head(l, |p|, pc, o);
    assert p[pc + 0] == head[0] && p[pc + 1] == head[1];
    assert |l.udp6| > 0 ==> p[pc + 2] == head[2];
    assert |l.tcp6| > 0 ==> p[pc + 2 + One(|l.udp6| > 0)] == head[2 + One(|l.udp6| > 0)];
  }

  // Where the tests of the next header lead once the byte is loaded.
  lemma V6HeadRun(p: seq<Insn>, pc: nat, l: PortLists, o: nat, a: nat, x: nat, f: Frame)
    requires V6At(p, pc, l, o)
    ensures var h := |V6Head(l, |p|, pc, o)|;
            Run(p, pc + 1, a, x, f) ==
            if a == IPPROTO_ICMPV6 then ACCEPT_LEN
            else if a == IPPROTO_UDP && |l.udp6| > 0 then Run(p, pc + h + 4, a, x, f)
            else if a == IPPROTO_TCP && |l.tcp6| > 0 then Run(p, pc + h + 4 + PortCount(l.udp6), a, x, f)
            else Run(p, pc + h, a, x, f)
  {
    hide V6Head, V6Insns, V6Extensions, PortInsns, PortCount, Holds, Run, Jump;
    V6Pieces(p, pc, l, o);
    V6HeadInsns(p, pc, l, o);
    EqualRun(p, pc + 1, IPPROTO_ICMPV6, RetTrue(|p|, pc + 1), 0, a, x, f);
    ReturnsRun(p, a, x, f);
    if |l.udp6| > 0 {
      EqualRun(p, pc + 2, IPPROTO_UDP, 4 + One(|l.tcp6| > 0), 0, a, x, f);
    }
    if |l.tcp6| > 0 {
      EqualRun(p, pc + 2 + One(|l.udp6| > 0), IPPROTO_TCP, 4 + PortCount(l.udp6), 0, a, x, f);
    }
  }

  lemma V6TcpRun(p: seq<Insn>, pc: nat, l: PortLists, o: nat, a: nat, x: nat, f: Frame)
    requires Ends(p) && |l.tcp6| > 0 && o < 64 && x < 64
    requires pc + PortCount(l.tcp6) == |p| - 2
    requires Holds(p, pc, PortInsns(|p|, pc, l.tcp6, LdAbs(Half), o + 40))
    ensures Run(p, pc, a, x, f) == Answer(V6TcpDecides(l, f.bytes, o))
  {
    hide Run, PortInsns, PortsVerdict;
    PortsRun(p, pc, l.tcp6, LdAbs(Half), o + 40, a, x, f);
    if PortsVerdict(l.tcp6, f.bytes, o + 40).RunOn? {
      ReturnsRun(p, Half16(f.bytes, o + 42), x, f);
    }
  }

  /** Running the IPv6 part, from whatever state, is V6Decides. */
  lemma V6Run(p: seq<Insn>, pc: nat, l: PortLists, o: nat, a: nat, x: nat, f: Frame)
    requires V6At(p, pc, l, o) && x < 64
    ensures Run(p, pc, a, x, f) == Answer(V6Decides(l, f.bytes, o))
  {
    hide V6Head, V6Insns, V6Extensions, PortInsns, Holds, Run, Jump, PortsVerdict;
    V6Pieces(p, pc, l, o);
    V6HeadInsns(p, pc, l, o);
    ByteRun(p, pc, o + 6, a, x, f);
    if o + 6 < |f.bytes| {
      var n := f.bytes[o + 6];
      var h := |V6Head(l, |p|, pc, o)|;
      V6HeadRun(p, pc, l, o, n, x, f);
      V6ExtensionsRun(p, pc + h, n, x, f);
      if |l.tcp6| > 0 {
        V6TcpRun(p, pc + h + 4 + PortCount(l.udp6), l, o, n, x, f);
      }
      if n == IPPROTO_UDP && |l.udp6| > 0 {
        V6UdpRun(p, pc + h + 4, l, o, n, x, f);
      }
    }
  }

  lemma V6UdpRun(p: seq<Insn>, pc: nat, l: PortLists, o: nat, a: nat, x: nat, f: Frame)
    requires Ends(p) && |l.udp6| > 0 && o < 64 && x < 64
    requires pc + PortCount(l.udp6) + PortCount(l.tcp6) == |p| - 2
    requires Holds(p, pc, PortInsns(|p|, pc, l.udp6, LdAbs(Half), o + 40))
    requires |l.tcp6| > 0 ==>
               var t := pc + PortCount(l.udp6);
               Holds(p, t, PortInsns(|p|, t, l.tcp6, LdAbs(Half), o + 40))
    ensures Run(p, pc, a, x, f) == Answer(V6UdpDecides(l, f.bytes, o))
  {
    hide Run, PortInsns, PortsVerdict;
    PortsRun(p, pc, l.udp6, LdAbs(Half), o + 40, a, x, f);
    if PortsVerdict(l.udp6, f.bytes, o + 40).RunOn? {
      var d := Half16(f.bytes, o + 42);
      if |l.tcp6| > 0 {
        V6TcpRun(p, pc + PortCount(l.udp6), l, o, d, x, f);
      } else {
        ReturnsRun(p, d, x, f);
      }
    }
  }

  // ---------- Running the IPv4 part ----------

  // The IPv4 tests stand at pc and the IPv6 tests follow.
  ghost predicate V4At(p: seq<Insn>, pc: nat, l: PortLists, o: nat) {
    Holds(p, pc, V4Insns(l, |p|, pc, o)) && V6At(p, pc + V4Count(l), l, o)
  }

  lemma V4Pieces(p: seq<Insn>, pc: nat, l: PortLists, o: nat)
    requires V4At(p, pc, l, o)
    ensures var h := 4 + |V4Dispatch(l, |p|, pc + 4, o)|;
            Holds(p, pc, V4Head(l, |p|, pc, o)) &&
            Holds(p, pc + 4, V4Dispatch(l, |p|, pc + 4, o)) &&
            (|l.udp4| > 0 ==> Holds(p, pc + h, PortInsns(|p|, pc + h, l.udp4, LdInd(Half), o))) &&
            (|l.tcp4| > 0 ==>
               var t := pc + h + PortCount(l.udp4); Holds(p, t, PortInsns(|p|, t, l.tcp4, LdInd(Half), o)))
  {
    hide V4Head, V4Dispatch, PortInsns, Holds;
    var head, dispatch := V4Head(l, |p|, pc, o), V4Dispatch(l, |p|, pc + 4, o);
    var blocks := PortBlocks(|p|, pc + 4 + |dispatch|, l.udp4, l.tcp4, LdInd(Half), o);
    HoldsSplit(p, pc, head + dispatch, blocks);
    HoldsSplit(p, pc, head, dispatch);
    BlockPieces(p, pc + 4 + |dispatch|, l.udp4, l.tcp4, LdInd(Half), o);
  }

  lemma V4DispatchInsns(p: seq<Insn>, pc: nat, l: PortLists, o: nat)
    requires Holds(p, pc, V4Dispatch(l, |p|, pc, o))
    requires |l.udp4| > 0 || |l.tcp4| > 0
    ensures p[pc] == Stmt(LdxMsh, o)
    ensures |l.udp4| > 0 ==>
              p[pc + 1] == Jump(Jeq, IPPROTO_UDP, One(|l.tcp4| > 0),
                                if |l.tcp4| > 0 then 0 else RetFalse(|p|, pc + 1))
    ensures |l.tcp4| > 0 ==>
              var t := pc + 1 + One(|l.udp4| > 0);
              p[t] == Jump(Jeq, IPPROTO_TCP, PortCount(l.udp4), RetFalse(|p|, t))
  {
    hide PortCount;
    var code := V4Dispatch(l, |p|, pc, o);
    assert p[pc + 0] == code[0];
    assert |l.udp4| > 0 ==> p[pc + 1] == code[1];
    assert |l.tcp4| > 0 ==> p[pc + 1 + One(|l.udp4| > 0)] == code[1 + One(|l.udp4| > 0)];
  }

  lemma V4TcpRun(p: seq<Insn>, pc: nat, l: PortLists, o: nat, a: nat, x: nat, f: Frame)
    requires V6At(p, pc + PortCount(l.tcp4), l, o) && x < 64
    requires |l.tcp4| > 0 ==> Holds(p, pc, PortInsns(|p|, pc, l.tcp4, LdInd(Half), o))
    ensures Run(p, pc, a, x, f) == Answer(V4TcpDecides(l, f.bytes, o, o + x))
  {
    hide Run, PortInsns, PortsVerdict, V6Decides, V6Insns;
    if |l.tcp4| == 0 {
      V6Run(p, pc, l, o, a, x, f);
    } else {
      PortsRun(p, pc, l.tcp4, LdInd(Half), o, a, x, f);
      if PortsVerdict(l.tcp4, f.bytes, o + x).RunOn? {
        V6Run(p, pc + PortCount(l.tcp4), l, o, Half16(f.bytes, o + x + 2), x, f);
      }
    }
  }

  lemma V4UdpRun(p: seq<Insn>, pc: nat, l: PortLists, o: nat, a: nat, x: nat, f: Frame)
    requires |l.udp4| > 0 && x < 64
    requires V6At(p, pc + PortCount(l.udp4) + PortCount(l.tcp4), l, o)
    requires Holds(p, pc, PortInsns(|p|, pc, l.udp4, LdInd(Half), o))
    requires |l.tcp4| > 0 ==>
               var t := pc + PortCount(l.udp4); Holds(p, t, PortInsns(|p|, t, l.tcp4, LdInd(Half), o))
    ensures Run(p, pc, a, x, f) == Answer(V4UdpDecides(l, f.bytes, o, o + x))
  {
    hide Run, PortInsns, PortsVerdict, V4TcpDecides, V6Insns;
    PortsRun(p, pc, l.udp4, LdInd(Half), o, a, x, f);
    if PortsVerdict(l.udp4, f.bytes, o + x).RunOn? {
      V4TcpRun(p, pc + PortCount(l.udp4), l, o, Half16(f.bytes, o + x + 2), x, f);
    }
  }

  // From the protocol tests on, with the protocol in the accumulator.
  lemma V4DispatchRun(p: seq<Insn>, pc: nat, l: PortLists, o: nat, a: nat, x: nat, f: Frame)
    requires V4At(p, pc, l, o) && x < 64
    requires |l.udp4| > 0 || |l.tcp4| > 0
    requires o < |f.bytes|
    ensures var at := TransportOffset(f.bytes, o);
            Run(p, pc + 4, a, x, f) ==
            if a == IPPROTO_UDP && |l.udp4| > 0 then Answer(V4UdpDecides(l, f.bytes, o, at))
            else if a == IPPROTO_TCP && |l.tcp4| > 0 then Answer(V4TcpDecides(l, f.bytes, o, at))
            else 0
  {
    hide V4Head, V4Dispatch, V4Insns, V6Insns, Run, Holds, PortInsns, PortCount, Jump, V4UdpDecides, V4TcpDecides;
    V4Pieces(p, pc, l, o);
    V4DispatchInsns(p, pc + 4, l, o);
    var y := 4 * (f.bytes[o] % 16);
    MshRun(p, pc + 4, o, a, x, f);
    var h := 4 + |V4Dispatch(l, |p|, pc + 4, o)|;
    ReturnsRun(p, a, y, f);
    if |l.tcp4| > 0 {
      var t := pc + 5 + One(|l.udp4| > 0);
      EqualRun(p, t, IPPROTO_TCP, PortCount(l.udp4), RetFalse(|p|, t), a, y, f);
      V4TcpRun(p, pc + h + PortCount(l.udp4), l, o, a, y, f);
    }
    if |l.udp4| > 0 {
      EqualRun(p, pc + 5, IPPROTO_UDP, One(|l.tcp4| > 0),
               if |l.tcp4| > 0 then 0 else RetFalse(|p|, pc + 5), a, y, f);
      V4UdpRun(p, pc + h, l, o, a, y, f);
    }
  }

  lemma MshRun(p: seq<Insn>, pc: nat, k: nat, a: nat, x: nat, f: Frame)
    requires pc < |p| && p[pc] == Stmt(LdxMsh, k) && k < |f.bytes|
    ensures Run(p, pc, a, x, f) == Run(p, pc + 1, a, 4 * (f.bytes[k] % 16), f)
  {
  }

  lemma JsetRun(p: seq<Insn>, pc: nat, jt: int, a: nat, x: nat, f: Frame)
    requires pc < |p| && p[pc] == Jump(Jset, IP_OFFMASK, jt, 0) && 0 <= jt < 256
    ensures Run(p, pc, a, x, f) == Run(p, pc + 1 + (if a % 0x2000 != 0 then jt else 0), a, x, f)
  {
    assert Pow2(13) == 0x2000 by {
      assert Pow2(7) == 128;
      assert Pow2(10) == 1024;
    }
    MaskIsRemainder(a, 13);
  }

  lemma V4HeadInsns(p: seq<Insn>, pc: nat, l: PortLists, o: nat)
    requires Holds(p, pc, V4Head(l, |p|, pc, o))
    ensures p[pc] == Stmt(LdAbs(Half), o + 6)
    ensures p[pc + 1] == Jump(Jset, IP_OFFMASK, V6Count(l) + V4Count(l) - 1, 0)
    ensures p[pc + 2] == Stmt(LdAbs(Byte), o + 9)
    ensures p[pc + 3] == Jump(Jeq, IPPROTO_ICMP, RetTrue(|p|, pc + 3),
                              if |l.udp4| > 0 || |l.tcp4| > 0 then 0 else RetFalse(|p|, pc + 3))
  {
    var code := V4Head(l, |p|, pc, o);
    assert p[pc + 0] == code[0] && p[pc + 1] == code[1] && p[pc + 2] == code[2] && p[pc + 3] == code[3];
  }

  /** Running the IPv4 part is V4Decides. */
  lemma V4Run(p: seq<Insn>, pc: nat, l: PortLists, o: nat, a: nat, x: nat, f: Frame)
    requires V4At(p, pc, l, o) && x < 64
    ensures Run(p, pc, a, x, f) == Answer(V4Decides(l, f.bytes, o))
  {
    hide V4Head, V4Dispatch, V4Insns, V6Insns, Run, Holds, PortInsns, Jump, V4UdpDecides, V4TcpDecides;
    V4Pieces(p, pc, l, o);
    V4HeadInsns(p, pc, l, o);
    HalfLoad(p, pc, LdAbs(Half), o + 6, a, x, f);
    if o + 8 <= |f.bytes| {
      var off := Half16(f.bytes, o + 6);
      JsetRun(p, pc + 1, V6Count(l) + V4Count(l) - 1, off, x, f);
      ReturnsRun(p, off, x, f);
      ByteRun(p, pc + 2, o + 9, off, x, f);
      if o + 9 < |f.bytes| {
        var proto := f.bytes[o + 9];
        ReturnsRun(p, proto, x, f);
        EqualRun(p, pc + 3, IPPROTO_ICMP, RetTrue(|p|, pc + 3),
                 if |l.udp4| > 0 || |l.tcp4| > 0 then 0 else RetFalse(|p|, pc + 3), proto, x, f);
        if |l.udp4| > 0 || |l.tcp4| > 0 {
          V4DispatchRun(p, pc, l, o, proto, x, f);
        }
      }
    }
  }

  // ---------- Running the link part ----------

  // What follows from the network layer on, once the family is known.
  predicate NetDecides(family: Family, l: PortLists, b: seq<byte>, o: nat) {
    match family
    case Arp => true
    case Ip4 => V4Decides(l, b, o)
    case Ip6 => V6Decides(l, b, o)
    case Other => false
  }

  lemma RshRun(p: seq<Insn>, pc: nat, a: nat, x: nat, f: Frame)
    requires pc < |p| && p[pc] == Stmt(Rsh, 4)
    ensures Run(p, pc, a, x, f) == Run(p, pc + 1, a / 16, x, f)
  {
    assert ShiftRight(a, 4) == ShiftRight(a / 2, 3) == ShiftRight(a / 4, 2) == ShiftRight(a / 8, 1);
    assert ShiftRight(a / 8, 1) == ShiftRight(a / 16, 0);
  }

  lemma VersionCode(p: seq<Insn>, pc: nat, v4c: nat)
    requires Holds(p, pc, VersionInsns(|p|, pc, v4c))
    ensures pc + 4 <= |p| && p[pc] == Stmt(LdAbs(Byte), 0) && p[pc + 1] == Stmt(Rsh, 4)
    ensures p[pc + 2] == Jump(Jeq, 4, 1, 0)
    ensures p[pc + 3] == Jump(Jeq, 6, v4c, RetFalse(|p|, pc + 3))
  {
    var code := VersionInsns(|p|, pc, v4c);
    assert p[pc + 0] == code[0] && p[pc + 1] == code[1] && p[pc + 2] == code[2] && p[pc + 3] == code[3];
  }

  lemma VersionRun(p: seq<Insn>, pc: nat, l: PortLists, o: nat, a: nat, f: Frame)
    requires Holds(p, pc, VersionInsns(|p|, pc, V4Count(l))) && V4At(p, pc + 4, l, o)
    ensures Run(p, pc, a, 0, f) == Answer(NetDecides(FamilyOfVersion(f.bytes), l, f.bytes, o))
  {
    hide V4Insns, V6Insns, V4Decides, V6Decides, PortCount, Run, PortInsns;
    hide Holds, VersionInsns, V4Count, Jump;
    VersionCode(p, pc, V4Count(l));
    ByteRun(p, pc, 0, a, 0, f);
    if |f.bytes| > 0 {
      var b := f.bytes[0];
      var v := b / 16;
      RshRun(p, pc + 1, b, 0, f);
      EqualRun(p, pc + 2, 4, 1, 0, v, 0, f);
      EqualRun(p, pc + 3, 6, V4Count(l), RetFalse(|p|, pc + 3), v, 0, f);
      V4Run(p, pc + 4, l, o, v, 0, f);
      V6Run(p, pc + 4 + V4Count(l), l, o, v, 0, f);
      ReturnsRun(p, v, 0, f);
    }
  }

  // The three tests of an Ethernet protocol number in the accumulator, with
  // the IPv4 tests at v4.
  lemma TypeTestsRun(p: seq<Insn>, pc: nat, v4: nat, l: PortLists, o: nat, t: nat, f: Frame)
    requires V4At(p, v4, l, o) && pc + 3 <= v4 <= pc + 16
    requires p[pc] == Jump(Jeq, ETHERTYPE_IP, v4 - pc - 1, 0)
    requires p[pc + 1] == Jump(Jeq, ETHERTYPE_IPV6, v4 + V4Count(l) - pc - 2, 0)
    requires p[pc + 2] == Jump(Jeq, ETHERTYPE_ARP, RetTrue(|p|, pc + 2), RetFalse(|p|, pc + 2))
    ensures Run(p, pc, t, 0, f) == Answer(NetDecides(FamilyOfType(t), l, f.bytes, o))
  {
    hide V4Insns, V6Insns, V4Decides, V6Decides, PortCount, Run, Holds, Jump;
    EqualRun(p, pc, ETHERTYPE_IP, v4 - pc - 1, 0, t, 0, f);
    EqualRun(p, pc + 1, ETHERTYPE_IPV6, v4 + V4Count(l) - pc - 2, 0, t, 0, f);
    EqualRun(p, pc + 2, ETHERTYPE_ARP, RetTrue(|p|, pc + 2), RetFalse(|p|, pc + 2), t, 0, f);
    V4Run(p, v4, l, o, t, 0, f);
    V6Run(p, v4 + V4Count(l), l, o, t, 0, f);
    ReturnsRun(p, t, 0, f);
  }

  lemma EthernetRun(p: seq<Insn>, platform: Platform, l: PortLists, f: Frame)
    requires Holds(p, 0, LinkInsns(platform, Ethernet, |p|, V4Count(l))) && V4At(p, 4, l, 14)
    ensures Run(p, 0, 0, 0, f) ==
            Answer(NetDecides(FamilyOf(platform, Ethernet, f), l, f.bytes, 14))
  {
    hide V4Insns, V6Insns, V4Decides, V6Decides, PortCount, Run;
    var code := LinkInsns(platform, Ethernet, |p|, V4Count(l));
    assert p[0 + 0] == code[0] && p[0 + 1] == code[1] && p[0 + 2] == code[2] && p[0 + 3] == code[3];
    HalfLoad(p, 0, LdAbs(Half), 12, 0, 0, f);
    if 14 <= |f.bytes| {
      TypeTestsRun(p, 1, 4, l, 14, Half16(f.bytes, 12), f);
    }
  }

  // A frame holds an address family in host order when its first four octets,
  // read in network order, are htonl of the family.
  lemma HtonlMeetsHostWord(platform: Platform, b: seq<byte>, family: nat)
    requires |b| >= 4 && family < 256
    ensures Word32(b, 0) == Htonl(platform, family) <==> HostWord(platform, b) == family
  {
  }

  lemma NullCode(p: seq<Insn>, platform: Platform, v4c: nat)
    requires Holds(p, 0, LinkInsns(platform, NullLink, |p|, v4c))
    ensures |p| >= 3 && p[0] == Stmt(LdAbs(Word), 0)
    ensures p[1] == Jump(Jeq, Htonl(platform, platform.pfInet), 1, 0)
    ensures p[2] == Jump(Jeq, Htonl(platform, platform.pfInet6), v4c, RetFalse(|p|, 2))
  {
    hide Htonl;
    var code := LinkInsns(platform, NullLink, |p|, v4c);
    assert p[0 + 0] == code[0] && p[0 + 1] == code[1] && p[0 + 2] == code[2];
  }

  lemma NullRun(p: seq<Insn>, platform: Platform, l: PortLists, f: Frame)
    requires platform.Valid()
    requires Holds(p, 0, LinkInsns(platform, NullLink, |p|, V4Count(l))) && V4At(p, 3, l, 4)
    ensures Run(p, 0, 0, 0, f) ==
            Answer(NetDecides(FamilyOf(platform, NullLink, f), l, f.bytes, 4))
  {
    hide V4Insns, V6Insns, V4Decides, V6Decides, PortCount, Run, Word32, HostWord, Htonl;
    hide Holds, LinkInsns, V4Count, Jump;
    NullCode(p, platform, V4Count(l));
    WordRun(p, 0, f);
    if 4 <= |f.bytes| {
      var w := Word32(f.bytes, 0);
      EqualRun(p, 1, Htonl(platform, platform.pfInet), 1, 0, w, 0, f);
      EqualRun(p, 2, Htonl(platform, platform.pfInet6), V4Count(l), RetFalse(|p|, 2), w, 0, f);
      HtonlMeetsHostWord(platform, f.bytes, platform.pfInet);
      HtonlMeetsHostWord(platform, f.bytes, platform.pfInet6);
      V4Run(p, 3, l, 4, w, 0, f);
      V6Run(p, 3 + V4Count(l), l, 4, w, 0, f);
      ReturnsRun(p, w, 0, f);
    }
  }

  lemma WordRun(p: seq<Insn>, pc: nat, f: Frame)
    requires pc < |p| && p[pc] == Stmt(LdAbs(Word), 0)
    ensures Run(p, pc, 0, 0, f) == if 4 <= |f.bytes| then Run(p, pc + 1, Word32(f.bytes, 0), 0, f) else 0
  {
  }

  lemma MetadataRun(p: seq<Insn>, pc: nat, a: nat, f: Frame)
    requires pc < |p|
    ensures p[pc] == Stmt(LdAbs(Half), SKF_AD_OFF + SKF_AD_HATYPE) ==>
              Run(p, pc, a, 0, f) == Run(p, pc + 1, f.hatype, 0, f)
    ensures p[pc] == Stmt(LdAbs(Half), SKF_AD_OFF + SKF_AD_PROTOCOL) ==>
              Run(p, pc, a, 0, f) == Run(p, pc + 1, f.protocol, 0, f)
  {
  }

  lemma HatypeCode(p: seq<Insn>, platform: Platform)
    requires Holds(p, 0, HatypeInsns(platform, |p|))
    ensures var extra := One(platform.sit) + One(platform.voidLink);
            p[0] == Stmt(LdAbs(Half), SKF_AD_OFF + SKF_AD_HATYPE) &&
            p[1] == Jump(Jeq, ARPHRD_ETHER, 2 + extra, 0) &&
            p[2] == Jump(Jeq, ARPHRD_LOOPBACK, 1 + extra, 0) &&
            (platform.sit ==> p[3] == Jump(Jeq, ARPHRD_SIT, 5 + One(platform.voidLink), 0)) &&
            (platform.voidLink ==> p[3 + One(platform.sit)] == Jump(Jeq, ARPHRD_VOID, 5, 0)) &&
            p[3 + extra] == Jump(Jeq, ARPHRD_PPP, 4, RetFalse(|p|, 3 + extra))
  {
    var code := HatypeInsns(platform, |p|);
    var extra := One(platform.sit) + One(platform.voidLink);
    assert p[0 + 0] == code[0] && p[0 + 1] == code[1] && p[0 + 2] == code[2];
    assert platform.sit ==> p[0 + 3] == code[3];
    assert p[0 + (3 + One(platform.sit))] == code[3 + One(platform.sit)];
    assert p[0 + (3 + extra)] == code[3 + extra];
  }

  lemma HatypeRun(p: seq<Insn>, platform: Platform, f: Frame)
    requires Ends(p) && |p| > 20 && Holds(p, 0, HatypeInsns(platform, |p|))
    ensures var h := |HatypeInsns(platform, |p|)|;
            Run(p, 0, 0, 0, f) ==
            if f.hatype == ARPHRD_ETHER || f.hatype == ARPHRD_LOOPBACK then Run(p, h, f.hatype, 0, f)
            else if (platform.sit && f.hatype == ARPHRD_SIT) || (platform.voidLink && f.hatype == ARPHRD_VOID)
                    || f.hatype == ARPHRD_PPP then Run(p, h + 4, f.hatype, 0, f)
            else 0
  {
    HatypeCode(p, platform);
    hide Run, HatypeInsns, Holds, Jump;
    var extra := One(platform.sit) + One(platform.voidLink);
    var t := f.hatype;
    MetadataRun(p, 0, 0, f);
    EqualRun(p, 1, ARPHRD_ETHER, 2 + extra, 0, t, 0, f);
    EqualRun(p, 2, ARPHRD_LOOPBACK, 1 + extra, 0, t, 0, f);
    if platform.sit {
      EqualRun(p, 3, ARPHRD_SIT, 5 + One(platform.voidLink), 0, t, 0, f);
    }
    if platform.voidLink {
      EqualRun(p, 3 + One(platform.sit), ARPHRD_VOID, 5, 0, t, 0, f);
    }
    EqualRun(p, 3 + extra, ARPHRD_PPP, 4, RetFalse(|p|, 3 + extra), t, 0, f);
    ReturnsRun(p, t, 0, f);
  }

  lemma CookedPieces(p: seq<Insn>, platform: Platform, v4c: nat)
    requires Holds(p, 0, LinkInsns(platform, Cooked, |p|, v4c))
    ensures var h := |HatypeInsns(platform, |p|)|;
            && Holds(p, 0, HatypeInsns(platform, |p|)) && Holds(p, h, ProtocolInsns(|p|, h, v4c))
            && Holds(p, h + 4, VersionInsns(|p|, h + 4, v4c))
  {
    hide HatypeInsns, ProtocolInsns, VersionInsns, Holds;
    var h := |HatypeInsns(platform, |p|)|;
    var hatype, protocol := HatypeInsns(platform, |p|), ProtocolInsns(|p|, h, v4c);
    HoldsSplit(p, 0, hatype + protocol, VersionInsns(|p|, h + 4, v4c));
    HoldsSplit(p, 0, hatype, protocol);
  }

  lemma CookedRun(p: seq<Insn>, platform: Platform, l: PortLists, f: Frame)
    requires Holds(p, 0, LinkInsns(platform, Cooked, |p|, V4Count(l)))
    requires V4At(p, LinkCount(platform, Cooked), l, 0)
    ensures Run(p, 0, 0, 0, f) ==
            Answer(NetDecides(FamilyOf(platform, Cooked, f), l, f.bytes, 0))
  {
    hide V4Insns, V6Insns, V4Decides, V6Decides, PortCount, Run, HatypeInsns, VersionInsns, Holds, Jump;
    hide LinkInsns, ProtocolInsns;
    var h := |HatypeInsns(platform, |p|)|;
    CookedPieces(p, platform, V4Count(l));
    HatypeRun(p, platform, f);
    ProtocolCode(p, h, V4Count(l));
    MetadataRun(p, h, f.hatype, f);
    TypeTestsRun(p, h + 1, h + 8, l, 0, f.protocol, f);
    VersionRun(p, h + 4, l, 0, f.hatype, f);
  }

  lemma ProtocolCode(p: seq<Insn>, pc: nat, v4c: nat)
    requires Holds(p, pc, ProtocolInsns(|p|, pc, v4c))
    ensures p[pc] == Stmt(LdAbs(Half), SKF_AD_OFF + SKF_AD_PROTOCOL)
    ensures p[pc + 1] == Jump(Jeq, ETHERTYPE_IP, 6, 0)
    ensures p[pc + 2] == Jump(Jeq, ETHERTYPE_IPV6, v4c + 5, 0)
    ensures p[pc + 3] == Jump(Jeq, ETHERTYPE_ARP, RetTrue(|p|, pc + 3), RetFalse(|p|, pc + 3))
  {
    var code := ProtocolInsns(|p|, pc, v4c);
    assert p[pc + 0] == code[0] && p[pc + 1] == code[1] && p[pc + 2] == code[2] && p[pc + 3] == code[3];
  }

  // ---------- The main results ----------

  lemma FourPieces(p: seq<Insn>, link: seq<Insn>, ip4: seq<Insn>, ip6: seq<Insn>, rets: seq<Insn>)
    requires p == link + ip4 + ip6 + rets
    ensures Holds(p, 0, link) && Holds(p, |link|, ip4) && Holds(p, |link| + |ip4|, ip6)
    ensures Holds(p, |link| + |ip4| + |ip6|, rets)
  {
    assert Holds(p, 0, link + ip4 + ip6 + rets);
    HoldsSplit(p, 0, link + ip4 + ip6, rets);
    HoldsSplit(p, 0, link + ip4, ip6);
    HoldsSplit(p, 0, link, ip4);
  }

  lemma ProgramPieces(platform: Platform, rx: RxType, l: PortLists)
    ensures var p := Program(platform, rx, l);
            Ends(p) &&
            Holds(p, 0, LinkInsns(platform, rx, |p|, V4Count(l))) &&
            V4At(p, LinkCount(platform, rx), l, IpOffset(rx))
  {
    ProgramShort(platform, rx, l);
    hide LinkInsns, V4Insns, V6Insns, LinkCount, V4Count, V6Count;
    var p := Program(platform, rx, l);
    var v4 := LinkCount(platform, rx);
    var rets := [Stmt(Ret, 0), Stmt(Ret, ACCEPT_LEN)];
    FourPieces(p, LinkInsns(platform, rx, |p|, V4Count(l)), V4Insns(l, |p|, v4, IpOffset(rx)),
               V6Insns(l, |p|, v4 + V4Count(l), IpOffset(rx)), rets);
    assert p[|p| - 2 + 0] == rets[0] && p[|p| - 2 + 1] == rets[1];
  }

  /** Meaning preserved: on every frame, however short, the emitted program
      accepts exactly what Decides says, for lists of any length. */
  lemma ProgramDecides(platform: Platform, rx: RxType, l: PortLists, f: Frame)
    requires platform.Valid() && Supported(platform, rx)
    ensures Run(Program(platform, rx, l), 0, 0, 0, f) == Answer(Decides(platform, rx, l, f))
  {
    hide Program, LinkInsns, V4Insns, V6Insns, V4Decides, V6Decides, Run, Holds, FamilyOf;
    var p := Program(platform, rx, l);
    ProgramPieces(platform, rx, l);
    match rx
    case Ethernet => EthernetRun(p, platform, l, f);
    case NullLink => NullRun(p, platform, l, f);
    case Cooked => CookedRun(p, platform, l, f);
    case Raw => RawRun(p, platform, l, f);
    case Unsupported => assert false;
  }

  lemma RawRun(p: seq<Insn>, platform: Platform, l: PortLists, f: Frame)
    requires Holds(p, 0, LinkInsns(platform, Raw, |p|, V4Count(l))) && V4At(p, 4, l, 0)
    ensures Run(p, 0, 0, 0, f) == Answer(NetDecides(FamilyOf(platform, Raw, f), l, f.bytes, 0))
  {
    hide V4Insns, V6Insns, V4Decides, V6Decides, Run, Holds;
    VersionRun(p, 0, l, 0, 0, f);
  }
}
