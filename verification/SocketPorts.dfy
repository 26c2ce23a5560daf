/** scamper_fds_sports of scamper_fds.c: the ports bound by the open UDP and
    TCP sockets, laid out in the array that the filter compiler reads. */
module SocketPorts {
  import opened BpfMachine
  import opened BpfFilter
  import opened BpfFilterProofs
  import opened BpfFilterResults

  datatype FdType = Udp4dg | Udp6 | Tcp4 | Tcp6 | OtherFd
  datatype Fd = Fd(kind: FdType, sport: Port)

  /** The ports of the sockets of one kind, in list order. */
  function SportsOf(fds: seq<Fd>, kind: FdType): (ports: seq<Port>)
    ensures |ports| <= |fds|
  {
    if fds == [] then []
    else
      var last := fds[|fds| - 1];
      SportsOf(fds[..|fds| - 1], kind) + (if last.kind == kind then [last.sport] else [])
  }

  lemma {:induction false} SportsOfMember(fds: seq<Fd>, fd: Fd)
    requires fd in fds
    ensures fd.sport in SportsOf(fds, fd.kind)
  {
    var init := fds[..|fds| - 1];
    assert fds == init + [fds[|fds| - 1]];
    if fd != fds[|fds| - 1] {
      SportsOfMember(init, fd);
    }
  }

  lemma {:induction false} SportsOfPrefix(fds: seq<Fd>, i: nat, kind: FdType)
    requires i <= |fds|
    ensures |SportsOf(fds[..i], kind)| <= |SportsOf(fds, kind)|
    decreases |fds| - i
  {
    if i < |fds| {
      assert fds[..i + 1][..i] == fds[..i];
      SportsOfPrefix(fds, i + 1, kind);
    } else {
      assert fds[..i] == fds;
    }
  }

  // Counts are stored in 16 bits.
  function U16(n: nat): Port {
    n % 0x1_0000
  }

  function Layout(fds: seq<Fd>): seq<Port> {
    var u4, t4, u6, t6 :=
      SportsOf(fds, Udp4dg), SportsOf(fds, Tcp4), SportsOf(fds, Udp6), SportsOf(fds, Tcp6);
    [U16(|u4|), U16(|t4|), U16(|u6|), U16(|t6|)] + u4 + t4 + u6 + t6
  }

  // The sockets of one kind fill their region of the array, up to cursor at.
  ghost predicate Filled(ports: seq<Port>, start: nat, at: nat, fds: seq<Fd>, kind: FdType) {
    at == start + |SportsOf(fds, kind)| && at <= |ports| && ports[start..at] == SportsOf(fds, kind)
  }

  method CountSports(fds: seq<Fd>) returns (udp4c: nat, tcp4c: nat, udp6c: nat, tcp6c: nat)
    ensures udp4c == |SportsOf(fds, Udp4dg)| && tcp4c == |SportsOf(fds, Tcp4)|
    ensures udp6c == |SportsOf(fds, Udp6)| && tcp6c == |SportsOf(fds, Tcp6)|
  {
    udp4c, tcp4c, udp6c, tcp6c := 0, 0, 0, 0;
    for i := 0 to |fds|
      invariant udp4c == |SportsOf(fds[..i], Udp4dg)| && tcp4c == |SportsOf(fds[..i], Tcp4)|
      invariant udp6c == |SportsOf(fds[..i], Udp6)| && tcp6c == |SportsOf(fds[..i], Tcp6)|
    {
      assert fds[..i + 1][..i] == fds[..i];
      match fds[i].kind
      case Udp4dg => udp4c := udp4c + 1;
      case Udp6 => udp6c := udp6c + 1;
      case Tcp4 => tcp4c := tcp4c + 1;
      case Tcp6 => tcp6c := tcp6c + 1;
      case OtherFd =>
    }
    assert fds[..|fds|] == fds;
  }

  // Storing the port of socket i extends the region of its kind.
  lemma StoreExtends(ports: seq<Port>, start: nat, at: nat, fds: seq<Fd>, i: nat)
    requires i < |fds| && at < |ports| && Filled(ports, start, at, fds[..i], fds[i].kind)
    ensures Filled(ports[at := fds[i].sport], start, at + 1, fds[..i + 1], fds[i].kind)
  {
    assert fds[..i + 1][..i] == fds[..i];
    var after := ports[at := fds[i].sport];
    assert after[start..at + 1] == ports[start..at] + [fds[i].sport];
  }

  // It keeps the regions of the other kinds, which end at or start after it.
  lemma StoreKeeps(ports: seq<Port>, cell: nat, start: nat, at: nat, fds: seq<Fd>, i: nat, kind: FdType)
    requires i < |fds| && cell < |ports| && fds[i].kind != kind
    requires Filled(ports, start, at, fds[..i], kind) && (cell < start || at <= cell)
    ensures Filled(ports[cell := fds[i].sport], start, at, fds[..i + 1], kind)
  {
    assert fds[..i + 1][..i] == fds[..i];
    assert ports[cell := fds[i].sport][start..at] == ports[start..at];
  }

  /** A place in each of the four regions. */
  datatype Four = Four(udp4: nat, tcp4: nat, udp6: nat, tcp6: nat) {
    function At(kind: FdType): nat {
      match kind
      case Udp4dg => udp4
      case Tcp4 => tcp4
      case Udp6 => udp6
      case Tcp6 => tcp6
      case OtherFd => 0
    }

    function Inc(kind: FdType): (r: Four)
      ensures forall k :: k != OtherFd ==> r.At(k) == At(k) + if k == kind then 1 else 0
    {
      match kind
      case Udp4dg => this.(udp4 := udp4 + 1)
      case Tcp4 => this.(tcp4 := tcp4 + 1)
      case Udp6 => this.(udp6 := udp6 + 1)
      case Tcp6 => this.(tcp6 := tcp6 + 1)
      case OtherFd => this
    }
  }

  // Where the regions start, one behind the other, in an array of some length.
  predicate Regions(fds: seq<Fd>, from: Four, length: nat) {
    && from.udp4 == 4
    && from.tcp4 == from.udp4 + |SportsOf(fds, Udp4dg)|
    && from.udp6 == from.tcp4 + |SportsOf(fds, Tcp4)|
    && from.tcp6 == from.udp6 + |SportsOf(fds, Udp6)|
    && length == from.tcp6 + |SportsOf(fds, Tcp6)|
  }

  ghost predicate AllFilled(ports: seq<Port>, from: Four, at: Four, fds: seq<Fd>) {
    forall kind :: kind != OtherFd ==> Filled(ports, from.At(kind), at.At(kind), fds, kind)
  }

  method FillSports(fds: seq<Fd>, ports: array<Port>, udp4c: nat, tcp4c: nat, udp6c: nat, tcp6c: nat)
    requires udp4c == |SportsOf(fds, Udp4dg)| && tcp4c == |SportsOf(fds, Tcp4)|
    requires udp6c == |SportsOf(fds, Udp6)| && tcp6c == |SportsOf(fds, Tcp6)|
    requires ports.Length == 4 + udp4c + tcp4c + udp6c + tcp6c
    modifies ports
    ensures ports[..4] == old(ports[..4])
    ensures ports[4..] == SportsOf(fds, Udp4dg) + SportsOf(fds, Tcp4) + SportsOf(fds, Udp6) + SportsOf(fds, Tcp6)
  {
    var udp4i: nat := 4;
    var tcp4i: nat := udp4i + udp4c;
    var udp6i: nat := tcp4i + tcp4c;
    var tcp6i: nat := udp6i + udp6c;
    ghost var from := Four(udp4i, tcp4i, udp6i, tcp6i);
    assert Regions(fds, from, ports.Length);
    hide SportsOf, Filled, AllFilled, Regions;
    NoneFilled(fds, ports[..], from);
    for i := 0 to |fds|
      invariant ports[..4] == old(ports[..4])
      invariant AllFilled(ports[..], from, Four(udp4i, tcp4i, udp6i, tcp6i), fds[..i])
    {
      udp4i, tcp4i, udp6i, tcp6i := StoreSport(fds, i, ports, udp4i, tcp4i, udp6i, tcp6i, from);
    }
    assert fds[..|fds|] == fds;
    AllSports(fds, ports[..], from, Four(udp4i, tcp4i, udp6i, tcp6i));
  }

  method StoreSport(fds: seq<Fd>, i: nat, ports: array<Port>, udp4i: nat, tcp4i: nat, udp6i: nat, tcp6i: nat,
                    ghost from: Four)
    returns (udp4n: nat, tcp4n: nat, udp6n: nat, tcp6n: nat)
    requires i < |fds| && Regions(fds, from, ports.Length)
    requires AllFilled(ports[..], from, Four(udp4i, tcp4i, udp6i, tcp6i), fds[..i])
    modifies ports
    ensures ports[..4] == old(ports[..4])
    ensures AllFilled(ports[..], from, Four(udp4n, tcp4n, udp6n, tcp6n), fds[..i + 1])
  {
    hide SportsOf, Filled, AllFilled, Regions;
    ghost var at := Four(udp4i, tcp4i, udp6i, tcp6i);
    StoreAll(ports[..], fds, i, from, at);
    udp4n, tcp4n, udp6n, tcp6n := udp4i, tcp4i, udp6i, tcp6i;
    match fds[i].kind {
      case Udp4dg =>
        Put(ports, udp4i, fds[i].sport);
        udp4n := udp4i + 1;
      case Udp6 =>
        Put(ports, udp6i, fds[i].sport);
        udp6n := udp6i + 1;
      case Tcp4 =>
        Put(ports, tcp4i, fds[i].sport);
        tcp4n := tcp4i + 1;
      case Tcp6 =>
        Put(ports, tcp6i, fds[i].sport);
        tcp6n := tcp6i + 1;
      case OtherFd =>
    }
    assert Four(udp4n, tcp4n, udp6n, tcp6n) == at.Inc(fds[i].kind);
  }

  method Put(ports: array<Port>, cell: nat, sport: Port)
    requires 4 <= cell < ports.Length
    modifies ports
    ensures ports[..] == old(ports[..])[cell := sport] && ports[..4] == old(ports[..4])
  {
    ports[cell] := sport;
  }

  // What storing one port at its cell does to all four regions.
  lemma StoreAll(s: seq<Port>, fds: seq<Fd>, i: nat, from: Four, at: Four)
    requires i < |fds| && Regions(fds, from, |s|) && AllFilled(s, from, at, fds[..i])
    ensures var kind := fds[i].kind;
            if kind == OtherFd then AllFilled(s, from, at, fds[..i + 1])
            else 4 <= at.At(kind) < |s| && AllFilled(s[at.At(kind) := fds[i].sport], from, at.Inc(kind), fds[..i + 1])
  {
    if fds[i].kind != OtherFd {
      Apart(s, fds, i, from, at);
    }
    hide SportsOf, Filled, Regions, Four.Inc, Four.At;
    var cell := at.At(fds[i].kind);
    forall kind | kind != OtherFd
      ensures fds[i].kind == OtherFd ==> Filled(s, from.At(kind), at.At(kind), fds[..i + 1], kind)
      ensures fds[i].kind != OtherFd ==>
                Filled(s[cell := fds[i].sport], from.At(kind), at.Inc(fds[i].kind).At(kind), fds[..i + 1], kind)
    {
      if fds[i].kind == OtherFd {
        Skip(s, from.At(kind), at.At(kind), fds, i, kind);
      } else if fds[i].kind == kind {
        StoreExtends(s, from.At(kind), cell, fds, i);
      } else {
        StoreKeeps(s, cell, from.At(kind), at.At(kind), fds, i, kind);
      }
    }
  }

  // A region that is to grow has room up to where the next one starts.
  lemma Apart(s: seq<Port>, fds: seq<Fd>, i: nat, from: Four, at: Four)
    requires i < |fds| && Regions(fds, from, |s|) && AllFilled(s, from, at, fds[..i]) && fds[i].kind != OtherFd
    ensures 4 <= at.At(fds[i].kind) < |s|
    ensures forall kind :: kind != OtherFd && kind != fds[i].kind ==>
              at.At(fds[i].kind) < from.At(kind) || at.At(kind) <= at.At(fds[i].kind)
  {
    hide SportsOf, Filled;
    FilledEnds(s, from.At(Udp4dg), at.At(Udp4dg), fds, i, Udp4dg);
    FilledEnds(s, from.At(Tcp4), at.At(Tcp4), fds, i, Tcp4);
    FilledEnds(s, from.At(Udp6), at.At(Udp6), fds, i, Udp6);
    FilledEnds(s, from.At(Tcp6), at.At(Tcp6), fds, i, Tcp6);
  }

  lemma FilledEnds(s: seq<Port>, start: nat, at: nat, fds: seq<Fd>, i: nat, kind: FdType)
    requires i < |fds| && Filled(s, start, at, fds[..i], kind)
    ensures start <= at && at + (if fds[i].kind == kind then 1 else 0) <= start + |SportsOf(fds, kind)|
  {
    SportsOfStep(fds, i, kind);
  }

  // A socket of no such kind changes nothing.
  lemma Skip(s: seq<Port>, start: nat, at: nat, fds: seq<Fd>, i: nat, kind: FdType)
    requires i < |fds| && fds[i].kind == OtherFd && kind != OtherFd && Filled(s, start, at, fds[..i], kind)
    ensures Filled(s, start, at, fds[..i + 1], kind)
  {
    SportsOfStep(fds, i, kind);
  }

  // Before the first socket the regions are empty.
  lemma NoneFilled(fds: seq<Fd>, s: seq<Port>, from: Four)
    requires Regions(fds, from, |s|)
    ensures AllFilled(s, from, from, fds[..0])
  {
    assert fds[..0] == [];
    forall kind | kind != OtherFd
      ensures Filled(s, from.At(kind), from.At(kind), [], kind)
    {
      assert s[from.At(kind)..from.At(kind)] == [];
    }
  }

  // Four full regions are the four lists one behind the other.
  lemma AllSports(fds: seq<Fd>, s: seq<Port>, from: Four, at: Four)
    requires Regions(fds, from, |s|) && AllFilled(s, from, at, fds)
    ensures s[4..] == SportsOf(fds, Udp4dg) + SportsOf(fds, Tcp4) + SportsOf(fds, Udp6) + SportsOf(fds, Tcp6)
  {
    hide SportsOf;
    assert Filled(s, from.At(Udp4dg), at.At(Udp4dg), fds, Udp4dg) && Filled(s, from.At(Tcp4), at.At(Tcp4), fds, Tcp4);
    assert Filled(s, from.At(Udp6), at.At(Udp6), fds, Udp6) && Filled(s, from.At(Tcp6), at.At(Tcp6), fds, Tcp6);
    assert s[4..] == s[4..from.tcp4] + s[from.tcp4..];
    assert s[from.tcp4..] == s[from.tcp4..from.udp6] + s[from.udp6..];
    assert s[from.udp6..] == s[from.udp6..from.tcp6] + s[from.tcp6..];
  }

  // One more socket adds its port to the list of its kind, within bounds.
  lemma SportsOfStep(fds: seq<Fd>, i: nat, kind: FdType)
    requires i < |fds|
    ensures SportsOf(fds[..i + 1], kind) ==
            SportsOf(fds[..i], kind) + (if fds[i].kind == kind then [fds[i].sport] else [])
    ensures |SportsOf(fds[..i + 1], kind)| <= |SportsOf(fds, kind)|
  {
    assert fds[..i + 1][..i] == fds[..i];
    SportsOfPrefix(fds, i + 1, kind);
  }

  /** scamper_fds_sports. */
  method FdsSports(fds: seq<Fd>) returns (ports: array<Port>)
    ensures fresh(ports) && ports[..] == Layout(fds)
  {
    var udp4c, tcp4c, udp6c, tcp6c := CountSports(fds);
    hide SportsOf;
    ports := new Port[4 + udp4c + udp6c + tcp4c + tcp6c];
    ports[0], ports[1], ports[2], ports[3] := U16(udp4c), U16(tcp4c), U16(udp6c), U16(tcp6c);
    assert ports[..4] == [U16(udp4c), U16(tcp4c), U16(udp6c), U16(tcp6c)];
    FillSports(fds, ports, udp4c, tcp4c, udp6c, tcp6c);
    assert ports[..] == ports[..4] + ports[4..];
  }

  predicate CountsFit(fds: seq<Fd>) {
    forall kind :: |SportsOf(fds, kind)| < 0x1_0000
  }

  /** The compiler reads back from the array the lists that were put there. */
  lemma ListsOfLayout(fds: seq<Fd>)
    requires CountsFit(fds)
    ensures WellLaidOut(Layout(fds))
    ensures Lists(Layout(fds)) ==
            PortLists(SportsOf(fds, Udp4dg), SportsOf(fds, Tcp4), SportsOf(fds, Udp6), SportsOf(fds, Tcp6))
  {
    hide SportsOf, U16, WellLaidOut, Lists;
    var u4, t4, u6, t6 :=
      SportsOf(fds, Udp4dg), SportsOf(fds, Tcp4), SportsOf(fds, Udp6), SportsOf(fds, Tcp6);
    U16Fits(|u4|);
    U16Fits(|t4|);
    U16Fits(|u6|);
    U16Fits(|t6|);
    ListsAt([U16(|u4|), U16(|t4|), U16(|u6|), U16(|t6|)], u4, t4, u6, t6);
  }

  lemma U16Fits(n: nat)
    requires n < 0x1_0000
    ensures U16(n) == n
  {
  }

  lemma ListsAt(head: seq<Port>, a: seq<Port>, b: seq<Port>, c: seq<Port>, d: seq<Port>)
    requires |head| == 4 && head[0] == |a| && head[1] == |b| && head[2] == |c| && head[3] == |d|
    ensures WellLaidOut(head + a + b + c + d) && Lists(head + a + b + c + d) == PortLists(a, b, c, d)
  {
    CutAt(head, a, b, c, d);
    var s := head + a + b + c + d;
    assert forall i :: 0 <= i < 4 ==> s[i] == s[..4][i];
  }

  lemma CutAt(head: seq<Port>, a: seq<Port>, b: seq<Port>, c: seq<Port>, d: seq<Port>)
    requires |head| == 4
    ensures var s := head + a + b + c + d;
            var i, j, k := 4 + |a|, 4 + |a| + |b|, 4 + |a| + |b| + |c|;
            |s| == k + |d| && s[4..i] == a && s[i..j] == b && s[j..k] == c && s[k..k + |d|] == d && s[..4] == head
  {
  }

  // The frame carries a packet to or from the port that the socket is bound to.
  predicate ForSocket(platform: Platform, rx: RxType, fd: Fd, f: Frame) {
    var b, o := f.bytes, IpOffset(rx);
    match FamilyOf(platform, rx, f)
    case Ip4 =>
      o + 9 < |b| && TransportOffset(b, o) + 4 <= |b| &&
      ((fd.kind == Udp4dg && b[o + 9] == IPPROTO_UDP) || (fd.kind == Tcp4 && b[o + 9] == IPPROTO_TCP)) &&
      (fd.sport == Half16(b, TransportOffset(b, o)) || fd.sport == Half16(b, TransportOffset(b, o) + 2))
    case Ip6 =>
      o + 44 <= |b| &&
      ((fd.kind == Udp6 && b[o + 6] == IPPROTO_UDP) || (fd.kind == Tcp6 && b[o + 6] == IPPROTO_TCP)) &&
      (fd.sport == Half16(b, o + 40) || fd.sport == Half16(b, o + 42))
    case _ => false
  }

  /** For any set of open sockets, of any size, the filter compiled from their
      ports keeps every packet to or from one of them whole. */
  lemma BoundPortsAccepted(platform: Platform, rx: RxType, fds: seq<Fd>, fd: Fd, f: Frame)
    requires platform.Valid() && Supported(platform, rx) && CountsFit(fds)
    requires fd in fds && ForSocket(platform, rx, fd, f)
    ensures WellLaidOut(Layout(fds))
    ensures Run(Program(platform, rx, Lists(Layout(fds))), 0, 0, 0, f) == ACCEPT_LEN
    ensures |f.bytes| <= 65535 ==> Run(Program(platform, rx, Lists(Layout(fds))), 0, 0, 0, f) >= |f.bytes| > 0
  {
    hide Layout, Program, Run, FamilyOf, SportsOf, Lists;
    ListsOfLayout(fds);
    SportsOfMember(fds, fd);
    ListedAccepted(platform, rx, Lists(Layout(fds)), f);
  }
}
