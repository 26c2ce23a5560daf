/** The remote control protocol in octets. */
module RemoteWire {
  import opened Wrappers
  import opened NetBytes
  import opened RemoteFrames
  import opened RemoteSession
  import opened RemotePeer
  import opened RemoteRuns

  // Four octets as a number, the first the most significant.
  function Number32(s: seq<byte>, i: nat): int
    requires i + 4 <= |s|
  {
    16777216 * s[i] as int + 65536 * s[i + 1] as int + 256 * s[i + 2] as int + s[i + 3] as int
  }

  lemma HtonlNumber(v: u32, before: seq<byte>, after: seq<byte>)
    ensures Number32(before + Htonl(v) + after, |before|) == v
  {
    var s, n, h := before + Htonl(v) + after, |before|, Htonl(v);
    assert s[n] == h[0] && s[n + 1] == h[1] && s[n + 2] == h[2] && s[n + 3] == h[3];
    assert v == 0x100 * (v / 0x100) + v % 0x100;
    assert v / 0x100 == 0x100 * (v / 0x100 / 0x100) + v / 0x100 % 0x100;
  }

  /** A frame is its sequence number, its channel, its length and its bytes. */
  lemma FrameOctets(f: Frame)
    requires |f.data| <= 65535
    ensures var s := Encode(f);
            && |s| == 10 + |f.data| && Number32(s, 0) == f.sequence && Number32(s, 4) == f.channel
            && 256 * s[8] as int + s[9] as int == |f.data| && s[10..] == f.data
  {
    hide Htonl, Number32;
    var s, a, b, c := Encode(f), Htonl(f.sequence), Htonl(f.channel), Htons(|f.data|);
    assert s == [] + a + (b + c + f.data);
    HtonlNumber(f.sequence, [], b + c + f.data);
    assert s == a + b + (c + f.data);
    HtonlNumber(f.channel, a, c + f.data);
    assert s[8] == c[0] && s[9] == c[1];
  }

  /** The messages that an end makes by itself. */
  lemma MessageOctets(v: u32, magic: seq<byte>, una: u32, nxt: u32)
    requires |magic| == 8
    ensures var ack := AckData(v); |ack| == 5 && ack[0] == 5 && Number32(ack, 1) == v
    ensures var ok := OkFrame(v);
            ok.sequence == 0 && ok.channel == 0 && |ok.data| == 5 && ok.data[0] == 8 && Number32(ok.data, 1) == v
    ensures var res := ResumeData(magic, v, una, nxt);
            && |res| == 22 && res[0] == 6 && res[1] == 8 && res[2..10] == magic
            && Number32(res, 10) == v && Number32(res, 14) == una && Number32(res, 18) == nxt
    ensures KEEPALIVE == [4]
  {
    hide Htonl, Number32;
    assert AckData(v) == [5] + Htonl(v) + [] && OkFrame(v).data == [8] + Htonl(v) + [];
    HtonlNumber(v, [5], []);
    HtonlNumber(v, [8], []);
    var res, a, b, c := ResumeData(magic, v, una, nxt), Htonl(v), Htonl(una), Htonl(nxt);
    assert res == ([6, 8] + magic) + a + (b + c);
    HtonlNumber(v, [6, 8] + magic, b + c);
    assert res == ([6, 8] + magic + a) + b + c;
    HtonlNumber(una, [6, 8] + magic + a, c);
    assert res == ([6, 8] + magic + a + b) + c + [];
    HtonlNumber(nxt, [6, 8] + magic + a + b, []);
  }

  // Characters from space to tilde.
  predicate Printable(name: seq<byte>) {
    forall i :: 0 <= i < |name| ==> 32 <= name[i] <= 126
  }

  /** A session gets a name just from a message that holds the length of a
      printable string, the string and a zero; it is then known by that string. */
  lemma NamedBy(e: Endpoint, name: seq<byte>, rest: seq<byte>)
    requires Printable(name) && |name| < 255
    ensures ReadMasterId(e, [|name| + 1] + name + [0] + rest) ==
            Reaction(e.(alias := Some(name + [0]), resume := true, go := true), [], Fine)
  {
    var arg := [|name| + 1] + name + [0] + rest;
    assert forall i :: 1 <= i < arg[0] ==> arg[i] == name[i - 1];
    assert arg[1..1 + arg[0]] == name + [0];
  }

  lemma OnlyNames(e: Endpoint, arg: seq<byte>) returns (name: seq<byte>, rest: seq<byte>)
    ensures var r := ReadMasterId(e, arg);
            if r.outcome == Fine then Printable(name) && |name| < 255 && arg == [|name| + 1] + name + [0] + rest
            else r == Reaction(e.(alias := None), [], BadLength)
  {
    name, rest := [], [];
    if GoodId(arg) {
      name, rest := arg[1..arg[0]], arg[arg[0] + 1..];
      assert arg == [|name| + 1] + name + [0] + rest;
    }
  }

  /** What the other kinds of message come to, by the octet in front. */
  lemma KindsAre(e: Endpoint, f: Frame)
    requires f.channel == 0 && |f.data| > 0
    ensures !e.go && f.sequence == 0 && f.data[0] == 7 ==>
              Receive(e, f) == Reaction(e.(resume := false), [], Rejected)
    ensures !e.go && f.sequence == 0 && f.data[0] !in [1, 7, 8] ==> Receive(e, f) == Reaction(e, [], Unhandled)
    ensures e.go && f.sequence == e.rcvNxt && f.data[0] == 4 ==>
              Receive(e, f) == Reaction(e, [], if |f.data| == 1 then Fine else BadLength)
    ensures e.go && f.sequence == e.rcvNxt && f.data[0] !in [2, 3, 4, 5] ==> Receive(e, f) == Reaction(e, [], Unhandled)
    ensures f.sequence != (if e.go then e.rcvNxt else 0) ==> Receive(e, f) == Reaction(e, [], BadSequence)
  {
    hide Accept, ReadMasterId, ReadMasterOk, ReadChannelNew, ReadAck;
  }

  /** When the connection goes, a session with a name is kept as it is, and any
      other is as if it had never been. */
  lemma Forgotten(e: Endpoint)
    ensures Retry(e) == if e.resume then e.(go := false) else Endpoint(false, false, 0, 0, [], None, multiset{})
  {
  }
}
