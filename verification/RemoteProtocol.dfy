/** Runs of the remote control protocol: both ends, the frames under way, and the
    logs of what each end has sent and accepted. */
module RemoteProtocol {
  import opened NetBytes
  import opened RemoteFrames
  import opened RemoteSession
  import opened RemotePeer

  datatype Msg = Msg(channel: u32, data: seq<byte>)

  // The messages that are sent to be acknowledged; only the controller opens
  // channels.
  predicate Counted(m: Msg, fromPeer: bool) {
    1 <= |m.data| <= 65535 &&
    (m.channel == 0 ==>
       |m.data| == 5 && (m.data[0] == CONTROL_CHANNEL_FIN || (fromPeer && m.data[0] == CONTROL_CHANNEL_NEW)))
  }

  function Numbered(sent: seq<Msg>, i: nat): Message
    requires i < |sent|
  {
    Message(i % M, sent[i].channel, sent[i].data)
  }

  /** The position of the first message that has not been acknowledged. */
  function Una(e: Endpoint, sent: seq<Msg>): int {
    |sent| - |e.messages|
  }

  /** The unacknowledged queue is exactly the log from Una on, and the two
      sequence numbers are the lengths of the logs, modulo 2^32. */
  ghost predicate Side(e: Endpoint, sent: seq<Msg>, got: seq<Msg>, peer: bool) {
    && e.sndNxt == |sent| % M && e.rcvNxt == |got| % M
    && |e.messages| <= |sent| && |e.messages| < 0x8000_0000
    && (forall i :: 0 <= i < |e.messages| ==> e.messages[i] == Numbered(sent, Una(e, sent) + i))
    && (forall i :: 0 <= i < |sent| ==> Counted(sent[i], peer))
  }

  // ---------- Frames under way ----------

  // How far a reader has come: p messages accepted, q of its own acknowledged.
  datatype Pos = Bad | At(p: nat, q: nat)

  function StepWalk(pos: Pos, f: Frame, sent: seq<Msg>): Pos {
    if pos.Bad? || f.sequence != pos.p % M then Bad
    else if f.channel == 0 && f.data == [CONTROL_KEEPALIVE] then pos
    else if f.channel == 0 && f.data == AckData(pos.q % M) then At(pos.p, pos.q + 1)
    else if pos.p < |sent| && Msg(f.channel, f.data) == sent[pos.p] then At(pos.p + 1, pos.q)
    else Bad
  }

  /** Where a reader comes to that reads these frames. */
  function Walk(frames: seq<Frame>, pos: Pos, sent: seq<Msg>): Pos
    decreases |frames|
  {
    if frames == [] then pos else Walk(frames[1..], StepWalk(pos, frames[0], sent), sent)
  }

  lemma {:induction false} WalkAppend(frames: seq<Frame>, f: Frame, pos: Pos, sent: seq<Msg>)
    ensures Walk(frames + [f], pos, sent) == StepWalk(Walk(frames, pos, sent), f, sent)
    decreases |frames|
  {
    if frames == [] {
      assert ([] + [f])[1..] == [];
    } else {
      assert (frames + [f])[1..] == frames[1..] + [f];
      WalkAppend(frames[1..], f, StepWalk(pos, frames[0], sent), sent);
    }
  }

  lemma {:induction false} WalkBad(frames: seq<Frame>, sent: seq<Msg>)
    ensures Walk(frames, Bad, sent) == Bad
    decreases |frames|
  {
    if frames != [] {
      WalkBad(frames[1..], sent);
    }
  }

  // A reader does not notice that the log has grown.
  lemma {:induction false} WalkGrow(frames: seq<Frame>, pos: Pos, sent: seq<Msg>, m: Msg)
    requires Walk(frames, pos, sent).At?
    ensures Walk(frames, pos, sent + [m]) == Walk(frames, pos, sent)
    decreases |frames|
  {
    if frames != [] {
      var next := StepWalk(pos, frames[0], sent);
      if next.Bad? {
        WalkBad(frames[1..], sent);
      }
      assert StepWalk(pos, frames[0], sent + [m]) == next;
      WalkGrow(frames[1..], next, sent, m);
    }
  }

  lemma {:induction false} WalkForward(frames: seq<Frame>, pos: Pos, sent: seq<Msg>)
    requires Walk(frames, pos, sent).At?
    ensures pos.At? && pos.p <= Walk(frames, pos, sent).p && pos.q <= Walk(frames, pos, sent).q
    ensures pos.p <= |sent| ==> Walk(frames, pos, sent).p <= |sent|
    decreases |frames|
  {
    if frames != [] {
      WalkForward(frames[1..], StepWalk(pos, frames[0], sent), sent);
    }
  }

  // The queue sent again takes a reader from its first message to the end.
  lemma {:induction false} WalkResend(messages: seq<Message>, q: nat, sent: seq<Msg>, peer: bool)
    requires |messages| <= |sent|
    requires forall i :: 0 <= i < |messages| ==> messages[i] == Numbered(sent, |sent| - |messages| + i)
    requires forall i :: 0 <= i < |sent| ==> Counted(sent[i], peer)
    ensures Walk(Resend(messages), At(|sent| - |messages|, q), sent) == At(|sent|, q)
    decreases |messages|
  {
    if messages != [] {
      var p := |sent| - |messages|;
      assert Counted(sent[p], peer);
      assert messages[0] == Numbered(sent, p + 0);
      assert forall i :: 0 <= i < |messages[1..]| ==> messages[1..][i] == messages[i + 1];
      WalkResend(messages[1..], q, sent, peer);
    }
  }

  // ---------- Sequence numbers ----------

  /** SEQ_LT and SEQ_GT are sound while the positions are less than 2^31 apart. */
  lemma SeqOrder(i: nat, j: nat)
    requires -0x8000_0000 < i - j < 0x8000_0000
    ensures SeqLt(i % M, j % M) <==> i < j
    ensures SeqGt(i % M, j % M) <==> i > j
  {
    ModDiff(i, j);
  }

  lemma ModDiff(i: nat, j: nat)
    ensures (i % M - j % M) % M == (i - j) % M
  {
  }

  lemma SameMod(i: nat, j: nat)
    requires i % M == j % M && -M < i - j < M
    ensures i == j
  {
  }

  /** Dropping what the other end has leaves the log from its position on. */
  lemma {:induction false} UnackedFrom(messages: seq<Message>, sent: seq<Msg>, r: nat)
    requires |messages| <= |sent| && |messages| < 0x8000_0000 && |sent| - |messages| <= r <= |sent|
    requires forall i :: 0 <= i < |messages| ==> messages[i] == Numbered(sent, |sent| - |messages| + i)
    ensures Unacked(messages, r % M) == messages[r - (|sent| - |messages|)..]
    decreases |messages|
  {
    var una := |sent| - |messages|;
    if messages != [] {
      assert messages[0] == Numbered(sent, una + 0);
      SeqOrder(una, r);
      if una < r {
        assert forall i :: 0 <= i < |messages[1..]| ==> messages[1..][i] == messages[i + 1];
        UnackedFrom(messages[1..], sent, r);
        assert messages[1..][r - una - 1..] == messages[r - una..];
      }
    }
  }

  // ---------- One end ----------

  function FrameOf(e: Endpoint, m: Msg): Frame {
    Frame(e.sndNxt, m.channel, m.data)
  }

  /** Sending a message to be acknowledged adds it to the queue. */
  lemma SendSide(e: Endpoint, sent: seq<Msg>, got: seq<Msg>, peer: bool, m: Msg)
    requires Side(e, sent, got, peer) && Counted(m, peer) && |e.messages| < 0x7FFF_FFFF
    ensures var r := SockSend(e, m.channel, m.data, true);
            Side(r.end, sent + [m], got, peer) && r.outcome == Fine && r.end.go == e.go && r.end.resume == e.resume &&
            Una(r.end, sent + [m]) == Una(e, sent) && r.out == if e.go then [FrameOf(e, m)] else []
  {
    var r := SockSend(e, m.channel, m.data, true);
    NextMod(|sent|);
    forall i | 0 <= i < |r.end.messages|
      ensures r.end.messages[i] == Numbered(sent + [m], Una(e, sent) + i)
    {
      if i < |e.messages| {
        assert e.messages[i] == Numbered(sent, Una(e, sent) + i);
      }
    }
  }

  lemma NextMod(n: nat)
    ensures (n % M + 1) % M == (n + 1) % M
  {
  }

  // The log of accepted messages after a frame.
  function Log(e: Endpoint, r: Reaction, f: Frame, got: seq<Msg>): seq<Msg> {
    if r.end.rcvNxt != e.rcvNxt then got + [Msg(f.channel, f.data)] else got
  }

  // The frame is the next of a walk at this end.
  ghost predicate Expected(e: Endpoint, sent: seq<Msg>, got: seq<Msg>, theirs: seq<Msg>, f: Frame) {
    && e.go && |e.messages| <= |sent| && |got| <= |theirs| && got == theirs[..|got|]
    && var to := StepWalk(At(|got|, Una(e, sent)), f, theirs);
       to.At? && to.q <= |sent|
  }

  // What reading that frame does: either a message is accepted and
  // acknowledged, or a message of this end's own has been acknowledged.
  ghost predicate Reads(e: Endpoint, sent: seq<Msg>, got: seq<Msg>, theirs: seq<Msg>, f: Frame, r: Reaction,
                        peer: bool)
  {
    var got' := Log(e, r, f, got);
    && Side(r.end, sent, got', peer) && |e.messages| <= |sent|
    && r.end.go && r.end.resume == e.resume && r.end.sndNxt == e.sndNxt
    && StepWalk(At(|got|, Una(e, sent)), f, theirs) == At(|got'|, Una(r.end, sent))
    && |got'| <= |theirs| && got' == theirs[..|got'|]
    && (got' == got ==> r.out == [])
    && (got' != got ==> Una(r.end, sent) == Una(e, sent) && |got'| == |got| + 1 &&
                        r.out == [Frame(e.sndNxt, 0, AckData(|got| % M))])
  }

  lemma AcceptRead(e: Endpoint, sent: seq<Msg>, got: seq<Msg>, theirs: seq<Msg>, f: Frame, outcome: Outcome, peer: bool)
    requires Side(e, sent, got, peer) && Expected(e, sent, got, theirs, f)
    requires StepWalk(At(|got|, Una(e, sent)), f, theirs) == At(|got| + 1, Una(e, sent))
    ensures var (e', out) := Accept(e, f.sequence);
            Reads(e, sent, got, theirs, f, Reaction(e', out, outcome), peer)
  {
    NextMod(|got|);
    SameModNext(|got|);
    assert theirs[..|got| + 1] == got + [theirs[|got|]];
  }

  lemma SameModNext(n: nat)
    ensures (n + 1) % M != n % M
  {
  }

  lemma AckRead(e: Endpoint, sent: seq<Msg>, got: seq<Msg>, theirs: seq<Msg>, f: Frame, peer: bool)
    requires Side(e, sent, got, peer) && Expected(e, sent, got, theirs, f) && Una(e, sent) < |sent|
    requires f.data == AckData(Una(e, sent) % M)
    requires StepWalk(At(|got|, Una(e, sent)), f, theirs) == At(|got|, Una(e, sent) + 1)
    ensures var r := ReadAck(e, f.data[1..]);
            Reads(e, sent, got, theirs, f, r, peer) && r.outcome == Fine
  {
    var arg := f.data[1..];
    assert arg == Htonl(Una(e, sent) % M) + [];
    NtohlHtonl(Una(e, sent) % M, []);
    assert e.messages[0] == Numbered(sent, Una(e, sent) + 0);
    var r := ReadAck(e, arg);
    assert forall i :: 0 <= i < |r.end.messages| ==> r.end.messages[i] == e.messages[i + 1];
  }

  // The frame is for a channel that is not open at this end, or closes it.
  predicate NeedsChannel(e: Endpoint, f: Frame) {
    if f.channel == 0 then |f.data| == 5 && f.data[0] == CONTROL_CHANNEL_FIN && Ntohl(f.data[1..]) !in e.channels
    else f.channel !in e.channels
  }

  /** The next frame of a walk never upsets scamper, except that a channel that
      it is for may have gone... */
  lemma ReceiveReads(e: Endpoint, sent: seq<Msg>, got: seq<Msg>, theirs: seq<Msg>, f: Frame)
    requires Side(e, sent, got, false) && Expected(e, sent, got, theirs, f)
    requires forall i :: 0 <= i < |theirs| ==> Counted(theirs[i], true)
    ensures var r := Receive(e, f);
            Reads(e, sent, got, theirs, f, r, false) && r.outcome == if NeedsChannel(e, f) then NoChannel else Fine
  {
    var p, q := |got|, Una(e, sent);
    if f.channel == 0 && f.data == [CONTROL_KEEPALIVE] {
    } else if f.channel == 0 && f.data == AckData(q % M) {
      AckRead(e, sent, got, theirs, f, false);
    } else {
      assert Counted(theirs[p], true);
      var r := Receive(e, f);
      AcceptRead(e, sent, got, theirs, f, r.outcome, false);
      assert r.end == Accept(e, f.sequence).0.(channels := r.end.channels);
    }
  }

  /** ... nor the controller. */
  lemma PeerReceiveReads(e: Endpoint, sent: seq<Msg>, got: seq<Msg>, theirs: seq<Msg>, f: Frame)
    requires Side(e, sent, got, true) && Expected(e, sent, got, theirs, f)
    requires forall i :: 0 <= i < |theirs| ==> Counted(theirs[i], false)
    ensures var r := PeerReceive(e, f);
            Reads(e, sent, got, theirs, f, r, true) && r.outcome == Fine
  {
    var p, q := |got|, Una(e, sent);
    if f.channel == 0 && f.data == [CONTROL_KEEPALIVE] {
    } else if f.channel == 0 && f.data == AckData(q % M) {
      AckRead(e, sent, got, theirs, f, true);
    } else {
      assert Counted(theirs[p], false);
      AcceptRead(e, sent, got, theirs, f, Fine, true);
    }
  }
}
