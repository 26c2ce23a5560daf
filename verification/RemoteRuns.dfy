/** All runs of the remote control protocol, over connections that come and go. */
module RemoteRuns {
  import opened Wrappers
  import opened NetBytes
  import opened RemoteFrames
  import opened RemoteSession
  import opened RemotePeer
  import opened RemoteProtocol

  // scamper's end is a, the controller's is b. Connections are first in, first
  // out, but can be lost at any time, at either end first; a connection that
  // scamper has given up may still be answered.

  // A resumption that has been sent, in positions rather than their remainders.
  datatype Res = Res(rcv: nat, una: nat, nxt: nat)

  datatype World = World(
    a: Endpoint, b: Endpoint,
    sentA: seq<Msg>, gotB: seq<Msg>,  // from scamper to the controller
    sentB: seq<Msg>, gotA: seq<Msg>,  // and back
    aUp: bool,            // scamper's connection has been answered
    joined: bool,         // both ends are on the same connection
    toA: seq<Frame>,      // what scamper can still read
    toB: seq<Frame>,      // what the controller can still read
    greet: nat,           // the position in a greeting that scamper has not read
    dial: Option<Res>,    // the resumption on scamper's connection, unanswered
    stale: seq<Res>       // those on connections that scamper has given up
  )

  datatype Action =
    | ASend(m: Msg) | BSend(m: Msg)
    | AKeepalive | BKeepalive
    | ARead | BRead
    | AChannelDone(id: u32)  // the work of a channel is done, and it goes
    | ALost | BLost
    | ADial | BAnswer | BAnswerStale(i: nat)

  const KEEPALIVE := [CONTROL_KEEPALIVE]

  // A name that scamper accepts, in a frame.
  predicate Name(id: seq<byte>) {
    GoodId(id) && |id| < 65535
  }

  /** At the start the controller has just sent scamper its name. */
  function Start(id: seq<byte>): World {
    World(Fresh, Fresh.(go := true, resume := true), [], [], [], [], true, true,
          [Frame(0, 0, [CONTROL_MASTER_ID] + id)], [], 0, None, [])
  }

  predicate Enabled(w: World, act: Action) {
    match act
    // a channel exists only once the session does
    case ASend(m) => w.a.resume && Counted(m, false) && |w.a.messages| < 0x7FFF_FFFF
    case BSend(m) => Counted(m, true) && |w.b.messages| < 0x7FFF_FFFF
    case AKeepalive => true
    case BKeepalive => true
    case ARead => w.aUp && w.toA != []
    case BRead => w.b.go && w.toB != []
    case AChannelDone(id) => id in w.a.channels
    case ALost => w.a.resume && (w.aUp || w.dial.Some?)
    case BLost => w.b.go
    case ADial => w.a.resume && !w.aUp && w.dial.None?
    case BAnswer => w.dial.Some?
    // no connection outlives 2^32 messages
    case BAnswerStale(i) => i < |w.stale| && |w.sentB| - w.stale[i].rcv < M
  }

  function SentA(w: World, r: Reaction): World {
    w.(a := r.end, toB := if w.joined then w.toB + r.out else w.toB)
  }

  function SentB(w: World, r: Reaction): World {
    w.(b := r.end, toA := if w.joined then w.toA + r.out else w.toA)
  }

  // scamper's connection goes; the controller may still read what is on it.
  function DropA(w: World): World {
    w.(a := Retry(w.a), aUp := false, joined := false, toA := [], dial := None,
       stale := if w.dial.Some? then w.stale + [w.dial.value] else w.stale)
  }

  function DropB(w: World): World {
    w.(b := w.b.(go := false), joined := false, toB := [])
  }

  // The controller's answer to a resumption.
  function Answer(w: World, d: Res): Option<Reaction> {
    PeerResume(w.b, Resumption([], d.rcv % M, d.una % M, d.nxt % M))
  }

  function Next(w: World, act: Action): World
    requires Enabled(w, act)
  {
    match act
    case ASend(m) => SentA(w, SockSend(w.a, m.channel, m.data, true)).(sentA := w.sentA + [m])
    case BSend(m) => SentB(w, SockSend(w.b, m.channel, m.data, true)).(sentB := w.sentB + [m])
    case AKeepalive => SentA(w, SockSend(w.a, 0, KEEPALIVE, false))
    case BKeepalive => SentB(w, SockSend(w.b, 0, KEEPALIVE, false))
    case ARead =>
      var r := Receive(w.a, w.toA[0]);
      var w' := SentA(w, r).(toA := w.toA[1..], gotA := Log(w.a, r, w.toA[0], w.gotA));
      if r.outcome == Fine then w' else DropA(w')
    case BRead =>
      var r := PeerReceive(w.b, w.toB[0]);
      var w' := SentB(w, r).(toB := w.toB[1..], gotB := Log(w.b, r, w.toB[0], w.gotB));
      if r.outcome == Fine then w' else DropB(w')
    case AChannelDone(id) => w.(a := w.a.(channels := w.a.channels - multiset{id}))
    case ALost => DropA(w)
    case BLost => DropB(w)
    case ADial =>
      w.(dial := Some(Res(|w.gotA|, if |w.a.messages| <= |w.sentA| then |w.sentA| - |w.a.messages| else 0, |w.sentA|)))
    case BAnswer =>
      (match Answer(w, w.dial.value)
       case Some(r) =>
         w.(b := r.end, toA := r.out, toB := [], joined := true, aUp := true, greet := |w.gotB|, dial := None)
       case None => w.(dial := None))
    case BAnswerStale(i) =>
      var rest := w.stale[..i] + w.stale[i + 1..];
      (match Answer(w, w.stale[i])
       case Some(r) => w.(b := r.end, toB := [], joined := false, stale := rest)
       case None => w.(stale := rest))
  }

  // ---------- The invariant ----------

  ghost predicate Sides(w: World) {
    && Side(w.a, w.sentA, w.gotA, false) && Side(w.b, w.sentB, w.gotB, true)
    && |w.gotB| <= |w.sentA| && w.gotB == w.sentA[..|w.gotB|] && Una(w.a, w.sentA) <= |w.gotB|
    && |w.gotA| <= |w.sentB| && w.gotA == w.sentB[..|w.gotA|] && Una(w.b, w.sentB) <= |w.gotA|
  }

  ghost predicate Flags(w: World) {
    && (w.joined ==> w.aUp && w.b.go)
    && (w.aUp ==> w.dial.None?)
    && (!w.aUp ==> !w.a.go && w.toA == [])
    && (!w.b.go ==> w.toB == [])
    && (w.a.go ==> w.a.resume)
    && (!w.a.resume ==> w.aUp && w.sentA == [])
  }

  ghost predicate WireToB(w: World)
    requires Sides(w)
  {
    w.b.go ==>
      var pos := Walk(w.toB, At(|w.gotB|, Una(w.b, w.sentB)), w.sentA);
      && pos.At? && pos.p <= |w.sentA| && pos.q <= |w.gotA|
      && (w.joined && w.a.go ==> pos == At(|w.sentA|, |w.gotA|))
      && (w.joined && !w.a.go ==> w.toB == [] && Una(w.b, w.sentB) == |w.gotA|)
      && (w.dial.Some? ==> pos.p <= w.dial.value.nxt)
  }

  ghost predicate WireToA(w: World)
    requires Sides(w)
  {
    w.aUp ==>
      if w.a.go then Arriving(w, w.toA, Una(w.a, w.sentA))
      else
        && w.toA != [] && Una(w.a, w.sentA) <= w.greet <= |w.gotB| && (w.joined ==> w.greet == |w.gotB|)
        && (if w.a.resume then w.toA[0] == OkFrame(w.greet % M) else Greeting(w.toA[0]) && w.greet == 0)
        && Arriving(w, w.toA[1..], w.greet)
  }

  // The frames bring scamper to the end of what the controller has sent and
  // accepted, unless the controller has left the connection.
  ghost predicate Arriving(w: World, frames: seq<Frame>, q: int)
    requires q >= 0
  {
    var pos := Walk(frames, At(|w.gotA|, q), w.sentB);
    && pos.At? && pos.p <= |w.sentB| && pos.q <= |w.gotB|
    && (w.joined ==> pos == At(|w.sentB|, |w.gotB|))
  }

  ghost predicate Greeting(f: Frame) {
    f.sequence == 0 && f.channel == 0 && |f.data| > 0 && f.data[0] == CONTROL_MASTER_ID && Name(f.data[1..])
  }

  ghost predicate Dials(w: World)
    requires Sides(w)
  {
    && (w.dial.Some? ==>
          var d := w.dial.value;
          d.rcv == |w.gotA| && d.una == Una(w.a, w.sentA) && |w.gotB| <= d.nxt <= |w.sentA|)
    && (forall i :: 0 <= i < |w.stale| ==> w.stale[i].rcv <= |w.gotA|)
  }

  ghost predicate Inv(w: World) {
    Sides(w) && Flags(w) && WireToB(w) && WireToA(w) && Dials(w)
  }

  lemma StartInv(id: seq<byte>)
    requires Name(id)
    ensures Inv(Start(id))
  {
    var w := Start(id);
    assert w.toA[0].data[1..] == id;
    assert w.toA[1..] == [];
  }

  // ---------- Every action keeps the invariant ----------

  lemma ASendKeeps(w: World, m: Msg)
    requires Inv(w) && Enabled(w, ASend(m))
    ensures Inv(Next(w, ASend(m)))
  {
    hide Walk, SockSend;
    var r, w' := SockSend(w.a, m.channel, m.data, true), Next(w, ASend(m));
    SendSide(w.a, w.sentA, w.gotA, false, m);
    assert w'.sentA[..|w.gotB|] == w.sentA[..|w.gotB|];
    assert Sides(w');
    if w.b.go {
      WalkGrow(w.toB, At(|w.gotB|, Una(w.b, w.sentB)), w.sentA, m);
      if w.joined && w.a.go {
        WalkAppend(w.toB, FrameOf(w.a, m), At(|w.gotB|, Una(w.b, w.sentB)), w'.sentA);
      } else {
        assert w.toB + [] == w.toB;
      }
    }
  }

  // The frames that scamper has to read, after the greeting if there is one,
  // and how many of its messages are acknowledged before them.
  function Frames(w: World): seq<Frame>
    requires !w.a.go ==> w.toA != []
  {
    if w.a.go then w.toA else w.toA[1..]
  }

  function From(w: World): int {
    if w.a.go then Una(w.a, w.sentA) else w.greet
  }

  lemma BSendKeeps(w: World, m: Msg)
    requires Inv(w) && Enabled(w, BSend(m))
    ensures Inv(Next(w, BSend(m)))
  {
    hide Walk, SockSend;
    var w' := Next(w, BSend(m));
    SendSide(w.b, w.sentB, w.gotB, true, m);
    assert w'.sentB[..|w.gotA|] == w.sentB[..|w.gotA|];
    assert Sides(w');
    if w.aUp {
      WalkGrow(Frames(w), At(|w.gotA|, From(w)), w.sentB, m);
      if w.joined {
        WalkAppend(Frames(w), FrameOf(w.b, m), At(|w.gotA|, From(w)), w'.sentB);
        assert !w.a.go ==> (w.toA + [FrameOf(w.b, m)])[1..] == Frames(w) + [FrameOf(w.b, m)];
      }
    }
  }

  lemma AKeepaliveKeeps(w: World)
    requires Inv(w)
    ensures Inv(Next(w, AKeepalive))
  {
    hide Walk;
    if w.b.go && w.joined && w.a.go {
      WalkAppend(w.toB, Frame(w.a.sndNxt, 0, KEEPALIVE), At(|w.gotB|, Una(w.b, w.sentB)), w.sentA);
    } else {
      assert w.toB + [] == w.toB;
    }
  }

  lemma BKeepaliveKeeps(w: World)
    requires Inv(w)
    ensures Inv(Next(w, BKeepalive))
  {
    hide Walk;
    var f := Frame(w.b.sndNxt, 0, KEEPALIVE);
    if w.joined {
      WalkAppend(Frames(w), f, At(|w.gotA|, From(w)), w.sentB);
      assert !w.a.go ==> (w.toA + [f])[1..] == Frames(w) + [f];
    }
  }

  lemma ALostKeeps(w: World)
    requires Inv(w) && w.a.resume
    ensures Inv(DropA(w))
  {
    hide Walk;
  }

  lemma AChannelDoneKeeps(w: World, id: u32)
    requires Inv(w) && Enabled(w, AChannelDone(id))
    ensures Inv(Next(w, AChannelDone(id)))
  {
    hide Walk;
  }

  lemma BLostKeeps(w: World)
    requires Inv(w)
    ensures Inv(DropB(w))
  {
    hide Walk;
  }

  lemma ADialKeeps(w: World)
    requires Inv(w) && Enabled(w, ADial)
    ensures Inv(Next(w, ADial))
  {
    hide Walk;
  }

  // The next frame at scamper's end is one that it expects.
  lemma NextAtA(w: World)
    requires Inv(w) && w.a.go && w.toA != []
    ensures Expected(w.a, w.sentA, w.gotA, w.sentB, w.toA[0])
    ensures Walk(w.toA, At(|w.gotA|, Una(w.a, w.sentA)), w.sentB) ==
            Walk(w.toA[1..], StepWalk(At(|w.gotA|, Una(w.a, w.sentA)), w.toA[0], w.sentB), w.sentB)
  {
    hide StepWalk;
    WalkForward(w.toA[1..], StepWalk(At(|w.gotA|, Una(w.a, w.sentA)), w.toA[0], w.sentB), w.sentB);
  }

  // What scamper comes to when it has read a frame.
  function AfterRead(w: World, r: Reaction): World
    requires w.toA != []
  {
    SentA(w, r).(toA := w.toA[1..], gotA := Log(w.a, r, w.toA[0], w.gotA))
  }

  lemma AReadKeeps(w: World)
    requires Inv(w) && w.a.go && w.toA != []
    ensures var r := Receive(w.a, w.toA[0]);
            Inv(AfterRead(w, r)) && r.end.resume &&
              (r.outcome == Fine || (r.outcome == NoChannel && NeedsChannel(w.a, w.toA[0])))
  {
    hide Walk, Receive, StepWalk;
    var f, r := w.toA[0], Receive(w.a, w.toA[0]);
    NextAtA(w);
    ReceiveReads(w.a, w.sentA, w.gotA, w.sentB, f);
    WalkForward(w.toA[1..], StepWalk(At(|w.gotA|, Una(w.a, w.sentA)), f, w.sentB), w.sentB);
    var w' := AfterRead(w, r);
    assert Sides(w');
    if w.joined {
      if w'.gotA == w.gotA {
        assert w.toB + [] == w.toB;
      } else {
        WalkAck(w.toB, At(|w.gotB|, Una(w.b, w.sentB)), w.sentA, w.a.sndNxt, |w.gotA|);
      }
    }
  }

  // An acknowledgement at the end of what is under way.
  lemma WalkAck(frames: seq<Frame>, pos: Pos, sent: seq<Msg>, next: u32, q: nat)
    requires Walk(frames, pos, sent) == At(|sent|, q) && next == |sent| % M
    ensures Walk(frames + [Frame(next, 0, AckData(q % M))], pos, sent) == At(|sent|, q + 1)
  {
    WalkAppend(frames, Frame(next, 0, AckData(q % M)), pos, sent);
  }

  // An end that drops the first messages of its queue.
  lemma DropSide(e: Endpoint, sent: seq<Msg>, got: seq<Msg>, peer: bool, k: nat)
    requires Side(e, sent, got, peer) && k <= |e.messages|
    ensures var e' := e.(messages := e.messages[k..], go := true);
            Side(e', sent, got, peer) && Una(e', sent) == Una(e, sent) + k &&
            (forall i :: 0 <= i < |e'.messages| ==> e'.messages[i] == Numbered(sent, |sent| - |e'.messages| + i)) &&
            (forall i :: 0 <= i < |sent| ==> Counted(sent[i], peer))
  {
    var e' := e.(messages := e.messages[k..], go := true);
    assert forall i :: 0 <= i < |e'.messages| ==> e'.messages[i] == e.messages[i + k];
  }

  // scamper reads that the controller has what comes before greet, and sends
  // the rest of its queue again.
  lemma ReadsOk(w: World)
    requires Inv(w) && w.aUp && !w.a.go && w.a.resume
    ensures var r := Receive(w.a, w.toA[0]);
            r.end == w.a.(messages := w.a.messages[w.greet - Una(w.a, w.sentA)..], go := true) &&
            r.out == Resend(r.end.messages) && r.outcome == Fine
  {
    var arg := w.toA[0].data[1..];
    assert arg == Htonl(w.greet % M) + [];
    NtohlHtonl(w.greet % M, []);
    UnackedFrom(w.a.messages, w.sentA, w.greet);
  }

  lemma GreetKeeps(w: World)
    requires Inv(w) && w.aUp && !w.a.go && w.a.resume
    ensures var r := Receive(w.a, w.toA[0]);
            Inv(AfterRead(w, r)) && r.outcome == Fine
  {
    hide Walk, Receive, StepWalk, Resend;
    ReadsOk(w);
    var r := Receive(w.a, w.toA[0]);
    var w' := AfterRead(w, r);
    DropSide(w.a, w.sentA, w.gotA, false, w.greet - Una(w.a, w.sentA));
    assert Sides(w');
    hide Side;
    if w.joined {
      WalkResend(r.end.messages, |w.gotA|, w.sentA, false);
      assert w.toB + r.out == r.out;
    }
  }

  lemma NamedKeeps(w: World)
    requires Inv(w) && w.aUp && !w.a.resume
    ensures var r := Receive(w.a, w.toA[0]);
            Inv(AfterRead(w, r)) && r.outcome == Fine
  {
    hide StepWalk;
    assert w.toB + [] == w.toB;
  }

  lemma BReadKeeps(w: World)
    requires Inv(w) && Enabled(w, BRead)
    ensures PeerReceive(w.b, w.toB[0]).outcome == Fine && Inv(Next(w, BRead))
  {
    hide Walk, PeerReceive, StepWalk;
    var f, r := w.toB[0], PeerReceive(w.b, w.toB[0]);
    var pos, to := At(|w.gotB|, Una(w.b, w.sentB)), StepWalk(At(|w.gotB|, Una(w.b, w.sentB)), f, w.sentA);
    assert Walk(w.toB, pos, w.sentA) == Walk(w.toB[1..], to, w.sentA) by {
      WalkFirst(w.toB, pos, w.sentA);
    }
    WalkForward(w.toB[1..], to, w.sentA);
    PeerReceiveReads(w.b, w.sentB, w.gotB, w.sentA, f);
    var w' := Next(w, BRead);
    assert Sides(w');
    if w.aUp {
      if w.joined && w'.gotB != w.gotB {
        WalkAck(Frames(w), At(|w.gotA|, From(w)), w.sentB, w.b.sndNxt, |w.gotB|);
      } else {
        assert w.toA + [] == w.toA;
      }
    }
  }

  lemma WalkFirst(frames: seq<Frame>, pos: Pos, sent: seq<Msg>)
    requires frames != []
    ensures Walk(frames, pos, sent) == Walk(frames[1..], StepWalk(pos, frames[0], sent), sent)
  {
  }

  /** The bytes that scamper sends when it dials are read by the controller as
      the positions of the dial. */
  lemma DialSent(w: World, magic: seq<byte>)
    requires Inv(w) && Enabled(w, ADial) && |magic| == 8
    ensures var d := Next(w, ADial).dial.value;
            ReadResumption(ResumeData(magic, w.a.rcvNxt, SndUna(w.a), w.a.sndNxt)[1..]) ==
            Some(Resumption(magic, d.rcv % M, d.una % M, d.nxt % M))
  {
    hide ReadResumption, ResumeData, WireToA, WireToB;
    ReadsResumption(magic, w.a.rcvNxt, SndUna(w.a), w.a.sndNxt);
    if w.a.messages != [] {
      assert w.a.messages[0] == Numbered(w.sentA, Una(w.a, w.sentA) + 0);
    }
  }

  /** The controller never rejects the resumption that scamper waits for. */
  lemma Answered(w: World)
    requires Inv(w) && w.dial.Some?
    ensures var left := w.b.messages[|w.gotA| - Una(w.b, w.sentB)..];
            Answer(w, w.dial.value) ==
            Some(Reaction(w.b.(messages := left, go := true), [OkFrame(|w.gotB| % M)] + Resend(left), Fine))
  {
    var d, k := w.dial.value, |w.gotA| - Una(w.b, w.sentB);
    if k < |w.b.messages| {
      assert w.b.messages[k] == Numbered(w.sentB, Una(w.b, w.sentB) + k);
    }
    SeqOrder(d.una, |w.gotB|);
    SeqOrder(|w.gotB|, d.nxt);
    UnackedFrom(w.b.messages, w.sentB, |w.gotA|);
  }

  lemma BAnswerKeeps(w: World)
    requires Inv(w) && w.dial.Some?
    ensures Inv(Next(w, BAnswer))
  {
    hide Walk, Answer, Resend, StepWalk;
    Answered(w);
    var w', k := Next(w, BAnswer), |w.gotA| - Una(w.b, w.sentB);
    DropSide(w.b, w.sentB, w.gotB, true, k);
    assert Sides(w');
    WalkResend(w'.b.messages, |w.gotB|, w.sentB, true);
    assert w'.toA[1..] == Resend(w'.b.messages);
    WalkNone(At(|w.gotB|, |w.gotA|), w.sentA);
  }

  lemma WalkNone(pos: Pos, sent: seq<Msg>)
    ensures Walk([], pos, sent) == pos
  {
  }

  // An old resumption, if it is answered at all, is taken for what it was.
  lemma StaleAnswer(w: World, d: Res)
    requires Inv(w) && d.rcv <= |w.gotA| && |w.sentB| - d.rcv < M && Answer(w, d).Some?
    ensures Una(w.b, w.sentB) <= d.rcv
    ensures Answer(w, d).value.end == w.b.(messages := w.b.messages[d.rcv - Una(w.b, w.sentB)..], go := true)
  {
    hide WireToA, WireToB, Flags, Dials;
    SuppliedFrom(w.b, w.sentB, w.gotB, d.rcv);
    UnackedFrom(w.b.messages, w.sentB, d.rcv);
  }

  // A position that is taken for one of those still kept is one of those.
  lemma SuppliedFrom(e: Endpoint, sent: seq<Msg>, got: seq<Msg>, rcv: nat)
    requires Side(e, sent, got, true) && rcv <= |sent| < rcv + M && CanSupply(e, rcv % M)
    ensures Una(e, sent) <= rcv
  {
    var una := Una(e, sent);
    if e.sndNxt == rcv % M {
      SameMod(|sent|, rcv);
    } else {
      var i :| 0 <= i < |e.messages| && e.messages[i].sequence == rcv % M;
      assert e.messages[i] == Numbered(sent, una + i);
      SameMod(una + i, rcv);
    }
  }

  lemma StaleSides(w: World, i: nat)
    requires Inv(w) && Enabled(w, BAnswerStale(i))
    ensures Sides(Next(w, BAnswerStale(i)))
  {
    hide Walk, Answer, Resend, StepWalk, WireToA, WireToB;
    var d := w.stale[i];
    if Answer(w, d).Some? {
      StaleAnswer(w, d);
      DropSide(w.b, w.sentB, w.gotB, true, d.rcv - Una(w.b, w.sentB));
    }
  }

  // What is on the way to scamper stays; nothing is on the way back.
  lemma StaleWires(w: World, i: nat)
    requires Inv(w) && Enabled(w, BAnswerStale(i)) && Answer(w, w.stale[i]).Some?
    requires Sides(Next(w, BAnswerStale(i)))
    ensures Flags(Next(w, BAnswerStale(i))) && WireToB(Next(w, BAnswerStale(i)))
    ensures WireToA(Next(w, BAnswerStale(i))) && Dials(Next(w, BAnswerStale(i)))
  {
    hide Walk, Answer, Resend, StepWalk;
    var w' := Next(w, BAnswerStale(i));
    StaleAnswer(w, w.stale[i]);
    WalkNone(At(|w'.gotB|, Una(w'.b, w'.sentB)), w'.sentA);
  }

  lemma BAnswerStaleKeeps(w: World, i: nat)
    requires Inv(w) && Enabled(w, BAnswerStale(i))
    ensures Inv(Next(w, BAnswerStale(i)))
  {
    hide Walk, Answer, Resend, StepWalk;
    StaleSides(w, i);
    if Answer(w, w.stale[i]).Some? {
      hide Sides;
      StaleWires(w, i);
    }
  }

  /** Whatever happens next, the invariant holds after it. */
  lemma InvKept(w: World, act: Action)
    requires Inv(w) && Enabled(w, act)
    ensures Inv(Next(w, act))
  {
    hide Inv, Receive;
    match act
    case ASend(m) => ASendKeeps(w, m);
    case BSend(m) => BSendKeeps(w, m);
    case AKeepalive => AKeepaliveKeeps(w);
    case BKeepalive => BKeepaliveKeeps(w);
    case ARead => AnyReadKeeps(w);
    case AChannelDone(id) => AChannelDoneKeeps(w, id);
    case BRead => BReadKeeps(w);
    case ALost => ALostKeeps(w);
    case BLost => BLostKeeps(w);
    case ADial => ADialKeeps(w);
    case BAnswer => BAnswerKeeps(w);
    case BAnswerStale(i) => BAnswerStaleKeeps(w, i);
  }

  lemma AnyReadKeeps(w: World)
    requires Inv(w) && Enabled(w, ARead)
    ensures Inv(Next(w, ARead))
    ensures var r := Receive(w.a, w.toA[0]);
            r.outcome == Fine || (r.outcome == NoChannel && NeedsChannel(w.a, w.toA[0]))
  {
    hide Walk, Receive, StepWalk, WireToA, WireToB, Sides, Dials;
    var r := Receive(w.a, w.toA[0]);
    if w.a.go {
      AReadKeeps(w);
    } else if w.a.resume {
      GreetKeeps(w);
    } else {
      NamedKeeps(w);
    }
    if r.outcome != Fine {
      ALostKeeps(AfterRead(w, r));
    }
  }

  // ---------- Runs ----------

  predicate Possible(w: World, run: seq<Action>)
    decreases |run|
  {
    run != [] ==> Enabled(w, run[0]) && Possible(Next(w, run[0]), run[1..])
  }

  function After(w: World, run: seq<Action>): World
    requires Possible(w, run)
    decreases |run|
  {
    if run == [] then w else After(Next(w, run[0]), run[1..])
  }

  lemma {:induction false} RunKeeps(w: World, run: seq<Action>)
    requires Inv(w) && Possible(w, run)
    ensures Inv(After(w, run))
    decreases |run|
  {
    if run != [] {
      InvKept(w, run[0]);
      RunKeeps(Next(w, run[0]), run[1..]);
    }
  }

  /** In every run, however often the connection is lost and resumed, what each
      end has accepted is a prefix of what the other has sent - no gap and no
      duplicate - and the queue kept for sending again is exactly what has been
      sent from the first unacknowledged message on. */
  lemma ExactlyOnce(id: seq<byte>, run: seq<Action>)
    requires Name(id) && Possible(Start(id), run)
    ensures var w := After(Start(id), run);
            && w.gotB <= w.sentA && w.gotA <= w.sentB
            && |w.a.messages| <= |w.sentA| && Una(w.a, w.sentA) <= |w.gotB|
            && (forall i :: 0 <= i < |w.a.messages| ==> w.a.messages[i] == Numbered(w.sentA, Una(w.a, w.sentA) + i))
            && w.a.sndNxt == |w.sentA| % M && w.a.rcvNxt == |w.gotA| % M
  {
    hide Walk, Next, Enabled;
    StartInv(id);
    RunKeeps(Start(id), run);
  }

  /** No run ever makes either end see a wrong sequence number or a wrong
      acknowledgement, and no resumption that scamper waits for is rejected. */
  lemma NeverMistaken(id: seq<byte>, run: seq<Action>)
    requires Name(id) && Possible(Start(id), run)
    ensures var w := After(Start(id), run);
            && (Enabled(w, ARead) ==>
                  var outcome := Receive(w.a, w.toA[0]).outcome;
                  outcome == Fine || (outcome == NoChannel && NeedsChannel(w.a, w.toA[0])))
            && (Enabled(w, BRead) ==> PeerReceive(w.b, w.toB[0]).outcome == Fine)
            && (Enabled(w, BAnswer) ==> Answer(w, w.dial.value).Some?)
  {
    hide Walk, Next, Receive, PeerReceive, Answer;
    StartInv(id);
    RunKeeps(Start(id), run);
    var w := After(Start(id), run);
    if Enabled(w, ARead) {
      AnyReadKeeps(w);
    }
    if Enabled(w, BRead) {
      BReadKeeps(w);
    }
    if w.dial.Some? {
      Answered(w);
    }
  }

  /** Nothing is forgotten either: when both ends are on one connection and have
      read what is on it, each has everything the other ever sent, and no message
      waits for an acknowledgement. */
  lemma EverythingArrives(id: seq<byte>, run: seq<Action>)
    requires Name(id) && Possible(Start(id), run)
    ensures var w := After(Start(id), run);
            w.joined && w.toA == [] && w.toB == [] ==>
              w.gotB == w.sentA && w.gotA == w.sentB && w.a.messages == [] && w.b.messages == []
  {
    hide Next, Enabled;
    StartInv(id);
    RunKeeps(Start(id), run);
  }

  // ---------- Frames and bytes ----------

  lemma {:induction false} WalkSizes(frames: seq<Frame>, pos: Pos, sent: seq<Msg>, peer: bool)
    requires Walk(frames, pos, sent).At? && forall i :: 0 <= i < |sent| ==> Counted(sent[i], peer)
    ensures forall f :: f in frames ==> 1 <= |f.data| <= 65535
    decreases |frames|
  {
    if frames != [] {
      var next := StepWalk(pos, frames[0], sent);
      if next.Bad? {
        WalkBad(frames[1..], sent);
      }
      WalkSizes(frames[1..], next, sent, peer);
      assert pos.p < |sent| ==> Counted(sent[pos.p], peer);
    }
  }

  /** Every frame under way can be written as bytes, and is read as soon as its
      last byte has arrived. */
  lemma SizesFit(w: World)
    requires Inv(w)
    ensures forall f :: f in w.toA + w.toB ==> 1 <= |f.data| <= 65535
  {
    hide Walk, StepWalk;
    if w.b.go {
      WalkSizes(w.toB, At(|w.gotB|, Una(w.b, w.sentB)), w.sentA, false);
    }
    if w.aUp {
      WalkSizes(Frames(w), At(|w.gotA|, From(w)), w.sentB, true);
      assert !w.a.go ==> w.toA == [w.toA[0]] + Frames(w);
    }
  }

  function Reads(n: nat): (run: seq<Action>)
    ensures |run| == n && forall i :: 0 <= i < n ==> run[i] == ARead
  {
    seq(n, i => ARead)
  }

  /** The frames that a call of ReceiveAll deals with are as many steps of a run:
      all of them, or those up to the first that fails. */
  lemma {:induction false} FramesAreReads(w: World, out: seq<Frame>, n: nat)
    requires Inv(w) && w.aUp && n <= |w.toA|
    ensures var r := ReceiveAll(w.a, out, w.toA[..n]);
            if r.outcome == Fine then
              Possible(w, Reads(n)) && Came(w, After(w, Reads(n)), out, r) && After(w, Reads(n)).toA == w.toA[n..]
            else
              exists k :: 0 < k <= n && Possible(w, Reads(k)) && After(w, Reads(k)).a == Retry(r.end)
    decreases n
  {
    hide Inv, Receive, Retry;
    if n == 0 {
      assert w.toA[..0] == [] && out + [] == out && w.toB + [] == w.toB;
      assert Reads(0) == [];
    } else {
      var f, r := w.toA[0], Receive(w.a, w.toA[0]);
      var w' := Next(w, ARead);
      AnyReadKeeps(w);
      assert w.toA[..n][0] == f && w.toA[..n][1..] == w.toA[1..][..n - 1];
      ReadsStep(w, n);
      if r.outcome == Fine {
        FramesAreReads(w', out + r.out, n - 1);
        assert w.toA[1..][n - 1..] == w.toA[n..];
        var all := ReceiveAll(w'.a, out + r.out, w'.toA[..n - 1]);
        if all.outcome == Fine {
          CameBoth(w, w', After(w', Reads(n - 1)), out, r, all);
        } else {
          var k :| 0 < k <= n - 1 && Possible(w', Reads(k)) && After(w', Reads(k)).a == Retry(all.end);
          ReadsStep(w, k + 1);
        }
      } else {
        ReadsStep(w, 1);
        assert Possible(w, Reads(1)) && After(w, Reads(1)) == w';
      }
    }
  }

  // What w comes to when frames have been read without fail, with what was
  // written at that.
  ghost predicate Came(w: World, w': World, out: seq<Frame>, r: Reaction) {
    && w'.a == r.end && w'.aUp && w'.joined == w.joined && out <= r.out
    && w'.toB == if w.joined then w.toB + r.out[|out|..] else w.toB
  }

  lemma CameBoth(w: World, w1: World, w2: World, out: seq<Frame>, r: Reaction, all: Reaction)
    requires Came(w1, w2, out + r.out, all)
    requires w1.aUp && w1.joined == w.joined && w1.toB == if w.joined then w.toB + r.out else w.toB
    ensures Came(w, w2, out, all)
  {
    OutBoth(w.toB, out, r.out, all.out);
  }

  lemma OutBoth(wire: seq<Frame>, a: seq<Frame>, b: seq<Frame>, all: seq<Frame>)
    requires a + b <= all
    ensures a <= all && wire + all[|a|..] == wire + b + all[|a + b|..]
  {
    var more := all[|a + b|..];
    assert all == a + b + more;
    assert all[|a|..] == b + more;
  }

  lemma ReadsStep(w: World, n: nat)
    requires n > 0 && Enabled(w, ARead)
    ensures Possible(w, Reads(n)) <==> Possible(Next(w, ARead), Reads(n - 1))
    ensures Possible(w, Reads(n)) ==> After(w, Reads(n)) == After(Next(w, ARead), Reads(n - 1))
  {
    hide Next;
    assert Reads(n)[1..] == Reads(n - 1);
  }

  // Reading all that is under way to scamper has the effect of as many steps.
  ghost predicate TakenAsReads(w: World, r: Reaction) {
    if r.outcome == Fine then
      var n := |w.toA|;
      Possible(w, Reads(n)) && Came(w, After(w, Reads(n)), [], r) && After(w, Reads(n)).toA == []
    else exists k :: 0 < k <= |w.toA| && Possible(w, Reads(k)) && After(w, Reads(k)).a == Retry(r.end)
  }

  /** Runs are over frames, and the connections carry bytes: in whatever pieces
      the bytes of the frames under way arrive, what ReadAll does with them is
      what the steps of a run do. */
  lemma BytesAreReads(w: World, chunks: seq<seq<byte>>)
    requires Inv(w) && w.aUp
    ensures forall f :: f in w.toA ==> 1 <= |f.data| <= 65535
    ensures Concat(chunks) == EncodeAll(w.toA) ==> TakenAsReads(w, ReceiveAll(w.a, [], Parse([] + Concat(chunks)).0))
  {
    hide Next, Inv, Receive, ReceiveAll, Parse, Retry, Concat, EncodeAll;
    SizesFit(w);
    if Concat(chunks) == EncodeAll(w.toA) {
      ParseEncoded(w.toA);
      assert [] + Concat(chunks) == Concat(chunks) && w.toA[..|w.toA|] == w.toA && w.toA[|w.toA|..] == [];
      FramesAreReads(w, [], |w.toA|);
    }
  }
}
