/** Which channels are open in a run, said on the bytes of its messages. */
module RemoteChannels {
  import opened NetBytes
  import opened RemoteFrames
  import opened RemoteSession
  import opened RemotePeer
  import opened RemoteProtocol
  import opened RemoteRuns

  /** The channel that a message of five bytes names. */
  function ChannelOf(data: seq<byte>): u32
    requires |data| == 5
  {
    16777216 * data[1] as int + 65536 * data[2] as int + 256 * data[3] as int + data[4] as int
  }

  // The channel that a message opens, if it does.
  function OpenedBy(m: Msg): multiset<u32> {
    if m.channel == 0 && |m.data| == 5 && m.data[0] == 2 then multiset{ChannelOf(m.data)} else multiset{}
  }

  function Opened(got: seq<Msg>): multiset<u32> {
    if got == [] then multiset{} else Opened(got[..|got| - 1]) + OpenedBy(got[|got| - 1])
  }

  function DoneBy(act: Action): multiset<u32> {
    if act.AChannelDone? then multiset{act.id} else multiset{}
  }

  /** The channels whose work has been done in a run. */
  function Done(run: seq<Action>): multiset<u32> {
    if run == [] then multiset{} else DoneBy(run[0]) + Done(run[1..])
  }

  /** The messages that an end has sent in a run. */
  function SentBy(run: seq<Action>, peer: bool): seq<Msg> {
    if run == [] then []
    else
      (if run[0].BSend? && peer then [run[0].m] else if run[0].ASend? && !peer then [run[0].m] else [])
      + SentBy(run[1..], peer)
  }

  // ---------- One step ----------

  lemma OpenedMore(got: seq<Msg>, m: Msg)
    ensures Opened(got + [m]) == Opened(got) + OpenedBy(m)
  {
    assert (got + [m])[..|got|] == got;
  }

  lemma ChannelIs(data: seq<byte>)
    requires |data| == 5
    ensures Ntohl(data[1..]) == ChannelOf(data)
  {
  }

  // Whether a frame is accepted, and what it does to the channels.
  lemma ReadChannels(e: Endpoint, f: Frame)
    ensures var r := Receive(e, f);
            if r.end.rcvNxt == e.rcvNxt then r.end.channels == e.channels
            else r.end.channels == e.channels + OpenedBy(Msg(f.channel, f.data))
  {
    hide AckData, SockSend, Accept, Unacked, Resend, GoodId, ReadChannelNew, OpenedBy, ReadChannelFin, ReadAck, SeqLt;
    AcceptMoves(e, f.sequence);
    if f.channel == 0 && |f.data| > 0 {
      NewOpens(Accept(e, f.sequence).0, f.data);
      AckKeeps(e, f.data[1..]);
    } else {
      DataOpens(f);
    }
  }

  lemma AcceptMoves(e: Endpoint, sequence: u32)
    ensures Accept(e, sequence).0.channels == e.channels && Accept(e, sequence).0.rcvNxt != e.rcvNxt
  {
    hide AckData;
    SameModNext(e.rcvNxt);
  }

  lemma AckKeeps(e: Endpoint, arg: seq<byte>)
    ensures ReadAck(e, arg).end.channels == e.channels && ReadAck(e, arg).end.rcvNxt == e.rcvNxt
  {
  }

  lemma NewOpens(e: Endpoint, data: seq<byte>)
    requires |data| > 0
    ensures var m := Msg(0, data);
            && ReadChannelNew(e, data[1..]).0.rcvNxt == e.rcvNxt
            && (data[0] == 2 ==> ReadChannelNew(e, data[1..]).0.channels == e.channels + OpenedBy(m))
            && (data[0] != 2 ==> e.channels + OpenedBy(m) == e.channels)
  {
    assert e.channels + multiset{} == e.channels;
    if |data| == 5 {
      ChannelIs(data);
    }
  }

  lemma DataOpens(f: Frame)
    requires f.channel != 0 || |f.data| == 0
    ensures OpenedBy(Msg(f.channel, f.data)) == multiset{}
    ensures forall c: multiset<u32> :: c + OpenedBy(Msg(f.channel, f.data)) == c
  {
    forall c: multiset<u32> ensures c + OpenedBy(Msg(f.channel, f.data)) == c {
      assert c + multiset{} == c;
    }
  }

  // The steps at scamper's end that keep its session.
  lemma ReadStays(w: World)
    requires Inv(w) && Enabled(w, ARead)
    ensures var r := Receive(w.a, w.toA[0]); r.outcome != Fine ==> r.end.resume
  {
    AnyReadKeeps(w);
    hide AckData;
    hide Walk, StepWalk, WireToA, WireToB, Sides, Dials;
    var r := Receive(w.a, w.toA[0]);
    if r.outcome != Fine {
      NoChannelKeeps(w.a, w.toA[0]);
      if !w.a.resume {
        NamedKeeps(w);
      }
    }
  }

  lemma NoChannelKeeps(e: Endpoint, f: Frame)
    ensures var r := Receive(e, f); r.outcome == NoChannel ==> r.end.resume == e.resume
  {
  }

  lemma ReadStepOpens(w: World)
    requires Inv(w) && Enabled(w, ARead)
    ensures var w' := Next(w, ARead); w'.a.channels + Opened(w.gotA) == w.a.channels + Opened(w'.gotA)
  {
    var f, r := w.toA[0], Receive(w.a, w.toA[0]);
    ReadStays(w);
    ReadChannels(w.a, f);
    OpenedMore(w.gotA, Msg(f.channel, f.data));
    hide Inv, Receive, Opened, OpenedBy;
  }

  lemma StepOpens(w: World, act: Action)
    requires Inv(w) && Enabled(w, act)
    ensures Next(w, act).a.channels + DoneBy(act) + Opened(w.gotA) == w.a.channels + Opened(Next(w, act).gotA)
  {
    if act.ARead? {
      ReadStepOpens(w);
      hide Next, Enabled, Opened;
      assert Next(w, act).a.channels + multiset{} == Next(w, act).a.channels;
    } else {
      OtherStepOpens(w, act);
    }
  }

  lemma OtherStepOpens(w: World, act: Action)
    requires Enabled(w, act) && !act.ARead? && (act.ALost? ==> w.a.resume)
    ensures Next(w, act).a.channels + DoneBy(act) + Opened(w.gotA) == w.a.channels + Opened(Next(w, act).gotA)
  {
    hide PeerReceive, SockSend, Answer, Opened;
    match act
    case ASend(m) => SendKeepsChannels(w.a, m.channel, m.data, true);
    case AKeepalive => SendKeepsChannels(w.a, 0, KEEPALIVE, false);
    case _ =>
  }

  lemma SendKeepsChannels(e: Endpoint, channel: u32, data: seq<byte>, ack: bool)
    ensures SockSend(e, channel, data, ack).end.channels == e.channels
  {
  }

  lemma StepSends(w: World, act: Action)
    requires Enabled(w, act)
    ensures Next(w, act).sentA == w.sentA + SentBy([act], false)
    ensures Next(w, act).sentB == w.sentB + SentBy([act], true)
  {
    hide Receive, PeerReceive, SockSend, Answer;
  }

  // ---------- Runs ----------

  lemma {:induction false} RunOpens(w: World, run: seq<Action>)
    requires Inv(w) && Possible(w, run)
    ensures After(w, run).a.channels + Done(run) + Opened(w.gotA) == w.a.channels + Opened(After(w, run).gotA)
    decreases |run|
  {
    hide Inv, Next, Enabled, Opened, DoneBy;
    if run != [] {
      var w' := Next(w, run[0]);
      StepOpens(w, run[0]);
      InvKept(w, run[0]);
      RunOpens(w', run[1..]);
      Chain(After(w, run).a.channels, Done(run[1..]), Opened(w'.gotA), w'.a.channels, Opened(After(w, run).gotA),
            DoneBy(run[0]), Opened(w.gotA), w.a.channels);
    }
  }

  lemma Chain(a: multiset<u32>, d: multiset<u32>, o: multiset<u32>, c: multiset<u32>, p: multiset<u32>,
              n: multiset<u32>, o0: multiset<u32>, c0: multiset<u32>)
    requires a + d + o == c + p && c + n + o0 == c0 + o
    ensures a + (n + d) + o0 == c0 + p
  {
    forall x: u32 ensures (a + (n + d) + o0)[x] == (c0 + p)[x] {
      assert (a + d + o)[x] == (c + p)[x] && (c + n + o0)[x] == (c0 + o)[x];
    }
  }

  lemma {:induction false} RunSends(w: World, run: seq<Action>)
    requires Possible(w, run)
    ensures After(w, run).sentA == w.sentA + SentBy(run, false)
    ensures After(w, run).sentB == w.sentB + SentBy(run, true)
    decreases |run|
  {
    hide Next, Enabled;
    if run != [] {
      StepSends(w, run[0]);
      RunSends(Next(w, run[0]), run[1..]);
    }
  }

  /** The logs that the results speak of are the messages of the run itself. */
  lemma LogsAreRun(id: seq<byte>, run: seq<Action>)
    requires Name(id) && Possible(Start(id), run)
    ensures var w := After(Start(id), run);
            && w.sentA == SentBy(run, false) && w.gotB <= SentBy(run, false)
            && w.sentB == SentBy(run, true) && w.gotA <= SentBy(run, true)
  {
    hide Possible, After, SentBy;
    RunSends(Start(id), run);
    ExactlyOnce(id, run);
  }

  /** In every run the channels open, and those whose work has been done, are
      exactly those that the messages accepted have opened. */
  lemma ChannelsAre(id: seq<byte>, run: seq<Action>)
    requires Name(id) && Possible(Start(id), run)
    ensures var w := After(Start(id), run); w.a.channels + Done(run) == Opened(w.gotA)
  {
    hide Possible, After, Inv, Done;
    StartInv(id);
    RunOpens(Start(id), run);
    var w := After(Start(id), run);
    assert w.a.channels + Done(run) + multiset{} == w.a.channels + Done(run);
    assert multiset{} + Opened(w.gotA) == Opened(w.gotA);
  }

  // The frame carries data of the channel, or closes it.
  predicate IsFor(f: Frame, channel: u32) {
    if f.channel == 0 then |f.data| == 5 && f.data[0] == 3 && ChannelOf(f.data) == channel else f.channel == channel
  }

  /** In every run a frame for a channel is taken well just if that channel has
      been opened more often than its work has been done. */
  lemma OpenChannelsWork(id: seq<byte>, run: seq<Action>, channel: u32)
    requires Name(id) && Possible(Start(id), run)
    requires var w := After(Start(id), run); Enabled(w, ARead) && IsFor(w.toA[0], channel)
    ensures var w := After(Start(id), run);
            Receive(w.a, w.toA[0]).outcome == if Opened(w.gotA)[channel] > Done(run)[channel] then Fine else NoChannel
  {
    hide Possible, After, Inv, Done, Opened, Receive, ChannelOf;
    StartInv(id);
    RunKeeps(Start(id), run);
    var w := After(Start(id), run);
    ChannelsAre(id, run);
    assert (w.a.channels + Done(run))[channel] == w.a.channels[channel] + Done(run)[channel];
    NeedsOpen(w.a, w.toA[0], channel);
    FramesGo(w, channel);
    ReadOutcome(w);
  }

  lemma NeedsOpen(e: Endpoint, f: Frame, channel: u32)
    requires IsFor(f, channel)
    ensures NeedsChannel(e, f) <==> channel !in e.channels
  {
    if |f.data| == 5 {
      ChannelIs(f.data);
    }
  }

  // Before the session goes, the only frame is a greeting.
  lemma FramesGo(w: World, channel: u32)
    requires Inv(w) && Enabled(w, ARead) && IsFor(w.toA[0], channel)
    ensures w.a.go
  {
    hide Walk, StepWalk, WireToB, Dials, ChannelOf;
  }

  lemma ReadOutcome(w: World)
    requires Inv(w) && w.a.go && w.toA != []
    ensures Receive(w.a, w.toA[0]).outcome == if NeedsChannel(w.a, w.toA[0]) then NoChannel else Fine
  {
    hide Walk, Receive, StepWalk;
    NextAtA(w);
    ReceiveReads(w.a, w.sentA, w.gotA, w.sentB, w.toA[0]);
  }
}
