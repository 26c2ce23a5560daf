/** The other end of the remote control session: the remote controller of
    sc_remoted.c. */
module RemotePeer {
  import opened Wrappers
  import opened NetBytes
  import opened RemoteFrames
  import opened RemoteSession

  /** sc_master_control, for an established session. */
  function PeerControl(e: Endpoint, f: Frame): Reaction {
    if |f.data| < 1 then Reaction(e, [], BadLength)
    else
      var kind, arg := f.data[0], f.data[1..];
      if kind == CONTROL_CHANNEL_FIN then
        var (e', out) := Accept(e, f.sequence);
        Reaction(e', out, if |arg| == 4 then Fine else BadLength)
      else if kind == CONTROL_KEEPALIVE then Reaction(e, [], if |arg| == 0 then Fine else BadLength)
      else if kind == CONTROL_ACK then ReadAck(e, arg)
      else Reaction(e, [], Unhandled)
  }

  /** What sc_master_inet_read_cb does with a complete frame. */
  function PeerReceive(e: Endpoint, f: Frame): Reaction {
    if f.sequence != e.rcvNxt then Reaction(e, [], BadSequence)
    else if f.channel == 0 then PeerControl(e, f)
    else
      var (e', out) := Accept(e, f.sequence);
      Reaction(e', out, Fine)
  }

  datatype Resumption = Resumption(magic: seq<byte>, rcvNxt: u32, sndUna: u32, sndNxt: u32)

  // How sc_master_control_resume takes the message apart, after its type.
  function ReadResumption(arg: seq<byte>): Option<Resumption> {
    if |arg| == 0 || arg[0] == 0 then None
    else
      var off: int := 1 + (arg[0] as int);
      if off > |arg| || |arg| - off < 12 then None
      else Some(Resumption(arg[1..off], Ntohl(arg[off..]), Ntohl(arg[off + 4..]), Ntohl(arg[off + 8..])))
  }

  lemma ReadsResumption(magic: seq<byte>, rcvNxt: u32, sndUna: u32, sndNxt: u32)
    requires |magic| == 8
    ensures ReadResumption(ResumeData(magic, rcvNxt, sndUna, sndNxt)[1..]) ==
            Some(Resumption(magic, rcvNxt, sndUna, sndNxt))
  {
    var arg := ResumeData(magic, rcvNxt, sndUna, sndNxt)[1..];
    assert arg == [8] + magic + Htonl(rcvNxt) + Htonl(sndUna) + Htonl(sndNxt);
    assert arg[1..9] == magic;
    assert arg[9..] == Htonl(rcvNxt) + (Htonl(sndUna) + Htonl(sndNxt));
    assert arg[13..] == Htonl(sndUna) + Htonl(sndNxt);
    assert arg[17..] == Htonl(sndNxt) + [];
    NtohlHtonl(rcvNxt, Htonl(sndUna) + Htonl(sndNxt));
    NtohlHtonl(sndUna, Htonl(sndNxt));
    NtohlHtonl(sndNxt, []);
  }

  // The next frame that the other end wants is one that can be sent.
  predicate CanSupply(e: Endpoint, rcvNxt: u32) {
    e.sndNxt == rcvNxt || exists i :: 0 <= i < |e.messages| && e.messages[i].sequence == rcvNxt
  }

  /** sc_master_control_resume, for the session with the magic value; None when
      it rejects the resumption. */
  function PeerResume(e: Endpoint, r: Resumption): Option<Reaction> {
    if !CanSupply(e, r.rcvNxt) then None
    else if SeqGt(r.sndUna, e.rcvNxt) || SeqGt(e.rcvNxt, r.sndNxt) then None
    else
      var left := Unacked(e.messages, r.rcvNxt);
      Some(Reaction(e.(messages := left, go := true), [OkFrame(e.rcvNxt)] + Resend(left), Fine))
  }

  function OkFrame(rcvNxt: u32): Frame {
    Frame(0, 0, [CONTROL_MASTER_OK] + Htonl(rcvNxt))
  }
}
