/** The remote control session of scamper_control.c: what one end keeps, what it
    does with each frame, and how it resumes. Endpoint and the functions on it
    specify the class Remote, which has the source's fields. */
module RemoteSession {
  import opened Wrappers
  import opened NetBytes
  import opened RemoteFrames

  const M := 0x1_0000_0000

  const CONTROL_MASTER_ID: byte := 1
  const CONTROL_CHANNEL_NEW: byte := 2
  const CONTROL_CHANNEL_FIN: byte := 3
  const CONTROL_KEEPALIVE: byte := 4
  const CONTROL_ACK: byte := 5
  const CONTROL_MASTER_RES: byte := 6
  const CONTROL_MASTER_REJ: byte := 7
  const CONTROL_MASTER_OK: byte := 8

  /** SEQ_LT: the difference, taken as a signed 32-bit number, is negative. */
  predicate SeqLt(a: u32, b: u32) {
    (a - b) % M >= 0x8000_0000
  }

  /** SEQ_GT. */
  predicate SeqGt(a: u32, b: u32) {
    0 < (a - b) % M < 0x8000_0000
  }

  // A message that has been sent and not yet acknowledged.
  datatype Message = Message(sequence: u32, channel: u32, data: seq<byte>)

  datatype Endpoint = Endpoint(
    go: bool, resume: bool, sndNxt: u32, rcvNxt: u32,
    messages: seq<Message>,
    alias: Option<seq<byte>>,  // the name that the other end has given
    channels: multiset<u32>    // those that are open
  )

  /** A session that is yet to be. */
  const Fresh := Endpoint(false, false, 0, 0, [], None, multiset{})

  // Fine stands for a return value of 0 and the others for the causes of -1.
  datatype Outcome = Fine | BadLength | BadSequence | BadAck | Unhandled | Rejected | NoChannel

  datatype Reaction = Reaction(end: Endpoint, out: seq<Frame>, outcome: Outcome)

  /** remote_sock_send. */
  function SockSend(e: Endpoint, channel: u32, data: seq<byte>, ack: bool): Reaction {
    if |data| == 0 || |data| > 65535 then Reaction(e, [], BadLength)
    else if !ack && !e.go then Reaction(e, [], Fine)
    else
      var e' :=
        if ack then e.(messages := e.messages + [Message(e.sndNxt, channel, data)], sndNxt := (e.sndNxt + 1) % M)
        else e;
      Reaction(e', if e.go then [Frame(e.sndNxt, channel, data)] else [], Fine)
  }

  function AckData(sequence: u32): seq<byte> {
    [CONTROL_ACK] + Htonl(sequence)
  }

  // Acknowledges a frame and moves on to the next.
  function Accept(e: Endpoint, sequence: u32): (Endpoint, seq<Frame>) {
    var r := SockSend(e, 0, AckData(sequence), false);
    (r.end.(rcvNxt := (e.rcvNxt + 1) % M), r.out)
  }

  /** remote_read_control_ack: acks come in the order of the messages. */
  function ReadAck(e: Endpoint, arg: seq<byte>): Reaction {
    if |arg| != 4 then Reaction(e, [], BadLength)
    else if e.messages == [] || e.messages[0].sequence != Ntohl(arg) then Reaction(e, [], BadAck)
    else Reaction(e.(messages := e.messages[1..]), [], Fine)
  }

  /** The messages that the other end has not yet got. */
  function Unacked(messages: seq<Message>, rcvNxt: u32): seq<Message> {
    if messages != [] && SeqLt(messages[0].sequence, rcvNxt) then Unacked(messages[1..], rcvNxt) else messages
  }

  function Resend(messages: seq<Message>): (r: seq<Frame>)
    ensures |r| == |messages|
    ensures forall i :: 0 <= i < |r| ==> r[i] == Frame(messages[i].sequence, messages[i].channel, messages[i].data)
  {
    if messages == [] then []
    else [Frame(messages[0].sequence, messages[0].channel, messages[0].data)] + Resend(messages[1..])
  }

  /** remote_read_control_master_ok. */
  function ReadMasterOk(e: Endpoint, arg: seq<byte>): Reaction {
    if |arg| != 4 then Reaction(e, [], BadLength)
    else
      var left := Unacked(e.messages, Ntohl(arg));
      Reaction(e.(messages := left, go := true), Resend(left), Fine)
  }

  // The checks of remote_read_control_master_id on the name it is given.
  predicate GoodId(arg: seq<byte>) {
    && |arg| >= 1 && 1 <= arg[0] < |arg|
    && (forall i :: 1 <= i < arg[0] ==> 0x20 <= arg[i] <= 0x7E)
    && arg[arg[0]] == 0
  }

  /** remote_read_control_master_id: a name that was there before goes even if the
      new one is wrong. */
  function ReadMasterId(e: Endpoint, arg: seq<byte>): Reaction {
    if GoodId(arg) then Reaction(e.(alias := Some(arg[1..1 + arg[0]]), resume := true, go := true), [], Fine)
    else Reaction(e.(alias := None), [], BadLength)
  }

  /** remote_read_control_channel_new. */
  function ReadChannelNew(e: Endpoint, arg: seq<byte>): (Endpoint, Outcome) {
    if |arg| != 4 then (e, BadLength) else (e.(channels := e.channels + multiset{Ntohl(arg)}), Fine)
  }

  /** remote_read_control_channel_fin: the channel stays until its work is done. */
  function ReadChannelFin(e: Endpoint, arg: seq<byte>): Outcome {
    if |arg| != 4 then BadLength else if Ntohl(arg) in e.channels then Fine else NoChannel
  }

  /** remote_read_control. */
  function ReadControl(e: Endpoint, f: Frame): Reaction {
    if |f.data| < 1 then Reaction(e, [], BadLength)
    else
      var kind, arg := f.data[0], f.data[1..];
      if !e.go then
        if f.sequence != 0 then Reaction(e, [], BadSequence)
        else if kind == CONTROL_MASTER_ID then
          ReadMasterId(e, arg)
        else if kind == CONTROL_MASTER_OK then ReadMasterOk(e, arg)
        else if kind == CONTROL_MASTER_REJ then Reaction(e.(resume := false), [], Rejected)
        else Reaction(e, [], Unhandled)
      else if f.sequence != e.rcvNxt then Reaction(e, [], BadSequence)
      else if kind == CONTROL_CHANNEL_NEW then
        var (e', out) := Accept(e, f.sequence);
        var (end, outcome) := ReadChannelNew(e', arg);
        Reaction(end, out, outcome)
      else if kind == CONTROL_CHANNEL_FIN then
        var (e', out) := Accept(e, f.sequence);
        Reaction(e', out, ReadChannelFin(e', arg))
      else if kind == CONTROL_KEEPALIVE then Reaction(e, [], if |arg| == 0 then Fine else BadLength)
      else if kind == CONTROL_ACK then ReadAck(e, arg)
      else Reaction(e, [], Unhandled)
  }

  /** What remote_read_payload does with a complete frame. */
  function Receive(e: Endpoint, f: Frame): Reaction {
    if f.channel == 0 then ReadControl(e, f)
    else if f.sequence != e.rcvNxt then Reaction(e, [], BadSequence)
    else
      var (e', out) := Accept(e, f.sequence);
      Reaction(e', out, if f.channel in e.channels then Fine else NoChannel)
  }

  // All frames of a read, up to the first that fails.
  function ReceiveAll(e: Endpoint, out: seq<Frame>, frames: seq<Frame>): Reaction
    decreases |frames|
  {
    if frames == [] then Reaction(e, out, Fine)
    else
      var r := Receive(e, frames[0]);
      if r.outcome != Fine then Reaction(r.end, out + r.out, r.outcome)
      else ReceiveAll(r.end, out + r.out, frames[1..])
  }

  lemma {:induction false} ReceiveMore(e: Endpoint, out: seq<Frame>, frames: seq<Frame>, more: seq<Frame>)
    ensures var r := ReceiveAll(e, out, frames);
            ReceiveAll(e, out, frames + more) == if r.outcome == Fine then ReceiveAll(r.end, r.out, more) else r
    decreases |frames|
  {
    hide Receive;
    if frames == [] {
      assert frames + more == more;
    } else {
      var r := Receive(e, frames[0]);
      assert (frames + more)[0] == frames[0] && (frames + more)[1..] == frames[1..] + more;
      ReceiveMore(r.end, out + r.out, frames[1..], more);
    }
  }

  /** The message that remote_send_resume sends. */
  function ResumeData(magic: seq<byte>, rcvNxt: u32, sndUna: u32, sndNxt: u32): seq<byte> {
    [CONTROL_MASTER_RES, 8] + magic + Htonl(rcvNxt) + Htonl(sndUna) + Htonl(sndNxt)
  }

  function SndUna(e: Endpoint): u32 {
    if e.messages == [] then e.sndNxt else e.messages[0].sequence
  }

  /** remote_retry: the connection has gone; only a session that cannot be
      resumed is forgotten. */
  function Retry(e: Endpoint): Endpoint {
    if e.resume then e.(go := false) else Fresh
  }

  // ---------- The session in memory ----------

  class Remote {
    var go: bool
    var resume: bool
    var sndNxt: u32
    var rcvNxt: u32
    var messages: seq<Message>
    var alias: Option<seq<byte>>
    var channels: multiset<u32>
    const magic: array<byte>
    const buf: array<byte>
    var bufoff: nat
    var wb: seq<Frame>  // what has been written to the connection

    ghost predicate Valid()
      reads this, buf
    {
      buf.Length == 65536 + HDRLEN && magic.Length == 8 && magic != buf &&
      bufoff <= buf.Length && !Whole(buf[..bufoff])
    }

    ghost function State(): Endpoint
      reads this
    {
      Endpoint(go, resume, sndNxt, rcvNxt, messages, alias, channels)
    }

    constructor (magic: array<byte>)
      requires magic.Length == 8
      ensures Valid() && fresh(buf) && State() == Fresh && wb == []
    {
      this.magic := magic;
      buf := new byte[65536 + HDRLEN](_ => 0);
      go, resume, sndNxt, rcvNxt, messages, bufoff, wb := false, false, 0, 0, [], 0, [];
      alias, channels := None, multiset{};
    }

    method SockWrite(data: seq<byte>, sequence: u32, channel: u32)
      requires |data| <= 65535
      modifies this`wb
      ensures wb == old(wb) + [Frame(sequence, channel, data)]
    {
      wb := wb + [Frame(sequence, channel, data)];
    }

    method Send(channel: u32, data: seq<byte>, ack: bool) returns (outcome: Outcome)
      modifies this`sndNxt, this`messages, this`wb
      ensures Reaction(State(), wb, outcome) ==
              var r := SockSend(old(State()), channel, data, ack); Reaction(r.end, old(wb) + r.out, r.outcome)
    {
      if |data| == 0 || |data| > 65535 {
        return BadLength;
      }
      if !ack && !go {
        return Fine;
      }
      var sequence := sndNxt;
      if ack {
        messages := messages + [Message(sequence, channel, data)];
        sndNxt := (sndNxt + 1) % M;
      }
      if !go {
        return Fine;
      }
      SockWrite(data, sequence, channel);
      outcome := Fine;
    }

    method ControlAck(arg: seq<byte>) returns (outcome: Outcome)
      modifies this`messages
      ensures Reaction(State(), [], outcome) == ReadAck(old(State()), arg)
    {
      if |arg| != 4 {
        return BadLength;
      }
      var sequence := Ntohl(arg);
      if |messages| == 0 {
        return BadAck;
      }
      if messages[0].sequence != sequence {
        return BadAck;
      }
      messages := messages[1..];
      outcome := Fine;
    }

    method ControlMasterOk(arg: seq<byte>) returns (outcome: Outcome)
      modifies this`messages, this`go, this`wb
      ensures Reaction(State(), wb, outcome) ==
              var r := ReadMasterOk(old(State()), arg); Reaction(r.end, old(wb) + r.out, r.outcome)
    {
      if |arg| != 4 {
        return BadLength;
      }
      DropAcked(Ntohl(arg));
      go := true;
      WriteMessages();
      outcome := Fine;
    }

    method DropAcked(rcvNxt: u32)
      modifies this`messages
      ensures messages == Unacked(old(messages), rcvNxt)
    {
      while |messages| > 0
        invariant Unacked(messages, rcvNxt) == Unacked(old(messages), rcvNxt)
        decreases |messages|
      {
        if !SeqLt(messages[0].sequence, rcvNxt) {
          break;
        }
        messages := messages[1..];
      }
    }

    method WriteMessages()
      modifies this`wb
      ensures wb == old(wb) + Resend(messages)
    {
      hide SeqLt;
      ghost var all := Resend(messages);
      var sn := 0;
      while sn < |messages|
        invariant 0 <= sn <= |messages|
        invariant wb == old(wb) + all[..sn]
      {
        wb := wb + [Frame(messages[sn].sequence, messages[sn].channel, messages[sn].data)];
        sn := sn + 1;
      }
      assert all[..sn] == all;
    }

    /** remote_read_control, on a frame that has been put together in buf. */
    method Control(f: Frame) returns (outcome: Outcome)
      requires f.channel == 0
      modifies this`go, this`resume, this`rcvNxt, this`sndNxt, this`messages, this`alias, this`channels, this`wb
      ensures Reaction(State(), wb, outcome) ==
              var r := ReadControl(old(State()), f); Reaction(r.end, old(wb) + r.out, r.outcome)
    {
      if |f.data| < 1 {
        return BadLength;
      }
      var kind, arg := f.data[0], f.data[1..];
      if !go {
        if f.sequence != 0 {
          return BadSequence;
        }
        if kind == CONTROL_MASTER_ID {
          outcome := ControlMasterId(arg);
          return;
        } else if kind == CONTROL_MASTER_OK {
          outcome := ControlMasterOk(arg);
          return;
        } else if kind == CONTROL_MASTER_REJ {
          resume := false;
          return Rejected;
        }
      } else {
        if f.sequence != rcvNxt {
          return BadSequence;
        }
        if kind == CONTROL_CHANNEL_NEW || kind == CONTROL_CHANNEL_FIN {
          var ack := Send(0, AckData(f.sequence), false);
          rcvNxt := (rcvNxt + 1) % M;
          if kind == CONTROL_CHANNEL_NEW {
            outcome := ControlChannelNew(arg);
          } else {
            outcome := ControlChannelFin(arg);
          }
          return;
        } else if kind == CONTROL_KEEPALIVE {
          return if |arg| == 0 then Fine else BadLength;
        } else if kind == CONTROL_ACK {
          outcome := ControlAck(arg);
          return;
        }
      }
      outcome := Unhandled;
    }

    method ControlChannelNew(arg: seq<byte>) returns (outcome: Outcome)
      modifies this`channels
      ensures (State(), outcome) == ReadChannelNew(old(State()), arg)
    {
      if |arg| != 4 {
        return BadLength;
      }
      channels := channels + multiset{Ntohl(arg)};
      outcome := Fine;
    }

    method ControlChannelFin(arg: seq<byte>) returns (outcome: Outcome)
      ensures outcome == ReadChannelFin(State(), arg)
    {
      if |arg| != 4 {
        return BadLength;
      }
      var channel := Ntohl(arg);
      outcome := if channel in channels then Fine else NoChannel;
    }

    method ControlMasterId(arg: seq<byte>) returns (outcome: Outcome)
      modifies this`go, this`resume, this`alias
      ensures Reaction(State(), [], outcome) == ReadMasterId(old(State()), arg)
    {
      alias := None;
      if |arg| < 1 {
        return BadLength;
      }
      var idLen := arg[0];
      if idLen == 0 || |arg| - 1 < idLen {
        return BadLength;
      }
      var off := 0;
      while off < idLen - 1
        invariant 0 <= off <= idLen - 1
        invariant forall i :: 1 <= i <= off ==> 0x20 <= arg[i] <= 0x7E
      {
        if arg[1 + off] < 0x20 || arg[1 + off] > 0x7E {
          return BadLength;
        }
        off := off + 1;
      }
      if arg[idLen] != 0 {
        return BadLength;
      }
      alias := Some(arg[1..1 + idLen]);
      resume, go := true, true;
      outcome := Fine;
    }

    /** The part of remote_read_payload that deals with a complete frame. */
    method Dispatch(f: Frame) returns (outcome: Outcome)
      modifies this`go, this`resume, this`rcvNxt, this`sndNxt, this`messages, this`alias, this`channels, this`wb
      ensures Reaction(State(), wb, outcome) ==
              var r := Receive(old(State()), f); Reaction(r.end, old(wb) + r.out, r.outcome)
    {
      if f.channel == 0 {
        outcome := Control(f);
        return;
      }
      if f.sequence != rcvNxt {
        return BadSequence;
      }
      var ack := Send(0, AckData(f.sequence), false);
      rcvNxt := (rcvNxt + 1) % M;
      outcome := if f.channel in channels then Fine else NoChannel;
    }

    // memcpy(rm->buf + rm->bufoff, data + off, n)
    method Copy(data: seq<byte>, off: nat, n: nat)
      requires off + n <= |data| && bufoff + n <= buf.Length
      modifies buf
      ensures buf[..bufoff + n] == old(buf[..bufoff]) + data[off..off + n]
    {
      forall i | 0 <= i < n {
        buf[bufoff + i] := data[off + i];
      }
    }

    // Puts the next frame together, if it is complete: the first half of the
    // loop of remote_read_payload. None stands for its return.
    method Assemble(data: seq<byte>, off0: nat) returns (f: Option<Frame>, off: nat)
      requires Valid() && off0 < |data|
      modifies this`bufoff, buf
      ensures Valid() && off <= |data|
      ensures var pending := old(buf[..bufoff]) + data[off0..];
              if Whole(pending) then
                f == Some(Decode(pending)) && bufoff == 0 && data[off..] == pending[FrameLen(pending)..]
              else f == None && buf[..bufoff] == pending
    {
      hide Parse, Decode, FrameLen;
      ghost var pending := old(buf[..bufoff]) + data[off0..];
      off := FillHeader(data, off0);
      if off == |data| {
        assert buf[..bufoff] == pending;
        return None, off;
      }
      f, off := FillBody(data, off, pending);
    }

    // then the payload, whose length the header says
    method FillBody(data: seq<byte>, off0: nat, ghost pending: seq<byte>) returns (f: Option<Frame>, off: nat)
      requires Valid() && off0 < |data| && HDRLEN <= bufoff && pending == buf[..bufoff] + data[off0..]
      modifies this`bufoff, buf
      ensures Valid() && off <= |data|
      ensures if Whole(pending) then
                f == Some(Decode(pending)) && bufoff == 0 && data[off..] == pending[FrameLen(pending)..]
              else f == None && buf[..bufoff] == pending
    {
      hide Parse, Decode;
      off := off0;
      var msglen := Ntohs(buf[8..10]);
      HeaderLen(buf[..bufoff], buf[8..10]);
      var x, y := msglen - (bufoff - HDRLEN), |data| - off;
      if y < x {
        Copy(data, off, y);
        bufoff := bufoff + y;
        return None, |data|;
      }
      Copy(data, off, x);
      off := off + x;
      bufoff := 0;
      FrameReady(pending, buf[..HDRLEN + msglen], data[off..]);
      f := Some(Decode(buf[..HDRLEN + msglen]));
    }

    // to start with, ensure that we have a complete header
    method FillHeader(data: seq<byte>, off0: nat) returns (off: nat)
      requires Valid() && off0 < |data|
      modifies this`bufoff, buf
      ensures Valid() && off <= |data|
      ensures buf[..bufoff] + data[off..] == old(buf[..bufoff]) + data[off0..]
      ensures off < |data| ==> bufoff >= HDRLEN
      ensures off == |data| ==> bufoff <= HDRLEN
    {
      off := off0;
      while bufoff < HDRLEN && off < |data|
        invariant Valid() && off <= |data| && (off == |data| ==> bufoff <= HDRLEN)
        invariant buf[..bufoff] + data[off..] == old(buf[..bufoff]) + data[off0..]
      {
        ghost var before := buf[..bufoff];
        buf[bufoff] := data[off];
        assert buf[..bufoff + 1] == before + [data[off]];
        assert [data[off]] + data[off + 1..] == data[off..];
        bufoff := bufoff + 1;
        off := off + 1;
      }
    }

    /** remote_read_payload: whatever the reads, the frames that are dealt with
        are those of the stream. */
    method ReadPayload(data: seq<byte>) returns (outcome: Outcome)
      requires Valid()
      modifies this`go, this`resume, this`rcvNxt, this`sndNxt, this`messages, this`alias, this`channels, this`wb
      modifies this`bufoff, buf
      ensures Valid()
      ensures var (frames, rest) := Parse(old(buf[..bufoff]) + data);
              Reaction(State(), wb, outcome) == ReceiveAll(old(State()), old(wb), frames) &&
              (outcome == Fine ==> buf[..bufoff] == rest)
    {
      hide Receive, Parse, Whole, Decode;
      var off := 0;
      assert data[0..] == data;
      while off < |data|
        invariant off <= |data| && Valid()
        invariant Parse(buf[..bufoff] + data[off..]).1 == Parse(old(buf[..bufoff]) + data).1
        invariant ReceiveAll(State(), wb, Parse(buf[..bufoff] + data[off..]).0) ==
                  ReceiveAll(old(State()), old(wb), Parse(old(buf[..bufoff]) + data).0)
        decreases bufoff + |data| - off
      {
        ghost var pending := buf[..bufoff] + data[off..];
        ParseStep(pending);
        var f;
        f, off := Assemble(data, off);
        if f.None? {
          return Fine;
        }
        assert buf[..bufoff] + data[off..] == data[off..];
        outcome := Dispatch(f.value);
        if outcome != Fine {
          return;
        }
      }
      assert buf[..bufoff] + data[off..] == buf[..bufoff];
      ParseStep(buf[..bufoff]);
      outcome := Fine;
    }

    /** The reads of a connection, one after the other, until one fails: whatever
        the way in which the bytes arrive, they have the effect of the frames. */
    method ReadAll(chunks: seq<seq<byte>>) returns (outcome: Outcome)
      requires Valid()
      modifies this`go, this`resume, this`rcvNxt, this`sndNxt, this`messages, this`alias, this`channels, this`wb
      modifies this`bufoff, buf
      ensures Valid()
      ensures var (frames, rest) := Parse(old(buf[..bufoff]) + Concat(chunks));
              Reaction(State(), wb, outcome) == ReceiveAll(old(State()), old(wb), frames) &&
              (outcome == Fine ==> buf[..bufoff] == rest)
    {
      hide Receive, ReceiveAll, Parse, Whole, Concat;
      outcome := Fine;
      var k := 0;
      ConcatNone<byte>();
      assert chunks[..0] == [];
      assert old(buf[..bufoff]) + [] == buf[..bufoff];
      ParseStep(buf[..bufoff]);
      ReceiveNone(State(), wb);
      while k < |chunks|
        invariant 0 <= k <= |chunks| && Valid() && outcome == Fine
        invariant var (frames, rest) := Parse(old(buf[..bufoff]) + Concat(chunks[..k]));
                  Reaction(State(), wb, Fine) == ReceiveAll(old(State()), old(wb), frames) && buf[..bufoff] == rest
      {
        ghost var before := old(buf[..bufoff]) + Concat(chunks[..k]);
        CutAt(old(buf[..bufoff]), chunks, k);
        ParseCut(before, chunks[k]);
        ReceiveMore(old(State()), old(wb), Parse(before).0, Parse(Parse(before).1 + chunks[k]).0);
        outcome := ReadPayload(chunks[k]);
        if outcome != Fine {
          FailsThen(old(State()), old(wb), old(buf[..bufoff]), chunks, k + 1);
          return;
        }
        k := k + 1;
      }
      assert chunks[..k] == chunks;
    }

    /** remote_send_resume. */
    method SendResume()
      requires Valid()
      modifies this`wb
      ensures wb == old(wb) + [Frame(0, 0, ResumeData(magic[..], rcvNxt, SndUna(State()), sndNxt))]
    {
      var una := sndNxt;
      if |messages| > 0 {
        una := messages[0].sequence;
      }
      SockWrite([CONTROL_MASTER_RES, 8] + magic[..] + Htonl(rcvNxt) + Htonl(una) + Htonl(sndNxt), 0, 0);
    }

    /** remote_retry, with remote_free: the connection has gone. */
    method Lost()
      requires Valid()
      modifies this`go, this`rcvNxt, this`sndNxt, this`messages, this`alias, this`channels, this`wb, this`bufoff
      ensures Valid() && State() == Retry(old(State())) && wb == [] && bufoff == 0
    {
      wb, bufoff, go := [], 0, false;
      if resume {
        return;
      }
      alias, channels := None, multiset{};
      sndNxt, rcvNxt, messages := 0, 0, [];
    }
  }

  lemma ReceiveNone(e: Endpoint, out: seq<Frame>)
    ensures ReceiveAll(e, out, []) == Reaction(e, out, Fine)
  {
  }

  lemma CutAt(pending: seq<byte>, chunks: seq<seq<byte>>, k: nat)
    requires k < |chunks|
    ensures pending + Concat(chunks[..k + 1]) == pending + Concat(chunks[..k]) + chunks[k]
  {
    hide Concat;
    assert chunks[..k + 1] == chunks[..k] + [chunks[k]];
    ConcatJoin(chunks[..k], [chunks[k]]);
    ConcatOne(chunks[k]);
  }

  // Bytes after a frame that fails make no difference.
  lemma FailsThen(e: Endpoint, out: seq<Frame>, pending: seq<byte>, chunks: seq<seq<byte>>, k: nat)
    requires k <= |chunks| && ReceiveAll(e, out, Parse(pending + Concat(chunks[..k])).0).outcome != Fine
    ensures ReceiveAll(e, out, Parse(pending + Concat(chunks)).0) ==
            ReceiveAll(e, out, Parse(pending + Concat(chunks[..k])).0)
  {
    hide Concat, Parse, ReceiveAll;
    ConcatJoin(chunks[..k], chunks[k..]);
    assert chunks == chunks[..k] + chunks[k..];
    var s, rest := pending + Concat(chunks[..k]), Concat(chunks[k..]);
    assert pending + Concat(chunks) == s + rest;
    ParseCut(s, rest);
    ReceiveMore(e, out, Parse(s).0, Parse(Parse(s).1 + rest).0);
  }

  lemma HeaderLen(s: seq<byte>, h: seq<byte>)
    requires |s| >= HDRLEN && h == s[8..10]
    ensures FrameLen(s) == HDRLEN + Ntohs(h)
  {
  }

  lemma FrameReady(pending: seq<byte>, head: seq<byte>, tail: seq<byte>)
    requires pending == head + tail && |head| >= HDRLEN && |head| == FrameLen(head) && |pending| > HDRLEN
    ensures Whole(pending) && Decode(pending) == Decode(head) && pending[FrameLen(pending)..] == tail
  {
  }
}
