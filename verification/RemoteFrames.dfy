/** The framing of the remote control protocol (scamper_control.c): a header of
    a sequence number, a channel and a length, and then the message. */
module RemoteFrames {
  import opened Wrappers
  import opened NetBytes

  const HDRLEN := 10

  datatype Frame = Frame(sequence: u32, channel: u32, data: seq<byte>)

  // ---------- Frames and streams ----------

  /** What remote_sock_write sends. */
  function Encode(f: Frame): seq<byte>
    requires |f.data| <= 65535
  {
    Htonl(f.sequence) + Htonl(f.channel) + Htons(|f.data|) + f.data
  }

  function FrameLen(s: seq<byte>): (n: nat)
    requires |s| >= HDRLEN
    ensures HDRLEN <= n <= HDRLEN + 65535
  {
    HDRLEN + Ntohs(s[8..])
  }

  // A frame is looked at once a byte after its header has arrived.
  predicate Whole(s: seq<byte>) {
    |s| > HDRLEN && |s| >= FrameLen(s)
  }

  function Decode(s: seq<byte>): Frame
    requires |s| >= HDRLEN && FrameLen(s) <= |s|
  {
    Frame(Ntohl(s), Ntohl(s[4..]), s[HDRLEN..FrameLen(s)])
  }

  /** The complete frames of a stream, and the bytes left over. */
  function Parse(s: seq<byte>): (r: (seq<Frame>, seq<byte>))
    ensures !Whole(r.1)
    decreases |s|
  {
    if Whole(s) then
      var (frames, rest) := Parse(s[FrameLen(s)..]);
      ([Decode(s)] + frames, rest)
    else ([], s)
  }

  lemma WholeMore(s: seq<byte>, t: seq<byte>)
    requires Whole(s)
    ensures Whole(s + t) && FrameLen(s + t) == FrameLen(s) && Decode(s + t) == Decode(s)
    ensures (s + t)[FrameLen(s)..] == s[FrameLen(s)..] + t
  {
    assert (s + t)[8] == s[8] && (s + t)[9] == s[9];
    assert (s + t)[4..][0] == s[4..][0] && (s + t)[4..][1] == s[4..][1];
    assert (s + t)[4..][2] == s[4..][2] && (s + t)[4..][3] == s[4..][3];
    assert (s + t)[HDRLEN..FrameLen(s)] == s[HDRLEN..FrameLen(s)];
  }

  lemma ParseStep(s: seq<byte>)
    ensures Whole(s) ==> |s| >= HDRLEN && FrameLen(s) <= |s| && Parse(s).0 == [Decode(s)] + Parse(s[FrameLen(s)..]).0
    ensures Whole(s) ==> Parse(s).1 == Parse(s[FrameLen(s)..]).1
    ensures !Whole(s) ==> Parse(s) == ([], s)
  {
  }

  /** Where a stream is cut makes no difference. */
  lemma {:induction false} ParseCut(s: seq<byte>, t: seq<byte>)
    ensures Parse(s + t).0 == Parse(s).0 + Parse(Parse(s).1 + t).0
    ensures Parse(s + t).1 == Parse(Parse(s).1 + t).1
    decreases |s|
  {
    hide *;
    ParseStep(s);
    if Whole(s) {
      var tail := s[FrameLen(s)..];
      WholeMore(s, t);
      ParseStep(s + t);
      ParseCut(tail, t);
      assert [Decode(s)] + (Parse(tail).0 + Parse(Parse(tail).1 + t).0) == Parse(s).0 + Parse(Parse(s).1 + t).0;
    }
  }

  /** The frames that come out when a stream is read chunk by chunk. */
  function ParseChunks(pending: seq<byte>, chunks: seq<seq<byte>>): (seq<Frame>, seq<byte>)
    decreases |chunks|
  {
    if chunks == [] then ([], pending)
    else
      var (frames, rest) := Parse(pending + chunks[0]);
      var (more, left) := ParseChunks(rest, chunks[1..]);
      (frames + more, left)
  }

  /** For every stream and every way of cutting it into reads, exactly the
      complete frames come out, in order. */
  lemma {:induction false} ChunksDoNotMatter(pending: seq<byte>, chunks: seq<seq<byte>>)
    requires !Whole(pending)
    ensures ParseChunks(pending, chunks) == Parse(pending + Concat(chunks))
    decreases |chunks|
  {
    hide *;
    ChunksStep(pending, chunks);
    if chunks == [] {
      ParseStep(pending);
    } else {
      var rest := Parse(pending + chunks[0]).1;
      ParseStep(rest);
      ChunksDoNotMatter(rest, chunks[1..]);
      ParseCut(pending + chunks[0], Concat(chunks[1..]));
    }
  }

  lemma ChunksStep(pending: seq<byte>, chunks: seq<seq<byte>>)
    ensures chunks == [] ==> ParseChunks(pending, chunks) == ([], pending) && pending + Concat(chunks) == pending
    ensures chunks != [] ==>
              var first := Parse(pending + chunks[0]);
              !Whole(first.1) &&
              var later := ParseChunks(first.1, chunks[1..]);
              ParseChunks(pending, chunks) == (first.0 + later.0, later.1) &&
              pending + Concat(chunks) == (pending + chunks[0]) + Concat(chunks[1..])
  {
    hide Parse, Whole;
    if chunks == [] {
      assert pending + [] == pending;
    } else {
      assert pending + (chunks[0] + Concat(chunks[1..])) == (pending + chunks[0]) + Concat(chunks[1..]);
    }
  }

  function EncodeAll(frames: seq<Frame>): seq<byte>
    requires forall f :: f in frames ==> 1 <= |f.data| <= 65535
  {
    if frames == [] then [] else Encode(frames[0]) + EncodeAll(frames[1..])
  }

  lemma EncodeDecode(f: Frame, rest: seq<byte>)
    requires 1 <= |f.data| <= 65535
    ensures var s := Encode(f) + rest;
            Whole(s) && Decode(s) == f && s[FrameLen(s)..] == rest
  {
    var s := Encode(f) + rest;
    NtohlHtonl(f.sequence, s[4..]);
    assert s == Htonl(f.sequence) + s[4..];
    NtohlHtonl(f.channel, s[8..]);
    assert s[4..] == Htonl(f.channel) + s[8..];
    assert s[8..][0] == Htons(|f.data|)[0] && s[8..][1] == Htons(|f.data|)[1];
    assert FrameLen(s) == HDRLEN + |f.data|;
    assert s[HDRLEN..FrameLen(s)] == f.data;
    assert s[FrameLen(s)..] == rest;
  }

  /** Reading back what was sent gives the frames that were sent. */
  lemma {:induction false} ParseEncoded(frames: seq<Frame>)
    requires forall f :: f in frames ==> 1 <= |f.data| <= 65535
    ensures Parse(EncodeAll(frames)) == (frames, [])
  {
    if frames != [] {
      EncodeDecode(frames[0], EncodeAll(frames[1..]));
      ParseEncoded(frames[1..]);
      assert frames == [frames[0]] + frames[1..];
    }
  }
}
