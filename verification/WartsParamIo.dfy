/** The loops of scamper_file_warts.c that write and read a block of parameters. */
module WartsParamIo {
  import opened Wrappers
  import opened NetBytes
  import opened WartsDict
  import opened WartsParams

  lemma FlagAt(flags: seq<bv8>, i: nat, j: nat)
    requires i < |flags| && j < 7
    ensures Flag(flags, 7 * i + j) <==> IsSet(flags[i], j)
    ensures flags[i] & 0x7f == 0 ==> !Flag(flags, 7 * i + j)
  {
    hide IsSet;
    LinkBit(flags[i], j);
    assert (7 * i + j) / 7 == i && (7 * i + j) % 7 == j;
  }

  // Parameters without flags add nothing.
  lemma {:induction false} SkipBody(flags: seq<bv8>, writes: seq<seq<byte>>, p: nat, q: nat)
    requires Handled(flags, |writes|) && p <= q <= 7 * |flags| && forall r: nat :: p <= r < q ==> !Flag(flags, r)
    ensures Body(flags, writes, p) == Body(flags, writes, q)
    decreases q - p
  {
    hide Flag;
    if p < q {
      SkipBody(flags, writes, p + 1, q);
      BodyStep(flags, writes, p, []);
    }
  }

  lemma {:induction false} SkipRead<S(!new), V(!new)>(flags: seq<bv8>, p: nat, q: nat, t: seq<byte>,
                                                      readers: seq<Reader<S, V>>, st: S)
    requires p <= q <= 7 * |flags| && forall r: nat :: p <= r < q ==> !Flag(flags, r)
    ensures ReadBody(flags, p, t, readers, st) == ReadBody(flags, q, t, readers, st)
    decreases q - p
  {
    hide Flag, ReadBody;
    if p < q {
      ReadUnset(flags, p, t, readers, st);
      SkipRead(flags, p + 1, q, t, readers, st);
    }
  }

  lemma NoFlagsInByte(flags: seq<bv8>, i: nat)
    requires i < |flags| && flags[i] & 0x7f == 0
    ensures forall r: nat :: 7 * i <= r < 7 * i + 7 ==> !Flag(flags, r)
  {
    forall r: nat | 7 * i <= r < 7 * i + 7 ensures !Flag(flags, r) {
      FlagAt(flags, i, r - 7 * i);
    }
  }

  /** warts_params_write: writes[id] is what the handler of a parameter writes. */
  method ParamsWrite(buf: array<byte>, off0: nat, flags: seq<bv8>, paramsLen: nat, writes: seq<seq<byte>>)
    returns (off: nat)
    requires flags != [] && Handled(flags, |writes|) && paramsLen == |Body(flags, writes, 0)| <= 65535
    requires off0 + |Block(flags, writes)| <= buf.Length
    modifies buf
    ensures off == off0 + |Block(flags, writes)| && buf[..off] == old(buf[..off0]) + Block(flags, writes)
  {
    hide Body, Handled, Flag;
    Put(buf, off0, FlagBytes(flags));
    off := off0 + |flags|;
    if flags[0] != 0 {
      Put(buf, off, Htons(paramsLen));
      off := off + 2;
    } else {
      assert FlagBytes(flags) + [] == FlagBytes(flags);
      return;
    }
    ghost var pre := buf[..off];
    off := PutParams(buf, off, flags, writes);
    Joined(old(buf[..off0]), FlagBytes(flags), Htons(paramsLen), Body(flags, writes, 0));
  }

  lemma Joined(a: seq<byte>, b: seq<byte>, c: seq<byte>, d: seq<byte>)
    ensures a + b + c + d == a + (b + (c + d))
  {
  }

  // handle writing the parameter for each flag out
  method PutParams(buf: array<byte>, off0: nat, flags: seq<bv8>, writes: seq<seq<byte>>) returns (off: nat)
    requires Handled(flags, |writes|) && off0 + |Body(flags, writes, 0)| <= buf.Length
    modifies buf
    ensures off == off0 + |Body(flags, writes, 0)| && buf[..off] == old(buf[..off0]) + Body(flags, writes, 0)
  {
    hide Body, Handled, Flag;
    off := off0;
    ghost var goal := buf[..off0] + Body(flags, writes, 0);
    var i := 0;
    while i < |flags|
      invariant 0 <= i <= |flags| && Left(buf, off, Body(flags, writes, 7 * i), goal)
    {
      if flags[i] & 0x7f == 0 {
        NoFlagsInByte(flags, i);
        SkipBody(flags, writes, 7 * i, 7 * i + 7);
        i := i + 1;
        continue;
      }
      var j := 0;
      while j < 7
        invariant 0 <= j <= 7 && Left(buf, off, Body(flags, writes, 7 * i + j), goal)
      {
        off := PutOne(buf, off, flags, writes, i, j, goal);
        j := j + 1;
      }
      i := i + 1;
    }
    BodyNone(flags, writes);
    assert buf[..off] + [] == buf[..off];
  }

  // What is in the buffer and what is still to come make up the goal.
  ghost predicate Left(buf: array<byte>, off: nat, body: seq<byte>, goal: seq<byte>)
    reads buf
  {
    off + |body| == |goal| <= buf.Length && buf[..off] + body == goal
  }

  lemma BodyNone(flags: seq<bv8>, writes: seq<seq<byte>>)
    requires Handled(flags, |writes|)
    ensures Body(flags, writes, 7 * |flags|) == []
  {
  }

  method PutOne(buf: array<byte>, off0: nat, flags: seq<bv8>, writes: seq<seq<byte>>, i: nat, j: nat,
                ghost goal: seq<byte>)
    returns (off: nat)
    requires Handled(flags, |writes|) && i < |flags| && j < 7 && Left(buf, off0, Body(flags, writes, 7 * i + j), goal)
    modifies buf
    ensures Left(buf, off, Body(flags, writes, 7 * i + j + 1), goal)
  {
    hide Body, Handled, Flag;
    off := off0;
    FlagAt(flags, i, j);
    BodyOne(flags, writes, 7 * i + j);
    if flags[i] & BitOf(j) == 0 {
      return;
    }
    var id := i * 7 + j;
    ghost var rest := Body(flags, writes, id + 1);
    assert buf[..off0] + (writes[id] + rest) == (buf[..off0] + writes[id]) + rest;
    Put(buf, off, writes[id]);
    off := off + |writes[id]|;
  }

  lemma BodyOne(flags: seq<bv8>, writes: seq<seq<byte>>, p: nat)
    requires Handled(flags, |writes|) && p < 7 * |flags|
    ensures Flag(flags, p) ==> p < |writes|
    ensures var rest := Body(flags, writes, p + 1);
            Body(flags, writes, p) == if Flag(flags, p) then writes[p] + rest else rest
  {
    hide Flag;
  }

  // ---------- Reading ----------

  // The parameters read so far in front of those still to be read.
  function Behind<S, V>(vals: seq<(nat, V)>, rest: Option<(seq<(nat, V)>, S)>): Option<(seq<(nat, V)>, S)> {
    if rest.None? then None else Some((vals + rest.value.0, rest.value.1))
  }

  /** warts_params_read: None stands for its -1. */
  method ParamsRead<S(!new), V(!new)>(buf: seq<byte>, off0: nat, len: nat, readers: seq<Reader<S, V>>, st0: S)
    returns (r: Option<seq<(nat, V)>>, st: S, off: nat)
    requires off0 <= len <= |buf|
    ensures var all := ReadParams(buf[off0..len], readers, st0);
            if all.None? then r == None
            else r == Some(all.value.0) && st == all.value.1 && off == off0 + all.value.2
  {
    hide ReadBody, FlagsLen;
    ghost var t := buf[off0..len];
    off, st := off0, st0;
    if off >= len {
      return None, st, off;
    }
    if buf[off] == 0 {
      return Some([]), st, off + 1;
    }
    var flagsLen := MeasureFlags(buf, off, len);
    off := off + flagsLen;
    if off > len {
      return None, st, off;
    }
    if off >= len || len - off < 2 {
      return None, st, off;
    }
    Cuts(buf, off0, len, flagsLen);
    var flags := BytesFlags(buf[off0..off]);
    var paramsLen := Ntohs(buf[off..len]);
    off := off + 2;
    var finalOff := off + paramsLen;
    r, st := ReadAll(buf, off, len, flags, readers, st);
    off := finalOff;
  }

  lemma Cuts(buf: seq<byte>, off: nat, len: nat, n: nat)
    requires off + n + 2 <= len <= |buf|
    ensures var t := buf[off..len];
            t[..n] == buf[off..off + n] && t[n..] == buf[off + n..len] && t[n + 2..] == buf[off + n + 2..len]
  {
    var t := buf[off..len];
    Slice(buf, off, len, 0, n);
    Slice(buf, off, len, n, len - off);
    Slice(buf, off, len, n + 2, len - off);
    assert t[..n] == t[0..n] && t[n..] == t[n..len - off] && t[n + 2..] == t[n + 2..len - off];
  }

  // figure out how long the flags block is
  method MeasureFlags(buf: seq<byte>, off0: nat, len: nat) returns (n: nat)
    requires off0 < len <= |buf|
    ensures n == FlagsLen(buf[off0..len])
  {
    hide IsLinked, FlagsLen;
    var off := off0;
    n := 0;
    FlagsLenAt(buf, off, len);
    while off < len && IsLinked(buf[off] as bv8)
      invariant off0 <= off <= len && n == off - off0 && n + FlagsLen(buf[off..len]) == FlagsLen(buf[off0..len])
    {
      FlagsLenAt(buf, off, len);
      off, n := off + 1, n + 1;
    }
    FlagsLenAt(buf, off, len);
    n := n + 1;
  }

  lemma FlagsLenAt(buf: seq<byte>, off: nat, len: nat)
    requires off <= len <= |buf|
    ensures off == len || !IsLinked(buf[off] as bv8) ==> FlagsLen(buf[off..len]) == 1
    ensures off < len && IsLinked(buf[off] as bv8) ==> FlagsLen(buf[off..len]) == 1 + FlagsLen(buf[off + 1..len])
  {
    hide IsLinked;
    if off < len {
      assert buf[off..len][1..] == buf[off + 1..len];
    }
  }

  // read all flag bytes
  method ReadAll<S(!new), V(!new)>(buf: seq<byte>, off0: nat, len: nat, flags: seq<bv8>, readers: seq<Reader<S, V>>,
                                   st0: S)
    returns (r: Option<seq<(nat, V)>>, st: S)
    requires off0 <= len <= |buf|
    ensures var all := ReadBody(flags, 0, buf[off0..len], readers, st0);
            if all.None? then r == None else r == Some(all.value.0) && st == all.value.1
  {
    hide ReadBody, Flag, Before;
    st := st0;
    var off, vals: seq<(nat, V)> := off0, [];
    ghost var goal := ReadBody(flags, 0, buf[off0..len], readers, st0);
    BehindNone(goal);
    var i := 0;
    while i < |flags|
      invariant 0 <= i <= |flags| && off0 <= off <= len
      invariant Behind(vals, ReadBody(flags, 7 * i, buf[off..len], readers, st)) == goal
    {
      if flags[i] & 0x7f == 0 {
        NoFlagsInByte(flags, i);
        SkipRead(flags, 7 * i, 7 * i + 7, buf[off..len], readers, st);
        i := i + 1;
        continue;
      }
      var j := 0;
      while j < 7
        invariant 0 <= j <= 7 && off0 <= off <= len
        invariant Behind(vals, ReadBody(flags, 7 * i + j, buf[off..len], readers, st)) == goal
      {
        FlagAt(flags, i, j);
        if flags[i] & BitOf(j) == 0 {
          ReadUnset(flags, 7 * i + j, buf[off..len], readers, st);
          j := j + 1;
          continue;
        }
        var id := i * 7 + j;
        if id >= |readers| {
          ReadEnd(flags, id, buf[off..len], readers, st);
          EndBehind(vals, st, goal);
          return Some(vals), st;
        }
        var one := readers[id](st, buf[off..len]);
        ReadFails(flags, id, buf[off..len], readers, st);
        if one.None? || one.value.2 > len - off {
          return None, st;
        }
        ReadStep(flags, id, buf[off..len], readers, st, one.value.0, one.value.1, one.value.2);
        Slice(buf, off, len, one.value.2, len - off);
        MoreBehind(vals, (id, one.value.0), ReadBody(flags, id + 1, buf[off + one.value.2..len], readers, one.value.1));
        vals := vals + [(id, one.value.0)];
        off, st := off + one.value.2, one.value.1;
        j := j + 1;
      }
      i := i + 1;
    }
    ReadNoMore(flags, buf[off..len], readers, st);
    EndBehind(vals, st, goal);
    r := Some(vals);
  }

  lemma BehindNone<S, V>(rest: Option<(seq<(nat, V)>, S)>)
    ensures Behind([], rest) == rest
  {
    if rest.Some? {
      assert [] + rest.value.0 == rest.value.0;
    }
  }

  lemma EndBehind<S, V>(vals: seq<(nat, V)>, st: S, goal: Option<(seq<(nat, V)>, S)>)
    requires Behind(vals, Some(([], st))) == goal
    ensures goal == Some((vals, st))
  {
    assert vals + [] == vals;
  }

  lemma MoreBehind<S, V>(vals: seq<(nat, V)>, v: (nat, V), rest: Option<(seq<(nat, V)>, S)>)
    ensures Behind(vals, Before(v, rest)) == Behind(vals + [v], rest)
  {
    if rest.Some? {
      assert vals + ([v] + rest.value.0) == (vals + [v]) + rest.value.0;
    }
  }

  lemma ReadFails<S(!new), V(!new)>(flags: seq<bv8>, p: nat, t: seq<byte>, readers: seq<Reader<S, V>>, st: S)
    requires p < 7 * |flags| && Flag(flags, p) && p < |readers|
    ensures readers[p](st, t).None? || readers[p](st, t).value.2 > |t| ==> ReadBody(flags, p, t, readers, st) == None
  {
    hide Flag;
  }

  lemma ReadNoMore<S(!new), V(!new)>(flags: seq<bv8>, t: seq<byte>, readers: seq<Reader<S, V>>, st: S)
    ensures ReadBody(flags, 7 * |flags|, t, readers, st) == Some(([], st))
  {
    hide Flag;
  }
}
