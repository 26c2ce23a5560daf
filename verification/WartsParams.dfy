/** The parameter blocks of scamper_file_warts.c: flag bytes that say which
    parameters follow, seven to a byte with a link bit, then a length, then the
    parameters. */
module WartsParams {
  import opened Wrappers
  import opened NetBytes
  import opened WartsDict

  const LINK: bv8 := 0x80

  // 0x1 << j
  function BitOf(j: nat): bv8
    requires j < 7
  {
    if j == 0 then 0x01 else if j == 1 then 0x02 else if j == 2 then 0x04 else if j == 3 then 0x08
    else if j == 4 then 0x10 else if j == 5 then 0x20 else 0x40
  }

  predicate IsSet(f: bv8, j: nat)
    requires j < 7
  {
    f & BitOf(j) != 0
  }

  /** The flag of parameter p, the first of which is 0. */
  predicate Flag(flags: seq<bv8>, p: nat) {
    p / 7 < |flags| && IsSet(flags[p / 7], p % 7)
  }

  function WithBit(f: bv8, j: nat): bv8
    requires j < 7
  {
    f | BitOf(j)
  }

  /** Another byte of flags follows. */
  predicate IsLinked(f: bv8) {
    f & LINK != 0
  }

  function Linked(f: bv8): bv8 {
    f | LINK
  }

  lemma SetBit(f: bv8, j: nat, k: nat)
    requires j < 7 && k < 7
    ensures IsSet(WithBit(f, j), k) <==> IsSet(f, k) || j == k
    ensures IsLinked(WithBit(f, j)) <==> IsLinked(f)
  {
  }

  lemma LinkBit(f: bv8, k: nat)
    requires k < 7
    ensures IsSet(Linked(f), k) <==> IsSet(f, k)
    ensures IsLinked(Linked(f))
    ensures f & 0x7f == 0 ==> !IsSet(f, k)
    ensures f == 0 ==> !IsSet(f, k) && !IsLinked(f)
  {
  }

  lemma AsByte(f: bv8)
    ensures 0 <= f as int < 256 && (f as int) as bv8 == f && (f as int == 0 <==> f == 0)
  {
  }

  // ---------- Flags as numbers ----------

  function Octet(f: bv8): byte {
    f as int
  }

  lemma BitNumber(f: bv8, j: nat)
    requires j < 7
    ensures IsSet(f, j) <==> Octet(f) / Pow2(j) % 2 == 1
    ensures Octet(WithBit(f, j)) == Octet(f) + if Octet(f) / Pow2(j) % 2 == 1 then 0 else Pow2(j)
  {
    hide IsSet, WithBit, BitOf, Octet;
    SmallPowers();
    if j == 0 {
      Bit0(f);
    } else if j == 1 {
      Bit1(f);
    } else if j == 2 {
      Bit2(f);
    } else if j == 3 {
      Bit3(f);
    } else if j == 4 {
      Bit4(f);
    } else if j == 5 {
      Bit5(f);
    } else {
      Bit6(f);
    }
  }

  lemma SmallPowers()
    ensures Pow2(0) == 1 && Pow2(1) == 2 && Pow2(2) == 4 && Pow2(3) == 8
    ensures Pow2(4) == 16 && Pow2(5) == 32 && Pow2(6) == 64
  {
    assert Pow2(3) == 8;
    assert Pow2(5) == 32;
  }

  lemma Bit0(f: bv8)
    ensures IsSet(f, 0) <==> Octet(f) % 2 == 1
    ensures Octet(WithBit(f, 0)) == Octet(f) + if Octet(f) % 2 == 1 then 0 else 1
  {
  }

  lemma Bit1(f: bv8)
    ensures IsSet(f, 1) <==> Octet(f) / 2 % 2 == 1
    ensures Octet(WithBit(f, 1)) == Octet(f) + if Octet(f) / 2 % 2 == 1 then 0 else 2
  {
  }

  lemma Bit2(f: bv8)
    ensures IsSet(f, 2) <==> Octet(f) / 4 % 2 == 1
    ensures Octet(WithBit(f, 2)) == Octet(f) + if Octet(f) / 4 % 2 == 1 then 0 else 4
  {
  }

  lemma Bit3(f: bv8)
    ensures IsSet(f, 3) <==> Octet(f) / 8 % 2 == 1
    ensures Octet(WithBit(f, 3)) == Octet(f) + if Octet(f) / 8 % 2 == 1 then 0 else 8
  {
  }

  lemma Bit4(f: bv8)
    ensures IsSet(f, 4) <==> Octet(f) / 16 % 2 == 1
    ensures Octet(WithBit(f, 4)) == Octet(f) + if Octet(f) / 16 % 2 == 1 then 0 else 16
  {
  }

  lemma Bit5(f: bv8)
    ensures IsSet(f, 5) <==> Octet(f) / 32 % 2 == 1
    ensures Octet(WithBit(f, 5)) == Octet(f) + if Octet(f) / 32 % 2 == 1 then 0 else 32
  {
  }

  lemma Bit6(f: bv8)
    ensures IsSet(f, 6) <==> Octet(f) / 64 % 2 == 1
    ensures Octet(WithBit(f, 6)) == Octet(f) + if Octet(f) / 64 % 2 == 1 then 0 else 64
  {
  }

  /** A flag is a bit of its byte, the lowest bit first; the highest bit links. */
  lemma FlagNumber(flags: seq<bv8>, p: nat)
    ensures Flag(flags, p) <==> p / 7 < |flags| && flags[p / 7] as int / Pow2(p % 7) % 2 == 1
  {
    if p / 7 < |flags| {
      BitNumber(flags[p / 7], p % 7);
    }
  }

  lemma LinkNumber(f: bv8)
    ensures IsLinked(f) <==> f as int >= 128
    ensures Linked(f) as int == if f as int >= 128 then f as int else f as int + 128
  {
  }

  // ---------- Flags ----------

  /** flag_ij: the byte of a flag, and its place in the byte from 1 on. */
  method FlagIj(id: nat) returns (i: nat, j: nat)
    requires id > 0
    ensures i == (id - 1) / 7 && j == (id - 1) % 7 + 1
  {
    var x := id - 1;
    i := x / 7;
    j := id - i * 7;
  }

  /** flag_set: sets the flag of a parameter and leaves the others. */
  method FlagSet(flags: array<bv8>, id: nat, max0: nat) returns (max: nat)
    requires 0 < id <= 7 * flags.Length
    modifies flags
    ensures max == if max0 < id then id else max0
    ensures forall p: nat :: Flag(flags[..], p) <==> Flag(old(flags[..]), p) || p == id - 1
    ensures forall i :: 0 <= i < flags.Length ==> (IsLinked(flags[i]) <==> IsLinked(old(flags[i])))
    ensures forall i :: 0 <= i < flags.Length && i != (id - 1) / 7 ==> flags[i] == old(flags[i])
    ensures flags[(id - 1) / 7] as int ==
            old(flags[(id - 1) / 7] as int) + if Flag(old(flags[..]), id - 1) then 0 else Pow2((id - 1) % 7)
  {
    hide IsSet, BitOf, Flag, WithBit, IsLinked;
    var i, j := FlagIj(id);
    BitNumber(flags[i], j - 1);
    FlagNumber(flags[..], id - 1);
    ghost var was := flags[..];
    flags[i] := WithBit(flags[i], j - 1);
    max := if max0 < id then id else max0;
    assert flags[..] == was[i := WithBit(was[i], j - 1)];
    SetFlag(was, i, j - 1);
  }

  lemma SetFlag(was: seq<bv8>, i: nat, j: nat)
    requires i < |was| && j < 7
    ensures var flags := was[i := WithBit(was[i], j)];
            && (forall p: nat :: Flag(flags, p) <==> Flag(was, p) || p == 7 * i + j)
            && (IsLinked(flags[i]) <==> IsLinked(was[i]))
  {
    hide IsSet, BitOf, WithBit, IsLinked, Linked;
    SetBit(was[i], j, 0);
    forall p: nat
      ensures Flag(was[i := WithBit(was[i], j)], p) <==> Flag(was, p) || p == 7 * i + j
    {
      SetBit(was[i], j, p % 7);
      SamePlace7(p, 7 * i + j);
    }
  }

  lemma SamePlace7(p: nat, q: nat)
    ensures p == q <==> p / 7 == q / 7 && p % 7 == q % 7
  {
  }

  function FlagsSize(max: nat): nat {
    if max == 0 then 1 else if max % 7 != 0 then max / 7 + 1 else max / 7
  }

  /** The link bits are those of a block of n bytes. */
  ghost predicate Folded(flags: seq<bv8>, n: nat) {
    1 <= n <= |flags| && (forall i :: 0 <= i < n - 1 ==> IsLinked(flags[i])) && !IsLinked(flags[n - 1])
  }

  /** fold_flags: links the bytes that are used, and leaves all flags. */
  method FoldFlags(flags: array<bv8>, max: nat) returns (n: nat)
    requires flags.Length > 0 && max <= 7 * flags.Length && forall i :: 0 <= i < flags.Length ==> !IsLinked(flags[i])
    modifies flags
    ensures n == FlagsSize(max) && Folded(flags[..], n)
    ensures n == if max == 0 then 1 else (max + 6) / 7
    ensures forall i :: 0 <= i < n - 1 ==> flags[i] as int == old(flags[i] as int) + 128
    ensures flags[n - 1] == old(flags[n - 1])
    ensures forall p: nat :: Flag(flags[..], p) <==> Flag(old(flags[..]), p)
    ensures forall i :: n <= i < flags.Length ==> flags[i] == old(flags[i])
    ensures (forall p: nat :: Flag(old(flags[..]), p) ==> p < max) ==>
              forall p: nat :: Flag(flags[..n], p) <==> Flag(flags[..], p)
  {
    hide IsSet, BitOf, WithBit, IsLinked, Linked;
    if max == 0 {
      FlagsWithin(flags[..], 0);
      return 1;
    }
    var j := max / 7;
    if max % 7 != 0 {
      j := j + 1;
    }
    var k := j - 1;
    var i := 0;
    ghost var was := flags[..];
    while i < k
      invariant 0 <= i <= k
      invariant forall m :: 0 <= m < flags.Length ==> flags[m] == if m < i then Linked(was[m]) else was[m]
    {
      flags[i] := Linked(flags[i]);
      i := i + 1;
    }
    n := j;
    forall m | 0 <= m < k ensures IsLinked(flags[m]) && flags[m] as int == was[m] as int + 128 {
      LinkBit(was[m], 0);
      LinkNumber(was[m]);
    }
    forall p: nat ensures Flag(flags[..], p) <==> Flag(was, p) {
      if p / 7 < flags.Length {
        LinkBit(was[p / 7], p % 7);
      }
    }
    FlagsWithin(flags[..], max);
  }

  // No flag is beyond the bytes that are used.
  lemma FlagsWithin(flags: seq<bv8>, max: nat)
    requires 0 < FlagsSize(max) <= |flags|
    ensures (forall p: nat :: Flag(flags, p) ==> p < max) ==>
              forall p: nat :: Flag(flags[..FlagsSize(max)], p) <==> Flag(flags, p)
  {
    hide IsSet;
    var n := FlagsSize(max);
    forall p: nat | p < max ensures p / 7 < n {
    }
    forall p: nat ensures Flag(flags[..n], p) <==> p / 7 < n && Flag(flags, p) {
    }
  }

  /** The flags of a set of parameters, as warts_list_params and the like of it
      set them: none but those of the parameters, in a block of n bytes. */
  method ParamFlags(ids: seq<nat>, flags: array<bv8>) returns (n: nat)
    requires flags.Length > 0 && forall id :: id in ids ==> 0 < id <= 7 * flags.Length
    modifies flags
    ensures 1 <= n <= flags.Length && Folded(flags[..n], n)
    ensures forall p: nat :: Flag(flags[..n], p) <==> p + 1 in ids
  {
    hide Flag, IsLinked;
    var i := 0;
    while i < flags.Length
      invariant 0 <= i <= flags.Length && forall k :: 0 <= k < i ==> flags[k] == 0
    {
      flags[i] := 0;
      i := i + 1;
    }
    NoneSet(flags[..]);
    var max, k := 0, 0;
    while k < |ids|
      invariant 0 <= k <= |ids| && max <= 7 * flags.Length
      invariant forall p: nat :: Flag(flags[..], p) <==> p + 1 in ids[..k]
      invariant forall id :: id in ids[..k] ==> id <= max
      invariant forall m :: 0 <= m < flags.Length ==> !IsLinked(flags[m])
    {
      assert ids[..k + 1] == ids[..k] + [ids[k]];
      assert ids[k] in ids;
      max := FlagSet(flags, ids[k], max);
      k := k + 1;
    }
    assert ids[..k] == ids;
    n := FoldFlags(flags, max);
  }

  lemma NoneSet(flags: seq<bv8>)
    requires forall i :: 0 <= i < |flags| ==> flags[i] == 0
    ensures forall p: nat :: !Flag(flags, p)
    ensures forall i :: 0 <= i < |flags| ==> !IsLinked(flags[i])
  {
    forall p: nat | p / 7 < |flags| ensures !IsSet(flags[p / 7], p % 7) {
      LinkBit(flags[p / 7], p % 7);
    }
    forall i | 0 <= i < |flags| ensures !IsLinked(flags[i]) {
      LinkBit(flags[i], 0);
    }
  }

  // ---------- A block ----------

  // What the handler of a parameter reads from some bytes, and how many of them;
  // the handlers of a block share a state, such as a dictionary.
  type Reader<!S, !V> = (S, seq<byte>) -> Option<(V, S, nat)>

  function FlagBytes(flags: seq<bv8>): (s: seq<byte>)
    ensures |s| == |flags|
    ensures forall i :: 0 <= i < |s| ==> s[i] == flags[i] as int
  {
    seq(|flags|, i requires 0 <= i < |flags| => flags[i] as int)
  }

  function BytesFlags(s: seq<byte>): (flags: seq<bv8>)
    ensures |flags| == |s|
    ensures forall i :: 0 <= i < |s| ==> flags[i] == s[i] as bv8
  {
    seq(|s|, i requires 0 <= i < |s| => s[i] as bv8)
  }

  predicate Handled(flags: seq<bv8>, n: nat) {
    forall p: nat :: p < 7 * |flags| && Flag(flags, p) ==> p < n
  }

  /** The parameters whose flags are set, from p on, in the order of their numbers. */
  function Body(flags: seq<bv8>, writes: seq<seq<byte>>, p: nat): seq<byte>
    requires Handled(flags, |writes|)
    decreases 7 * |flags| - p
  {
    if p >= 7 * |flags| then []
    else (if Flag(flags, p) then writes[p] else []) + Body(flags, writes, p + 1)
  }

  /** What warts_params_write writes. */
  function Block(flags: seq<bv8>, writes: seq<seq<byte>>): seq<byte>
    requires flags != [] && Handled(flags, |writes|) && |Body(flags, writes, 0)| <= 65535
  {
    FlagBytes(flags) + if flags[0] == 0 then [] else Htons(|Body(flags, writes, 0)|) + Body(flags, writes, 0)
  }

  // Reads the parameters from p on, up to the first that has no handler.
  function ReadBody<S(!new), V(!new)>(flags: seq<bv8>, p: nat, t: seq<byte>, readers: seq<Reader<S, V>>, st: S)
    : Option<(seq<(nat, V)>, S)>
    decreases 7 * |flags| - p
  {
    if p >= 7 * |flags| then Some(([], st))
    else if !Flag(flags, p) then ReadBody(flags, p + 1, t, readers, st)
    else if p >= |readers| then Some(([], st))
    else
      var one := readers[p](st, t);
      if one.None? || one.value.2 > |t| then None
      else Before((p, one.value.0), ReadBody(flags, p + 1, t[one.value.2..], readers, one.value.1))
  }

  function Before<S, V>(v: (nat, V), rest: Option<(seq<(nat, V)>, S)>): Option<(seq<(nat, V)>, S)> {
    if rest.None? then None else Some(([v] + rest.value.0, rest.value.1))
  }

  /** The length of the flags, up to the first byte without a link bit. */
  function FlagsLen(t: seq<byte>): (n: nat)
    ensures 1 <= n <= |t| + 1
  {
    if t == [] || !IsLinked(t[0] as bv8) then 1 else 1 + FlagsLen(t[1..])
  }

  /** warts_params_read: the parameters with their numbers, the state after them,
      and the bytes passed. */
  function ReadParams<S(!new), V(!new)>(t: seq<byte>, readers: seq<Reader<S, V>>, st: S)
    : Option<(seq<(nat, V)>, S, nat)>
  {
    if t == [] then None
    else if t[0] == 0 then Some(([], st, 1))
    else
      var n := FlagsLen(t);
      if n > |t| || |t| - n < 2 then None
      else
        var vals := ReadBody(BytesFlags(t[..n]), 0, t[n + 2..], readers, st);
        if vals.None? then None else Some((vals.value.0, vals.value.1, n + 2 + Ntohs(t[n..])))
  }

  // The parameters from p on that have handlers.
  function Known<V>(flags: seq<bv8>, vals: seq<V>, n: nat, p: nat): seq<(nat, V)>
    requires Handled(flags, |vals|)
    decreases 7 * |flags| - p
  {
    if p >= 7 * |flags| then []
    else (if Flag(flags, p) && p < n then [(p, vals[p])] else []) + Known(flags, vals, n, p + 1)
  }

  // Reading undoes writing, for the parameters that a reader knows; states[p] is
  // the state of the reader when it comes to p.
  ghost predicate Undoes<S(!new), V(!new)>(flags: seq<bv8>, writes: seq<seq<byte>>, vals: seq<V>,
                                           readers: seq<Reader<S, V>>, states: seq<S>)
  {
    && |writes| == |vals| && |states| == |vals| + 1
    && (forall p, rest :: 0 <= p < |readers| && p < |vals| && Flag(flags, p) ==>
          readers[p](states[p], writes[p] + rest) == Some((vals[p], states[p + 1], |writes[p]|)))
    && (forall p :: 0 <= p < |vals| && !Flag(flags, p) ==> states[p + 1] == states[p])
  }

  function StateAt<S>(states: seq<S>, p: nat): S
    requires states != []
  {
    if p < |states| then states[p] else states[|states| - 1]
  }

  lemma {:induction false} NoneKnown<V>(flags: seq<bv8>, vals: seq<V>, n: nat, p: nat)
    requires Handled(flags, |vals|) && n <= p
    ensures Known(flags, vals, n, p) == []
    decreases 7 * |flags| - p
  {
    if p < 7 * |flags| {
      NoneKnown(flags, vals, n, p + 1);
    }
  }

  lemma ReadStep<S(!new), V(!new)>(flags: seq<bv8>, p: nat, t: seq<byte>, readers: seq<Reader<S, V>>, st: S,
                                   v: V, st': S, k: nat)
    requires p < 7 * |flags| && Flag(flags, p) && p < |readers| && readers[p](st, t) == Some((v, st', k)) && k <= |t|
    ensures ReadBody(flags, p, t, readers, st) == Before((p, v), ReadBody(flags, p + 1, t[k..], readers, st'))
  {
    hide Flag, Before;
  }

  lemma BodyStep(flags: seq<bv8>, writes: seq<seq<byte>>, p: nat, rest: seq<byte>)
    requires Handled(flags, |writes|) && p < 7 * |flags|
    ensures Flag(flags, p) ==> p < |writes|
    ensures var after := Body(flags, writes, p + 1) + rest;
            Body(flags, writes, p) + rest == if Flag(flags, p) then writes[p] + after else after
  {
    hide Flag;
  }

  lemma KnownStep<V>(flags: seq<bv8>, vals: seq<V>, n: nat, p: nat)
    requires Handled(flags, |vals|) && p < 7 * |flags|
    ensures Known(flags, vals, n, p) ==
            if Flag(flags, p) && p < n then [(p, vals[p])] + Known(flags, vals, n, p + 1)
            else Known(flags, vals, n, p + 1)
    ensures p >= n ==> Known(flags, vals, n, p) == []
  {
    if p >= n {
      NoneKnown(flags, vals, n, p);
    }
  }

  lemma {:induction false} BodyBack<S(!new), V(!new)>(
    flags: seq<bv8>, writes: seq<seq<byte>>, vals: seq<V>, readers: seq<Reader<S, V>>, states: seq<S>,
    p: nat, rest: seq<byte>)
    requires Undoes(flags, writes, vals, readers, states) && Handled(flags, |vals|)
    ensures ReadBody(flags, p, Body(flags, writes, p) + rest, readers, StateAt(states, p)) ==
            Some((Known(flags, vals, |readers|, p), StateAt(states, if p < |readers| then |readers| else p)))
    decreases 7 * |flags| - p
  {
    hide Flag, Body, ReadBody, Known;
    if p < 7 * |flags| {
      var t := Body(flags, writes, p) + rest;
      BodyBack(flags, writes, vals, readers, states, p + 1, rest);
      BodyStep(flags, writes, p, rest);
      KnownStep(flags, vals, |readers|, p);
      if !Flag(flags, p) {
        ReadUnset(flags, p, t, readers, StateAt(states, p));
      } else if p >= |readers| {
        ReadEnd(flags, p, t, readers, StateAt(states, p));
      } else {
        assert t[|writes[p]|..] == Body(flags, writes, p + 1) + rest;
        ReadStep(flags, p, t, readers, states[p], vals[p], states[p + 1], |writes[p]|);
      }
    } else {
      NoMore(flags, vals, |readers|, p, Body(flags, writes, p) + rest, readers, StateAt(states, p));
      StatesEnd(flags, writes, vals, readers, states, p);
    }
  }

  lemma NoMore<S(!new), V(!new)>(flags: seq<bv8>, vals: seq<V>, n: nat, p: nat, t: seq<byte>,
                                 readers: seq<Reader<S, V>>, st: S)
    requires p >= 7 * |flags| && Handled(flags, |vals|)
    ensures Known(flags, vals, n, p) == [] && ReadBody(flags, p, t, readers, st) == Some(([], st))
  {
  }

  // The state does not change where no flag can be.
  lemma {:induction false} StatesEnd<S(!new), V(!new)>(flags: seq<bv8>, writes: seq<seq<byte>>, vals: seq<V>,
                                                       readers: seq<Reader<S, V>>, states: seq<S>, p: nat)
    requires Undoes(flags, writes, vals, readers, states) && p >= 7 * |flags|
    ensures StateAt(states, p) == StateAt(states, if p < |readers| then |readers| else p)
    decreases |readers| - p
  {
    if p < |readers| {
      StatesEnd(flags, writes, vals, readers, states, p + 1);
      assert !Flag(flags, p);
    }
  }

  lemma ReadUnset<S(!new), V(!new)>(flags: seq<bv8>, p: nat, t: seq<byte>, readers: seq<Reader<S, V>>, st: S)
    requires p < 7 * |flags| && !Flag(flags, p)
    ensures ReadBody(flags, p, t, readers, st) == ReadBody(flags, p + 1, t, readers, st)
  {
    hide Flag;
  }

  lemma ReadEnd<S(!new), V(!new)>(flags: seq<bv8>, p: nat, t: seq<byte>, readers: seq<Reader<S, V>>, st: S)
    requires p < 7 * |flags| && Flag(flags, p) && p >= |readers|
    ensures ReadBody(flags, p, t, readers, st) == Some(([], st))
  {
    hide Flag;
  }

  lemma {:induction false} FlagsBack(flags: seq<bv8>, rest: seq<byte>)
    requires Folded(flags, |flags|)
    ensures FlagsLen(FlagBytes(flags) + rest) == |flags|
  {
    hide IsLinked;
    var t := FlagBytes(flags) + rest;
    AsByte(flags[0]);
    if |flags| > 1 {
      assert t[1..] == FlagBytes(flags[1..]) + rest;
      FlagsBack(flags[1..], rest);
    }
  }

  lemma FlagsSame(flags: seq<bv8>)
    ensures BytesFlags(FlagBytes(flags)) == flags
  {
    forall i | 0 <= i < |flags| ensures BytesFlags(FlagBytes(flags))[i] == flags[i] {
      AsByte(flags[i]);
    }
  }

  /** For any set of parameters and any handlers whose read undoes their write, a
      reader gets every parameter that it has a handler for, and ends where the
      block ends, even if it knows fewer parameters than were written. */
  lemma ParamsBack<S(!new), V(!new)>(flags: seq<bv8>, writes: seq<seq<byte>>, vals: seq<V>, readers: seq<Reader<S, V>>,
                                     states: seq<S>, rest: seq<byte>)
    requires Undoes(flags, writes, vals, readers, states) && Folded(flags, |flags|) && Handled(flags, |vals|)
    requires |Body(flags, writes, 0)| <= 65535
    ensures ReadParams(Block(flags, writes) + rest, readers, states[0]) ==
            Some((Known(flags, vals, |readers|, 0), StateAt(states, |readers|), |Block(flags, writes)|))
  {
    hide *;
    Lengths(flags, writes, vals, readers, states);
    BodyBack(flags, writes, vals, readers, states, 0, rest);
    FirstByte(flags);
    var t := Block(flags, writes) + rest;
    if flags[0] == 0 {
      NoFlags(flags, vals, |readers|);
      NothingSet(flags, writes, vals, readers, states, rest);
      ReadZero(t, readers, states[0]);
    } else {
      BlockCuts(flags, writes, rest);
      FlagsSame(flags);
      ReadSet(t, readers, states[0], |flags|, Known(flags, vals, |readers|, 0), StateAt(states, |readers|));
    }
  }

  lemma Lengths<S(!new), V(!new)>(flags: seq<bv8>, writes: seq<seq<byte>>, vals: seq<V>, readers: seq<Reader<S, V>>,
                                  states: seq<S>)
    requires Undoes(flags, writes, vals, readers, states)
    ensures |writes| == |vals| && |states| == |vals| + 1 && StateAt(states, 0) == states[0]
  {
  }

  lemma ReadZero<S(!new), V(!new)>(t: seq<byte>, readers: seq<Reader<S, V>>, st: S)
    requires t != [] && t[0] == 0
    ensures ReadParams(t, readers, st) == Some(([], st, 1))
  {
  }

  lemma ReadSet<S(!new), V(!new)>(t: seq<byte>, readers: seq<Reader<S, V>>, st: S, n: nat, vals: seq<(nat, V)>, st': S)
    requires |t| >= n + 2 && t[0] != 0 && FlagsLen(t) == n
    requires ReadBody(BytesFlags(t[..n]), 0, t[n + 2..], readers, st) == Some((vals, st'))
    ensures ReadParams(t, readers, st) == Some((vals, st', n + 2 + Ntohs(t[n..])))
  {
    hide ReadBody, FlagsLen;
  }

  lemma FirstByte(flags: seq<bv8>)
    requires Folded(flags, |flags|)
    ensures flags != [] && (FlagBytes(flags)[0] == 0 <==> flags[0] == 0)
    ensures flags[0] == 0 ==> |flags| == 1
  {
    AsByte(flags[0]);
    LinkBit(flags[0], 0);
  }

  // A block without flags is one zero byte, and the state stays.
  lemma NothingSet<S(!new), V(!new)>(flags: seq<bv8>, writes: seq<seq<byte>>, vals: seq<V>, readers: seq<Reader<S, V>>,
                                     states: seq<S>, rest: seq<byte>)
    requires Undoes(flags, writes, vals, readers, states) && Handled(flags, |vals|)
    requires |flags| == 1 && flags[0] == 0 && |Body(flags, writes, 0)| <= 65535
    ensures Block(flags, writes) == [0] && (Block(flags, writes) + rest)[0] == 0
    ensures StateAt(states, |readers|) == StateAt(states, 0)
  {
    hide Body;
    AsByte(flags[0]);
    assert FlagBytes(flags) + [] == [0];
    forall p: nat ensures !Flag(flags, p) {
      if p < 7 {
        LinkBit(flags[0], p);
      }
    }
    hide Flag;
    SameState(flags, writes, vals, readers, states, |readers|);
  }

  lemma {:induction false} SameState<S(!new), V(!new)>(flags: seq<bv8>, writes: seq<seq<byte>>, vals: seq<V>,
                                                       readers: seq<Reader<S, V>>, states: seq<S>, p: nat)
    requires Undoes(flags, writes, vals, readers, states) && forall q: nat :: !Flag(flags, q)
    ensures StateAt(states, p) == StateAt(states, 0)
  {
    hide Flag;
    if p > 0 {
      SameState(flags, writes, vals, readers, states, p - 1);
    }
  }

  // Where a reader finds the flags, the length and the parameters.
  lemma BlockCuts(flags: seq<bv8>, writes: seq<seq<byte>>, rest: seq<byte>)
    requires Folded(flags, |flags|) && Handled(flags, |writes|) && |Body(flags, writes, 0)| <= 65535 && flags[0] != 0
    ensures var t, n, body := Block(flags, writes) + rest, |flags|, Body(flags, writes, 0);
            && |t| >= n + 2 && t[0] == FlagBytes(flags)[0] && FlagsLen(t) == n && t[..n] == FlagBytes(flags)
            && Ntohs(t[n..]) == |body| && t[n + 2..] == body + rest && |Block(flags, writes)| == n + 2 + |body|
  {
    hide Body, IsLinked, Handled;
    var t, n, body := Block(flags, writes) + rest, |flags|, Body(flags, writes, 0);
    assert t == FlagBytes(flags) + (Htons(|body|) + (body + rest));
    FlagsBack(flags, Htons(|body|) + (body + rest));
    assert t[n..] == Htons(|body|) + (body + rest);
    NtohsHtons(|body|, body + rest);
  }

  lemma NoFlags<V>(flags: seq<bv8>, vals: seq<V>, n: nat)
    requires |flags| == 1 && flags[0] == 0 && Handled(flags, |vals|)
    ensures Known(flags, vals, n, 0) == []
  {
    forall p: nat | p < 7 ensures !Flag(flags, p) {
      LinkBit(flags[0], p);
    }
    hide Flag;
    NoneFlagged(flags, vals, n, 0);
  }

  lemma {:induction false} NoneFlagged<V>(flags: seq<bv8>, vals: seq<V>, n: nat, p: nat)
    requires Handled(flags, |vals|) && forall q: nat :: q < 7 * |flags| ==> !Flag(flags, q)
    ensures Known(flags, vals, n, p) == []
    decreases 7 * |flags| - p
  {
    if p < 7 * |flags| {
      NoneFlagged(flags, vals, n, p + 1);
    }
  }

  // ---------- What a block looks like ----------

  function Picked(writes: seq<seq<byte>>, present: seq<nat>): (chunks: seq<seq<byte>>)
    requires forall i :: 0 <= i < |present| ==> present[i] < |writes|
    ensures |chunks| == |present|
  {
    seq(|present|, i requires 0 <= i < |present| => writes[present[i]])
  }

  predicate Increasing(present: seq<nat>) {
    forall i, j :: 0 <= i < j < |present| ==> present[i] < present[j]
  }

  /** The parameters that are present stand one after the other, by their numbers. */
  lemma {:induction false} BodyInOrder(flags: seq<bv8>, writes: seq<seq<byte>>, p: nat, present: seq<nat>)
    requires Handled(flags, |writes|) && Increasing(present)
    requires forall q: nat :: q in present <==> p <= q < 7 * |flags| && Flag(flags, q)
    ensures forall i :: 0 <= i < |present| ==> present[i] < |writes|
    ensures Body(flags, writes, p) == Concat(Picked(writes, present))
    decreases 7 * |flags| - p
  {
    hide Flag, Concat;
    ConcatNone<byte>();
    if p >= 7 * |flags| {
      if present != [] {
        var q := OneOf(present);
        assert false;
      }
    } else if !Flag(flags, p) {
      BodyInOrder(flags, writes, p + 1, present);
    } else {
      FirstIsLeast(present, p);
      BodyInOrder(flags, writes, p + 1, present[1..]);
      assert Picked(writes, present) == [writes[p]] + Picked(writes, present[1..]);
      ConcatFirst(Picked(writes, present));
    }
  }

  lemma OneOf(present: seq<nat>) returns (q: nat)
    requires present != []
    ensures q in present
  {
    q := present[0];
  }

  lemma FirstIsLeast(present: seq<nat>, p: nat)
    requires Increasing(present) && p in present && forall q :: q in present ==> p <= q
    ensures present[0] == p && Increasing(present[1..])
    ensures forall q :: q in present[1..] <==> q in present && q != p
  {
    var i :| 0 <= i < |present| && present[i] == p;
    assert present[0] in present;
    assert present == [present[0]] + present[1..];
  }

  lemma ConcatFirst(chunks: seq<seq<byte>>)
    requires chunks != []
    ensures Concat(chunks) == chunks[0] + Concat(chunks[1..])
  {
  }

  // Where the flags, the length and the parameters are in a block.
  lemma BlockParts(flags: seq<bv8>, writes: seq<seq<byte>>)
    requires Folded(flags, |flags|) && Handled(flags, |writes|) && |Body(flags, writes, 0)| <= 65535
    ensures var b, n := Block(flags, writes), |flags|;
            && |b| >= n && b[..n] == FlagBytes(flags)
            && (b[0] == 0 ==> b == [0])
            && (b[0] != 0 ==> |b| >= n + 2 && 256 * b[n] as int + b[n + 1] as int == |b| - n - 2 &&
                              b[n + 2..] == Body(flags, writes, 0))
  {
    hide Body, Handled;
    FirstByte(flags);
    var length := Htons(|Body(flags, writes, 0)|);
    assert 256 * length[0] as int + length[1] as int == |Body(flags, writes, 0)|;
  }

  lemma FlagOctets(flags: seq<bv8>, p: nat)
    ensures Flag(flags, p) <==> p / 7 < |flags| && FlagBytes(flags)[p / 7] as int / Pow2(p % 7) % 2 == 1
    ensures forall i :: 0 <= i < |flags| ==> (FlagBytes(flags)[i] >= 128 <==> IsLinked(flags[i]))
  {
    hide IsLinked, Linked;
    FlagNumber(flags, p);
    forall i | 0 <= i < |flags| ensures FlagBytes(flags)[i] >= 128 <==> IsLinked(flags[i]) {
      LinkNumber(flags[i]);
    }
  }

  /** The octets of a block: bit p % 7 of octet p / 7 is set just for the
      parameters of the set, bit 7 in all octets of the flags but the last; if
      any is set a length in network order follows, and then their bytes. */
  lemma BlockOctets(ids: seq<nat>, flags: seq<bv8>, writes: seq<seq<byte>>, p: nat)
    requires Folded(flags, |flags|) && Handled(flags, |writes|) && |Body(flags, writes, 0)| <= 65535
    requires forall q: nat :: Flag(flags, q) <==> q + 1 in ids
    ensures var b, n := Block(flags, writes), |flags|;
            && |b| >= n
            && (p + 1 in ids <==> p / 7 < n && b[p / 7] as int / Pow2(p % 7) % 2 == 1)
            && (forall i :: 0 <= i < n ==> (b[i] >= 128 <==> i < n - 1))
            && (b[0] == 0 ==> b == [0])
            && (b[0] != 0 ==> |b| >= n + 2 && 256 * b[n] as int + b[n + 1] as int == |b| - n - 2 &&
                              b[n + 2..] == Body(flags, writes, 0))
  {
    hide Flag, Body, IsLinked, Block, Handled;
    BlockParts(flags, writes);
    var b, n := Block(flags, writes), |flags|;
    assert forall i :: 0 <= i < n ==> b[i] == b[..n][i];
    FlagOctets(flags, p);
    assert Flag(flags, p) <==> p + 1 in ids;
  }

  // ---------- From the set of parameters to what is read ----------

  // Exactly the parameters of a set that come before n, in order.
  ghost predicate Exactly<V(!new)>(r: seq<(nat, V)>, ids: seq<nat>, vals: seq<V>, n: nat) {
    && (forall i, j :: 0 <= i < j < |r| ==> r[i].0 < r[j].0)
    && (forall p: nat, v: V :: (p, v) in r <==> p + 1 in ids && p < n && p < |vals| && v == vals[p])
  }

  lemma {:induction false} KnownIs<V(!new)>(flags: seq<bv8>, vals: seq<V>, n: nat, p: nat)
    requires Handled(flags, |vals|)
    ensures var r := Known(flags, vals, n, p);
            && (forall i, j :: 0 <= i < j < |r| ==> r[i].0 < r[j].0)
            && (forall q: nat, v: V :: (q, v) in r <==> p <= q < 7 * |flags| && Flag(flags, q) && q < n && v == vals[q])
    decreases 7 * |flags| - p
  {
    hide Flag;
    if p < 7 * |flags| {
      KnownIs(flags, vals, n, p + 1);
      var tail := Known(flags, vals, n, p + 1);
      forall i | 0 <= i < |tail| ensures tail[i].0 > p {
        assert (tail[i].0, tail[i].1) in tail;
      }
    }
  }

  /** Setting the flag of each parameter of a set, folding the flags, writing and
      reading gives exactly these parameters, as far as the reader has handlers,
      in the order of their numbers. */
  lemma SetsBack<S(!new), V(!new)>(ids: seq<nat>, flags: seq<bv8>, writes: seq<seq<byte>>, vals: seq<V>,
                                   readers: seq<Reader<S, V>>, states: seq<S>, rest: seq<byte>)
    requires Folded(flags, |flags|) && (forall p: nat :: Flag(flags, p) <==> p + 1 in ids)
    requires (forall id :: id in ids ==> id <= |vals|) && Undoes(flags, writes, vals, readers, states)
    ensures Handled(flags, |vals|)
    ensures |Body(flags, writes, 0)| <= 65535 ==>
              var r := ReadParams(Block(flags, writes) + rest, readers, states[0]);
              r.Some? && r.value.2 == |Block(flags, writes)| && Exactly(r.value.0, ids, vals, |readers|)
  {
    Lengths(flags, writes, vals, readers, states);
    hide Body, ReadParams, Undoes;
    forall p: nat | p < 7 * |flags| && Flag(flags, p) ensures p < |vals| {
      assert p + 1 in ids;
    }
    if |Body(flags, writes, 0)| <= 65535 {
      ParamsBack(flags, writes, vals, readers, states, rest);
      KnownIs(flags, vals, |readers|, 0);
      hide Known, Handled;
      forall p: nat, v: V
        ensures (p, v) in Known(flags, vals, |readers|, 0) <==>
                p + 1 in ids && p < |readers| && p < |vals| && v == vals[p]
      {
        assert Flag(flags, p) <==> p + 1 in ids;
      }
    }
  }
}
