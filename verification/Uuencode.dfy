/** The uuencode and uudecode loops of utils.c, on buffers and with cursors. */
module Uuencode {
  import opened Wrappers
  import opened UuCode

  method Uuencode3(out: array<byte>, p: nat, a: byte, b: byte, c: byte)
    requires p + 4 <= out.Length
    modifies out
    ensures out[..p + 4] == old(out[..p]) + Enc3(a, b, c)
  {
    hide Char6;
    ghost var e := Enc3(a, b, c);
    var t := (a >> 2) & 0x3f;
    out[p] := Char6(t);
    t := ((a << 4) | ((b >> 4) & 0xf)) & 0x3f;
    out[p + 1] := Char6(t);
    t := ((b << 2) | ((c >> 6) & 0x3)) & 0x3f;
    out[p + 2] := Char6(t);
    t := c & 0x3f;
    out[p + 3] := Char6(t);
    assert out[..p + 4] == out[..p] + [out[p], out[p + 1], out[p + 2], out[p + 3]];
  }

  method UuencodeLen(ilen: nat) returns (len: nat, complete: nat, leftover: nat)
    requires ilen != 0
    ensures len == EncLen(ilen) && complete == ilen / 45 && leftover == ilen % 45
  {
    complete := ilen / 45;
    leftover := ilen % 45;
    len := complete * 62;
    if leftover != 0 {
      len := len + leftover / 3 * 4;
      if leftover % 3 > 0 {
        len := len + 4;
      }
      len := len + 2;
    }
    len := len + 2;
  }

  // Encodes the n bytes from off on, in groups of three.
  method PutGroups(s: seq<byte>, off: nat, n: nat, out: array<byte>, p0: nat) returns (p: nat)
    requires off + n <= |s| && p0 + GroupsLen(n) <= out.Length
    modifies out
    ensures p == p0 + GroupsLen(n) && out[..p] == old(out[..p0]) + Groups(s[off..off + n])
  {
    hide Groups, Enc3;
    ghost var line, pre := s[off..off + n], out[..p0];
    p := p0;
    var i := 0;
    assert line[0..] == line;
    while i + 3 <= n
      invariant i <= n && p + GroupsLen(n - i) == p0 + GroupsLen(n)
      invariant out[..p] + Groups(line[i..]) == pre + Groups(line)
    {
      GroupsStep(line, i);
      ghost var before := out[..p];
      Uuencode3(out, p, s[off + i], s[off + i + 1], s[off + i + 2]);
      SeqAssoc(before, Enc3(line[i], line[i + 1], line[i + 2]), Groups(line[i + 3..]));
      i := i + 3;
      p := p + 4;
    }
    GroupsEnd(line, i);
    if i != n {
      Uuencode3(out, p, s[off + i], if n - i == 2 then s[off + i + 1] else 0, 0);
      p := p + 4;
    } else {
      assert out[..p] + [] == out[..p];
    }
  }

  lemma SeqAssoc(a: seq<byte>, b: seq<byte>, c: seq<byte>)
    ensures a + (b + c) == (a + b) + c
  {
  }

  // The same with the length in front and the new line behind.
  method PutLine(s: seq<byte>, off: nat, n: nat, out: array<byte>, p0: nat) returns (p: nat)
    requires 1 <= n <= LINE && off + n <= |s| && p0 + GroupsLen(n) + 2 <= out.Length
    modifies out
    ensures p == p0 + GroupsLen(n) + 2 && out[..p] == old(out[..p0]) + EncLine(s[off..off + n])
  {
    hide Groups, LenChar;
    ghost var pre, line := out[..p0], s[off..off + n];
    out[p0] := LenChar(n);
    assert out[..p0 + 1] == pre + [LenChar(n)];
    p := PutGroups(s, off, n, out, p0 + 1);
    ghost var before := out[..p];
    out[p] := NEWLINE;
    p := p + 1;
    assert out[..p] == before + [NEWLINE];
    SeqAssoc(pre + [LenChar(n)], Groups(line), [NEWLINE]);
    SeqAssoc(pre, [LenChar(n)], Groups(line) + [NEWLINE]);
    SeqAssoc([LenChar(n)], Groups(line), [NEWLINE]);
  }

  // uuencode EOF
  method PutEnd(out: array<byte>, p0: nat) returns (p: nat)
    requires p0 + 2 <= out.Length
    modifies out
    ensures p == p0 + 2 && out[..p] == old(out[..p0]) + [BACKTICK, NEWLINE]
  {
    out[p0] := BACKTICK;
    out[p0 + 1] := NEWLINE;
    p := p0 + 2;
    assert out[..p] == out[..p0] + [BACKTICK, NEWLINE];
  }

  /** What is still to be written when the first off bytes have been encoded;
      the end goes out with the last line. */
  ghost function Pending(s: seq<byte>, off: nat): seq<byte>
    requires off <= |s|
  {
    if off == |s| then [] else Enc(s[off..])
  }

  lemma EncStep(s: seq<byte>, off: nat)
    requires off < |s|
    ensures |s| - off >= LINE ==> Enc(s[off..]) == EncLine(s[off..off + LINE]) + Enc(s[off + LINE..])
    ensures |s| - off < LINE ==> Enc(s[off..]) == EncLine(s[off..|s|]) + Enc(s[|s|..])
    ensures Enc(s[|s|..]) == [BACKTICK, NEWLINE]
  {
    hide EncLine;
    var t := s[off..];
    if |t| >= LINE {
      assert t[..LINE] == s[off..off + LINE] && t[LINE..] == s[off + LINE..];
      if |t| == LINE {
        assert t[..LINE] == t && s[off + LINE..] == [];
      }
    } else {
      assert s[|s|..] == [] && s[off..|s|] == t;
    }
  }

  /** uuencode. */
  method Uuencode(s: seq<byte>) returns (out: array<byte>)
    requires s != []
    ensures fresh(out) && out[..] == Enc(s)
  {
    hide Enc, EncLine, EncLen;
    EncLength(s);
    var len, complete, leftover := UuencodeLen(|s|);
    out := new byte[len](_ => 0);
    var off, ptr, i := 0, 0, 0;
    assert s[0..] == s && out[..0] == [];
    while i < complete
      invariant i <= complete && off == 45 * i
      invariant 0 <= ptr <= len && ptr + |Enc(s[off..])| == len && out[..ptr] + Enc(s[off..]) == Enc(s)
    {
      EncStep(s, off);
      ghost var pre := out[..ptr];
      LineFits(s[off..off + 45]);
      ptr := PutLine(s, off, 45, out, ptr);
      SeqAssoc(pre, EncLine(s[off..off + 45]), Enc(s[off + 45..]));
      off := off + 45;
      i := i + 1;
    }
    if leftover != 0 {
      EncStep(s, off);
      ghost var pre := out[..ptr];
      LineFits(s[off..|s|]);
      ptr := PutLine(s, off, leftover, out, ptr);
      SeqAssoc(pre, EncLine(s[off..|s|]), Enc(s[|s|..]));
    } else {
      EncStep(s, |s| - 1);
    }
    ptr := PutEnd(out, ptr);
    assert out[..ptr] == out[..];
  }

  lemma LineFits(s: seq<byte>)
    requires |s| <= LINE
    ensures |EncLine(s)| == GroupsLen(|s|) + 2
  {
    hide Groups;
    GroupsLength(s);
  }

  // The table of the sizes of encoded lines: 2 for no bytes, and 4 more for
  // every three bytes that have begun.
  function LineBytes(n: nat): nat
    requires n <= LINE
  {
    2 + GroupsLen(n)
  }

  /** uuencode_bytes: as many lines as fit, from off on. */
  method UuencodeBytes(s: seq<byte>, off0: nat, out: array<byte>) returns (off: nat, ooff: nat)
    requires off0 < |s|
    modifies out
    ensures off0 <= off <= |s| && ooff <= out.Length
    ensures out[..ooff] + Pending(s, off) == Pending(s, off0)
    ensures out.Length >= 64 ==> off > off0
    ensures off > off0 ==> ooff > 0
  {
    hide Enc, EncLine;
    off, ooff := off0, 0;
    assert out[..0] == [];
    while true
      invariant off0 <= off < |s| && ooff <= out.Length && (off > off0 <==> ooff > 0)
      invariant out[..ooff] + Enc(s[off..]) == Enc(s[off0..])
      decreases |s| - off
    {
      var lc := if |s| - off >= 45 then 45 else |s| - off;
      var bb := LineBytes(lc);
      if off + lc == |s| {
        bb := bb + 2;
      }
      if out.Length - ooff < bb {
        return;
      }
      EncStep(s, off);
      ghost var pre := out[..ooff];
      ooff := PutLine(s, off, lc, out, ooff);
      SeqAssoc(pre, EncLine(s[off..off + lc]), Enc(s[off + lc..]));
      off := off + lc;
      if off == |s| {
        ooff := PutEnd(out, ooff);
        return;
      }
    }
  }

  /** The encoding of some bytes in pieces, for buffers of these sizes: the pieces
      make up what uuencode would write, as far as they go, and with a buffer for
      every byte they go to the end. */
  method Pieces(s: seq<byte>, sizes: seq<nat>) returns (pieces: seq<seq<byte>>)
    requires s != [] && forall n :: n in sizes ==> n >= 64
    ensures |pieces| <= |sizes| && forall i :: 0 <= i < |pieces| ==> 0 < |pieces[i]| <= sizes[i]
    ensures Concat(pieces) <= Enc(s)
    ensures |pieces| < |sizes| || |sizes| >= |s| ==> Concat(pieces) == Enc(s)
  {
    hide Enc, Concat;
    pieces := [];
    var off, k := 0, 0;
    ConcatNone<byte>();
    assert s[0..] == s;
    while k < |sizes| && off < |s|
      invariant 0 <= k <= |sizes| && |pieces| == k && k <= off <= |s|
      invariant forall i :: 0 <= i < k ==> 0 < |pieces[i]| <= sizes[i]
      invariant Concat(pieces) + Pending(s, off) == Enc(s)
    {
      assert sizes[k] in sizes;
      var out := new byte[sizes[k]](_ => 0);
      ghost var pending := Pending(s, off);
      var ooff;
      off, ooff := UuencodeBytes(s, off, out);
      ConcatJoin(pieces, [out[..ooff]]);
      ConcatOne(out[..ooff]);
      SeqAssoc(Concat(pieces), out[..ooff], Pending(s, off));
      pieces := pieces + [out[..ooff]];
      k := k + 1;
    }
    assert Concat(pieces) + [] == Concat(pieces);
  }

  lemma GroupsStep(s: seq<byte>, i: nat)
    requires i + 3 <= |s|
    ensures Groups(s[i..]) == Enc3(s[i], s[i + 1], s[i + 2]) + Groups(s[i + 3..])
  {
    hide Enc3;
    assert s[i..][3..] == s[i + 3..];
  }

  lemma GroupsEnd(s: seq<byte>, i: nat)
    requires i <= |s| < i + 3
    ensures Groups(s[i..]) == if i == |s| then [] else Enc3(s[i], if |s| - i == 2 then s[i + 1] else 0, 0)
  {
    hide Enc3;
  }
}
