/** uudecode of utils.c: a first pass over the lines to find the size, and a
    second that decodes them. A read past the end of the input counts as a
    character that is out of range. */
module Uudecode {
  import opened Wrappers
  import opened UuCode

  /** The first pass: the number of bytes that the lines announce. */
  function Scan(s: seq<byte>): Option<nat>
    decreases |s|
  {
    if s == [] || !UuChar(s[0]) then None
    else if s[0] == BACKTICK then if |s| >= 2 && s[1] == NEWLINE then Some(0) else None
    else
      var n := LineLen(s[0]);
      var k := GroupsLen(n);
      if |s| < k + 2 || s[k + 1] != NEWLINE then None
      else
        var rest := Scan(s[k + 2..]);
        if rest.None? then None else Some(n + rest.value)
  }

  lemma {:induction false} DecGroupsSize(s: seq<byte>, n: nat)
    requires |s| >= GroupsLen(n)
    ensures DecGroups(s, n).Some? ==> |DecGroups(s, n).value| == n
    decreases n
  {
    if n > 3 {
      DecGroupsSize(s[4..], n - 3);
    }
  }

  /** What is decoded has the size that the first pass finds. */
  lemma {:induction false} ScanSize(s: seq<byte>)
    ensures DecLines(s).Some? ==> Scan(s) == Some(|DecLines(s).value|)
    decreases |s|
  {
    hide LineLen, DecGroups;
    if s != [] && UuChar(s[0]) && s[0] != BACKTICK {
      var n := LineLen(s[0]);
      var k := GroupsLen(n);
      if |s| >= k + 2 && s[k + 1] == NEWLINE {
        DecGroupsSize(s[1..k + 1], n);
        ScanSize(s[k + 2..]);
      }
    }
  }

  // The bytes decoded so far in front of what is still to be decoded.
  function Behind(pre: seq<byte>, rest: Option<seq<byte>>): Option<seq<byte>> {
    if rest.None? then None else Some(pre + rest.value)
  }

  function Join(line: Option<seq<byte>>, rest: Option<seq<byte>>): Option<seq<byte>> {
    if line.None? || rest.None? then None else Some(line.value + rest.value)
  }

  /** uudecode_4: true stands for its 0. It has c bytes to fill. */
  method Uudecode4(out: array<byte>, j: nat, s: seq<byte>, i: nat, c: nat, ghost n: nat) returns (ok: bool)
    requires i + 4 <= |s| && n <= 3 && n <= c && (c > 0 ==> n > 0) && j + c <= out.Length
    modifies out
    ensures ok <==> c > 0 && UuChar(s[i]) && UuChar(s[i + 1]) && UuChar(s[i + 2]) && UuChar(s[i + 3])
    ensures out[..j] == old(out[..j])
    ensures ok ==> out[..j + n] == old(out[..j]) + Dec4(s[i], s[i + 1], s[i + 2], s[i + 3])[..n]
  {
    hide First, Second, Third, UuChar;
    ghost var pre := out[..j];
    if c == 0 {
      return false;
    }
    if !UuChar(s[i]) {
      return false;
    }
    if !UuChar(s[i + 1]) {
      return false;
    }
    out[j] := First(s[i], s[i + 1]);
    if !UuChar(s[i + 2]) {
      return false;
    }
    if c > 1 {
      out[j + 1] := Second(s[i + 1], s[i + 2]);
    }
    if !UuChar(s[i + 3]) {
      return false;
    }
    if c > 2 {
      out[j + 2] := Third(s[i + 2], s[i + 3]);
    }
    ok := true;
    ghost var d := Dec4(s[i], s[i + 1], s[i + 2], s[i + 3]);
    assert out[j] == d[0] && (c > 1 ==> out[j + 1] == d[1]) && (c > 2 ==> out[j + 2] == d[2]);
    hide Dec4;
    assert n == 1 || n == 2 || n == 3;
    assert out[..j] == pre;
    assert out[..j + n] == pre + d[..n];
  }

  lemma ScanNone(s: seq<byte>, i: nat)
    requires i <= |s| && (i == |s| || !UuChar(s[i]))
    ensures Scan(s[i..]) == None
  {
    hide UuChar;
  }

  lemma ScanEnd(s: seq<byte>, i: nat)
    requires i < |s| && s[i] == BACKTICK
    ensures Scan(s[i..]) == if |s| - i >= 2 && s[i + 1] == NEWLINE then Some(0) else None
  {
    assert UuChar(BACKTICK);
    hide UuChar;
  }

  lemma ScanLine(s: seq<byte>, i: nat)
    requires i < |s| && UuChar(s[i]) && s[i] != BACKTICK
    ensures var n := LineLen(s[i]);
            var k := GroupsLen(n);
            if |s| - i < k + 2 || s[i + k + 1] != NEWLINE then Scan(s[i..]) == None
            else
              var rest := Scan(s[i + k + 2..]);
              Scan(s[i..]) == if rest.None? then None else Some(n + rest.value)
  {
    hide LineLen, GroupsLen, UuChar;
    var t, k := s[i..], GroupsLen(LineLen(s[i]));
    if |s| - i >= k + 2 {
      assert t[k + 2..] == s[i + k + 2..] && t[k + 1] == s[i + k + 1];
    }
  }

  lemma ScanAt(s: seq<byte>, i: nat)
    requires i <= |s|
    ensures i == |s| || !UuChar(s[i]) ==> Scan(s[i..]) == None
    ensures i < |s| && s[i] == BACKTICK ==>
              Scan(s[i..]) == if |s| - i >= 2 && s[i + 1] == NEWLINE then Some(0) else None
    ensures i < |s| && UuChar(s[i]) && s[i] != BACKTICK ==>
              var n := LineLen(s[i]);
              var k := GroupsLen(n);
              if |s| - i < k + 2 || s[i + k + 1] != NEWLINE then Scan(s[i..]) == None
              else
                var rest := Scan(s[i + k + 2..]);
                Scan(s[i..]) == if rest.None? then None else Some(n + rest.value)
  {
    hide Scan, LineLen, GroupsLen, UuChar;
    if i == |s| || !UuChar(s[i]) {
      ScanNone(s, i);
    }
    if i < |s| && s[i] == BACKTICK {
      ScanEnd(s, i);
    } else if i < |s| && UuChar(s[i]) {
      ScanLine(s, i);
    }
  }

  lemma DecAt(s: seq<byte>, i: nat)
    requires i < |s| && UuChar(s[i]) && s[i] != BACKTICK
    ensures var n := LineLen(s[i]);
            var k := GroupsLen(n);
            |s| - i >= k + 2 && s[i + k + 1] == NEWLINE ==>
              DecLines(s[i..]) == Join(DecGroups(s[i + 1..i + 1 + k], n), DecLines(s[i + k + 2..]))
  {
    hide LineLen, GroupsLen, UuChar, DecGroups;
    var k, t := GroupsLen(LineLen(s[i])), s[i..];
    if |s| - i >= k + 2 {
      assert t[1..k + 1] == s[i + 1..i + 1 + k] && t[k + 2..] == s[i + k + 2..] && t[k + 1] == s[i + k + 1];
    }
  }

  // The first pass of uudecode.
  method Measure(s: seq<byte>) returns (x: Option<nat>)
    ensures x == Scan(s)
  {
    hide LineLen, UuChar, Scan;
    var i, n := 0, 0;
    assert s[0..] == s;
    while true
      invariant 0 <= i <= |s| && 0 <= n
      invariant Scan(s) == if Scan(s[i..]).None? then None else Some(n + Scan(s[i..]).value)
      decreases |s| - i
    {
      ScanAt(s, i);
      if i == |s| || !UuChar(s[i]) {
        return None;
      }
      if s[i] == BACKTICK {
        break;
      }
      var j := LineLen(s[i]);
      var k := Characters(j);
      if |s| - (i + 1) < k + 1 || s[i + 1 + k] != NEWLINE {
        return None;
      }
      i := i + 1 + k + 1;
      n := n + j;
    }
    if |s| - i < 2 || s[i + 1] != NEWLINE {
      return None;
    }
    x := Some(n);
  }

  // number of ascii bytes required
  method Characters(j: nat) returns (k: nat)
    ensures k == GroupsLen(j)
  {
    k := j + j / 3;
    if k % 4 != 0 {
      k := k / 4;
      k := k + 1;
      k := k * 4;
    }
    CharactersIs(j);
  }

  lemma CharactersIs(j: nat)
    ensures var k := j + j / 3; GroupsLen(j) == if k % 4 != 0 then (k / 4 + 1) * 4 else k
  {
    var q, r := j / 3, j % 3;
    assert j == 3 * q + r;
    assert j + j / 3 == 4 * q + r;
  }

  // ---------- The second pass ----------

  // The lines that are still to be decoded, from i on, give what is missing.
  ghost predicate AtLine(s: seq<byte>, i: nat, pre: seq<byte>, left: nat) {
    i <= |s| && Scan(s[i..]) == Some(left) && Behind(pre, DecLines(s[i..])) == DecLines(s)
  }

  // In a line, at a group, with k bytes of the line to come; the line ends at e.
  ghost predicate InLine(s: seq<byte>, i: nat, k: nat, e: nat, pre: seq<byte>, left: nat) {
    && 1 <= k && i + GroupsLen(k) == e < |s| && s[e] == NEWLINE && k <= left
    && Scan(s[e + 1..]) == Some(left - k)
    && Behind(pre, Join(DecGroups(s[i..e], k), DecLines(s[e + 1..]))) == DecLines(s)
  }

  lemma EnterLine(s: seq<byte>, i: nat, pre: seq<byte>, left: nat)
    requires AtLine(s, i, pre, left) && left > 0
    ensures i < |s| && UuChar(s[i]) && s[i] != BACKTICK
    ensures InLine(s, i + 1, LineLen(s[i]), i + 1 + GroupsLen(LineLen(s[i])), pre, left)
  {
    hide LineLen, GroupsLen, DecGroups, Scan, DecLines, UuChar;
    ScanAt(s, i);
    DecAt(s, i);
  }

  lemma NextGroup(s: seq<byte>, i: nat, k: nat, e: nat, pre: seq<byte>, left: nat)
    requires InLine(s, i, k, e, pre, left)
    ensures i + 4 <= e
    ensures var ok := UuChar(s[i]) && UuChar(s[i + 1]) && UuChar(s[i + 2]) && UuChar(s[i + 3]);
            var g := Dec4(s[i], s[i + 1], s[i + 2], s[i + 3]);
            && (!ok ==> DecLines(s) == None)
            && (ok && k > 3 ==> InLine(s, i + 4, k - 3, e, pre + g, left - 3))
            && (ok && k <= 3 ==> i + 4 == e && AtLine(s, e + 1, pre + g[..k], left - k))
  {
    hide UuChar, Dec4, DecLines, Scan;
    var t, g := s[i..e], Dec4(s[i], s[i + 1], s[i + 2], s[i + 3]);
    assert t[4..] == s[i + 4..e];
    var rest := DecLines(s[e + 1..]);
    if k > 3 {
      Nested(pre, g, DecGroups(s[i + 4..e], k - 3), rest);
    } else if rest.Some? {
      assert pre + (g[..k] + rest.value) == (pre + g[..k]) + rest.value;
    }
  }

  lemma Nested(pre: seq<byte>, g: seq<byte>, line: Option<seq<byte>>, rest: Option<seq<byte>>)
    ensures Behind(pre, Join(if line.None? then None else Some(g + line.value), rest)) ==
            Behind(pre + g, Join(line, rest))
  {
    if line.Some? && rest.Some? {
      assert pre + ((g + line.value) + rest.value) == (pre + g) + (line.value + rest.value);
    }
  }

  /** uudecode: null stands for its NULL. */
  method Uudecode(s: seq<byte>) returns (r: array?<byte>)
    ensures Dec(s) == if r == null then None else Some(r[..])
    ensures r != null ==> fresh(r)
  {
    hide *;
    r := null;
    StartLines(s);
    if |s| == 0 || s[0] == BACKTICK {
      return;
    }
    var m := Measure(s);
    ScanSize(s);
    if m.None? {
      return;
    }
    var x := m.value;
    var out := new byte[x](_ => 0);
    var i, j := 0, 0;
    assert out[..0] == [];
    while true
      invariant 0 <= i <= |s| && 0 <= j < x && out.Length == x && AtLine(s, i, out[..j], x - j)
      decreases |s| - i
    {
      EnterLine(s, i, out[..j], x - j);
      var ok;
      ok, i, j := DecodeLine(s, i, out, j);
      if !ok {
        return;
      }
      if j == x {
        break;
      }
    }
    EndLines(s, i, out[..j]);
    assert out[..j] == out[..];
    r := out;
  }

  lemma StartLines(s: seq<byte>)
    ensures Dec(s) == if |s| == 0 || s[0] == BACKTICK then None else DecLines(s)
    ensures Scan(s).Some? ==> AtLine(s, 0, [], Scan(s).value)
    ensures |s| > 0 && s[0] != BACKTICK && Scan(s).Some? ==> Scan(s).value > 0
  {
    hide DecLines, LineLen;
    assert s[0..] == s;
    if DecLines(s).Some? {
      assert [] + DecLines(s).value == DecLines(s).value;
    }
  }

  lemma EndLines(s: seq<byte>, i: nat, pre: seq<byte>)
    requires AtLine(s, i, pre, 0)
    ensures DecLines(s) == Some(pre)
  {
    hide LineLen;
    ScanAt(s, i);
    assert pre + [] == pre;
  }

  // Decodes a line; false when a character is out of range.
  method DecodeLine(s: seq<byte>, i0: nat, out: array<byte>, j0: nat) returns (ok: bool, i: nat, j: nat)
    requires j0 < out.Length && AtLine(s, i0, out[..j0], out.Length - j0)
    requires i0 < |s| && UuChar(s[i0])
    modifies out
    ensures !ok ==> DecLines(s) == None
    ensures ok ==> i0 < i <= |s| && j0 < j <= out.Length && AtLine(s, i, out[..j], out.Length - j)
  {
    hide *;
    ok, i, j := true, i0, j0;
    EnterLine(s, i, out[..j], out.Length - j);
    var k := LineLen(s[i]);
    ghost var e := i + 1 + GroupsLen(k);
    i := i + 1;
    while true
      invariant i0 < i <= |s| && j0 <= j < out.Length
      invariant InLine(s, i, k, e, out[..j], out.Length - j)
      decreases |s| - i
    {
      NextGroup(s, i, k, e, out[..j], out.Length - j);
      InLineSize(s, i, k, e, out[..j], out.Length - j);
      if |s| - i < 4 {
        ok := false;
        return;
      }
      ok := Uudecode4(out, j, s, i, out.Length - j, if k > 3 then 3 else k);
      if !ok {
        return;
      }
      i := i + 4;
      if k > 3 {
        j := j + 3;
        k := k - 3;
        DecWhole(s[i - 4], s[i - 3], s[i - 2], s[i - 1]);
      } else {
        j := j + k;
        break;
      }
    }
    if s[i] != NEWLINE {
      ok := false;
      return;
    }
    i := i + 1;
  }

  lemma InLineSize(s: seq<byte>, i: nat, k: nat, e: nat, pre: seq<byte>, left: nat)
    requires InLine(s, i, k, e, pre, left)
    ensures 1 <= k <= left && e < |s| && s[e] == NEWLINE
  {
  }

  lemma DecWhole(a: byte, b: byte, c: byte, d: byte)
    ensures Dec4(a, b, c, d)[..3] == Dec4(a, b, c, d)
  {
  }
}
