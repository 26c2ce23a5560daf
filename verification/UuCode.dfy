/** The uuencode format as utils.c writes and reads it: lines of up to 45 bytes,
    each with its length in front, and a line without data at the end. */
module UuCode {
  import opened Wrappers

  type byte = bv8

  const BACKTICK: byte := 96
  const NEWLINE: byte := 10
  const LINE := 45

  // ---------- Groups of three bytes ----------

  function Char6(t: bv8): byte {
    if t != 0 then t + 32 else BACKTICK
  }

  // The four numbers of six bits in three bytes.
  function W(a: byte): bv8 {
    (a >> 2) & 0x3f
  }

  function X(a: byte, b: byte): bv8 {
    ((a << 4) | ((b >> 4) & 0xf)) & 0x3f
  }

  function Y(b: byte, c: byte): bv8 {
    ((b << 2) | ((c >> 6) & 0x3)) & 0x3f
  }

  function Z(c: byte): bv8 {
    c & 0x3f
  }

  /** uuencode_3. */
  function Enc3(a: byte, b: byte, c: byte): (s: seq<byte>)
    ensures |s| == 4
  {
    [Char6(W(a)), Char6(X(a, b)), Char6(Y(b, c)), Char6(Z(c))]
  }

  predicate UuChar(c: byte) {
    33 <= c <= BACKTICK
  }

  function Six(c: byte): bv8 {
    (c - 32) & 0x3f
  }

  // The three bytes of uudecode_4 from four numbers of six bits.
  function FirstOf(w: bv8, x: bv8): byte {
    ((w << 2) & 0xfc) | ((x >> 4) & 0x3)
  }

  function SecondOf(x: bv8, y: bv8): byte {
    ((x << 4) & 0xf0) | ((y >> 2) & 0xf)
  }

  function ThirdOf(y: bv8, z: bv8): byte {
    ((y << 6) & 0xc0) | z
  }

  /** The three bytes of uudecode_4. */
  function Dec4(a: byte, b: byte, c: byte, d: byte): (s: seq<byte>)
    ensures |s| == 3
  {
    [First(a, b), Second(b, c), Third(c, d)]
  }

  function First(a: byte, b: byte): byte {
    FirstOf(Six(a), Six(b))
  }

  function Second(b: byte, c: byte): byte {
    SecondOf(Six(b), Six(c))
  }

  function Third(c: byte, d: byte): byte {
    ThirdOf(Six(c), Six(d))
  }

  lemma Char6Back(t: bv8)
    requires t < 64
    ensures UuChar(Char6(t)) && Six(Char6(t)) == t
  {
  }

  lemma Sixes(a: byte, b: byte, c: byte)
    ensures W(a) < 64 && X(a, b) < 64 && Y(b, c) < 64 && Z(c) < 64
  {
  }

  lemma Bits(a: byte, b: byte, c: byte)
    ensures FirstOf(W(a), X(a, b)) == a && SecondOf(X(a, b), Y(b, c)) == b && ThirdOf(Y(b, c), Z(c)) == c
  {
  }

  /** A group is read back as it was, and none of its characters is out of range. */
  lemma GroupBack(a: byte, b: byte, c: byte)
    ensures var s := Enc3(a, b, c);
            UuChar(s[0]) && UuChar(s[1]) && UuChar(s[2]) && UuChar(s[3]) &&
            Dec4(s[0], s[1], s[2], s[3]) == [a, b, c]
  {
    hide Char6, Six, UuChar, W, X, Y, Z, FirstOf, SecondOf, ThirdOf;
    Sixes(a, b, c);
    Bits(a, b, c);
    Char6Back(W(a));
    Char6Back(X(a, b));
    Char6Back(Y(b, c));
    Char6Back(Z(c));
  }

  // ---------- Encoding ----------

  // The last group is filled up with zeroes.
  function Groups(s: seq<byte>): seq<byte>
    decreases |s|
  {
    if s == [] then []
    else if |s| == 1 then Enc3(s[0], 0, 0)
    else if |s| == 2 then Enc3(s[0], s[1], 0)
    else Enc3(s[0], s[1], s[2]) + Groups(s[3..])
  }

  function LenChar(n: nat): byte
    requires n <= LINE
  {
    32 + (n as bv8)
  }

  function EncLine(s: seq<byte>): seq<byte>
    requires |s| <= LINE
  {
    [LenChar(|s|)] + Groups(s) + [NEWLINE]
  }

  /** The encoding of some bytes. */
  function Enc(s: seq<byte>): (r: seq<byte>)
    decreases |s|
  {
    if s == [] then [BACKTICK, NEWLINE]
    else if |s| <= LINE then EncLine(s) + Enc([])
    else EncLine(s[..LINE]) + Enc(s[LINE..])
  }

  function GroupsLen(n: nat): nat {
    (n + 2) / 3 * 4
  }

  lemma {:induction false} GroupsLength(s: seq<byte>)
    ensures |Groups(s)| == GroupsLen(|s|)
    decreases |s|
  {
    if |s| >= 3 {
      GroupsLength(s[3..]);
    }
  }

  /** What uuencode_len computes. */
  function EncLen(n: nat): nat {
    n / 45 * 62 + (if n % 45 != 0 then n % 45 / 3 * 4 + (if n % 45 % 3 > 0 then 4 else 0) + 2 else 0) + 2
  }

  lemma EncLenStep(n: nat)
    ensures n > 45 ==> EncLen(n) == 62 + EncLen(n - 45)
    ensures 0 < n <= 45 ==> EncLen(n) == GroupsLen(n) + 4
  {
    if n > 45 {
      assert n / 45 == (n - 45) / 45 + 1 && n % 45 == (n - 45) % 45;
    } else if n < 45 {
      assert n / 45 == 0 && n % 45 == n;
    }
  }

  /** uuencode_len announces exactly the length of the encoding. */
  lemma {:induction false} EncLength(s: seq<byte>)
    ensures |Enc(s)| == EncLen(|s|)
    decreases |s|
  {
    hide EncLen, Groups;
    EncLenStep(|s|);
    if |s| > LINE {
      GroupsLength(s[..LINE]);
      EncLength(s[LINE..]);
    } else if s != [] {
      GroupsLength(s);
    } else {
      EncLenZero();
    }
  }

  lemma EncLenZero()
    ensures EncLen(0) == 2
  {
  }

  // ---------- Decoding ----------

  /** The number of bytes that a line announces. */
  function LineLen(c: byte): (n: nat)
    requires UuChar(c)
    ensures 1 <= n <= 64
  {
    (c - 32) as int
  }

  // The first n bytes of some groups of four characters.
  function DecGroups(s: seq<byte>, n: nat): Option<seq<byte>>
    requires |s| >= GroupsLen(n)
    decreases n
  {
    if n == 0 then Some([])
    else if !(UuChar(s[0]) && UuChar(s[1]) && UuChar(s[2]) && UuChar(s[3])) then None
    else
      var g := Dec4(s[0], s[1], s[2], s[3]);
      if n <= 3 then Some(g[..n])
      else
        var rest := DecGroups(s[4..], n - 3);
        if rest.None? then None else Some(g + rest.value)
  }

  /** What the lines from here to the end of the data hold. */
  function DecLines(s: seq<byte>): Option<seq<byte>>
    decreases |s|
  {
    if s == [] || !UuChar(s[0]) then None
    else if s[0] == BACKTICK then if |s| >= 2 && s[1] == NEWLINE then Some([]) else None
    else
      var n := LineLen(s[0]);
      var k := GroupsLen(n);
      if |s| < k + 2 || s[k + 1] != NEWLINE then None
      else
        var line, rest := DecGroups(s[1..k + 1], n), DecLines(s[k + 2..]);
        if line.None? || rest.None? then None else Some(line.value + rest.value)
  }

  /** What uudecode returns: it refuses an encoding of nothing. */
  function Dec(s: seq<byte>): Option<seq<byte>> {
    if s == [] || s[0] == BACKTICK then None else DecLines(s)
  }

  lemma {:induction false} GroupsBack(s: seq<byte>)
    ensures |Groups(s)| == GroupsLen(|s|) && DecGroups(Groups(s), |s|) == Some(s)
    decreases |s|
  {
    hide Enc3, Dec4, UuChar;
    GroupsLength(s);
    if |s| >= 3 {
      GroupBack(s[0], s[1], s[2]);
      GroupsBack(s[3..]);
      assert Groups(s)[4..] == Groups(s[3..]);
      assert s == [s[0], s[1], s[2]] + s[3..];
      assert s[3..] == [] ==> s == [s[0], s[1], s[2]][..3];
    } else if |s| == 2 {
      GroupBack(s[0], s[1], 0);
      assert s == [s[0], s[1], 0][..2];
    } else if |s| == 1 {
      GroupBack(s[0], 0, 0);
      assert s == [s[0], 0, 0][..1];
    }
  }

  lemma SmallByte(n: nat)
    requires 1 <= n <= LINE
    ensures 1 <= n as bv8 <= 45 && (n as bv8) as int == n
  {
  }

  lemma CharShift(w: bv8)
    requires 1 <= w <= 45
    ensures 33 <= 32 + w < 96 && (32 + w) - 32 == w
  {
  }

  lemma LenBack(n: nat)
    requires 1 <= n <= LINE
    ensures UuChar(LenChar(n)) && LenChar(n) != BACKTICK && LineLen(LenChar(n)) == n
  {
    SmallByte(n);
    CharShift(n as bv8);
  }

  lemma LineBack(s: seq<byte>, rest: seq<byte>)
    requires 1 <= |s| <= LINE && DecLines(rest).Some?
    ensures DecLines(EncLine(s) + rest) == Some(s + DecLines(rest).value)
  {
    hide LenChar, UuChar, LineLen, Groups, DecGroups, GroupsLen;
    LenBack(|s|);
    GroupsBack(s);
    var e, k := EncLine(s) + rest, GroupsLen(|s|);
    assert e[0] == LenChar(|s|);
    assert e[1..k + 1] == Groups(s);
    assert e[k + 1] == NEWLINE;
    assert e[k + 2..] == rest;
  }

  lemma {:induction false} LinesBack(s: seq<byte>)
    ensures DecLines(Enc(s)) == Some(s)
    decreases |s|
  {
    hide EncLine;
    if |s| > LINE {
      LinesBack(s[LINE..]);
      LineBack(s[..LINE], Enc(s[LINE..]));
      assert s == s[..LINE] + s[LINE..];
    } else if s != [] {
      LinesBack([]);
      LineBack(s, Enc([]));
      assert s + [] == s;
    }
  }

  /** Decoding undoes encoding. */
  lemma DecUndoesEnc(s: seq<byte>)
    requires s != []
    ensures Dec(Enc(s)) == Some(s)
  {
    hide LenChar, Groups;
    LinesBack(s);
    LenBack(if |s| <= LINE then |s| else LINE);
  }
}
