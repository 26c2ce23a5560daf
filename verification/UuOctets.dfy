/** The uuencode format said in numbers, octet by octet: the four characters of a
    group are the digits, to the base 64, of its three bytes taken as one number;
    a complete line takes 62 octets, of which the first is its length and the last
    a newline; and a line without data comes last. The definitions here
    are on numbers, where those of the code are on bits. */
module UuOctets {
  import opened UuCode

  // Six bits as a character: a zero is 96, any other number that many after 32.
  function Six6(c: byte): int {
    if c as int == 96 then 0 else c as int - 32
  }

  predicate InRange(c: byte) {
    33 <= c as int <= 96
  }

  lemma SixOf(t: bv8)
    requires t < 64
    ensures InRange(Char6(t)) && Six6(Char6(t)) == t as int
  {
  }

  lemma High(a: byte)
    ensures W(a) as int == a as int / 4
  {
  }

  lemma Low(c: byte)
    ensures Z(c) as int == c as int % 64
  {
  }

  lemma Middle(a: byte, b: byte)
    ensures X(a, b) as int == a as int % 4 * 16 + b as int / 16
  {
    var x := X(a, b);
    MiddleBits(a, b);
    High4(x);
    Low4(x);
    Low2(a);
    High4(b);
  }

  lemma MiddleBits(a: byte, b: byte)
    ensures (X(a, b) >> 4) & 0xf == a & 0x3 && X(a, b) & 0xf == (b >> 4) & 0xf
  {
  }

  lemma Next(b: byte, c: byte)
    ensures Y(b, c) as int == b as int % 16 * 4 + c as int / 64
  {
    var y := Y(b, c);
    NextBits(b, c);
    High(y);
    Low2(y);
    Low4(b);
    High2(c);
  }

  lemma NextBits(b: byte, c: byte)
    ensures W(Y(b, c)) == b & 0xf && Y(b, c) & 0x3 == (c >> 6) & 0x3
  {
  }

  lemma Low2(a: byte)
    ensures (a & 0x3) as int == a as int % 4
  {
  }

  lemma Low4(a: byte)
    ensures (a & 0xf) as int == a as int % 16
  {
  }

  lemma High4(b: byte)
    ensures ((b >> 4) & 0xf) as int == b as int / 16
  {
  }

  lemma High2(c: byte)
    ensures ((c >> 6) & 0x3) as int == c as int / 64
  {
  }

  // Four characters stand for a number of 24 bits.
  function Group(s: seq<byte>): int
    requires |s| == 4
  {
    262144 * Six6(s[0]) + 4096 * Six6(s[1]) + 64 * Six6(s[2]) + Six6(s[3])
  }

  /** The characters of a group are the digits, to the base 64, of its three bytes
      taken as one number. */
  lemma GroupIs(a: byte, b: byte, c: byte)
    ensures var s := Enc3(a, b, c);
            && Group(s) == 65536 * a as int + 256 * b as int + c as int
            && InRange(s[0]) && InRange(s[1]) && InRange(s[2]) && InRange(s[3])
  {
    hide Char6, W, X, Y, Z, Six6, InRange, Group;
    Sixes(a, b, c);
    SixOf(W(a));
    SixOf(X(a, b));
    SixOf(Y(b, c));
    SixOf(Z(c));
    High(a);
    Middle(a, b);
    Next(b, c);
    Low(c);
    var i, j, k: nat := a as int, b as int, c as int;
    GroupSum(Enc3(a, b, c), i / 4, i % 4 * 16 + j / 16, j % 16 * 4 + k / 64, k % 64);
    Digits64(i, j, k);
  }

  lemma GroupSum(s: seq<byte>, w: int, x: int, y: int, z: int)
    requires |s| == 4 && Six6(s[0]) == w && Six6(s[1]) == x && Six6(s[2]) == y && Six6(s[3]) == z
    ensures Group(s) == 262144 * w + 4096 * x + 64 * y + z
  {
    hide Six6;
  }

  lemma Digits64(a: nat, b: nat, c: nat)
    ensures 262144 * (a / 4) + 4096 * (a % 4 * 16 + b / 16) + 64 * (b % 16 * 4 + c / 64) + c % 64 ==
            65536 * a + 256 * b + c
  {
  }

  // The byte at i, or the zero that a group is filled up with.
  function ByteAt(s: seq<byte>, i: nat): int {
    if i < |s| then s[i] as int else 0
  }

  // The three bytes from i on, as one number.
  function Three(s: seq<byte>, i: nat): int {
    65536 * ByteAt(s, i) + 256 * ByteAt(s, i + 1) + ByteAt(s, i + 2)
  }

  // The four characters from q on are a group that stands for a number.
  predicate GroupAt(e: seq<byte>, q: nat, v: int) {
    && q + 4 <= |e| && Group(e[q..q + 4]) == v
    && InRange(e[q]) && InRange(e[q + 1]) && InRange(e[q + 2]) && InRange(e[q + 3])
  }

  lemma GroupFurther(e: seq<byte>, from: nat, g: seq<byte>, q: nat, v: int)
    requires from <= |e| && g <= e[from..] && GroupAt(g, q, v)
    ensures GroupAt(e, from + q, v)
  {
    hide Group, InRange;
    assert e[from + q..from + q + 4] == g[q..q + 4];
    assert forall i :: 0 <= i < |g| ==> e[from + i] == e[from..][i] == g[i];
  }

  lemma FirstGroup(s: seq<byte>)
    requires s != []
    ensures GroupAt(Groups(s), 0, Three(s, 0))
  {
    hide Enc3, Group, InRange, GroupAt;
    var b, c: byte := if |s| > 1 then s[1] else 0, if |s| > 2 then s[2] else 0;
    var e := Enc3(s[0], b, c);
    OneGroup(s[0], b, c);
    assert |s| <= 3 ==> Groups(s) == e + [];
    assert Groups(s)[0..] == Groups(s) && e <= Groups(s);
    GroupFurther(Groups(s), 0, e, 0, Three(s, 0));
  }

  lemma OneGroup(a: byte, b: byte, c: byte)
    ensures GroupAt(Enc3(a, b, c), 0, 65536 * a as int + 256 * b as int + c as int)
  {
    hide Enc3, Group, InRange;
    GroupIs(a, b, c);
    assert Enc3(a, b, c)[0..4] == Enc3(a, b, c);
  }

  lemma {:induction false} GroupsAt(s: seq<byte>, i: nat)
    requires i < |s| && i % 3 == 0
    ensures GroupAt(Groups(s), i / 3 * 4, Three(s, i))
    decreases |s|
  {
    hide Enc3, GroupAt;
    if i == 0 {
      FirstGroup(s);
    } else {
      GroupsAt(s[3..], i - 3);
      assert Groups(s)[4..] == Groups(s[3..]);
      assert i / 3 * 4 == 4 + (i - 3) / 3 * 4;
      GroupFurther(Groups(s), 4, Groups(s[3..]), (i - 3) / 3 * 4, Three(s, i));
    }
  }

  function Min(a: nat, b: nat): nat {
    if a < b then a else b
  }

  // The first line, and what comes after it.
  lemma LineCut(s: seq<byte>)
    requires s != []
    ensures var n := Min(|s|, 45);
            && |Enc(s)| >= 2 + GroupsLen(n) && Enc(s)[0] as int == 32 + n && Groups(s[..n]) <= Enc(s)[1..]
            && |Groups(s[..n])| == GroupsLen(n) && Enc(s)[1 + GroupsLen(n)] as int == 10
            && Enc(s)[2 + GroupsLen(n)..] == Enc(s[n..])
  {
    hide Enc, Groups, LenChar;
    var n := Min(|s|, 45);
    assert s == s[..n] + s[n..];
    GroupsLength(s[..n]);
    LineChar(n);
    FirstLine(s[..n], s[n..]);
    Cuts(Enc(s), LenChar(n), Groups(s[..n]), Enc(s[n..]));
  }

  lemma Cuts(e: seq<byte>, c: byte, g: seq<byte>, rest: seq<byte>)
    requires e == [c] + g + [10] + rest
    ensures |e| >= |g| + 2 && e[0] == c && g <= e[1..] && e[1 + |g|] as int == 10 && e[2 + |g|..] == rest
  {
    assert e[1..] == g + ([10] + rest);
  }

  lemma FirstLine(line: seq<byte>, rest: seq<byte>)
    requires 0 < |line| <= 45 && (rest != [] ==> |line| == 45)
    ensures Enc(line + rest) == EncLine(line) + Enc(rest)
  {
    hide EncLine;
    assert (line + rest)[..|line|] == line && (line + rest)[|line|..] == rest;
    assert rest == [] ==> line + rest == line;
  }

  lemma LineChar(n: nat)
    requires n <= 45
    ensures LenChar(n) as int == 32 + n
  {
    assert (n as bv8) as int == n;
    var t := n as bv8;
    assert t <= 45;
    assert (32 + t) as int == 32 + t as int;
  }

  /** Line k of the encoding begins at octet 62 * k with its length and ends, after
      its groups, in a newline. */
  lemma {:induction false} EncLines(s: seq<byte>, k: nat)
    requires 45 * k < |s|
    ensures var e, n := Enc(s), Min(|s| - 45 * k, 45);
            && 62 * k + 2 + (n + 2) / 3 * 4 <= |e| && e[62 * k] as int == 32 + n
            && e[62 * k + 1 + (n + 2) / 3 * 4] as int == 10
    decreases k
  {
    hide Groups, Enc;
    LineCut(s);
    if k > 0 {
      EncLines(s[45..], k - 1);
      var e, rest, n, j := Enc(s), Enc(s[45..]), Min(|s| - 45 * k, 45), 62 * (k - 1);
      assert e[62..] == rest;
      assert e[62 + j] == rest[j] && e[62 + (j + 1 + (n + 2) / 3 * 4)] == rest[j + 1 + (n + 2) / 3 * 4];
    }
  }

  /** A line without data comes last. */
  lemma {:induction false} EncEnds(s: seq<byte>)
    ensures var e := Enc(s); |e| >= 2 && e[|e| - 2] as int == 96 && e[|e| - 1] as int == 10
    decreases |s|
  {
    hide Groups, Enc;
    if s == [] {
      EncNone();
    } else {
      var n := Min(|s|, 45);
      LineCut(s);
      EncEnds(s[n..]);
      LastTwo(Enc(s), 2 + GroupsLen(n), Enc(s[n..]));
    }
  }

  lemma EncNone()
    ensures Enc([]) == [96, 10]
  {
  }

  lemma LastTwo(e: seq<byte>, k: nat, rest: seq<byte>)
    requires k <= |e| && e[k..] == rest && |rest| >= 2
    ensures e[|e| - 2] == rest[|rest| - 2] && e[|e| - 1] == rest[|rest| - 1]
  {
  }

  /** The three bytes from i on are the group at their place in their line. */
  lemma {:induction false} EncGroups(s: seq<byte>, i: nat)
    requires i < |s| && i % 3 == 0
    ensures GroupAt(Enc(s), i / 45 * 62 + 1 + i % 45 / 3 * 4, Three(s, i))
    decreases i
  {
    hide Groups, Enc, GroupAt, Three;
    LineCut(s);
    if i < 45 {
      var n := Min(|s|, 45);
      GroupsAt(s[..n], i);
      SameThree(s, n, i);
      GroupFurther(Enc(s), 1, Groups(s[..n]), i / 3 * 4, Three(s, i));
      assert i / 45 == 0 && i % 45 == i;
    } else {
      EncGroups(s[45..], i - 45);
      NextLine(i);
      LaterThree(s, i);
      GroupFurther(Enc(s), 62, Enc(s[45..]), (i - 45) / 45 * 62 + 1 + (i - 45) % 45 / 3 * 4, Three(s, i));
    }
  }

  lemma SameThree(s: seq<byte>, n: nat, i: nat)
    requires n == Min(|s|, 45) && i < n && i % 3 == 0
    ensures Three(s[..n], i) == Three(s, i)
  {
  }

  lemma LaterThree(s: seq<byte>, i: nat)
    requires 45 <= i < |s|
    ensures Three(s[45..], i - 45) == Three(s, i)
  {
  }

  lemma NextLine(i: nat)
    requires i >= 45
    ensures i / 45 == (i - 45) / 45 + 1 && i % 45 == (i - 45) % 45 && (i % 3 == 0 <==> (i - 45) % 3 == 0)
  {
  }

  // ---------- Decoding ----------

  lemma SixIs(c: byte)
    requires InRange(c)
    ensures UuChar(c) && Six(c) as int == Six6(c) && Six(c) < 64
  {
  }

  lemma FirstBits(w: bv8, x: bv8)
    requires w < 64 && x < 64
    ensures W(FirstOf(w, x)) == w && FirstOf(w, x) & 0x3 == (x >> 4) & 0xf
  {
  }

  lemma SecondBits(x: bv8, y: bv8)
    requires x < 64 && y < 64
    ensures (SecondOf(x, y) >> 4) & 0xf == x & 0xf && SecondOf(x, y) & 0xf == W(y)
  {
  }

  lemma ThirdBits(y: bv8, z: bv8)
    requires y < 64 && z < 64
    ensures (ThirdOf(y, z) >> 6) & 0x3 == y & 0x3 && ThirdOf(y, z) & 0x3f == z
  {
  }

  lemma FirstNumber(w: bv8, x: bv8)
    requires w < 64 && x < 64
    ensures FirstOf(w, x) as int == 4 * w as int + x as int / 16
  {
    hide FirstOf;
    FirstBits(w, x);
    High(FirstOf(w, x));
    Low2(FirstOf(w, x));
    High4(x);
  }

  lemma SecondNumber(x: bv8, y: bv8)
    requires x < 64 && y < 64
    ensures SecondOf(x, y) as int == x as int % 16 * 16 + y as int / 4
  {
    hide SecondOf;
    SecondBits(x, y);
    High4(SecondOf(x, y));
    Low4(SecondOf(x, y));
    Low4(x);
    High(y);
  }

  lemma ThirdNumber(y: bv8, z: bv8)
    requires y < 64 && z < 64
    ensures ThirdOf(y, z) as int == y as int % 4 * 64 + z as int
  {
    hide ThirdOf;
    ThirdBits(y, z);
    High2(ThirdOf(y, z));
    Low(ThirdOf(y, z));
    Low2(y);
  }

  lemma Digits256(w: nat, x: nat, y: nat, z: nat)
    ensures 65536 * (4 * w + x / 16) + 256 * (x % 16 * 16 + y / 4) + (y % 4 * 64 + z) ==
            262144 * w + 4096 * x + 64 * y + z
  {
  }

  /** The three bytes of a group, as one number, are the number that its four
      characters stand for. */
  lemma Dec4Is(a: byte, b: byte, c: byte, d: byte)
    requires InRange(a) && InRange(b) && InRange(c) && InRange(d)
    ensures var r := Dec4(a, b, c, d);
            65536 * r[0] as int + 256 * r[1] as int + r[2] as int == Group([a, b, c, d])
  {
    hide Six, Six6, FirstOf, SecondOf, ThirdOf, InRange, Group;
    SixIs(a);
    SixIs(b);
    SixIs(c);
    SixIs(d);
    FirstNumber(Six(a), Six(b));
    SecondNumber(Six(b), Six(c));
    ThirdNumber(Six(c), Six(d));
    Digits256(Six(a) as int, Six(b) as int, Six(c) as int, Six(d) as int);
    GroupSum([a, b, c, d], Six6(a), Six6(b), Six6(c), Six6(d));
  }

  predicate Chars(g: seq<byte>) {
    forall i :: 0 <= i < |g| ==> InRange(g[i])
  }

  lemma RangeIs(c: byte)
    ensures UuChar(c) <==> InRange(c)
  {
  }

  lemma {:induction false} GroupsRead(s: seq<byte>, n: nat)
    requires |s| == (n + 2) / 3 * 4
    ensures DecGroups(s, n).Some? <==> Chars(s)
    ensures DecGroups(s, n).Some? ==> |DecGroups(s, n).value| == n
    decreases n
  {
    hide Dec4, UuChar, InRange;
    if n > 0 {
      RangeIs(s[0]);
      RangeIs(s[1]);
      RangeIs(s[2]);
      RangeIs(s[3]);
      if n > 3 {
        GroupsRead(s[4..], n - 3);
        assert s == [s[0], s[1], s[2], s[3]] + s[4..];
      } else {
        assert s == [s[0], s[1], s[2], s[3]];
      }
    }
  }

  /** What is decoded: lines of a length from 1 to 63, as many characters in range
      as that takes and a newline, ... */
  lemma LineRead(s: seq<byte>, n: nat)
    requires s != [] && InRange(s[0]) && s[0] != 96 && n == s[0] as int - 32
    ensures 1 <= n <= 63
    ensures var k := (n + 2) / 3 * 4;
            DecLines(s).Some? <==>
            |s| >= k + 2 && Chars(s[1..k + 1]) && s[k + 1] == 10 && DecLines(s[k + 2..]).Some?
  {
    hide UuChar, InRange, DecGroups, LineLen, Chars;
    RangeIs(s[0]);
    LengthIs(s[0]);
    var k := GroupsLen(n);
    if |s| >= k + 2 {
      GroupsRead(s[1..k + 1], n);
    }
  }

  /** ... up to a line without data. */
  lemma EndRead(s: seq<byte>)
    requires s == [] || !InRange(s[0]) || s[0] == 96
    ensures DecLines(s).Some? <==> |s| >= 2 && s[0] == 96 && s[1] == 10
  {
    hide UuChar, InRange, DecGroups, LineLen;
    EndInRange();
    if s != [] {
      RangeIs(s[0]);
    }
  }

  lemma EndInRange()
    ensures UuChar(96) && InRange(96)
  {
  }

  lemma LengthIs(c: byte)
    requires UuChar(c) && c != BACKTICK
    ensures LineLen(c) == c as int - 32 && 33 <= c as int < 96
  {
  }
}
