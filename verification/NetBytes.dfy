/** Bytes, and numbers in network byte order (utils.c). */
module NetBytes {

  type byte = x: int | 0 <= x < 256
  type u32 = x: int | 0 <= x < 0x1_0000_0000

  function Htonl(v: u32): (s: seq<byte>)
    ensures |s| == 4
  {
    [v / 0x100 / 0x100 / 0x100, v / 0x100 / 0x100 % 0x100, v / 0x100 % 0x100, v % 0x100]
  }

  function Ntohl(s: seq<byte>): u32
    requires |s| >= 4
  {
    (((s[0] as int) * 0x100 + s[1]) * 0x100 + s[2]) * 0x100 + s[3]
  }

  lemma NtohlHtonl(v: u32, rest: seq<byte>)
    ensures Ntohl(Htonl(v) + rest) == v
  {
  }

  function Htons(v: nat): (s: seq<byte>)
    requires v <= 65535
    ensures |s| == 2
  {
    [v / 0x100, v % 0x100]
  }

  function Ntohs(s: seq<byte>): (v: nat)
    requires |s| >= 2
    ensures v <= 65535
  {
    (s[0] as int) * 0x100 + s[1]
  }

  lemma NtohsHtons(v: nat, rest: seq<byte>)
    requires v <= 65535
    ensures Ntohs(Htons(v) + rest) == v
  {
  }

  lemma Slice(s: seq<byte>, a: nat, b: nat, c: nat, d: nat)
    requires a <= b <= |s| && c <= d && a + d <= b
    ensures s[a..b][c..d] == s[a + c..a + d]
  {
    var t, u := s[a..b][c..d], s[a + c..a + d];
    assert |t| == |u| && forall i :: 0 <= i < |t| ==> t[i] == u[i];
  }

  // memcpy into the buffer
  method Put(buf: array<byte>, off: nat, s: seq<byte>)
    requires off + |s| <= buf.Length
    modifies buf
    ensures buf[..off + |s|] == old(buf[..off]) + s
  {
    forall i | 0 <= i < |s| {
      buf[off + i] := s[i];
    }
  }
}
