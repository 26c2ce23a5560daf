/** The address dictionary of scamper_file_warts.c: an address is written in full
    the first time, and as a number after that. A first pass over the addresses
    gives them their numbers and adds up the sizes. */
module WartsAddrs {
  import opened Wrappers
  import opened NetBytes
  import opened WartsDict

  const ADDR_TYPE_MAX: byte := 4

  datatype Addr = Addr(kind: byte, bytes: seq<byte>)

  /** The size of an address of each type: IPv4, IPv6, Ethernet and FireWire. */
  function SizeOf(kind: byte): (n: byte)
    requires 1 <= kind <= ADDR_TYPE_MAX
    ensures 4 <= n <= 16
  {
    if kind == 1 then 4 else if kind == 2 then 16 else if kind == 3 then 6 else 8
  }

  predicate IsAddr(a: Addr) {
    1 <= a.kind <= ADDR_TYPE_MAX && |a.bytes| == SizeOf(a.kind)
  }

  predicate AllAddrs(s: seq<Addr>) {
    forall a :: a in s ==> IsAddr(a)
  }

  function Inline(a: Addr): seq<byte>
    requires IsAddr(a)
  {
    [SizeOf(a.kind), a.kind] + a.bytes
  }

  function Ref(id: u32): seq<byte> {
    [0] + Htonl(id)
  }

  // How an address is written after some others.
  function One(order: seq<Addr>, done: seq<Addr>, a: Addr): seq<byte>
    requires IsAddr(a) && a in order && |order| < 0x1_0000_0000
  {
    if a in done then Ref(Place(order, a)) else Inline(a)
  }

  function Written(order: seq<Addr>, done: seq<Addr>, s: seq<Addr>): seq<byte>
    requires AllAddrs(s) && (forall a :: a in s ==> a in order) && |order| < 0x1_0000_0000
    decreases |s|
  {
    if s == [] then [] else One(order, done, s[0]) + Written(order, done + [s[0]], s[1..])
  }

  /** extract_addr: the address, the table after it, and the bytes it took. */
  function ReadOne(table: seq<Addr>, buf: seq<byte>): Option<(Addr, seq<Addr>, nat)> {
    if |buf| < 1 then None
    else if buf[0] == 0 then
      if |buf| < 5 then None
      else
        var id := Ntohl(buf[1..]);
        if id >= |table| then None else Some((table[id], table, 5))
    else if |buf| < 2 || buf[1] == 0 || buf[1] > ADDR_TYPE_MAX then None
    else if |buf| < 2 + SizeOf(buf[1]) || |buf| < 2 + buf[0] as int then None
    else
      var a := Addr(buf[1], buf[2..2 + SizeOf(buf[1])]);
      Some((a, table + [a], 2 + buf[0] as int))
  }

  // Reads n addresses: what they are, and the bytes left over.
  function ReadAll(table: seq<Addr>, buf: seq<byte>, n: nat): Option<(seq<Addr>, seq<byte>)>
    decreases n
  {
    if n == 0 then Some(([], buf))
    else
      var one := ReadOne(table, buf);
      if one.None? || one.value.2 > |buf| then None
      else
        var rest := ReadAll(one.value.1, buf[one.value.2..], n - 1);
        if rest.None? then None else Some(([one.value.0] + rest.value.0, rest.value.1))
  }

  lemma ReadInline(table: seq<Addr>, a: Addr, rest: seq<byte>)
    requires IsAddr(a)
    ensures var buf := Inline(a) + rest;
            ReadOne(table, buf) == Some((a, table + [a], |Inline(a)|)) && buf[|Inline(a)|..] == rest
  {
    var buf := Inline(a) + rest;
    assert buf[2..2 + SizeOf(a.kind)] == a.bytes;
  }

  lemma ReadRef(table: seq<Addr>, id: u32, rest: seq<byte>)
    ensures var buf := Ref(id) + rest;
            ReadOne(table, buf) == (if id < |table| then Some((table[id], table, 5)) else None) &&
              |buf| == 5 + |rest| && buf[5..] == rest
  {
    var buf := Ref(id) + rest;
    assert buf[1..] == Htonl(id) + rest;
    NtohlHtonl(id, rest);
  }

  /** The numbers that the writer uses for addresses that come again are their
      places among those that it has written. */
  predicate SameNumbers(order: seq<Addr>, done: seq<Addr>, s: seq<Addr>)
    requires forall a :: a in s ==> a in order
    decreases |s|
  {
    s != [] ==>
      && (s[0] in done ==> Place(order, s[0]) == Place(FirstOf(done), s[0]))
      && SameNumbers(order, done + [s[0]], s[1..])
  }

  // The first address is read as it was, or not at all, or as another.
  lemma ReadFirst(order: seq<Addr>, done: seq<Addr>, a: Addr, after: seq<byte>, n: nat)
    requires IsAddr(a) && a in order && |order| < 0x1_0000_0000 && n > 0
    ensures var buf, rest := One(order, done, a) + after, ReadAll(FirstOf(done + [a]), after, n - 1);
            if a in done ==> Place(order, a) == Place(FirstOf(done), a) then
              ReadAll(FirstOf(done), buf, n) == if rest.None? then None else Some(([a] + rest.value.0, rest.value.1))
            else
              ReadAll(FirstOf(done), buf, n).Some? ==>
                |ReadAll(FirstOf(done), buf, n).value.0| > 0 && ReadAll(FirstOf(done), buf, n).value.0[0] != a
  {
    hide Inline, Ref, ReadOne, ReadAll, Place, FirstOf;
    var table, buf := FirstOf(done), One(order, done, a) + after;
    FirstOfMore(done, a);
    if a in done {
      var id := Place(order, a);
      ReadRef(table, id, after);
      if id < |table| {
        PlaceIs(table, id);
        ReadMore(table, buf, n, table[id], table, 5);
      } else {
        ReadNone(table, buf, n);
      }
    } else {
      ReadInline(table, a, after);
      ReadMore(table, buf, n, a, table + [a], |Inline(a)|);
    }
  }

  lemma ReadNone(table: seq<Addr>, buf: seq<byte>, n: nat)
    requires n > 0 && ReadOne(table, buf) == None
    ensures ReadAll(table, buf, n) == None
  {
    hide ReadOne;
  }

  lemma WrittenStep(order: seq<Addr>, done: seq<Addr>, s: seq<Addr>, rest: seq<byte>)
    requires AllAddrs(s) && (forall a :: a in s ==> a in order) && |order| < 0x1_0000_0000 && s != []
    ensures Written(order, done, s) + rest == One(order, done, s[0]) + (Written(order, done + [s[0]], s[1..]) + rest)
  {
    hide One;
  }

  lemma SameStep(order: seq<Addr>, done: seq<Addr>, s: seq<Addr>)
    requires forall a :: a in s ==> a in order
    ensures s == [] ==> SameNumbers(order, done, s)
    ensures s != [] ==>
              (SameNumbers(order, done, s) <==>
               (s[0] in done ==> Place(order, s[0]) == Place(FirstOf(done), s[0])) &&
                 SameNumbers(order, done + [s[0]], s[1..]))
  {
    hide Place, FirstOf;
  }

  lemma NothingRead(order: seq<Addr>, done: seq<Addr>, rest: seq<byte>)
    requires |order| < 0x1_0000_0000
    ensures ReadAll(FirstOf(done), Written(order, done, []) + rest, 0) == Some(([], rest))
  {
    assert [] + rest == rest;
  }

  /** What was written is read back just when the numbers are the same. */
  lemma {:induction false} RoundTrip(order: seq<Addr>, done: seq<Addr>, s: seq<Addr>, rest: seq<byte>)
    requires AllAddrs(s) && (forall a :: a in s ==> a in order) && |order| < 0x1_0000_0000
    ensures ReadAll(FirstOf(done), Written(order, done, s) + rest, |s|) == Some((s, rest)) <==>
              SameNumbers(order, done, s)
    decreases |s|
  {
    hide Written, ReadAll, SameNumbers, One, Place, FirstOf, IsAddr;
    SameStep(order, done, s);
    if s == [] {
      NothingRead(order, done, rest);
    } else {
      var a, tail := s[0], s[1..];
      WrittenStep(order, done, s, rest);
      ReadFirst(order, done, a, Written(order, done + [a], tail) + rest, |s|);
      RoundTrip(order, done + [a], tail, rest);
      Cons(a, tail, s);
    }
  }

  lemma Cons(a: Addr, tail: seq<Addr>, s: seq<Addr>)
    requires s != [] && a == s[0] && tail == s[1..]
    ensures forall r: seq<Addr> :: [a] + r == s <==> r == tail
  {
    forall r: seq<Addr> | [a] + r == s ensures r == tail {
      assert ([a] + r)[1..] == r;
    }
  }

  // Reading on after the first address.
  lemma ReadMore(table: seq<Addr>, buf: seq<byte>, n: nat, a: Addr, table': seq<Addr>, k: nat)
    requires n > 0 && k <= |buf| && ReadOne(table, buf) == Some((a, table', k))
    ensures var rest := ReadAll(table', buf[k..], n - 1);
            ReadAll(table, buf, n) == if rest.None? then None else Some(([a] + rest.value.0, rest.value.1))
    ensures ReadAll(table, buf, n).Some? ==>
              var s := ReadAll(table, buf, n).value.0;
              s != [] && s[0] == a && s[1..] == ReadAll(table', buf[k..], n - 1).value.0
  {
    hide ReadOne;
  }

  /** When the writing pass meets the addresses as the sizing pass did, every
      sequence is read back as it was. */
  lemma {:induction false} SameOrderSameNumbers(order: seq<Addr>, done: seq<Addr>, s: seq<Addr>)
    requires forall a :: a in s ==> a in order
    requires Distinct(order) && FirstOf(done + s) <= order
    ensures SameNumbers(order, done, s)
    decreases |s|
  {
    hide Place, FirstOf;
    if s != [] {
      assert done + s == (done + [s[0]]) + s[1..];
      SameOrderSameNumbers(order, done + [s[0]], s[1..]);
      if s[0] in done {
        FirstOfPrefix(done, s);
        var i := Place(FirstOf(done), s[0]);
        assert order[i] == FirstOf(done)[i];
        PlaceIs(order, i);
      }
    }
  }

  // The addresses that come again, here or before, have their places as numbers.
  ghost predicate RepeatedInPlace(order: seq<Addr>, done: seq<Addr>, s: seq<Addr>)
    requires forall a :: a in s ==> a in order
  {
    forall i :: 0 <= i < |s| && s[i] in done + s[..i] ==> Place(order, s[i]) == Place(FirstOf(done + s), s[i])
  }

  /** The numbers are the same just when every address that comes again was the
      same one in order for both passes. */
  lemma {:induction false} SameNumbersIs(order: seq<Addr>, done: seq<Addr>, s: seq<Addr>)
    requires forall a :: a in s ==> a in order
    ensures SameNumbers(order, done, s) <==> RepeatedInPlace(order, done, s)
    decreases |s|
  {
    hide Place, FirstOf, SameNumbers;
    SameStep(order, done, s);
    if s != [] {
      var done', tail := done + [s[0]], s[1..];
      SameNumbersIs(order, done', tail);
      assert done + s == done' + tail;
      assert s[..0] == [] && done + s[..0] == done;
      if s[0] in done {
        SamePlace(done, s, s[0]);
      }
      forall i | 0 <= i < |tail|
        ensures done' + tail[..i] == done + s[..i + 1] && tail[i] == s[i + 1]
      {
      }
      if RepeatedInPlace(order, done, s) {
        forall i | 0 <= i < |tail| && tail[i] in done' + tail[..i]
          ensures Place(order, tail[i]) == Place(FirstOf(done' + tail), tail[i])
        {
          assert s[i + 1] in done + s[..i + 1];
        }
      }
      if RepeatedInPlace(order, done', tail) {
        forall i | 0 < i < |s| && s[i] in done + s[..i]
          ensures Place(order, s[i]) == Place(FirstOf(done + s), s[i])
        {
          assert tail[i - 1] in done' + tail[..i - 1];
        }
      }
    }
  }

  lemma SizedThenWritten(s: seq<Addr>, rest: seq<byte>)
    requires AllAddrs(s) && |FirstOf(s)| < 0x1_0000_0000
    ensures ReadAll([], Written(FirstOf(s), [], s) + rest, |s|) == Some((s, rest))
  {
    hide Written, ReadAll;
    assert [] + s == s && FirstOf<Addr>([]) == [];
    SameOrderSameNumbers(FirstOf(s), [], s);
    RoundTrip(FirstOf(s), [], s, rest);
  }

  /** It does not hold for every order: two addresses, sized as a, b, b and
      written as b, a, b, are not read back. */
  lemma OtherOrderFails(a: Addr, b: Addr)
    requires IsAddr(a) && IsAddr(b) && a != b
    ensures FirstOf([a, b, b]) == [a, b] && multiset([a, b, b]) == multiset([b, a, b])
    ensures ReadAll([], Written([a, b], [], [b, a, b]), 3) != Some(([b, a, b], []))
  {
    hide *;
    var s := [b, a, b];
    FirstOfThree(a, b, b);
    FirstOfThree(b, a, b);
    FirstOfNone<Addr>();
    AreAddrs(a, b);
    assert Written([a, b], [], s) + [] == Written([a, b], [], s);
    RoundTrip([a, b], [], s, []);
    SameNumbersIs([a, b], [], s);
    OutOfPlace(a, b);
    assert multiset([a, b, b]) == multiset{a, b, b} && multiset([b, a, b]) == multiset{a, b, b};
  }

  lemma AreAddrs(a: Addr, b: Addr)
    requires IsAddr(a) && IsAddr(b)
    ensures AllAddrs([b, a, b])
  {
  }

  // The number of b is 1, and it is the first to be written.
  lemma OutOfPlace(a: Addr, b: Addr)
    requires a != b && FirstOf([b, a, b]) == [b, a]
    ensures !RepeatedInPlace([a, b], [], [b, a, b])
  {
    hide Place, FirstOf;
    var s := [b, a, b];
    PlaceIs([a, b], 1);
    PlaceIs([b, a], 0);
    assert [] + s == s && ([] + s[..2])[0] == s[2];
    assert Place([a, b], s[2]) != Place(FirstOf([] + s), s[2]);
  }

  // ---------- Sizes ----------

  function OneSize(done: seq<Addr>, a: Addr): nat {
    if a in done then 5 else 2 + |a.bytes|
  }

  /** The total of the sizing pass. */
  function Sized(done: seq<Addr>, s: seq<Addr>): nat
    decreases |s|
  {
    if s == [] then 0 else OneSize(done, s[0]) + Sized(done + [s[0]], s[1..])
  }

  // What the first occurrences take more than the others.
  ghost function Extra(s: set<Addr>): int {
    if s == {} then 0 else var a :| a in s; |a.bytes| - 3 + Extra(s - {a})
  }

  lemma {:induction false} ExtraLess(s: set<Addr>, b: Addr)
    requires b in s
    ensures Extra(s) == |b.bytes| - 3 + Extra(s - {b})
    decreases |s|
  {
    var a :| a in s && Extra(s) == |a.bytes| - 3 + Extra(s - {a});
    if a != b {
      ExtraLess(s - {a}, b);
      ExtraLess(s - {b}, a);
      assert s - {a} - {b} == s - {b} - {a};
    }
  }

  lemma {:induction false} SizedIs(done: seq<Addr>, s: seq<Addr>)
    ensures Sized(done, s) == 5 * |s| + Extra((set a | a in s) - set a | a in done)
    decreases |s|
  {
    if s == [] {
      assert (set a | a in s) == {};
    } else {
      var a := s[0];
      SizedIs(done + [a], s[1..]);
      var new', old' := (set x | x in s) - (set x | x in done), (set x | x in s[1..]) - set x | x in done + [a];
      assert s == [a] + s[1..];
      if a in done {
        assert new' == old';
      } else {
        assert new' - {a} == old';
        ExtraLess(new', a);
      }
    }
  }

  lemma {:induction false} WrittenSize(order: seq<Addr>, done: seq<Addr>, s: seq<Addr>)
    requires AllAddrs(s) && (forall a :: a in s ==> a in order) && |order| < 0x1_0000_0000
    ensures |Written(order, done, s)| == Sized(done, s)
    decreases |s|
  {
    if s != [] {
      WrittenSize(order, done + [s[0]], s[1..]);
    }
  }

  /** Whatever the order of the writing pass, it writes as many bytes as the
      sizing pass has added up. */
  lemma SizesAgree(order: seq<Addr>, sized: seq<Addr>, written: seq<Addr>)
    requires multiset(sized) == multiset(written) && AllAddrs(sized) && |order| < 0x1_0000_0000
    requires forall a :: a in sized ==> a in order
    ensures AllAddrs(written) && forall a :: a in written ==> a in order
    ensures |Written(order, [], written)| == Sized([], sized)
  {
    hide Written, Sized;
    assert forall a :: a in written <==> a in multiset(written);
    assert forall a :: a in sized <==> a in multiset(sized);
    assert |multiset(sized)| == |sized| && |multiset(written)| == |written|;
    WrittenSize(order, [], written);
    SizedIs([], sized);
    SizedIs([], written);
    assert (set a | a in sized) == set a | a in written;
  }

  // ---------- The tables in memory ----------

  datatype Entry = Entry(id: nat, ondisk: bool)

  // The table numbers the addresses that have been sized in the order in which
  // they came, and knows which have been written.
  ghost predicate TableOk(tree: map<Addr, Entry>, sized: seq<Addr>, written: seq<Addr>) {
    && |tree| == |FirstOf(sized)| && (forall a :: a in tree <==> a in sized)
    && (forall a :: a in tree ==> tree[a].id == Place(FirstOf(sized), a) && (tree[a].ondisk <==> a in written))
    && (forall a :: a in written ==> a in sized)
  }

  lemma TableNotes(tree: map<Addr, Entry>, sized: seq<Addr>, written: seq<Addr>, addr: Addr)
    requires TableOk(tree, sized, written)
    ensures addr in tree <==> addr in sized
    ensures TableOk(if addr in tree then tree else tree[addr := Entry(|tree|, false)], sized + [addr], written)
  {
    if addr in tree {
      TableKnows(tree, sized, written, addr);
    } else {
      TableGrows(tree, sized, written, addr);
    }
  }

  lemma TableKnows(tree: map<Addr, Entry>, sized: seq<Addr>, written: seq<Addr>, addr: Addr)
    requires TableOk(tree, sized, written) && addr in sized
    ensures TableOk(tree, sized + [addr], written)
  {
    hide FirstOf, Place;
    FirstOfMore(sized, addr);
  }

  lemma TableGrows(tree: map<Addr, Entry>, sized: seq<Addr>, written: seq<Addr>, addr: Addr)
    requires TableOk(tree, sized, written) && addr !in sized
    ensures TableOk(tree[addr := Entry(|tree|, false)], sized + [addr], written)
  {
    hide FirstOf, Place;
    FirstOfMore(sized, addr);
    SizeKept(sized, addr);
  }

  lemma TableWrites(tree: map<Addr, Entry>, sized: seq<Addr>, written: seq<Addr>, addr: Addr)
    requires TableOk(tree, sized, written) && addr in sized
    ensures addr in tree && addr in FirstOf(sized) && tree[addr].id == Place(FirstOf(sized), addr)
    ensures tree[addr].ondisk <==> addr in written
    ensures TableOk(tree[addr := tree[addr].(ondisk := true)], sized, written + [addr])
    ensures tree[addr].ondisk ==> TableOk(tree, sized, written + [addr])
  {
    hide FirstOf, Place;
  }

  /** The table by address, for writing. */
  class AddrTable {
    var tree: map<Addr, Entry>
    ghost var sized: seq<Addr>
    ghost var written: seq<Addr>

    ghost predicate Valid()
      reads this
    {
      TableOk(tree, sized, written)
    }

    constructor ()
      ensures Valid() && sized == [] && written == []
    {
      tree, sized, written := map[], [], [];
    }

    /** warts_addr_size: adds to the 16-bit length what the address will take. */
    method Size(addr: Addr, len0: nat) returns (ok: bool, len: nat)
      requires Valid() && IsAddr(addr) && len0 <= 65535
      modifies this
      ensures Valid() && sized == old(sized) + [addr] && written == old(written)
      ensures ok <==> len0 + OneSize(old(sized), addr) <= 65535
      ensures len == if ok then len0 + OneSize(old(sized), addr) else len0
    {
      hide TableOk;
      var s := 5;
      if addr !in tree {
        s := 2 + |addr.bytes|;
      }
      Note(addr);
      if len0 + s > 65535 {
        return false, len0;
      }
      return true, len0 + s;
    }

    // A new address gets the next number.
    method Note(addr: Addr)
      requires Valid()
      modifies this
      ensures Valid() && sized == old(sized) + [addr] && written == old(written)
      ensures addr in old(tree) <==> addr in old(sized)
    {
      hide TableOk;
      TableNotes(tree, sized, written, addr);
      if addr !in tree {
        tree := tree[addr := Entry(|tree|, false)];
      }
      sized := sized + [addr];
    }

    /** insert_addr. */
    method Insert(buf: array<byte>, off0: nat, addr: Addr) returns (off: nat)
      requires Valid() && IsAddr(addr) && addr in sized && |FirstOf(sized)| < 0x1_0000_0000
      requires off0 + OneSize(written, addr) <= buf.Length
      modifies this, buf
      ensures Valid() && sized == old(sized) && written == old(written) + [addr]
      ensures off == off0 + OneSize(old(written), addr)
      ensures buf[..off] == old(buf[..off0]) + One(FirstOf(sized), old(written), addr)
    {
      hide TableOk, FirstOf, Place, Inline, Ref, IsAddr;
      TableWrites(tree, sized, written, addr);
      var wa := tree[addr];
      if !wa.ondisk {
        off := PutInline(buf, off0, addr);
        tree := tree[addr := wa.(ondisk := true)];
      } else {
        off := PutRef(buf, off0, wa.id);
      }
      written := written + [addr];
    }
  }

  method PutInline(buf: array<byte>, off0: nat, addr: Addr) returns (off: nat)
    requires IsAddr(addr) && off0 + 2 + |addr.bytes| <= buf.Length
    modifies buf
    ensures off == off0 + 2 + |addr.bytes| && buf[..off] == old(buf[..off0]) + Inline(addr)
  {
    ghost var pre := buf[..off0];
    Put(buf, off0, [SizeOf(addr.kind), addr.kind]);
    Put(buf, off0 + 2, addr.bytes);
    off := off0 + 2 + |addr.bytes|;
    assert buf[..off] == pre + Inline(addr);
  }

  method PutRef(buf: array<byte>, off0: nat, id: u32) returns (off: nat)
    requires off0 + 5 <= buf.Length
    modifies buf
    ensures off == off0 + 5 && buf[..off] == old(buf[..off0]) + Ref(id)
  {
    ghost var pre := buf[..off0];
    Put(buf, off0, [0]);
    Put(buf, off0 + 1, Htonl(id));
    off := off0 + 5;
    assert buf[..off] == pre + Ref(id);
  }

  lemma SizeKept(sized: seq<Addr>, addr: Addr)
    ensures forall a :: a in sized ==> Place(FirstOf(sized + [addr]), a) == Place(FirstOf(sized), a)
    ensures addr !in sized ==> Place(FirstOf(sized + [addr]), addr) == |FirstOf(sized)|
  {
    hide FirstOf, Place;
    FirstOfMore(sized, addr);
    forall a | a in sized ensures Place(FirstOf(sized + [addr]), a) == Place(FirstOf(sized), a) {
      SamePlace(sized, [addr], a);
    }
    if addr !in sized {
      PlaceIs(FirstOf(sized + [addr]), |FirstOf(sized)|);
    }
  }

  /** The table by number, for reading. */
  class AddrReader {
    var addrs: seq<Addr>

    constructor ()
      ensures addrs == []
    {
      addrs := [];
    }

    /** extract_addr: None stands for its -1. */
    method Extract(buf: seq<byte>, off0: nat, len: nat) returns (r: Option<Addr>, off: nat)
      requires off0 <= len <= |buf|
      modifies this
      ensures var one := ReadOne(old(addrs), buf[off0..len]);
              if one.None? then r == None && addrs == old(addrs)
              else r == Some(one.value.0) && addrs == one.value.1 && off == off0 + one.value.2
    {
      ghost var rest := buf[off0..len];
      off := off0;
      if off >= len {
        return None, off;
      }
      var size := buf[off];
      off := off + 1;
      if size == 0 {
        if len - off < 4 {
          return None, off;
        }
        assert rest[1..][..4] == buf[off..off + 4];
        var id := Ntohl(buf[off..off + 4]);
        if id >= |addrs| {
          return None, off;
        }
        r := Some(addrs[id]);
        off := off + 4;
        return;
      }
      if len - off < 1 {
        return None, off;
      }
      var kind := buf[off];
      off := off + 1;
      if kind == 0 || kind > ADDR_TYPE_MAX {
        return None, off;
      }
      if len - off < SizeOf(kind) || len - off < size {
        return None, off;
      }
      var a := Addr(kind, buf[off..off + SizeOf(kind)]);
      Slice(buf, off0, len, 2, 2 + SizeOf(kind));
      addrs := addrs + [a];
      r := Some(a);
      off := off + size;
    }
  }
}
