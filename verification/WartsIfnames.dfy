/** The interface name dictionary of scamper_file_warts.c: the first 254 names
    get numbers from 1 on; a name is written in full behind its number, or behind
    a zero if it has none, and a name that comes again as its number alone. */
module WartsIfnames {
  import opened Wrappers
  import opened NetBytes
  import opened WartsDict

  // A C string, without the zero at its end.
  type Name = seq<byte>

  const TABLE_MAX := 254

  predicate IsName(n: Name) {
    forall i :: 0 <= i < |n| ==> n[i] != 0
  }

  predicate AllNames(s: seq<Name>) {
    forall n :: n in s ==> IsName(n)
  }

  predicate IsOrder(order: seq<Name>) {
    Distinct(order) && |order| <= TABLE_MAX
  }

  /** The names that have numbers, after those of s have been sized. */
  function Tabled(s: seq<Name>): (r: seq<Name>)
    ensures IsOrder(r)
  {
    var r := FirstOf(s);
    if |r| <= TABLE_MAX then r else r[..TABLE_MAX]
  }

  // How a name is written after some others.
  function One(order: seq<Name>, done: seq<Name>, n: Name): seq<byte>
    requires IsOrder(order)
  {
    if n in order then
      var id: byte := Place(order, n) + 1;
      if n in done then [id] else [id] + n + [0]
    else [0] + n + [0]
  }

  function Written(order: seq<Name>, done: seq<Name>, s: seq<Name>): seq<byte>
    requires IsOrder(order)
    decreases |s|
  {
    if s == [] then [] else One(order, done, s[0]) + Written(order, done + [s[0]], s[1..])
  }

  /** Where the zero at the end of a string is. */
  function Terminator(buf: seq<byte>): (r: Option<nat>)
    ensures r.Some? ==> r.value < |buf| && buf[r.value] == 0
    ensures r.Some? ==> forall i :: 0 <= i < r.value ==> buf[i] != 0
  {
    if buf == [] then None
    else if buf[0] == 0 then Some(0)
    else
      var r := Terminator(buf[1..]);
      if r.None? then None else Some(r.value + 1)
  }

  /** extract_ifname: the name, the table after it, and the bytes it took. */
  function ReadOne(table: seq<Name>, buf: seq<byte>): Option<(Name, seq<Name>, nat)> {
    if buf == [] then None
    else
      var id := buf[0];
      if id > 0 && id as int - 1 < |table| then Some((table[id - 1], table, 1))
      else if id > 0 && id as int - 1 != |table| then None
      else
        var o := Terminator(buf[1..]);
        if o.None? then None
        else
          var n := buf[1..1 + o.value];
          Some((n, if id == 0 then table else table + [n], o.value + 2))
  }

  // Reads k names: what they are, and the bytes left over.
  function ReadAll(table: seq<Name>, buf: seq<byte>, k: nat): Option<(seq<Name>, seq<byte>)>
    decreases k
  {
    if k == 0 then Some(([], buf))
    else
      var one := ReadOne(table, buf);
      if one.None? || one.value.2 > |buf| then None
      else
        var rest := ReadAll(one.value.1, buf[one.value.2..], k - 1);
        if rest.None? then None else Some(([one.value.0] + rest.value.0, rest.value.1))
  }

  lemma {:induction false} TerminatorOf(n: Name, rest: seq<byte>)
    requires IsName(n)
    ensures Terminator(n + [0] + rest) == Some(|n|)
    decreases |n|
  {
    var buf := n + [0] + rest;
    if n == [] {
      assert buf[0] == 0;
    } else {
      assert buf[0] == n[0] && buf[1..] == n[1..] + [0] + rest;
      TerminatorOf(n[1..], rest);
    }
  }

  lemma ReadFull(table: seq<Name>, id: byte, n: Name, rest: seq<byte>)
    requires IsName(n)
    ensures var buf, table' := [id] + n + [0] + rest, if id == 0 then table else table + [n];
            && buf[|n| + 2..] == rest
            && (id == 0 || id - 1 == |table| ==> ReadOne(table, buf) == Some((n, table', |n| + 2)))
            && (id > 0 && id - 1 < |table| ==> ReadOne(table, buf) == Some((table[id - 1], table, 1)))
            && (id > 0 && id - 1 > |table| ==> ReadOne(table, buf) == None)
  {
    hide Terminator;
    var buf := [id] + n + [0] + rest;
    assert buf[1..] == n + [0] + rest;
    TerminatorOf(n, rest);
    assert buf[1..1 + |n|] == n;
  }

  // The names that have been put into the reader's table.
  function Seen(order: seq<Name>, done: seq<Name>): seq<Name> {
    if done == [] then []
    else
      var r, n := Seen(order, done[..|done| - 1]), done[|done| - 1];
      if n in order && n !in r then r + [n] else r
  }

  lemma SeenMore(order: seq<Name>, done: seq<Name>, n: Name)
    ensures var seen := Seen(order, done);
            Seen(order, done + [n]) == if n in order && n !in seen then seen + [n] else seen
  {
    assert (done + [n])[..|done|] == done;
  }

  lemma {:induction false} SeenIs(order: seq<Name>, done: seq<Name>, n: Name)
    ensures n in Seen(order, done) <==> n in order && n in done
    decreases |done|
  {
    if done != [] {
      SeenIs(order, done[..|done| - 1], n);
      SeenIs(order, done[..|done| - 1], done[|done| - 1]);
    }
  }

  /** The names with numbers are first written in the order of their numbers. */
  predicate InOrder(order: seq<Name>, done: seq<Name>, s: seq<Name>)
    decreases |s|
  {
    s != [] ==>
      && (s[0] in order && s[0] !in done ==> Place(order, s[0]) == |Seen(order, done)|)
      && InOrder(order, done + [s[0]], s[1..])
  }

  /** That is, they have been put into the reader's table in that order. */
  lemma {:induction false} InOrderIs(order: seq<Name>, done: seq<Name>, s: seq<Name>)
    requires IsOrder(order) && Seen(order, done) <= order
    ensures InOrder(order, done, s) <==> Seen(order, done + s) <= order
    decreases |s|
  {
    hide Seen, Place, InOrder, IsOrder;
    if s == [] {
      NothingRead(order, done, []);
      assert done + s == done;
    } else {
      var n, rest := s[0], s[1..];
      assert done + s == (done + [n]) + rest;
      Step(order, done, s, []);
      NextPlace(order, done, n);
      SeenGrows(order, done + [n], rest);
      if Seen(order, done + [n]) <= order {
        InOrderIs(order, done + [n], rest);
      } else {
        PrefixFails(Seen(order, done + [n]), Seen(order, done + s), order);
      }
    }
  }

  lemma PrefixFails(a: seq<Name>, b: seq<Name>, order: seq<Name>)
    requires a <= b && !(a <= order)
    ensures !(b <= order)
  {
  }

  lemma NextPlace(order: seq<Name>, done: seq<Name>, n: Name)
    requires IsOrder(order) && Seen(order, done) <= order
    ensures Seen(order, done + [n]) <= order <==> (n in order && n !in done ==> Place(order, n) == |Seen(order, done)|)
  {
    hide Place, Seen;
    var seen := Seen(order, done);
    SeenMore(order, done, n);
    SeenIs(order, done, n);
    if n in order && n !in done && seen + [n] <= order {
      assert order[|seen|] == (seen + [n])[|seen|];
      PlaceIs(order, |seen|);
    }
  }

  lemma {:induction false} SeenGrows(order: seq<Name>, done: seq<Name>, s: seq<Name>)
    ensures Seen(order, done) <= Seen(order, done + s)
    decreases |s|
  {
    hide Seen;
    if s == [] {
      assert done + s == done;
    } else {
      SeenMore(order, done, s[0]);
      SeenGrows(order, done + [s[0]], s[1..]);
      assert done + s == (done + [s[0]]) + s[1..];
    }
  }

  // The first name is read as it was, or not at all, or as another.
  lemma ReadFirst(order: seq<Name>, done: seq<Name>, n: Name, after: seq<byte>, k: nat)
    requires IsOrder(order) && IsName(n) && k > 0 && Seen(order, done) <= order
    ensures var buf, rest := One(order, done, n) + after, ReadAll(Seen(order, done + [n]), after, k - 1);
            if n in order && n !in done ==> Place(order, n) == |Seen(order, done)| then
              Seen(order, done + [n]) <= order &&
              ReadAll(Seen(order, done), buf, k) ==
              if rest.None? then None else Some(([n] + rest.value.0, rest.value.1))
            else
              ReadAll(Seen(order, done), buf, k).Some? ==>
                |ReadAll(Seen(order, done), buf, k).value.0| > 0 && ReadAll(Seen(order, done), buf, k).value.0[0] != n
  {
    hide ReadOne, ReadAll, Place, Seen, IsName;
    var table, buf := Seen(order, done), One(order, done, n) + after;
    SeenMore(order, done, n);
    SeenIs(order, done, n);
    if n in order {
      var id: byte := Place(order, n) + 1;
      if n in done {
        NumberRead(order, table, n, after);
        ReadMore(table, buf, k, n, table, 1);
      } else {
        ReadFull(table, id, n, after);
        if id - 1 == |table| {
          ReadMore(table, buf, k, n, table + [n], |n| + 2);
        } else {
          ReadNone(table, buf, k);
        }
      }
    } else {
      ReadFull(table, 0, n, after);
      ReadMore(table, buf, k, n, table, |n| + 2);
    }
  }

  lemma NumberRead(order: seq<Name>, table: seq<Name>, n: Name, after: seq<byte>)
    requires IsOrder(order) && table <= order && n in table && n in order
    ensures var id: byte := Place(order, n) + 1;
            ReadOne(table, [id] + after) == Some((n, table, 1)) && ([id] + after)[1..] == after
  {
    hide Terminator, Place;
    var i :| 0 <= i < |table| && table[i] == n;
    assert order[i] == n;
    PlaceIs(order, i);
  }

  // Reading on after the first name.
  lemma ReadMore(table: seq<Name>, buf: seq<byte>, k: nat, n: Name, table': seq<Name>, c: nat)
    requires k > 0 && c <= |buf| && ReadOne(table, buf) == Some((n, table', c))
    ensures var rest := ReadAll(table', buf[c..], k - 1);
            ReadAll(table, buf, k) == if rest.None? then None else Some(([n] + rest.value.0, rest.value.1))
    ensures ReadAll(table, buf, k).Some? ==>
              ReadAll(table, buf, k).value.0 != [] && ReadAll(table, buf, k).value.0[0] == n
  {
    hide ReadOne;
  }

  lemma ReadNone(table: seq<Name>, buf: seq<byte>, k: nat)
    requires k > 0 && ReadOne(table, buf) == None
    ensures ReadAll(table, buf, k) == None
  {
    hide ReadOne;
  }

  lemma NothingRead(order: seq<Name>, done: seq<Name>, rest: seq<byte>)
    requires IsOrder(order)
    ensures ReadAll(Seen(order, done), Written(order, done, []) + rest, 0) == Some(([], rest))
    ensures InOrder(order, done, [])
  {
    assert [] + rest == rest;
  }

  lemma Step(order: seq<Name>, done: seq<Name>, s: seq<Name>, rest: seq<byte>)
    requires IsOrder(order) && s != []
    ensures Written(order, done, s) + rest == One(order, done, s[0]) + (Written(order, done + [s[0]], s[1..]) + rest)
    ensures InOrder(order, done, s) <==>
              (s[0] in order && s[0] !in done ==> Place(order, s[0]) == |Seen(order, done)|) &&
              InOrder(order, done + [s[0]], s[1..])
  {
    hide One, Place, Seen;
  }

  /** What was written is read back just when the names with numbers come in the
      order of their numbers. */
  lemma {:induction false} RoundTrip(order: seq<Name>, done: seq<Name>, s: seq<Name>, rest: seq<byte>)
    requires IsOrder(order) && AllNames(s) && Seen(order, done) <= order
    ensures ReadAll(Seen(order, done), Written(order, done, s) + rest, |s|) == Some((s, rest)) <==>
              InOrder(order, done, s)
    decreases |s|
  {
    hide Written, ReadAll, InOrder, One, Place, Seen, IsName, IsOrder;
    if s == [] {
      NothingRead(order, done, rest);
    } else {
      var n, tail := s[0], s[1..];
      Step(order, done, s, rest);
      ReadFirst(order, done, n, Written(order, done + [n], tail) + rest, |s|);
      if n in order && n !in done ==> Place(order, n) == |Seen(order, done)| {
        RoundTrip(order, done + [n], tail, rest);
        Cons(n, tail, s);
      }
    }
  }

  lemma Cons(n: Name, tail: seq<Name>, s: seq<Name>)
    requires s != [] && n == s[0] && tail == s[1..]
    ensures forall r: seq<Name> :: [n] + r == s <==> r == tail
  {
    forall r: seq<Name> | [n] + r == s ensures r == tail {
      assert ([n] + r)[1..] == r;
    }
  }

  // ---------- The same order in both passes ----------

  lemma TabledPrefix(done: seq<Name>, s: seq<Name>)
    ensures Tabled(done) <= Tabled(done + s)
  {
    hide FirstOf;
    FirstOfPrefix(done, s);
  }

  lemma {:induction false} SeenTabled(done: seq<Name>, s: seq<Name>)
    ensures Seen(Tabled(done + s), done) == Tabled(done)
    decreases |done|
  {
    hide FirstOf, Tabled, Place;
    if done == [] {
      TabledNone();
    } else {
      var init, n := done[..|done| - 1], done[|done| - 1];
      assert done + s == init + ([n] + s) && done == init + [n];
      SeenTabled(init, [n] + s);
      TabledMore(init, n);
      TabledPrefix(done, s);
      TabledAt(done, s, init, n);
    }
  }

  lemma TabledNone()
    ensures Tabled([]) == []
  {
  }

  lemma TabledMore(s: seq<Name>, n: Name)
    ensures Tabled(s + [n]) == if n in s || |FirstOf(s)| >= TABLE_MAX then Tabled(s) else Tabled(s) + [n]
    ensures n in Tabled(s) ==> n in s
  {
    hide FirstOf;
    FirstOfMore(s, n);
  }

  // A name is in the table of all when it is in the table of those up to it.
  lemma TabledAt(done: seq<Name>, s: seq<Name>, init: seq<Name>, n: Name)
    requires done == init + [n]
    ensures n in Tabled(done + s) <==> n in Tabled(done)
    ensures n in init && n !in Tabled(init) ==> n !in Tabled(done)
    ensures n !in init && |FirstOf(init)| >= TABLE_MAX ==> n !in Tabled(done)
  {
    hide FirstOf, Place;
    FirstOfPrefix(done, s);
    FirstOfMore(init, n);
    var f, g := FirstOf(done), FirstOf(done + s);
    var i := Place(f, n);
    assert g[i] == n;
    if n in Tabled(done + s) {
      var j :| 0 <= j < |Tabled(done + s)| && Tabled(done + s)[j] == n;
      assert g[j] == n;
    }
  }

  lemma SameOrderInOrder(s: seq<Name>)
    ensures InOrder(Tabled(s), [], s)
  {
    hide Tabled, InOrder, Seen;
    NoneSeen(Tabled(s));
    SeenTabled(s, []);
    assert s + [] == s && [] + s == s;
    InOrderIs(Tabled(s), [], s);
  }

  /** When the writing pass meets the names as the sizing pass did, they are read
      back as they were, however many there are. */
  lemma SizedThenWritten(s: seq<Name>, rest: seq<byte>)
    requires AllNames(s)
    ensures ReadAll([], Written(Tabled(s), [], s) + rest, |s|) == Some((s, rest))
  {
    hide Written, ReadAll, Tabled, InOrder;
    SameOrderInOrder(s);
    NoneSeen(Tabled(s));
    RoundTrip(Tabled(s), [], s, rest);
  }

  lemma NoneSeen(order: seq<Name>)
    ensures Seen(order, []) == []
  {
  }

  /** It does not hold for every order: two names, sized as a, b and written as
      b, a, are not read back. */
  lemma OtherOrderFails(a: Name, b: Name)
    requires IsName(a) && IsName(b) && a != b
    ensures Tabled([a, b]) == [a, b] && multiset([a, b]) == multiset([b, a])
    ensures ReadAll([], Written([a, b], [], [b, a]), 2) != Some(([b, a], []))
  {
    hide *;
    TabledTwo(a, b);
    NoneSeen([a, b]);
    Names(a, b);
    RoundTrip([a, b], [], [b, a], []);
    assert Written([a, b], [], [b, a]) + [] == Written([a, b], [], [b, a]);
    PlaceIs([a, b], 1);
    Step([a, b], [], [b, a], []);
    assert multiset([a, b]) == multiset{a, b} && multiset([b, a]) == multiset{a, b};
  }

  lemma Names(a: Name, b: Name)
    requires IsName(a) && IsName(b) && a != b
    ensures AllNames([b, a]) && IsOrder([a, b]) && Distinct([a, b])
  {
  }

  lemma TabledTwo(a: Name, b: Name)
    requires a != b
    ensures Tabled([a, b]) == [a, b]
  {
    hide FirstOf;
    FirstOfThree(a, b, b);
    FirstOfMore([a, b], b);
    assert [a, b] + [b] == [a, b, b];
  }

  // ---------- Sizes ----------

  // What a name takes after those that have been sized.
  function OneSize(done: seq<Name>, n: Name): nat {
    if n in Tabled(done) then 1 else |n| + 2
  }

  /** The total of the sizing pass. */
  function Sized(done: seq<Name>, s: seq<Name>): nat
    decreases |s|
  {
    if s == [] then 0 else OneSize(done, s[0]) + Sized(done + [s[0]], s[1..])
  }

  // What a name takes when it has been written before, if it ever has a number.
  function Again(order: seq<Name>, n: Name): nat {
    if n in order then 1 else |n| + 2
  }

  function AllAgain(order: seq<Name>, s: seq<Name>): nat {
    if s == [] then 0 else Again(order, s[0]) + AllAgain(order, s[1..])
  }

  // What the first occurrences of names with numbers take more than the others.
  ghost function Extra(s: set<Name>): nat {
    if s == {} then 0 else var n :| n in s; |n| + 1 + Extra(s - {n})
  }

  lemma {:induction false} ExtraLess(s: set<Name>, m: Name)
    requires m in s
    ensures Extra(s) == |m| + 1 + Extra(s - {m})
    decreases |s|
  {
    var n :| n in s && Extra(s) == |n| + 1 + Extra(s - {n});
    if n != m {
      ExtraLess(s - {n}, m);
      ExtraLess(s - {m}, n);
      assert s - {n} - {m} == s - {m} - {n};
    }
  }

  // The names with numbers that are new in s.
  ghost function News(order: seq<Name>, done: seq<Name>, s: seq<Name>): set<Name> {
    set n | n in s && n in order && n !in done
  }

  lemma NewsStep(order: seq<Name>, done: seq<Name>, s: seq<Name>)
    requires s != []
    ensures var n, rest := s[0], News(order, done + [s[0]], s[1..]);
            if n in order && n !in done then n in News(order, done, s) && News(order, done, s) - {n} == rest
            else News(order, done, s) == rest
  {
    assert s == [s[0]] + s[1..];
  }

  lemma {:induction false} WrittenSize(order: seq<Name>, done: seq<Name>, s: seq<Name>)
    requires IsOrder(order)
    ensures |Written(order, done, s)| == AllAgain(order, s) + Extra(News(order, done, s))
    decreases |s|
  {
    hide News, Place;
    if s == [] {
      NoNews(order, done);
    } else {
      WrittenSize(order, done + [s[0]], s[1..]);
      NewsStep(order, done, s);
      if s[0] in order && s[0] !in done {
        ExtraLess(News(order, done, s), s[0]);
      }
    }
  }

  lemma NoNews(order: seq<Name>, done: seq<Name>)
    ensures News(order, done, []) == {}
  {
  }

  // The sizing pass gives the numbers as it goes, and adds up the same.
  lemma {:induction false} SizedIs(done: seq<Name>, s: seq<Name>)
    ensures var order := Tabled(done + s);
            Sized(done, s) == AllAgain(order, s) + Extra(News(order, done, s))
    decreases |s|
  {
    hide News, Tabled;
    if s == [] {
      NoNews(Tabled(done + s), done);
    } else {
      var n := s[0];
      var order := Tabled(done + s);
      assert done + s == (done + [n]) + s[1..];
      SizedIs(done + [n], s[1..]);
      NewsStep(order, done, s);
      NumberedWhen(done, s);
      if n in order && n !in done {
        ExtraLess(News(order, done, s), n);
      }
    }
  }

  // A name has its number once it has been sized, if it ever gets one.
  lemma NumberedWhen(done: seq<Name>, s: seq<Name>)
    requires s != []
    ensures s[0] in Tabled(done) <==> s[0] in Tabled(done + s) && s[0] in done
  {
    hide Tabled;
    var n := s[0];
    TabledPrefix(done, s);
    TabledNames(done);
    if n in done && n in Tabled(done + s) {
      NumberedBefore(done, s, n);
    }
    if n in Tabled(done) {
      var i :| 0 <= i < |Tabled(done)| && Tabled(done)[i] == n;
      assert Tabled(done + s)[i] == n;
    }
  }

  lemma TabledNames(done: seq<Name>)
    ensures forall n :: n in Tabled(done) ==> n in done
  {
    hide FirstOf;
  }

  lemma NumberedBefore(done: seq<Name>, s: seq<Name>, n: Name)
    requires n in done && n in Tabled(done + s)
    ensures n in Tabled(done)
  {
    hide FirstOf, Place;
    FirstOfPrefix(done, s);
    var f, g := FirstOf(done), FirstOf(done + s);
    var i := Place(f, n);
    var j :| 0 <= j < |Tabled(done + s)| && Tabled(done + s)[j] == n;
    assert g[i] == n && g[j] == n;
  }

  lemma {:induction false} AgainAt(order: seq<Name>, s: seq<Name>, i: nat)
    requires i < |s|
    ensures AllAgain(order, s) == Again(order, s[i]) + AllAgain(order, s[..i] + s[i + 1..])
  {
    var t := s[..i] + s[i + 1..];
    if i == 0 {
      assert t == s[1..];
    } else {
      AgainAt(order, s[1..], i - 1);
      assert t[0] == s[0] && t[1..] == s[1..][..i - 1] + s[1..][i..];
    }
  }

  lemma Cancel(a: multiset<Name>, b: multiset<Name>, c: multiset<Name>)
    requires a + c == b + c
    ensures a == b
  {
    assert a == (a + c) - c && b == (b + c) - c;
  }

  lemma {:induction false} AgainPermuted(order: seq<Name>, s: seq<Name>, t: seq<Name>)
    requires multiset(s) == multiset(t)
    ensures AllAgain(order, s) == AllAgain(order, t)
    decreases |s|
  {
    hide Again;
    if s == [] {
      assert |multiset(t)| == 0;
    } else {
      assert s == [s[0]] + s[1..];
      assert s[0] in multiset(s);
      var i :| 0 <= i < |t| && t[i] == s[0];
      var u := t[..i] + t[i + 1..];
      assert t == t[..i] + [t[i]] + t[i + 1..];
      assert multiset(t) == multiset(u) + multiset{s[0]};
      assert multiset(s) == multiset(s[1..]) + multiset{s[0]};
      Cancel(multiset(u), multiset(s[1..]), multiset{s[0]});
      AgainPermuted(order, s[1..], u);
      AgainAt(order, t, i);
    }
  }

  /** Whatever the order of the writing pass, it writes as many bytes as the
      sizing pass has added up. */
  lemma SizesAgree(sized: seq<Name>, written: seq<Name>)
    requires multiset(sized) == multiset(written)
    ensures |Written(Tabled(sized), [], written)| == Sized([], sized)
  {
    hide Written, Sized, Tabled, AllAgain, Extra;
    var order := Tabled(sized);
    WrittenSize(order, [], written);
    SizedIs([], sized);
    assert [] + sized == sized;
    AgainPermuted(order, sized, written);
    assert forall n :: n in sized <==> n in multiset(sized);
    assert forall n :: n in written <==> n in multiset(written);
    assert News(order, [], sized) == News(order, [], written);
  }

  // ---------- The tables in memory ----------

  datatype Entry = Entry(id: byte, ondisk: bool)

  /** The table by name, for writing. */
  class IfnameTable {
    var tree: map<Name, Entry>
    ghost var sized: seq<Name>
    ghost var written: seq<Name>

    ghost predicate Valid()
      reads this
    {
      && |tree| == |Tabled(sized)| && (forall n :: n in tree <==> n in Tabled(sized))
      && (forall n :: n in tree ==> tree[n].id == Place(Tabled(sized), n) + 1 && (tree[n].ondisk <==> n in written))
      && (forall n :: n in written ==> n in sized)
    }

    constructor ()
      ensures Valid() && sized == [] && written == []
    {
      tree, sized, written := map[], [], [];
    }

    /** warts_ifname_size: adds to the 16-bit length what the name will take. */
    method Size(ifn: Name, len0: nat) returns (ok: bool, len: nat)
      requires Valid() && len0 <= 65535
      modifies this
      ensures Valid() && sized == old(sized) + [ifn] && written == old(written)
      ensures ok <==> len0 + OneSize(old(sized), ifn) <= 65535
      ensures len == if ok then len0 + OneSize(old(sized), ifn) else len0
    {
      hide Tabled;
      var s := 1;
      if ifn !in tree {
        s := 1 + |ifn| + 1;
      }
      Note(ifn);
      if len0 + s > 65535 {
        return false, len0;
      }
      return true, len0 + s;
    }

    // A new name gets the next number while there is one left.
    method Note(ifn: Name)
      requires Valid()
      modifies this
      ensures Valid() && sized == old(sized) + [ifn] && written == old(written)
    {
      hide FirstOf, Tabled, Place;
      NoteOrder(sized, ifn);
      if ifn !in tree && |tree| < 254 {
        tree := tree[ifn := Entry(|tree| + 1, false)];
      }
      sized := sized + [ifn];
    }

    /** insert_ifname. */
    method Insert(buf: array<byte>, off0: nat, ifn: Name) returns (off: nat)
      requires Valid() && ifn in sized && off0 + |One(Tabled(sized), written, ifn)| <= buf.Length
      modifies this, buf
      ensures Valid() && sized == old(sized) && written == old(written) + [ifn]
      ensures off == off0 + |One(Tabled(sized), old(written), ifn)| <= buf.Length
      ensures buf[..off] == old(buf[..off0]) + One(Tabled(sized), old(written), ifn)
    {
      hide FirstOf, Tabled, Place, Valid, One;
      ghost var bytes := One(Tabled(sized), written, ifn);
      OneIs(ifn);
      if ifn !in tree || !tree[ifn].ondisk {
        var id := if ifn in tree then tree[ifn].id else 0;
        assert bytes == [id] + ifn + [0];
        Put(buf, off0, [id] + ifn + [0]);
        off := off0 + |ifn| + 2;
      } else {
        Put(buf, off0, [tree[ifn].id]);
        off := off0 + 1;
      }
      Record(ifn);
    }

    lemma OneIs(ifn: Name)
      requires Valid()
      ensures One(Tabled(sized), written, ifn) ==
              if ifn in tree && tree[ifn].ondisk then [tree[ifn].id]
              else [if ifn in tree then tree[ifn].id else 0] + ifn + [0]
    {
      hide FirstOf, Tabled, Place;
    }

    // make a record to say this ifname is now recorded
    method Record(ifn: Name)
      requires Valid() && ifn in sized
      modifies this
      ensures Valid() && sized == old(sized) && written == old(written) + [ifn]
    {
      hide FirstOf, Tabled, Place;
      if ifn in tree {
        tree := tree[ifn := tree[ifn].(ondisk := true)];
      }
      written := written + [ifn];
    }
  }

  lemma NoteOrder(sized: seq<Name>, n: Name)
    ensures var t := Tabled(sized);
            Tabled(sized + [n]) == if n in t || |t| >= TABLE_MAX then t else t + [n]
    ensures forall m :: m in Tabled(sized) ==>
              m in Tabled(sized + [n]) && Place(Tabled(sized + [n]), m) == Place(Tabled(sized), m)
    ensures n !in Tabled(sized) && |Tabled(sized)| < TABLE_MAX ==> Place(Tabled(sized + [n]), n) == |Tabled(sized)|
    ensures forall m :: m in Tabled(sized) ==> m in sized
    ensures |Tabled(sized)| < TABLE_MAX && n in sized ==> n in Tabled(sized)
  {
    hide Place, FirstOf;
    FirstOfMore(sized, n);
    var t, u := Tabled(sized), Tabled(sized + [n]);
    forall m | m in t ensures m in u && Place(u, m) == Place(t, m) {
      var i := Place(t, m);
      assert u[i] == m;
      PlaceIs(u, i);
    }
    if n !in t && |t| < TABLE_MAX {
      assert u[|t|] == n;
      PlaceIs(u, |t|);
    }
  }

  /** The table by number, for reading. */
  class IfnameReader {
    var ifns: seq<Name>

    constructor ()
      ensures ifns == []
    {
      ifns := [];
    }

    /** extract_ifname: None stands for its -1. */
    method Extract(buf: seq<byte>, off0: nat, len: nat) returns (r: Option<Name>, off: nat)
      requires off0 <= len <= |buf|
      modifies this
      ensures var one := ReadOne(old(ifns), buf[off0..len]);
              if one.None? then r == None && ifns == old(ifns)
              else r == Some(one.value.0) && ifns == one.value.1 && off == off0 + one.value.2
    {
      hide Terminator;
      off := off0;
      if off >= len {
        return None, off;
      }
      var id := buf[off];
      off := off + 1;
      if id > 0 {
        if id as int - 1 < |ifns| {
          return Some(ifns[id - 1]), off;
        }
        if id as int - 1 != |ifns| {
          return None, off;
        }
      }
      assert buf[off0..len][1..] == buf[off..len];
      var o := FindZero(buf, off, len);
      if o == len {
        return None, off;
      }
      var ifn := buf[off..o];
      Slice(buf, off0, len, 1, 1 + (o - off));
      off := o + 1;
      if id != 0 {
        ifns := ifns + [ifn];
      }
      r := Some(ifn);
    }
  }

  // o stops at the first zero
  method FindZero(buf: seq<byte>, off: nat, len: nat) returns (o: nat)
    requires off <= len <= |buf|
    ensures off <= o <= len
    ensures Terminator(buf[off..len]) == if o == len then None else Some(o - off)
  {
    hide Terminator;
    o := off;
    while o < len && buf[o] != 0
      invariant off <= o <= len
      invariant Terminator(buf[off..len]) ==
                if Terminator(buf[o..len]).None? then None else Some(o - off + Terminator(buf[o..len]).value)
    {
      TerminatorAt(buf, o, len);
      o := o + 1;
    }
    TerminatorAt(buf, o, len);
  }

  lemma TerminatorAt(buf: seq<byte>, o: nat, len: nat)
    requires o <= len <= |buf|
    ensures o == len ==> Terminator(buf[o..len]) == None
    ensures o < len && buf[o] == 0 ==> Terminator(buf[o..len]) == Some(0)
    ensures o < len && buf[o] != 0 ==>
              var r := Terminator(buf[o + 1..len]);
              Terminator(buf[o..len]) == if r.None? then None else Some(r.value + 1)
  {
    if o < len {
      assert buf[o..len][1..] == buf[o + 1..len];
    }
  }
}
