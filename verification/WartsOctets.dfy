/** The entries of the two warts dictionaries in octets. */
module WartsOctets {
  import opened Wrappers
  import opened NetBytes
  import opened WartsDict
  import Addrs = WartsAddrs
  import Names = WartsIfnames

  // ---------- Order of first occurrences ----------

  lemma {:induction false} PlaceFirst<T>(s: seq<T>, a: T)
    requires a in s
    ensures forall k :: 0 <= k < Place(s, a) ==> s[k] != a
  {
    if s[0] != a {
      PlaceFirst(s[1..], a);
      forall k | 0 <= k < Place(s, a) ensures s[k] != a {
        if k > 0 {
          assert s[1..][k - 1] == s[k];
        }
      }
    }
  }

  lemma PlaceIsFirst<T>(s: seq<T>, i: nat)
    requires i < |s| && forall k :: 0 <= k < i ==> s[k] != s[i]
    ensures Place(s, s[i]) == i
  {
    PlaceFirst(s, s[i]);
  }

  lemma PlaceMore<T>(s: seq<T>, b: T, a: T)
    requires a in s
    ensures Place(s + [b], a) == Place(s, a)
  {
    PlaceFirst(s, a);
    assert (s + [b])[Place(s, a)] == a;
    PlaceIsFirst(s + [b], Place(s, a));
  }

  /** The numbers go by where the elements first occur. */
  lemma {:induction false} FirstOfOrdered<T(!new)>(s: seq<T>, i: nat, j: nat)
    requires i < j < |FirstOf(s)|
    ensures FirstOf(s)[i] in s && FirstOf(s)[j] in s
    ensures Place(s, FirstOf(s)[i]) < Place(s, FirstOf(s)[j])
    decreases |s|
  {
    hide Place, FirstOf;
    assert FirstOf(s)[i] in FirstOf(s) && FirstOf(s)[j] in FirstOf(s);
    if s == [] {
      FirstOfNone<T>();
    } else {
      var init, b := s[..|s| - 1], s[|s| - 1];
      var r := FirstOf(init);
      assert s == init + [b];
      FirstOfMore(init, b);
      assert r[i] in r;
      PlaceMore(init, b, r[i]);
      if j < |r| {
        assert r[j] in r;
        FirstOfOrdered(init, i, j);
        PlaceMore(init, b, r[j]);
      } else {
        assert FirstOf(s)[j] == b && s[|s| - 1] == b;
        PlaceIsFirst(s, |s| - 1);
      }
    }
  }

  // ---------- Addresses ----------

  // The bytes of an address of each type, or -1 for no type.
  function KindSize(kind: byte): int {
    if kind == 1 then 4 else if kind == 2 then 16 else if kind == 3 then 6 else if kind == 4 then 8 else -1
  }

  lemma AddrSizes(a: Addrs.Addr)
    ensures Addrs.IsAddr(a) <==> |a.bytes| == KindSize(a.kind)
  {
  }

  /** An address that comes first is its length, its type and its bytes; one that
      comes again is a zero and its number in four bytes, the first the most
      significant. */
  lemma AddrOctets(order: seq<Addrs.Addr>, done: seq<Addrs.Addr>, a: Addrs.Addr)
    requires Addrs.IsAddr(a) && a in order && |order| < 0x1_0000_0000
    ensures var s := Addrs.One(order, done, a);
            if a in done then
              && |s| == 5 && s[0] == 0
              && 16777216 * s[1] as int + 65536 * s[2] as int + 256 * s[3] as int + s[4] as int == Place(order, a)
            else
              |s| == 2 + KindSize(a.kind) && s[0] as int == KindSize(a.kind) && s[1] == a.kind && s[2..] == a.bytes
  {
    if a in done {
      HtonlIs(Place(order, a));
    }
  }

  lemma HtonlIs(v: u32)
    ensures var s := Htonl(v);
            16777216 * s[0] as int + 65536 * s[1] as int + 256 * s[2] as int + s[3] as int == v
  {
    assert v == 0x100 * (v / 0x100) + v % 0x100;
    assert v / 0x100 == 0x100 * (v / 0x100 / 0x100) + v / 0x100 % 0x100;
  }

  /** An address in full is read just from a type with its bytes behind it; it
      takes as many bytes as the first says, all of which are the address if the
      type has that length. */
  lemma AddrRead(table: seq<Addrs.Addr>, buf: seq<byte>)
    requires |buf| > 0 && buf[0] != 0
    ensures var r := Addrs.ReadOne(table, buf);
            && (r.Some? <==> |buf| > 1 && KindSize(buf[1]) > 0 && |buf| >= 2 + KindSize(buf[1]) &&
                             |buf| >= 2 + buf[0] as int)
            && (r.Some? ==>
                  var (a, table', k) := r.value;
                  && k == 2 + buf[0] as int && table' == table + [a] && a.kind == buf[1]
                  && a.bytes == buf[2..2 + KindSize(buf[1])]
                  && (buf[0] as int == KindSize(buf[1]) ==> a.bytes == buf[2..k]))
  {
  }

  // ---------- Interface names ----------

  /** The first 254 names get numbers, by where they first occur. */
  lemma Numbered(s: seq<Names.Name>)
    ensures Names.Tabled(s) <= FirstOf(s)
    ensures |Names.Tabled(s)| == if |FirstOf(s)| < 254 then |FirstOf(s)| else 254
  {
  }

  /** A name that has a number is that number from 1 on, and the first time a
      string that ends in a zero; any other is a zero and such a string. */
  lemma NameOctets(order: seq<Names.Name>, done: seq<Names.Name>, n: Names.Name)
    requires Names.IsOrder(order)
    ensures var s := Names.One(order, done, n);
            && |s| > 0 && s[0] as int == (if n in order then 1 + Place(order, n) else 0)
            && s[1..] == if n in order && n in done then [] else n + [0]
  {
    hide Place;
    var s := Names.One(order, done, n);
    if n in order && n in done {
      assert |s| == 1;
    } else {
      assert s == [s[0]] + (n + [0]);
    }
  }
}
