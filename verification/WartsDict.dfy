/** First occurrences: what the dictionaries of scamper_file_warts.c number. */
module WartsDict {

  predicate Distinct<T(==)>(s: seq<T>) {
    forall i, j :: 0 <= i < j < |s| ==> s[i] != s[j]
  }

  /** The elements of a sequence in the order of their first occurrences. */
  function FirstOf<T(==,!new)>(s: seq<T>): (r: seq<T>)
    ensures Distinct(r) && forall a :: a in r <==> a in s
  {
    if s == [] then []
    else
      var r := FirstOf(s[..|s| - 1]);
      if s[|s| - 1] in r then r else r + [s[|s| - 1]]
  }

  lemma FirstOfMore<T(!new)>(s: seq<T>, a: T)
    ensures FirstOf(s + [a]) == if a in s then FirstOf(s) else FirstOf(s) + [a]
  {
    assert (s + [a])[..|s|] == s;
  }

  lemma FirstOfNone<T(!new)>()
    ensures FirstOf<T>([]) == []
  {
  }

  lemma FirstOfThree<T(!new)>(a: T, b: T, c: T)
    requires a != b && c in [a, b]
    ensures FirstOf([a, b, c]) == [a, b]
  {
    hide FirstOf;
    FirstOfNone<T>();
    FirstOfMore([], a);
    FirstOfMore([a], b);
    FirstOfMore([a, b], c);
    assert [] + [a] == [a] && [a] + [b] == [a, b] && [a, b] + [c] == [a, b, c];
  }

  function Place<T(==)>(order: seq<T>, a: T): (i: nat)
    requires a in order
    ensures i < |order| && order[i] == a
  {
    if order[0] == a then 0 else 1 + Place(order[1..], a)
  }

  lemma PlaceIs<T>(order: seq<T>, i: nat)
    requires i < |order| && Distinct(order)
    ensures Place(order, order[i]) == i
  {
  }

  lemma {:induction false} FirstOfPrefix<T(!new)>(done: seq<T>, s: seq<T>)
    ensures FirstOf(done) <= FirstOf(done + s)
    decreases |s|
  {
    hide FirstOf;
    if s == [] {
      assert done + s == done;
    } else {
      FirstOfMore(done, s[0]);
      assert done + s == (done + [s[0]]) + s[1..];
      FirstOfPrefix(done + [s[0]], s[1..]);
    }
  }

  lemma SamePlace<T(!new)>(done: seq<T>, s: seq<T>, a: T)
    requires a in done
    ensures a in FirstOf(done + s) && Place(FirstOf(done + s), a) == Place(FirstOf(done), a)
  {
    hide FirstOf;
    FirstOfPrefix(done, s);
    var i := Place(FirstOf(done), a);
    assert FirstOf(done + s)[i] == FirstOf(done)[i];
    PlaceIs(FirstOf(done + s), i);
  }
}
