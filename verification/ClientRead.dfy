/** A client that reads what client_write_do sends, in the manner of
    libscamperctrl.c: lines, and the bytes that a line "DATA" announces. */
module ClientRead {
  import opened Wrappers
  import opened UuCode
  import opened ClientWrite

  // The length of the first line, and of the number at the start.
  function LineLen(s: seq<byte>): (n: nat)
    ensures n <= |s| && (n < |s| ==> s[n] == 10) && forall i :: 0 <= i < n ==> s[i] != 10
  {
    if s == [] || s[0] == 10 then 0 else 1 + LineLen(s[1..])
  }

  function DigitLen(s: seq<byte>): (n: nat)
    ensures n <= |s| && (n < |s| ==> !(48 <= s[n] < 58)) && forall i :: 0 <= i < n ==> 48 <= s[i] < 58
  {
    if s == [] || !(48 <= s[0] < 58) then 0 else 1 + DigitLen(s[1..])
  }

  predicate IsData(line: seq<byte>) {
    |line| >= 5 && line[0] == 68 && line[1] == 65 && line[2] == 84 && line[3] == 65 && line[4] == 32
  }

  /** What a line "DATA 12" or "DATA 12 id-3" announces, given the rest of it. */
  function Announced(rest: seq<byte>): Option<(nat, Option<nat>)> {
    var d := DigitLen(rest);
    if d == 0 then None
    else if d == |rest| then Some((Number(rest), None))
    else
      var id := rest[d..];
      if |id| > 4 && id[0] == 32 && id[1] == 105 && id[2] == 100 && id[3] == 45 && DigitLen(id[4..]) == |id| - 4 then
        Some((Number(rest[..d]), Some(Number(id[4..]))))
      else
        None
  }

  /** The object behind its line, decoded if the format is warts. */
  function ReadObject(body: seq<byte>, id: Option<nat>, warts: bool): Option<Item> {
    if !warts then Some(Object(Obj(body, id)))
    else if Dec(body).None? then None
    else Some(Object(Obj(Dec(body).value, id)))
  }

  /** The first line or object of a stream, and how many bytes it takes. */
  function ReadItem(s: seq<byte>, warts: bool): (r: Option<(Item, nat)>)
    ensures r.Some? ==> 0 < r.value.1 <= |s|
  {
    var e := LineLen(s);
    if e == |s| then None
    else if !IsData(s[..e]) then Some((Text(s[..e + 1]), e + 1))
    else
      var a := Announced(s[5..e]);
      if a.None? || e + 1 + a.value.0 > |s| then None
      else
        var item := ReadObject(s[e + 1..e + 1 + a.value.0], a.value.1, warts);
        if item.None? then None else Some((item.value, e + 1 + a.value.0))
  }

  function ReadItems(s: seq<byte>, warts: bool): Option<seq<Item>> {
    if s == [] then Some([])
    else
      var one := ReadItem(s, warts);
      if one.None? then None
      else
        var more := ReadItems(s[one.value.1..], warts);
        if more.None? then None else Some([one.value.0] + more.value)
  }

  /** A text is one line that announces nothing, and in warts format no object
      is empty, as uuencode_len asserts. */
  predicate Plain(item: Item, warts: bool) {
    match item
    case Text(str) => str != [] && LineLen(str) == |str| - 1 && !IsData(str)
    case Object(o) => warts ==> o.data != []
  }

  // ---------- The line is read back ----------

  lemma LineLenIs(s: seq<byte>, n: nat)
    requires n < |s| && s[n] == 10 && forall i :: 0 <= i < n ==> s[i] != 10
    ensures LineLen(s) == n
  {
  }

  lemma DigitLenIs(s: seq<byte>, n: nat)
    requires n <= |s| && (n < |s| ==> !(48 <= s[n] < 58)) && forall i :: 0 <= i < n ==> 48 <= s[i] < 58
    ensures DigitLen(s) == n
  {
  }

  lemma DigitOf(d: nat)
    requires d < 10
    ensures 48 <= 48 + (d as bv8) < 58
  {
    assert (d as bv8) as int == d;
    var w := d as bv8;
    assert w < 10;
  }

  lemma {:induction false} DigitsAre(n: nat)
    ensures |Digits(n)| > 0 && forall i :: 0 <= i < |Digits(n)| ==> 48 <= Digits(n)[i] < 58
    decreases n
  {
    DigitOf(n % 10);
    if n >= 10 {
      DigitsAre(n / 10);
    }
  }

  function IdPart(id: Option<nat>): seq<byte> {
    if id.Some? then [32, 105, 100, 45] + Digits(id.value) else []
  }

  lemma HeaderParts(x: nat, id: Option<nat>)
    ensures Header(x, id) == [68, 65, 84, 65, 32] + Digits(x) + IdPart(id) + [10]
  {
  }

  lemma DataLine(rest: seq<byte>)
    requires forall i :: 0 <= i < |rest| ==> rest[i] != 10
    ensures var line := [68, 65, 84, 65, 32] + rest;
            IsData(line) && line[5..] == rest && forall i :: 0 <= i < |line| ==> line[i] != 10
  {
  }

  lemma NoNewline(x: nat, id: Option<nat>)
    ensures forall i :: 0 <= i < |Digits(x) + IdPart(id)| ==> (Digits(x) + IdPart(id))[i] != 10
  {
    hide Digits;
    DigitsAre(x);
    if id.Some? {
      DigitsAre(id.value);
    }
  }

  lemma AnnouncedIs(x: nat, id: Option<nat>)
    ensures Announced(Digits(x) + IdPart(id)) == Some((x, id))
  {
    hide Digits, Announced, Number;
    DigitsAre(x);
    DigitsSay(x);
    if id.None? {
      AnnouncedAlone(Digits(x));
      assert Digits(x) + IdPart(id) == Digits(x);
    } else {
      DigitsAre(id.value);
      DigitsSay(id.value);
      AnnouncedId(Digits(x), [32, 105, 100, 45], Digits(id.value));
    }
  }

  lemma AnnouncedAlone(number: seq<byte>)
    requires number != [] && forall i :: 0 <= i < |number| ==> 48 <= number[i] < 58
    ensures Announced(number) == Some((Number(number), None))
  {
    hide Number, DigitLen;
    DigitLenIs(number, |number|);
  }

  lemma AnnouncedId(number: seq<byte>, id: seq<byte>, value: seq<byte>)
    requires id == [32, 105, 100, 45]
    requires number != [] && forall i :: 0 <= i < |number| ==> 48 <= number[i] < 58
    requires value != [] && forall i :: 0 <= i < |value| ==> 48 <= value[i] < 58
    ensures Announced(number + (id + value)) == Some((Number(number), Some(Number(value))))
  {
    hide Number, DigitLen;
    var rest := number + (id + value);
    DigitLenIs(rest, |number|);
    assert rest[..|number|] == number && rest[|number|..] == id + value && (id + value)[4..] == value;
    DigitLenIs(value, |value|);
  }

  /** An object of either format, whatever follows it, is read back with its
      number, and the reader goes on with what follows. */
  lemma ObjectBack(o: Obj, warts: bool, rest: seq<byte>)
    requires warts ==> o.data != []
    ensures ReadItem(Bytes(Object(o), warts) + rest, warts) ==
            Some((Object(o), |Bytes(Object(o), warts)|))
  {
    hide Digits, IdPart, Announced, Header, Enc, Dec, IsData, LineLen;
    var body := Body(o, warts);
    var said := Digits(|body|) + IdPart(o.id);
    HeaderParts(|body|, o.id);
    NoNewline(|body|, o.id);
    AnnouncedIs(|body|, o.id);
    DataLine(said);
    var line := [68, 65, 84, 65, 32] + said;
    assert Bytes(Object(o), warts) == line + [10] + body;
    if warts {
      DecUndoesEnc(o.data);
    }
    BodyBehind(line, body, o.id, warts, rest);
  }

  // A line that announces the bytes behind it.
  lemma BodyBehind(line: seq<byte>, body: seq<byte>, id: Option<nat>, warts: bool, rest: seq<byte>)
    requires IsData(line) && Announced(line[5..]) == Some((|body|, id))
    requires forall i :: 0 <= i < |line| ==> line[i] != 10
    requires ReadObject(body, id, warts).Some?
    ensures ReadItem(line + [10] + body + rest, warts) ==
            Some((ReadObject(body, id, warts).value, |line| + 1 + |body|))
  {
    hide Announced, ReadObject, LineLen;
    var s, e := line + [10] + body + rest, |line|;
    LineLenIs(s, e);
    assert s[..e] == line && s[5..e] == line[5..] && s[e + 1..e + 1 + |body|] == body;
  }

  lemma TextBack(str: seq<byte>, warts: bool, rest: seq<byte>)
    requires Plain(Text(str), warts)
    ensures ReadItem(str + rest, warts) == Some((Text(str), |str|))
  {
    hide LineLen;
    var s, n := str + rest, |str| - 1;
    LineLenIs(s, n);
    assert s[..n] == str[..n] && s[..n + 1] == str;
  }

  // ---------- The stream is read back ----------

  lemma FlattenFirst(items: seq<Item>, warts: bool)
    requires items != []
    ensures Flatten(items, warts) == Bytes(items[0], warts) + Flatten(items[1..], warts)
    decreases |items|
  {
    hide Bytes;
    if |items| > 1 {
      var init := items[..|items| - 1];
      FlattenFirst(init, warts);
      assert items[1..][..|items| - 2] == init[1..];
    }
  }

  /** Everything that is sent, item after item, is read back as these items. */
  lemma {:induction false} StreamBack(items: seq<Item>, warts: bool)
    requires forall i :: 0 <= i < |items| ==> Plain(items[i], warts)
    ensures ReadItems(Flatten(items, warts), warts) == Some(items)
    decreases |items|
  {
    hide Bytes, ReadItem, Plain;
    if items != [] {
      var s, rest := Flatten(items, warts), Flatten(items[1..], warts);
      FlattenFirst(items, warts);
      ItemBack(items[0], warts, rest);
      StreamBack(items[1..], warts);
      assert s[|Bytes(items[0], warts)|..] == rest;
      assert [items[0]] + items[1..] == items;
    }
  }

  lemma ItemBack(item: Item, warts: bool, rest: seq<byte>)
    requires Plain(item, warts)
    ensures Bytes(item, warts) != []
    ensures ReadItem(Bytes(item, warts) + rest, warts) == Some((item, |Bytes(item, warts)|))
  {
    hide ReadItem, Header, LineLen;
    match item
    case Text(str) => TextBack(str, warts, rest);
    case Object(o) => ObjectBack(o, warts, rest); HeaderSome(|Body(o, warts)|, o.id);
  }

  /** What a client has been sent, with what is to come of the current object,
      it reads as the items begun so far, in order; between objects, what it has
      been sent. */
  lemma SentBack(c: Client)
    requires c.Valid() && forall i :: 0 <= i < |c.items| ==> Plain(c.items[i], c.warts)
    ensures ReadItems(c.sent + c.Rest(), c.warts) == Some(c.items)
    ensures c.sofOff == 0 ==> ReadItems(c.sent, c.warts) == Some(c.items)
  {
    hide Flatten, ReadItems, Plain;
    StreamBack(c.items, c.warts);
    assert c.sent + [] == c.sent;
  }

  // ---------- The room for a decoded object ----------

  /** What libscamperctrl allocates for an object that is announced with x bytes. */
  function Room(x: nat): nat
    requires x >= 2
  {
    (x - 2) / 62 * 45 + (x - 2) % 62 / 4 * 3
  }

  /** The room for an object in warts format is never too small, and at most two
      bytes too large. */
  lemma RoomFits(n: nat)
    requires n > 0
    ensures EncLen(n) >= 3 && n <= Room(EncLen(n)) <= n + 2
  {
    var k, r := n / 45, n % 45;
    var t := if r != 0 then r / 3 * 4 + (if r % 3 > 0 then 4 else 0) + 2 else 0;
    assert EncLen(n) - 2 == k * 62 + t && t <= 62;
    if t == 62 {
      assert (EncLen(n) - 2) / 62 == k + 1 && (EncLen(n) - 2) % 62 == 0;
    } else {
      assert (EncLen(n) - 2) / 62 == k && (EncLen(n) - 2) % 62 == t;
    }
  }
}
