/** client_write_do of scamper_control.c: text lines and result objects on their
    way to a client, an object in several calls if it is large. */
module ClientWrite {
  import opened Wrappers
  import opened UuCode
  import opened Uuencode

  datatype Obj = Obj(data: seq<byte>, id: Option<nat>)

  // What a client is to receive, as one piece.
  datatype Item = Text(str: seq<byte>) | Object(obj: Obj)

  function Digits(n: nat): seq<byte>
    decreases n
  {
    var last := [48 + ((n % 10) as bv8)];
    if n < 10 then last else Digits(n / 10) + last
  }

  // What a decimal number says.
  function Number(s: seq<byte>): nat {
    if s == [] then 0 else Number(s[..|s| - 1]) * 10 + (s[|s| - 1] - 48) as int
  }

  lemma OneDigit(d: nat)
    requires d < 10
    ensures ((48 + (d as bv8)) - 48) as int == d
  {
    assert (d as bv8) as int == d;
    var w := d as bv8;
    assert (48 + w) - 48 == w;
  }

  lemma {:induction false} DigitsSay(n: nat)
    ensures Number(Digits(n)) == n
    decreases n
  {
    OneDigit(n % 10);
    var last := [48 + ((n % 10) as bv8)];
    if n < 10 {
      assert last[..0] == [];
    } else {
      DigitsSay(n / 10);
      assert Digits(n)[..|Digits(n)| - 1] == Digits(n / 10);
    }
  }

  /** The line "DATA %d" or "DATA %d id-%u". */
  function Header(x: nat, id: Option<nat>): seq<byte> {
    [68, 65, 84, 65, 32] + Digits(x) + (if id.Some? then [32, 105, 100, 45] + Digits(id.value) else []) + [NEWLINE]
  }

  /** The bytes of an object: uuencoded, or as they are. */
  function Body(o: Obj, warts: bool): seq<byte> {
    if warts then Enc(o.data) else o.data
  }

  /** An item as it is to arrive: an object behind a line that announces exactly
      the bytes that follow. */
  function Bytes(item: Item, warts: bool): seq<byte> {
    match item
    case Text(str) => str
    case Object(o) => Header(|Body(o, warts)|, o.id) + Body(o, warts)
  }

  function Flatten(items: seq<Item>, warts: bool): seq<byte> {
    if items == [] then [] else Flatten(items[..|items| - 1], warts) + Bytes(items[|items| - 1], warts)
  }

  function Texts(txt: seq<seq<byte>>): (r: seq<Item>)
    ensures |r| == |txt|
  {
    seq(|txt|, i requires 0 <= i < |txt| => Text(txt[i]))
  }

  class Client {
    var txt: seq<seq<byte>>
    var sofObjs: seq<Obj>
    var sofObj: Option<Obj>
    var sofOff: nat
    const warts: bool
    var sent: seq<byte>
    ghost var items: seq<Item>  // what has been begun, in order

    /** What is still to be sent of the current object. */
    ghost function Rest(): seq<byte>
      reads this
      requires sofObj.Some? ==> sofOff <= |sofObj.value.data|
    {
      if sofObj.None? then []
      else if warts then Pending(sofObj.value.data, sofOff) else sofObj.value.data[sofOff..]
    }

    ghost predicate Valid()
      reads this
    {
      && (sofObj.Some? <==> sofOff > 0) && (sofObj.Some? ==> sofOff < |sofObj.value.data|)
      && CanEncode(sofObjs) && sent + Rest() == Flatten(items, warts)
    }

    // uuencode_len asserts that there is something to encode.
    predicate CanEncode(objs: seq<Obj>) {
      warts ==> forall o :: o in objs ==> o.data != []
    }

    constructor (warts: bool)
      ensures Valid() && sent == [] && items == [] && txt == [] && sofObjs == [] && this.warts == warts
    {
      txt, sofObjs, sofObj, sofOff, sent, items := [], [], None, 0, [], [];
      this.warts := warts;
    }

    // sendfunc: true stands for its 0, and it can fail at any time
    method Send(buf: seq<byte>) returns (ok: bool)
      modifies this`sent
      ensures sent == if ok then old(sent) + buf else old(sent)
    {
      ok := *;
      if ok {
        sent := sent + buf;
      }
    }

    /** What has been sent is part of the items in order, when a send fails. */
    ghost predicate Partial()
      reads this
    {
      sent <= Flatten(items, warts)
    }

    // The items that a call between objects begins, if all goes well.
    ghost function Due(): seq<Item>
      reads this
    {
      Texts(txt) + if sofObjs == [] then [] else [Object(sofObjs[0])]
    }

    /** client_write_do; true stands for its 0. New items are begun only between
        objects, and whatever has been sent is the items in order, up to the rest
        of the last one; if a send fails, up to somewhere in the last one. */
    method WriteDo() returns (ok: bool)
      requires Valid()
      modifies this
      ensures old(sent) <= sent
      ensures ok ==>
                Valid() && (|sent| > |old(sent)| ||
                  old(sofOff == 0 && sofObjs == [] && forall t :: t in txt ==> t == []))
      ensures ok ==> items == old(items) + if old(sofOff) > 0 then [] else old(Due())
      ensures ok ==> txt == if old(sofOff) > 0 then old(txt) else []
      ensures ok ==> sofObjs == if old(sofOff) > 0 || old(sofObjs) == [] then old(sofObjs) else old(sofObjs)[1..]
      ensures !ok ==> Partial() && old(items) <= items <= old(items) + if old(sofOff) > 0 then [] else old(Due())
    {
      hide Flatten, Header, Enc, Texts;
      ghost var was := items;
      var o: Option<Obj> := None;
      if sofOff == 0 {
        ok := SendTexts();
        if !ok {
          return;
        }
        if |sofObjs| > 0 {
          o := Some(sofObjs[0]);
          ok := Begin();
          if !ok {
            return;
          }
        }
      } else {
        o := sofObj;
        assert items + [] == items;
      }
      ok := true;
      if o.Some? {
        ok := SendPart(o.value);
      }
    }

    // An object has been begun, and some of it may have been sent.
    ghost predicate Begun()
      reads this
    {
      && sofObj.Some? && sofOff <= |sofObj.value.data| && (warts || sofOff > 0 ==> sofOff < |sofObj.value.data|)
      && CanEncode(sofObjs) && sent + Rest() == Flatten(items, warts)
    }

    method Begin() returns (ok: bool)
      requires Valid() && sofOff == 0 && sofObjs != []
      modifies this`sofObjs, this`sofObj, this`sent, this`items
      ensures items == old(items) + [Object(old(sofObjs)[0])] && sofObjs == old(sofObjs)[1..] && old(sent) <= sent
      ensures ok ==> Begun() && sofObj == Some(old(sofObjs)[0]) && |sent| > |old(sent)|
      ensures !ok ==> Partial()
    {
      hide Flatten, Header, Enc, EncLen, Bytes, Body, Texts, Pending;
      var o := sofObjs[0];
      sofObjs := sofObjs[1..];
      sofObj := Some(o);
      var x := |o.data|;
      if warts {
        EncLength(o.data);
        var len, complete, leftover := UuencodeLen(|o.data|);
        x := len;
      }
      FlattenMore(items, Object(o), warts);
      BodyLength(o, warts, x);
      HeaderSome(x, o.id);
      AllPending(o, warts);
      Forward(sent, Header(x, o.id), Body(o, warts), sent + Bytes(Object(o), warts));
      assert sent + [] == sent;
      items := items + [Object(o)];
      ok := Send(Header(x, o.id));
    }

    // Sends as much of the current object as one call can.
    method SendPart(o: Obj) returns (ok: bool)
      requires Begun() && sofObj == Some(o)
      modifies this`sofObj, this`sofOff, this`sent
      ensures old(sent) <= sent && (ok ==> Valid() && (o.data != [] ==> |sent| > |old(sent)|))
      ensures !ok ==> Partial()
    {
      hide Flatten, Enc, Pending, Bytes, Body, Header, Texts;
      var data := new byte[8192](_ => 0);
      PendingNone(o.data);
      var len := FillData(o, data);
      Forward(sent, data[..len], Rest(), Flatten(items, warts));
      if sofOff == |o.data| {
        sofObj, sofOff := None, 0;
      }
      ok := Send(data[..len]);
    }

    // The next bytes of the current object.
    method FillData(o: Obj, data: array<byte>) returns (len: nat)
      requires Begun() && sofObj == Some(o) && data.Length == 8192
      modifies this`sofOff, data
      ensures sofOff <= |o.data| && len <= data.Length && data[..len] + Rest() == old(Rest())
      ensures o.data != [] ==> sofOff > 0 && len > 0
    {
      hide Enc, Flatten;
      if warts {
        ghost var rest := Rest();
        sofOff, len := UuencodeBytes(o.data, sofOff, data);
        PartIs(data[..len], Pending(o.data, sofOff), rest);
      } else {
        len := PutPlain(o.data, sofOff, data);
        sofOff := sofOff + len;
      }
    }

    method SendTexts() returns (ok: bool)
      requires Valid() && sofOff == 0
      modifies this`txt, this`sent, this`items
      ensures old(sent) <= sent && old(items) <= items <= old(items) + Texts(old(txt))
      ensures ok ==> Valid() && txt == [] && items == old(items) + Texts(old(txt))
      ensures ok ==> |sent| > |old(sent)| || forall t :: t in old(txt) ==> t == []
      ensures !ok ==> Partial()
    {
      hide Flatten, Texts;
      ghost var all, sent0, txt0 := items + Texts(txt), sent, txt;
      ok := true;
      NoTexts();
      while |txt| > 0
        invariant Valid() && ok && sent0 <= sent && old(items) <= items && items + Texts(txt) == all
        invariant |sent| > |sent0| || forall t :: t in txt0 ==> t in txt || t == []
        decreases |txt|
      {
        TextsStep(items, txt);
        ok := SendText();
        if !ok {
          return;
        }
      }
      assert items + [] == items;
    }

    // Takes the first text off the list, and sends it.
    method SendText() returns (ok: bool)
      requires Valid() && sofOff == 0 && txt != []
      modifies this`txt, this`sent, this`items
      ensures items == old(items) + [Text(old(txt)[0])] && txt == old(txt)[1..]
      ensures ok ==> Valid() && sent == old(sent) + old(txt)[0]
      ensures !ok ==> Partial() && sent == old(sent)
    {
      hide Flatten;
      var t := txt[0];
      txt := txt[1..];
      FlattenMore(items, Text(t), warts);
      assert sent + [] == sent && (sent + t) + [] == sent + t;
      items := items + [Text(t)];
      ok := Send(t);
    }
  }

  // Copies what fits of an object that is sent as it is.
  method PutPlain(s: seq<byte>, off: nat, data: array<byte>) returns (len: nat)
    requires off <= |s| && data.Length == 8192
    modifies data
    ensures off + len <= |s| && (off < |s| ==> len > 0) && len <= data.Length &&
            data[..len] + s[off + len..] == s[off..]
  {
    len := |s| - off;
    if len > data.Length {
      len := data.Length;
    }
    forall i | 0 <= i < len {
      data[i] := s[off + i];
    }
    assert data[..len] == s[off..off + len];
  }

  lemma NoTexts()
    ensures Texts([]) == []
  {
  }

  lemma TextsStep(items: seq<Item>, txt: seq<seq<byte>>)
    requires txt != []
    ensures items + Texts(txt) == (items + [Text(txt[0])]) + Texts(txt[1..])
    ensures forall t :: t in txt ==> t == txt[0] || t in txt[1..]
  {
    assert Texts(txt) == [Text(txt[0])] + Texts(txt[1..]);
  }

  lemma HeaderSome(x: nat, id: Option<nat>)
    ensures Header(x, id) != []
  {
  }

  lemma FlattenMore(items: seq<Item>, item: Item, warts: bool)
    ensures Flatten(items + [item], warts) == Flatten(items, warts) + Bytes(item, warts)
  {
    hide Bytes;
    assert (items + [item])[..|items|] == items;
  }

  // Of an object that has just been begun, everything is pending.
  lemma AllPending(o: Obj, warts: bool)
    requires warts ==> o.data != []
    ensures (if warts then Pending(o.data, 0) else o.data[0..]) == Body(o, warts)
  {
    assert o.data[0..] == o.data;
  }

  lemma PendingNone(s: seq<byte>)
    ensures Pending(s, |s|) == []
  {
  }

  lemma Forward(sent: seq<byte>, part: seq<byte>, rest: seq<byte>, all: seq<byte>)
    requires sent + (part + rest) == all
    ensures (sent + part) + rest == all && sent <= all && (rest == [] ==> sent + part + [] == all)
  {
  }

  lemma PartIs(part: seq<byte>, left: seq<byte>, rest: seq<byte>)
    requires part + left == rest
    ensures |part| + |left| == |rest|
  {
  }

  lemma BodyLength(o: Obj, warts: bool, x: nat)
    requires x == if warts then EncLen(|o.data|) else |o.data|
    ensures x == |Body(o, warts)|
    ensures Bytes(Object(o), warts) == Header(x, o.id) + Body(o, warts)
  {
    hide Enc, EncLen, Header;
    EncLength(o.data);
  }
}
