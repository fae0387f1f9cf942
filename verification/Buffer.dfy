/** The byte buffer with a read cursor, and its typed puts and gets. */
module Buffers {
  import opened Bytes

  /** What get_string reads from s: the bytes before the first NUL, or the
      empty string when there is none. */
  function CString(s: seq<byte>): (t: Text)
    ensures NulFree(t)
  {
    var i := IndexOfNul(s);
    if i == |s| then [] else s[..i]
  }

  /** How many bytes get_string moves the cursor over. */
  function CStringSpan(s: seq<byte>): (n: nat)
    ensures n <= |s|
  {
    var i := IndexOfNul(s);
    if i == |s| then |s| else i + 1
  }

  lemma CStringOfText(t: Text, rest: seq<byte>)
    requires NulFree(t)
    ensures CString(t + [0] + rest) == t
    ensures CStringSpan(t + [0] + rest) == |t| + 1
    ensures (t + [0] + rest)[|t| + 1..] == rest
  {
    IndexOfNulAt(t, rest);
  }

  lemma CStringAt(s: seq<byte>, i: nat)
    requires i <= |s| && NulFree(s[..i]) && (i < |s| ==> s[i] == 0)
    ensures CString(s) == (if i < |s| then s[..i] else [])
    ensures CStringSpan(s) == (if i < |s| then i + 1 else |s|)
  {
    if i < |s| {
      assert s == s[..i] + [0] + s[i + 1..];
      CStringOfText(s[..i], s[i + 1..]);
    } else {
      assert s[..i] == s;
    }
  }

  class Buffer {
    var data: seq<byte>
    var pos: nat

    constructor (bytes: seq<byte>)
      ensures data == bytes && pos == 0
    {
      data, pos := bytes, 0;
    }

    /** What is still to be read; the cursor may stand past the end. */
    function Unread(): (s: seq<byte>)
      reads this
    {
      if pos >= |data| then [] else data[pos..]
    }

    function Size(): (n: nat)
      reads this
      ensures n == |Unread()|
    {
      if pos >= |data| then 0 else |data| - pos
    }

    /** The vector is moved out: the buffer is left empty. */
    method TakeBytes() returns (bytes: seq<byte>)
      modifies this
      ensures bytes == old(data) && data == [] && pos == 0
    {
      bytes, data, pos := data, [], 0;
    }

    method Advance(n: nat)
      modifies this`pos
      ensures pos == old(pos) + n
    {
      pos := pos + n;
    }

    method GetNumeric(w: nat, signed: bool) returns (v: int)
      requires 0 < w <= Size()
      modifies this`pos
      ensures v == if signed then Signed(old(Unread())[..w]) else Unsigned(old(Unread())[..w])
      ensures Unread() == old(Unread())[w..]
    {
      var bytes := data[pos..pos + w];
      assert bytes == Unread()[..w];
      v := if signed then Signed(bytes) else Unsigned(bytes);
      Advance(w);
    }

    method GetString() returns (t: Text)
      modifies this`pos
      ensures t == CString(old(Unread()))
      ensures Unread() == old(Unread())[CStringSpan(old(Unread()))..]
      ensures NulFree(old(Unread())) ==> t == [] && Unread() == []
    {
      hide CString, CStringSpan;
      var it := 0;
      ghost var s := Unread();
      while it < Size() && data[pos + it] != 0
        invariant it <= |s| && s == Unread()
        invariant NulFree(s[..it])
      {
        it := it + 1;
      }
      CStringAt(s, it);
      if it == Size() {
        pos := |data|;
        t := [];
      } else {
        t := data[pos..pos + it];
        Advance(|t| + 1);
      }
    }

    method PutByte(b: byte)
      modifies this`data
      ensures data == old(data) + [b]
    {
      data := data + [b];
    }

    method PutBytes(bytes: seq<byte>)
      modifies this`data
      ensures data == old(data) + bytes
    {
      data := data + bytes;
    }

    method PutString(t: Text, appendNul: bool := true)
      modifies this`data
      ensures data == old(data) + t + if appendNul then [0] else []
    {
      data := data + t;
      if appendNul {
        data := data + [0];
      }
    }

    method PutNumeric(w: nat, v: int)
      modifies this`data
      ensures data == old(data) + Num(w, v)
    {
      data := data + Num(w, v);
    }
  }

  // ------------------------------------------------------------------ scripts of puts and gets

  datatype Shape = Integer(width: nat, signed: bool) | CharString

  datatype Item = Int(width: nat, signed: bool, value: int) | Str(text: Text)
  {
    function Shape(): Shape {
      match this
      case Int(w, s, _) => Integer(w, s)
      case Str(_) => CharString
    }

    /** A value that the C++ type of this item holds. */
    ghost predicate Fits() {
      match this
      case Int(w, s, v) => w > 0 && if s then FitsSigned(w, v) else FitsUnsigned(w, v)
      case Str(t) => NulFree(t)
    }

    function Bytes(): seq<byte> {
      match this
      case Int(w, _, v) => Num(w, v)
      case Str(t) => t + [0]
    }
  }

  function Script(items: seq<Item>): seq<byte> {
    if items == [] then [] else items[0].Bytes() + Script(items[1..])
  }

  lemma {:induction false} ScriptSnoc(items: seq<Item>, item: Item)
    ensures Script(items + [item]) == Script(items) + item.Bytes()
  {
    hide Item.Bytes;
    if items == [] {
      assert [item][1..] == [];
    } else {
      ScriptSnoc(items[1..], item);
      assert (items + [item])[1..] == items[1..] + [item];
    }
  }

  method Put(b: Buffer, item: Item)
    modifies b`data
    ensures b.data == old(b.data) + item.Bytes()
  {
    match item
    case Int(w, _, v) => b.PutNumeric(w, v);
    case Str(t) => b.PutString(t);
  }

  method Get(b: Buffer, shape: Shape, ghost item: Item, ghost rest: seq<byte>) returns (got: Item)
    requires item.Fits() && item.Shape() == shape && b.Unread() == item.Bytes() + rest
    modifies b`pos
    ensures got == item && b.Unread() == rest
  {
    match shape
    case Integer(w, s) =>
      assert b.Unread()[..w] == Num(w, item.value) && b.Unread()[w..] == rest;
      if s {
        SignedNum(w, item.value);
      } else {
        UnsignedNum(w, item.value);
      }
      var v := b.GetNumeric(w, s);
      got := Int(w, s, v);
    case CharString =>
      CStringOfText(item.text, rest);
      var t := b.GetString();
      got := Str(t);
  }

  method PutAll(b: Buffer, items: seq<Item>)
    modifies b`data
    ensures b.data == old(b.data) + Script(items)
  {
    ghost var before := b.data;
    var i := 0;
    while i < |items|
      invariant 0 <= i <= |items|
      invariant b.data == before + Script(items[..i])
    {
      ScriptSnoc(items[..i], items[i]);
      assert items[..i + 1] == items[..i] + [items[i]];
      Put(b, items[i]);
      i := i + 1;
    }
    assert items[..|items|] == items;
  }

  method GetAll(b: Buffer, shapes: seq<Shape>, ghost items: seq<Item>) returns (got: seq<Item>)
    requires |shapes| == |items|
    requires forall i :: 0 <= i < |items| ==> items[i].Fits() && items[i].Shape() == shapes[i]
    requires b.Unread() == Script(items)
    modifies b`pos
    ensures got == items && b.Size() == 0
  {
    got := [];
    var i := 0;
    while i < |shapes|
      invariant 0 <= i <= |shapes| && got == items[..i]
      invariant b.Unread() == Script(items[i..])
    {
      assert items[i..][1..] == items[i + 1..];
      var item := Get(b, shapes[i], items[i], Script(items[i + 1..]));
      got := got + [item];
      i := i + 1;
    }
  }

  /** Any sequence of puts on a fresh buffer, followed by the matching gets,
      returns the same values and leaves nothing unread. */
  method PutThenGet(items: seq<Item>) returns (got: seq<Item>, unread: nat)
    requires forall i :: 0 <= i < |items| ==> items[i].Fits()
    ensures got == items && unread == 0
  {
    var b := new Buffer([]);
    PutAll(b, items);
    got := GetAll(b, seq(|items|, i requires 0 <= i < |items| => items[i].Shape()), items);
    unread := b.Size();
  }
}
