/** The parser: every read moves `offset` forward over `data`, or fails. */
module EtfParser {
  import opened Bytes
  import opened Etf

  /**
   What a read does: it never moves back nor past the end, fails exactly when the format says
   so, and otherwise gives the value and stops where the format says the rest starts.
   */
  ghost predicate Reads<T>(d: bytes, from: nat, to: nat, spec: Parsed<T>, r: Option<T>) {
    && from <= to <= |d|
    && (r.None? <==> spec.Fail?)
    && (r.Some? ==> spec == Done(r.value, d[to..]))
  }

  lemma DropDrop(d: bytes, i: nat, n: nat)
    requires i + n <= |d|
    ensures d[i..][n..] == d[i + n..] && |d[i..]| == |d| - i
  {
  }

  class Parser {
    const foreign: Foreign
    const data: bytes
    var offset: nat

    ghost predicate Valid()
      reads this
    {
      offset <= |data|
    }

    constructor (foreign: Foreign, data: bytes)
      ensures Valid() && this.foreign == foreign && this.data == data && offset == 0
    {
      this.foreign, this.data, this.offset := foreign, data, 0;
    }

    /** read_8_bits and its wider forms. */
    method ReadBits(n: nat) returns (r: Option<nat>)
      requires Valid()
      modifies this
      ensures Valid() && Reads(data, old(offset), offset, Take(data[old(offset)..], n), r)
      ensures r.Some? ==> offset == old(offset) + n
    {
      hide BeValue;
      if offset + n > |data| {
        return None;
      }
      DropDrop(data, offset, n);
      assert data[offset..][..n] == data[offset..offset + n];
      r := Some(BeValue(data[offset..offset + n]));
      offset := offset + n;
    }

    /** read_string: None, and no move, when the bytes are not there. */
    method ReadString(n: nat) returns (r: Option<bytes>)
      requires Valid()
      modifies this
      ensures Valid()
      ensures old(offset) + n > |data| ==> r.None? && offset == old(offset)
      ensures old(offset) + n <= |data| ==> r == Some(data[old(offset)..][..n]) && offset == old(offset) + n
      ensures old(offset) + n <= |data| ==> data[offset..] == data[old(offset)..][n..]
    {
      if offset + n > |data| {
        return None;
      }
      DropDrop(data, offset, n);
      r := Some(data[offset..offset + n]);
      offset := offset + n;
      assert data[old(offset)..][..n] == data[old(offset)..offset];
    }

    method ReadAtom(w: nat) returns (r: Option<Json>)
      requires Valid()
      modifies this
      ensures Valid() && Reads(data, old(offset), offset, DecodeAtom(data[old(offset)..], w), r)
    {
      hide AtomValue, Take;
      var n := ReadBits(w);
      if n.None? {
        return None;
      }
      var s := ReadString(n.value);
      r := Some(if s.None? then Null else AtomValue(s.value));
    }

    method ReadBinary() returns (r: Option<Json>)
      requires Valid()
      modifies this
      ensures Valid() && Reads(data, old(offset), offset, DecodeBinary(data[old(offset)..]), r)
    {
      hide Take;
      var n := ReadBits(4);
      if n.None? {
        return None;
      }
      var s := ReadString(n.value);
      r := Some(if s.None? then Null else Str(s.value));
    }

    method ReadFloatText() returns (r: Option<Json>)
      requires Valid()
      modifies this
      ensures Valid() && Reads(data, old(offset), offset, DecodeFloatText(foreign, data[old(offset)..]), r)
    {
      var s := ReadString(31);
      if s.None? {
        return Some(Null);
      }
      var x := foreign.scan(s.value);
      r := Some(if x.Some? then Float(x.value) else Null);
    }

    method ReadStringAsList() returns (r: Option<Json>)
      requires Valid()
      modifies this
      ensures Valid() && Reads(data, old(offset), offset, DecodeStringAsList(data[old(offset)..]), r)
    {
      hide Take;
      var n := ReadBits(2);
      if n.None? || offset + n.value > |data| {
        return None;
      }
      ghost var start := offset;
      var items: seq<Json> := [];
      for i := 0 to n.value
        invariant Valid() && offset == start + i && start + n.value <= |data|
        invariant items + SmallInts(data[start + i..start + n.value]) == SmallInts(data[start..start + n.value])
      {
        ghost var left := data[start + i..start + n.value];
        assert left[1..] == data[start + i + 1..start + n.value];
        items := items + [Int(data[offset])];
        offset := offset + 1;
      }
      DropDrop(data, start, n.value);
      assert data[start..][..n.value] == data[start..start + n.value];
      assert items + [] == items;
      r := Some(Arr(items));
    }

    method ReadBig(w: nat) returns (r: Option<Json>)
      requires Valid()
      modifies this
      ensures Valid() && Reads(data, old(offset), offset, DecodeBig(data[old(offset)..], w), r)
    {
      hide Take, BigText;
      var digits := ReadBits(w);
      if digits.None? {
        return None;
      }
      var sign := ReadBits(1);
      if sign.None? || digits.value > 8 {
        return None;
      }
      ghost var d := data[offset..];
      var value := ReadDigits(digits.value);
      if value.None? {
        return None;
      }
      r := Some(Str(BigText(digits.value, sign.value, value.value)));
    }

    /** The digits of a big integer, summed least significant first. */
    method ReadDigits(n: nat) returns (r: Option<nat>)
      requires Valid()
      modifies this
      ensures Valid() && old(offset) <= offset
      ensures r.None? <==> n > |data[old(offset)..]|
      ensures r.Some? ==> r.value == Value(data[old(offset)..][..n]) && data[offset..] == data[old(offset)..][n..]
    {
      hide Value, Take, Pow256;
      var value: int, b: int := 0, 1;
      PowStart();
      for i := 0 to n
        invariant Valid() && offset == old(offset) + i
        invariant value == Value(data[old(offset)..offset]) && b == Pow256(i)
      {
        if offset + 1 > |data| {
          return None;
        }
        var digit: int := data[offset];
        ValueAppend(data[old(offset)..offset], digit);
        assert data[old(offset)..offset] + [digit] == data[old(offset)..offset + 1];
        PowStep(i);
        offset := offset + 1;
        value := value + digit * b;
        b := b * 256;
      }
      DropDrop(data, old(offset), n);
      assert data[old(offset)..][..n] == data[old(offset)..offset];
      r := Some(value);
    }

    /** decode_array: `n` terms. */
    method ReadMany(n: nat) returns (r: Option<seq<Json>>)
      requires Valid()
      modifies this
      ensures Valid() && Reads(data, old(offset), offset, ParseMany(foreign, data[old(offset)..], n), r)
      decreases |data| - offset, 1
    {
      hide ParseTerm, ParseMany, Joined;
      var items: seq<Json> := [];
      JoinedStart(ParseMany(foreign, data[offset..], n));
      var i := 0;
      while i < n
        invariant Valid() && old(offset) <= offset && i <= n && (i > 0 ==> old(offset) < offset)
        invariant ParseMany(foreign, data[old(offset)..], n) == Joined(items, ParseMany(foreign, data[offset..], n - i))
      {
        ghost var d := data[offset..];
        ManyStep(foreign, d, n - i, items);
        var x := InnerParse();
        if x.None? {
          return None;
        }
        items := items + [x.value];
        i := i + 1;
      }
      ManyEnd(foreign, data[offset..], items);
      r := Some(items);
    }

    method ReadTuple(w: nat) returns (r: Option<Json>)
      requires Valid()
      modifies this
      ensures Valid() && Reads(data, old(offset), offset, DecodeTuple(foreign, data[old(offset)..], w), r)
      decreases |data| - offset, 2
    {
      hide Take, ParseMany;
      var n := ReadBits(w);
      if n.None? {
        return None;
      }
      var xs := ReadMany(n.value);
      r := if xs.None? then None else Some(Arr(xs.value));
    }

    method ReadList() returns (r: Option<Json>)
      requires Valid()
      modifies this
      ensures Valid() && Reads(data, old(offset), offset, DecodeList(foreign, data[old(offset)..]), r)
      decreases |data| - offset, 2
    {
      hide Take, ParseMany;
      var n := ReadBits(4);
      if n.None? {
        return None;
      }
      var xs := ReadMany(n.value);
      if xs.None? {
        return None;
      }
      var tail := ReadBits(1);
      if tail.None? {
        return None;
      }
      r := Some(if tail.value == NIL then Arr(xs.value) else Null);
    }

    method ReadMap() returns (r: Option<Json>)
      requires Valid()
      modifies this
      ensures Valid() && Reads(data, old(offset), offset, DecodeMap(foreign, data[old(offset)..]), r)
      decreases |data| - offset, 2
    {
      hide Take, ParseTerm, ParseFields, KeyText, Emplace;
      var n := ReadBits(4);
      if n.None? {
        return None;
      }
      ghost var start := offset;
      var acc := Null;
      var i := 0;
      while i < n.value
        invariant Valid() && old(offset) < offset && start <= offset && i <= n.value && (acc.Null? || acc.Obj?)
        invariant ParseFields(foreign, data[start..], n.value, Null) == ParseFields(foreign, data[offset..], n.value - i, acc)
      {
        FieldsStep(foreign, data[offset..], n.value - i, acc);
        var key := InnerParse();
        if key.None? {
          return None;
        }
        var k := KeyText(foreign, key.value);
        var v := InnerParse();
        if k.None? || v.None? {
          return None;
        }
        acc := Obj(Emplace(if acc.Null? then [] else acc.fields, k.value, v.value));
        i := i + 1;
      }
      FieldsEnd(foreign, data[offset..], acc);
      r := Some(acc);
    }

    method ReadIds(n: nat) returns (r: Option<seq<Json>>)
      requires Valid()
      modifies this
      ensures Valid() && Reads(data, old(offset), offset, Ids(data[old(offset)..], n), r)
    {
      hide Take;
      var items: seq<Json> := [];
      JoinedStart(Ids(data[offset..], n));
      for i := 0 to n
        invariant Valid() && old(offset) <= offset
        invariant Ids(data[old(offset)..], n) == Joined(items, Ids(data[offset..], n - i))
      {
        ghost var d := data[offset..];
        var x := ReadBits(4);
        if x.None? {
          return None;
        }
        IdsStep(d, n - i, items);
        items := items + [Int(Signed32(x.value))];
      }
      assert items + [] == items;
      r := Some(items);
    }

    method ReadReference() returns (r: Option<Json>)
      requires Valid()
      modifies this
      ensures Valid() && Reads(data, old(offset), offset, DecodeReference(foreign, data[old(offset)..]), r)
      decreases |data| - offset, 2
    {
      hide Take, ParseTerm, Ids;
      var node := InnerParse();
      if node.None? {
        return None;
      }
      var ids := ReadIds(1);
      if ids.None? {
        return None;
      }
      var c := ReadBits(1);
      r := if c.None? then None else Some(Obj([Field(CREATION, Int(c.value)), Field(ID, Arr(ids.value)), Field(NODE, node.value)]));
    }

    method ReadNewReference() returns (r: Option<Json>)
      requires Valid()
      modifies this
      ensures Valid() && Reads(data, old(offset), offset, DecodeNewReference(foreign, data[old(offset)..]), r)
      decreases |data| - offset, 2
    {
      hide Take, ParseTerm, Ids;
      var n := ReadBits(2);
      if n.None? {
        return None;
      }
      var node := InnerParse();
      if node.None? {
        return None;
      }
      var c := ReadBits(1);
      if c.None? {
        return None;
      }
      var ids := ReadIds(n.value);
      r := if ids.None? then None else Some(Obj([Field(CREATION, Int(c.value)), Field(ID, Arr(ids.value)), Field(NODE, node.value)]));
    }

    method ReadPort() returns (r: Option<Json>)
      requires Valid()
      modifies this
      ensures Valid() && Reads(data, old(offset), offset, DecodePort(foreign, data[old(offset)..]), r)
      decreases |data| - offset, 2
    {
      hide Take, ParseTerm;
      var node := InnerParse();
      if node.None? {
        return None;
      }
      var id := ReadBits(4);
      if id.None? {
        return None;
      }
      var c := ReadBits(1);
      r := if c.None? then None else Some(Obj([Field(CREATION, Int(c.value)), Field(ID, Int(id.value)), Field(NODE, node.value)]));
    }

    method ReadPid() returns (r: Option<Json>)
      requires Valid()
      modifies this
      ensures Valid() && Reads(data, old(offset), offset, DecodePid(foreign, data[old(offset)..]), r)
      decreases |data| - offset, 2
    {
      hide Take, ParseTerm;
      var node := InnerParse();
      if node.None? {
        return None;
      }
      var id := ReadBits(4);
      if id.None? {
        return None;
      }
      var serial := ReadBits(4);
      if serial.None? {
        return None;
      }
      var c := ReadBits(1);
      r := if c.None? then None
           else Some(Obj([Field(CREATION, Int(c.value)), Field(ID, Int(id.value)), Field(NODE, node.value), Field(SERIAL, Int(serial.value))]));
    }

    method ReadExport() returns (r: Option<Json>)
      requires Valid()
      modifies this
      ensures Valid() && Reads(data, old(offset), offset, DecodeExport(foreign, data[old(offset)..]), r)
      decreases |data| - offset, 2
    {
      hide ParseTerm;
      var m := InnerParse();
      if m.None? {
        return None;
      }
      var fn := InnerParse();
      if fn.None? {
        return None;
      }
      var a := InnerParse();
      r := if a.None? then None else Some(Obj([Field(ARITY, a.value), Field(FUN, fn.value), Field(MOD, m.value)]));
    }

    /** One term: a value and at least one byte consumed, or failure. */
    method InnerParse() returns (r: Option<Json>)
      requires Valid()
      modifies this
      ensures Valid() && Reads(data, old(offset), offset, ParseTerm(foreign, data[old(offset)..]), r)
      ensures r.Some? ==> old(offset) < offset
      decreases |data| - offset, 0
    {
      hide Take, DecodeAtom, DecodeList, DecodeMap, DecodeBinary, DecodeBig, DecodeTuple, DecodeReference, DecodeNewReference;
      hide DecodePort, DecodePid, DecodeExport, DecodeStringAsList, DecodeFloatText, Signed32;
      if offset >= |data| {
        return None;
      }
      var t := data[offset];
      DropDrop(data, offset, 1);
      offset := offset + 1;
      ghost var from := offset;
      assert data[from..] == data[old(offset)..][1..];
      if t == SMALL_INT {
        var x := ReadBits(1);
        r := if x.None? then None else Some(Int(x.value));
      } else if t == INTEGER {
        var x := ReadBits(4);
        r := if x.None? then None else Some(Int(Signed32(x.value)));
      } else if t == FLOAT_TEXT {
        r := ReadFloatText();
      } else if t == NEW_FLOAT {
        var x := ReadBits(8);
        r := if x.None? then None else Some(Float(x.value));
      } else if t == ATOM {
        r := ReadAtom(2);
      } else if t == ATOM_SMALL {
        r := ReadAtom(1);
      } else if t == SMALL_TUPLE {
        r := ReadTuple(1);
      } else if t == LARGE_TUPLE {
        r := ReadTuple(4);
      } else if t == NIL {
        r := Some(Arr([]));
      } else if t == STRING {
        r := ReadStringAsList();
      } else if t == LIST {
        r := ReadList();
      } else if t == MAP {
        r := ReadMap();
      } else if t == BINARY {
        r := ReadBinary();
      } else if t == BIG_SMALL {
        r := ReadBig(1);
      } else if t == BIG_LARGE {
        r := ReadBig(4);
      } else if t == REFERENCE {
        r := ReadReference();
      } else if t == NEW_REFERENCE {
        r := ReadNewReference();
      } else if t == PORT {
        r := ReadPort();
      } else if t == PID {
        r := ReadPid();
      } else if t == EXPORT {
        r := ReadExport();
      } else {
        r := None;
      }
    }
  }

  /** Values already read, in front of those still to come. */
  ghost function Joined(done: seq<Json>, p: Parsed<seq<Json>>): Parsed<seq<Json>> {
    if p.Fail? then Fail else Done(done + p.value, p.rest)
  }

  lemma JoinedStart(p: Parsed<seq<Json>>)
    ensures Joined([], p) == p
  {
    assert p.Done? ==> [] + p.value == p.value;
  }

  lemma ManyStep(f: Foreign, d: bytes, n: nat, done: seq<Json>)
    requires n > 0
    ensures var x := ParseTerm(f, d);
            Joined(done, ParseMany(f, d, n)) == if x.Fail? then Fail else Joined(done + [x.value], ParseMany(f, x.rest, n - 1))
  {
    hide ParseTerm;
    var x := ParseTerm(f, d);
    if x.Done? {
      var more := ParseMany(f, x.rest, n - 1);
      if more.Done? {
        Assoc(done, [x.value], more.value);
      }
    }
  }

  lemma ManyEnd(f: Foreign, d: bytes, done: seq<Json>)
    ensures Joined(done, ParseMany(f, d, 0)) == Done(done, d)
  {
    assert done + [] == done;
  }

  lemma FieldsStep(f: Foreign, d: bytes, n: nat, acc: Json)
    requires n > 0 && (acc.Null? || acc.Obj?)
    ensures var key := ParseTerm(f, d);
            if key.Fail? then ParseFields(f, d, n, acc).Fail?
            else
              var k, v := KeyText(f, key.value), ParseTerm(f, key.rest);
              if k.None? || v.Fail? then ParseFields(f, d, n, acc).Fail?
              else ParseFields(f, d, n, acc) ==
                   ParseFields(f, v.rest, n - 1, Obj(Emplace(if acc.Null? then [] else acc.fields, k.value, v.value)))
  {
    hide ParseTerm, KeyText, Emplace;
  }

  lemma FieldsEnd(f: Foreign, d: bytes, acc: Json)
    requires acc.Null? || acc.Obj?
    ensures ParseFields(f, d, 0, acc) == Done(acc, d)
  {
  }

  lemma IdsStep(d: bytes, n: nat, done: seq<Json>)
    requires n > 0 && Take(d, 4).Done?
    ensures Joined(done, Ids(d, n)) == Joined(done + [Int(Signed32(Take(d, 4).value))], Ids(Take(d, 4).rest, n - 1))
  {
    hide Take, Signed32;
    var more := Ids(Take(d, 4).rest, n - 1);
    if more.Done? {
      Assoc(done, [Int(Signed32(Take(d, 4).value))], more.value);
    }
  }

  /** A whole message. */
  method ParseMessage(f: Foreign, d: bytes) returns (r: Option<Json>, rest: bytes)
    ensures r.None? <==> Parse(f, d).Fail?
    ensures r.Some? ==> Parse(f, d) == Done(r.value, rest)
  {
    hide ParseTerm;
    var p := new Parser(f, d);
    rest := d;
    var version := p.ReadBits(1);
    if version.None? {
      return None, rest;
    }
    assert d[..1] == [d[0]] && BeValue([d[0]]) == d[0] by { assert [d[0]][..0] == []; }
    if version.value != VERSION {
      return None, rest;
    }
    r := p.InnerParse();
    rest := d[p.offset..];
  }

  lemma PowStart()
    ensures Pow256(0) == 1 && Value([]) == 0
  {
  }

  lemma PowStep(k: nat)
    ensures Pow256(k + 1) == Pow256(k) * 256
  {
  }

  lemma {:induction false} ValueAppend(w: bytes, x: byte)
    ensures Value(w + [x]) == Value(w) + x * Pow256(|w|)
  {
    if w == [] {
      assert [] + [x] == [x] && [x][1..] == [];
    } else {
      ValueAppend(w[1..], x);
      assert (w + [x])[1..] == w[1..] + [x];
      var p := Pow256(|w| - 1);
      assert x * (256 * p) == 256 * (x * p);
    }
  }
}
