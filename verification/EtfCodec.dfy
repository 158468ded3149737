/** The writer as it runs: a recursive builder over a growing output buffer. */
module EtfCodec {
  import opened Bytes
  import opened Etf

  class EtfBuffer {
    var buf: array<byte>
    var length: nat

    ghost predicate Valid()
      reads this
    {
      length <= buf.Length
    }

    ghost function Contents(): bytes
      requires Valid()
      reads this, buf
    {
      buf[..length]
    }

    constructor (initial: nat)
      ensures Valid() && fresh(buf) && Contents() == []
    {
      buf := new byte[initial](_ => 0);
      length := 0;
    }

    /** Appends bytes, doubling what is needed when the buffer is too small. */
    method Write(s: bytes)
      requires Valid()
      modifies this, buf
      ensures Valid() && (buf == old(buf) || fresh(buf))
      ensures Contents() == old(Contents()) + s
    {
      if length + |s| > buf.Length {
        var bigger := new byte[(length + |s|) * 2](_ => 0);
        forall i | 0 <= i < length {
          bigger[i] := buf[i];
        }
        buf := bigger;
      }
      var at := length;
      forall i | 0 <= i < |s| {
        buf[at + i] := s[i];
      }
      length := at + |s|;
      assert buf[..at] == old(buf[..length]);
      assert buf[at..length] == s;
    }
  }

  /** Some array or object in the value has too many elements for a 32-bit count. */
  ghost predicate TooLarge(v: Json) {
    match v
    case Arr(items) => |items| >= TWO32 - 1 || exists i :: 0 <= i < |items| && TooLarge(items[i])
    case Obj(fields) => |fields| >= TWO32 - 1 || exists i :: 0 <= i < |fields| && TooLarge(fields[i].value)
    case _ => false
  }

  lemma {:induction false} BuildAllAppend(items: seq<Json>, i: nat)
    requires i < |items|
    ensures BuildAll(items[..i + 1]) == BuildAll(items[..i]) + Build(items[i])
  {
    hide Build;
    if i == 0 {
      assert items[..1][1..] == [];
      assert Build(items[0]) + [] == Build(items[0]);
    } else {
      BuildAllAppend(items[1..], i - 1);
      assert items[..i + 1][1..] == items[1..][..i] && items[..i][1..] == items[1..][..i - 1];
      Assoc(Build(items[0]), BuildAll(items[1..][..i - 1]), Build(items[i]));
    }
  }

  lemma {:induction false} BuildFieldsAppend(fields: seq<Field>, i: nat)
    requires i < |fields|
    ensures BuildFields(fields[..i + 1]) == BuildFields(fields[..i]) + (BuildStr(fields[i].key) + Build(fields[i].value))
  {
    hide Build, BuildStr;
    var one := BuildStr(fields[0].key) + Build(fields[0].value);
    if i == 0 {
      assert fields[..1][1..] == [];
      assert one + [] == one;
    } else {
      BuildFieldsAppend(fields[1..], i - 1);
      assert fields[..i + 1][1..] == fields[1..][..i] && fields[..i][1..] == fields[1..][..i - 1];
      Assoc(one, BuildFields(fields[1..][..i - 1]), BuildStr(fields[i].key) + Build(fields[i].value));
    }
  }

  /** Appends a value, or reports that one of its parts is too large. */
  method InnerBuild(v: Json, b: EtfBuffer) returns (ok: bool)
    requires b.Valid()
    modifies b, b.buf
    ensures b.Valid() && (b.buf == old(b.buf) || fresh(b.buf))
    ensures ok <==> !TooLarge(v)
    ensures ok ==> b.Contents() == old(b.Contents()) + Build(v)
    decreases v, 1
  {
    hide BuildInt, BuildStr, BeDigits;
    match v
    case Arr(items) => ok := BuildArray(items, b);
    case Obj(fields) => ok := BuildObject(fields, b);
    case Int(n) => b.Write(BuildInt(n)); ok := true;
    case Float(bits) => b.Write([NEW_FLOAT] + BeDigits(bits, 8)); ok := true;
    case Null => b.Write([ATOM_SMALL, 3] + NIL_NAME); ok := true;
    case Bool(t) => b.Write(if t then [ATOM_SMALL, 4] + TRUE_NAME else [ATOM_SMALL, 5] + FALSE_NAME); ok := true;
    case Str(s) => b.Write(BuildStr(s)); ok := true;
  }

  method BuildArray(items: seq<Json>, b: EtfBuffer) returns (ok: bool)
    requires b.Valid()
    modifies b, b.buf
    ensures b.Valid() && (b.buf == old(b.buf) || fresh(b.buf))
    ensures ok <==> !TooLarge(Arr(items))
    ensures ok ==> b.Contents() == old(b.Contents()) + Build(Arr(items))
    decreases items, 1
  {
    hide BeDigits, BuildAll;
    ghost var before, head := b.Contents(), [LIST] + BeDigits(|items|, 4);
    if items == [] {
      b.Write([NIL]);
    } else if |items| >= TWO32 - 1 {
      return false;
    }
    assert b.Contents() == before + (if items == [] then [NIL] else []);
    b.Write([LIST] + BeDigits(|items|, 4));
    ok := BuildItems(items, b);
    if ok {
      b.Write([NIL]);
      ArrayBytes(before, if items == [] then [NIL] else [], head, BuildAll(items), [NIL]);
    }
  }

  lemma ArrayBytes(before: bytes, p: bytes, h: bytes, b: bytes, t: bytes)
    ensures before + p + h + b + t == before + (p + (h + (b + t)))
  {
    Assoc(before + p + h, b, t);
    Assoc(before + p, h, b + t);
    Assoc(before, p, h + (b + t));
  }

  method BuildObject(fields: seq<Field>, b: EtfBuffer) returns (ok: bool)
    requires b.Valid()
    modifies b, b.buf
    ensures b.Valid() && (b.buf == old(b.buf) || fresh(b.buf))
    ensures ok <==> !TooLarge(Obj(fields))
    ensures ok ==> b.Contents() == old(b.Contents()) + Build(Obj(fields))
    decreases fields, 1
  {
    hide BeDigits, BuildFields;
    if |fields| >= TWO32 - 1 {
      return false;
    }
    b.Write([MAP] + BeDigits(|fields|, 4));
    ok := BuildMembers(fields, b);
  }

  method BuildItems(items: seq<Json>, b: EtfBuffer) returns (ok: bool)
    requires b.Valid()
    modifies b, b.buf
    ensures b.Valid() && (b.buf == old(b.buf) || fresh(b.buf))
    ensures ok <==> forall i :: 0 <= i < |items| ==> !TooLarge(items[i])
    ensures ok ==> b.Contents() == old(b.Contents()) + BuildAll(items)
    decreases items, 0
  {
    hide Build, TooLarge, BuildAll;
    ghost var before := b.Contents();
    BuildNothing();
    for k := 0 to |items|
      invariant b.Valid() && (b.buf == old(b.buf) || fresh(b.buf))
      invariant forall i :: 0 <= i < k ==> !TooLarge(items[i])
      invariant b.Contents() == before + BuildAll(items[..k])
    {
      ok := InnerBuild(items[k], b);
      if !ok {
        return;
      }
      BuildAllAppend(items, k);
      Assoc(before, BuildAll(items[..k]), Build(items[k]));
    }
    assert items[..|items|] == items;
    return true;
  }

  method BuildMembers(fields: seq<Field>, b: EtfBuffer) returns (ok: bool)
    requires b.Valid()
    modifies b, b.buf
    ensures b.Valid() && (b.buf == old(b.buf) || fresh(b.buf))
    ensures ok <==> forall i :: 0 <= i < |fields| ==> !TooLarge(fields[i].value)
    ensures ok ==> b.Contents() == old(b.Contents()) + BuildFields(fields)
    decreases fields, 0
  {
    hide Build, BuildStr, TooLarge, BuildFields;
    ghost var before := b.Contents();
    BuildNothing();
    for k := 0 to |fields|
      invariant b.Valid() && (b.buf == old(b.buf) || fresh(b.buf))
      invariant forall i :: 0 <= i < k ==> !TooLarge(fields[i].value)
      invariant b.Contents() == before + BuildFields(fields[..k])
    {
      ghost var here := b.Contents();
      b.Write(BuildStr(fields[k].key));
      ok := InnerBuild(fields[k].value, b);
      if !ok {
        return;
      }
      BuildFieldsAppend(fields, k);
      Assoc(here, BuildStr(fields[k].key), Build(fields[k].value));
      Assoc(before, BuildFields(fields[..k]), BuildStr(fields[k].key) + Build(fields[k].value));
    }
    assert fields[..|fields|] == fields;
    return true;
  }

  lemma BuildNothing()
    ensures BuildAll([]) == [] && BuildFields([]) == []
  {
  }

  /** A whole message, or None if a part of it is too large. */
  method BuildText(v: Json) returns (r: Option<bytes>)
    ensures r.None? <==> TooLarge(v)
    ensures r.Some? ==> r.value == BuildMessage(v)
  {
    hide Build, TooLarge;
    var pk := new EtfBuffer(1024 * 1024);
    pk.Write([VERSION]);
    assert pk.Contents() == [VERSION];
    var ok := InnerBuild(v, pk);
    r := if ok then Some(pk.buf[..pk.length]) else None;
  }
}
