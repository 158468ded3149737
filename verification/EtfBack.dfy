/** Reading a written value, empty arrays included: it comes back as itself exactly if the count of left-over blocks says so. */
module EtfBack {
  import opened Bytes
  import opened Etf
  import opened EtfProof
  import opened EtfBlocks

  // ---- reading blocks -----------------------------------------------------------------------------

  lemma ReadNil(f: Foreign, rest: bytes)
    ensures ParseTerm(f, [NIL] + rest) == Done(Arr([]), rest)
  {
    hide ParseTerm;
    Dispatch(f, NIL, rest);
  }

  lemma ReadEmptyList(f: Foreign, rest: bytes)
    ensures ParseTerm(f, EMPTY_LIST + rest) == Done(Arr([]), rest)
  {
    hide ParseTerm, BeDigits;
    assert BeDigits(0, 4) == [0, 0, 0, 0] by { FourZeros(); }
    assert EMPTY_LIST + rest == [LIST] + (BeDigits(0, 4) + ([NIL] + rest));
    ReadList(f, 0, [NIL] + rest);
  }

  lemma FourZeros()
    ensures BeDigits(0, 4) == [0, 0, 0, 0]
  {
  }

  /** A block is read as an empty array. */
  lemma ReadBlock(f: Foreign, bs: seq<bool>, rest: bytes)
    requires bs != []
    ensures ParseTerm(f, Blocks(bs) + rest) == Done(Arr([]), Blocks(bs[1..]) + rest)
  {
    hide ParseTerm;
    var tail := Blocks(bs[1..]) + rest;
    Assoc(if bs[0] then [NIL] else EMPTY_LIST, Blocks(bs[1..]), rest);
    if bs[0] {
      ReadNil(f, tail);
    } else {
      ReadEmptyList(f, tail);
    }
  }

  lemma EmptyArrayBytes()
    ensures Build(Arr([])) == Blocks([true, false])
  {
    assert BeDigits(0, 4) == [0, 0, 0, 0];
    assert [true, false][1..] == [false] && [false][1..] == [];
    assert Blocks([false]) == EMPTY_LIST;
    assert BuildAll([]) == [];
  }

  // ---- reading a value ------------------------------------------------------------------------------

  /** What reading gives when `back` says what is left over in front of `rest`. */
  ghost predicate Gives<T>(r: Parsed<T>, v: T, back: Option<seq<bool>>, rest: bytes) {
    if back.Some? then r == Done(v, Blocks(back.value) + rest) else r.Fail? || r.value != v
  }

  /** For every value and whatever follows it: it comes back as itself exactly if `Back` says so, with exactly those blocks left over. */
  lemma {:induction false} BackExactly(f: Foreign, v: Json, rest: bytes)
    requires Valid(v)
    ensures Gives(ParseTerm(f, Build(v) + rest), v, Back(v), rest)
    decreases v, 1
  {
    match v
    case Arr(items) =>
      if items == [] {
        EmptyBack(f, rest);
      } else {
        hide ParseTerm, Build;
        ArrValid(items);
        assert |items| < TWO32 by { ArrSize(items); }
        AllBack(f, [], items, [NIL] + rest);
        NoBlocks();
        ListBack(f, items, rest);
      }
    case Obj(fields) =>
      hide ParseTerm, Build;
      FieldsOf(fields);
      FieldsBack(f, fields, [], rest);
      MapBack(f, fields, rest);
    case _ =>
      hide ParseTerm, Build;
      ScalarBack(f, v, rest);
  }

  lemma ScalarBack(f: Foreign, v: Json, rest: bytes)
    requires Valid(v) && !v.Arr? && !v.Obj?
    ensures Gives(ParseTerm(f, Build(v) + rest), v, Back(v), rest)
  {
    hide ParseTerm, Build, Trimmed;
    Trip(f, v, rest);
    EchoIsSame(v);
    assert Blocks([]) + rest == rest;
  }

  lemma EmptyBack(f: Foreign, rest: bytes)
    ensures Gives(ParseTerm(f, Build(Arr([])) + rest), Arr([]), Back(Arr([])), rest)
  {
    hide ParseTerm, Build;
    EmptyArrayBytes();
    ReadBlock(f, [true, false], rest);
    assert [true, false][1..] == [false];
  }

  lemma ArrSize(items: seq<Json>)
    requires Valid(Arr(items))
    ensures |items| < TWO32
  {
  }

  /** A list from its elements: the byte behind them must be a nil. */
  lemma ListBack(f: Foreign, items: seq<Json>, rest: bytes)
    requires items != [] && |items| < TWO32
    requires Gives(ParseMany(f, BuildAll(items) + ([NIL] + rest), |items|), items, BackAll([], items), [NIL] + rest)
    ensures Gives(ParseTerm(f, Build(Arr(items)) + rest), Arr(items), Back(Arr(items)), rest)
  {
    hide ParseTerm, ParseMany, Build, BuildAll, BackAll, BeDigits, Blocks;
    var body := BuildAll(items) + ([NIL] + rest);
    ListBytes(items, rest);
    ReadList(f, |items|, body);
    if BackAll([], items).Some? {
      TailBack(BackAll([], items).value, rest);
    }
  }

  /** The byte behind the elements and what is left behind it. */
  lemma TailBack(bs: seq<bool>, rest: bytes)
    ensures var q := Blocks(bs) + ([NIL] + rest);
            && q != [] && (q[0] == NIL <==> bs == [] || bs[0])
            && (bs == [] ==> q[1..] == Blocks([]) + rest)
            && (bs != [] && bs[0] ==> q[1..] == Blocks(bs[1..] + [true]) + rest)
  {
    if bs != [] && bs[0] {
      assert Blocks(bs) + ([NIL] + rest) == [NIL] + (Blocks(bs[1..]) + ([NIL] + rest));
      BlocksAppend(bs[1..], [true]);
      assert Blocks([true]) == [NIL] by { assert [true][1..] == []; }
      Assoc(Blocks(bs[1..]), [NIL], rest);
    }
  }

  /** One term in front of others. */
  lemma FirstOfMany(f: Foreign, d: bytes, n: nat)
    ensures n > 0 && ParseTerm(f, d).Fail? ==> ParseMany(f, d, n).Fail?
    ensures n > 0 && ParseTerm(f, d).Done? ==>
              var x, more := ParseTerm(f, d), ParseMany(f, ParseTerm(f, d).rest, n - 1);
              ParseMany(f, d, n) == if more.Fail? then Fail else Done([x.value] + more.value, more.rest)
    ensures n == 0 ==> ParseMany(f, d, n) == Done([], d)
  {
    hide ParseTerm;
  }

  /** Elements behind blocks. */
  lemma {:induction false} AllBack(f: Foreign, bs: seq<bool>, items: seq<Json>, rest: bytes)
    requires forall i :: 0 <= i < |items| ==> Valid(items[i])
    ensures Gives(ParseMany(f, Blocks(bs) + (BuildAll(items) + rest), |items|), items, BackAll(bs, items), rest)
    decreases items, 0
  {
    hide ParseTerm, ParseMany, Build, Valid, Back, Blocks;
    var d := Blocks(bs) + (BuildAll(items) + rest);
    FirstOfMany(f, d, |items|);
    if items == [] {
      assert [] + rest == rest;
    } else {
      var more := items[1..];
      var tail := BuildAll(more) + rest;
      Assoc(Build(items[0]), BuildAll(more), rest);
      assert items == [items[0]] + more;
      if bs == [] {
        assert d == Build(items[0]) + tail by { NoBlocks(); }
        BackExactly(f, items[0], tail);
        if Back(items[0]).Some? {
          AllBack(f, Back(items[0]).value, more, rest);
        }
      } else {
        ReadBlock(f, bs, BuildAll(items) + rest);
        if items[0] == Arr([]) {
          EmptyArrayBytes();
          BlocksAppend(bs[1..], [true, false]);
          Assoc(Blocks(bs[1..]), Blocks([true, false]), tail);
          AllBack(f, bs[1..] + [true, false], more, rest);
        }
      }
    }
  }

  lemma NoBlocks()
    ensures forall d: bytes :: Blocks([]) + d == d
  {
  }

  // ---- objects ------------------------------------------------------------------------------------------

  lemma FieldsOf(fields: seq<Field>)
    requires Valid(Obj(fields))
    ensures FieldsOk(fields) && |fields| < TWO32
  {
  }

  lemma {:induction false} EmplaceKeeps(fields: seq<Field>, k: bytes, v: Json, x: Field)
    requires x in fields
    ensures x in Emplace(fields, k, v)
  {
    hide Less;
    if fields[0].key != k && !Less(k, fields[0].key) && x != fields[0] {
      assert fields == [fields[0]] + fields[1..];
      EmplaceKeeps(fields[1..], k, v, x);
    }
  }

  /** A field once read stays. */
  lemma {:induction false} FieldsKeep(f: Foreign, d: bytes, n: nat, acc: Json, x: Field)
    requires acc.Obj? && x in acc.fields && ParseFields(f, d, n, acc).Done?
    ensures ParseFields(f, d, n, acc).value.Obj? && x in ParseFields(f, d, n, acc).value.fields
    decreases n
  {
    hide ParseTerm, Emplace, KeyText;
    if n > 0 {
      var key := ParseTerm(f, d);
      var k, v := KeyText(f, key.value), ParseTerm(f, key.rest);
      EmplaceKeeps(acc.fields, k.value, v.value, x);
      FieldsKeep(f, v.rest, n - 1, Obj(Emplace(acc.fields, k.value, v.value)), x);
    }
  }

  /** No two fields have the same key. */
  lemma KeyUnique(done: seq<Field>, fields: seq<Field>, x: Field)
    requires fields != [] && SortedKeys(fields) && KeysBelow(done, fields)
    requires x in done + fields && x.key == fields[0].key
    ensures x == fields[0]
  {
    hide Less;
    var all := done + fields;
    var i :| 0 <= i < |all| && all[i] == x;
    if i < |done| {
      assert Less(done[i].key, fields[0].key);
      LessAsymmetric(done[i].key, fields[0].key);
    } else if i > |done| {
      assert all[i] == fields[i - |done|];
      LessAsymmetric(fields[0].key, fields[i - |done|].key);
    }
  }

  lemma BlockIsNoKey(f: Foreign, bs: seq<bool>, rest: bytes, n: nat, acc: Json)
    requires bs != [] && n > 0 && (acc.Null? || acc.Obj?)
    ensures ParseFields(f, Blocks(bs) + rest, n, acc).Fail?
  {
    hide ParseTerm, Emplace;
    ReadBlock(f, bs, rest);
  }

  lemma ValueFails(f: Foreign, k: bytes, d: bytes, mid: bytes, n: nat, acc: Json)
    requires acc.Null? || acc.Obj?
    requires ParseTerm(f, d) == Done(Str(k), mid) && ParseTerm(f, mid).Fail? && n > 0
    ensures ParseFields(f, d, n, acc).Fail?
  {
    hide ParseTerm, Emplace;
  }

  /** A value that came back changed stays changed. */
  lemma Changed(f: Foreign, fields: seq<Field>, done: seq<Field>, x: Json, d: bytes, n: nat)
    requires fields != [] && SortedKeys(fields) && KeysBelow(done, fields) && x != fields[0].value
    ensures var r := ParseFields(f, d, n, Object(done + [Field(fields[0].key, x)]));
            r.Fail? || r.value != Object(done + fields)
  {
    hide ParseFields, Less;
    var y := Field(fields[0].key, x);
    var r := ParseFields(f, d, n, Object(done + [y]));
    if r.Done? {
      FieldsKeep(f, d, n, Object(done + [y]), y);
      if y in done + fields {
        KeyUnique(done, fields, y);
      }
    }
  }

  lemma FieldsNext(fields: seq<Field>, done: seq<Field>)
    requires fields != [] && FieldsOk(fields) && KeysBelow(done, fields)
    ensures |fields[0].key| < TWO32 && Valid(fields[0].value)
    ensures FieldsOk(fields[1..]) && KeysBelow(done + [fields[0]], fields[1..])
    ensures forall i :: 0 <= i < |done| ==> Less(done[i].key, fields[0].key)
    ensures done + [fields[0]] + fields[1..] == done + fields
  {
    hide Less, Valid;
  }

  lemma NothingBehind(f: Foreign, done: seq<Field>, rest: bytes)
    ensures Gives(ParseFields(f, BuildFields([]) + rest, 0, Object(done)), Object(done + []), BackFields([]), rest)
  {
    hide ParseTerm, Emplace;
    assert [] + rest == rest && done + [] == done;
    NoBlocks();
  }

  /** Fields behind those already read. */
  lemma {:induction false} FieldsBack(f: Foreign, fields: seq<Field>, done: seq<Field>, rest: bytes)
    requires FieldsOk(fields) && KeysBelow(done, fields)
    ensures Gives(ParseFields(f, BuildFields(fields) + rest, |fields|, Object(done)), Object(done + fields), BackFields(fields), rest)
    decreases fields, 0
  {
    hide ParseTerm, ParseFields, Build, BuildStr, BuildFields, BackFields, Valid, Back, Blocks, FieldsOk, KeysBelow, SortedKeys, Less, Object;
    if fields == [] {
      NothingBehind(f, done, rest);
    } else {
      BackFieldsStep(fields);
      var k, v, more := fields[0].key, fields[0].value, fields[1..];
      var tail := BuildFields(more) + rest;
      FieldBytes(fields, rest);
      FieldsNext(fields, done);
      StrTrip(f, k, Build(v) + tail);
      BackExactly(f, v, tail);
      var d, mid := BuildStr(k) + (Build(v) + tail), Build(v) + tail;
      var x := ParseTerm(f, mid);
      if x.Fail? {
        ValueFails(f, k, d, mid, |fields|, Object(done));
      } else {
        FieldStep(f, k, x.value, d, mid, x.rest, |fields|, done);
        assert fields[0] == Field(k, v);
        if Back(v).None? {
          assert SortedKeys(fields) by { SortedOf(fields); }
          Changed(f, fields, done, x.value, x.rest, |fields| - 1);
        } else if Back(v).value == [] {
          NoBlocks();
          FieldsBack(f, more, done + [fields[0]], rest);
        } else if |fields| == 1 {
          LastField(f, more, rest, x.rest, Object(done + [fields[0]]));
          assert done + fields == done + [fields[0]];
        } else {
          BlockIsNoKey(f, Back(v).value, tail, |fields| - 1, Object(done + [fields[0]]));
        }
      }
    }
  }

  lemma BackFieldsStep(fields: seq<Field>)
    requires fields != []
    ensures BackFields(fields) ==
              if Back(fields[0].value).None? then None
              else if Back(fields[0].value).value == [] then BackFields(fields[1..])
              else if |fields| == 1 then Back(fields[0].value)
              else None
  {
    hide Back;
  }

  lemma SortedOf(fields: seq<Field>)
    requires FieldsOk(fields)
    ensures SortedKeys(fields)
  {
  }

  lemma LastField(f: Foreign, more: seq<Field>, rest: bytes, d: bytes, acc: Json)
    requires more == [] && (acc.Null? || acc.Obj?)
    ensures BuildFields(more) + rest == rest
    ensures ParseFields(f, d, 0, acc) == Done(acc, d)
  {
    assert [] + rest == rest;
  }

  lemma MapBack(f: Foreign, fields: seq<Field>, rest: bytes)
    requires |fields| < TWO32
    requires Gives(ParseFields(f, BuildFields(fields) + rest, |fields|, Object([])), Object([] + fields), BackFields(fields), rest)
    ensures Gives(ParseTerm(f, Build(Obj(fields)) + rest), Obj(fields), Back(Obj(fields)), rest)
  {
    hide ParseTerm, ParseFields, BuildFields, BackFields, BeDigits;
    var body := BuildFields(fields) + rest;
    var r := BeDigits(|fields|, 4) + body;
    assert Build(Obj(fields)) + rest == [MAP] + r;
    Dispatch(f, MAP, r);
    Pow256Is();
    TakeDigits(|fields|, 4, body);
    assert [] + fields == fields;
    assert fields == [] ==> BackFields(fields) == Some([]) by { NoFieldsBack(); }
  }

  lemma NoFieldsBack()
    ensures BackFields([]) == Some([])
  {
  }

  // ---- messages ----------------------------------------------------------------------------------------------

  /**
   A whole message, for every value: it comes back unchanged and in full exactly if it holds no
   empty array and survives; it comes back unchanged, possibly with bytes left over that the
   parser ignores, exactly if `Back` says so; without empty arrays it always comes back as its echo.
   */
  lemma {:induction false} MessageTrip(f: Foreign, v: Json)
    requires Valid(v)
    ensures Parse(f, BuildMessage(v)) == Done(v, []) <==> NoEmptyArray(v) && Survives(v)
    ensures (Parse(f, BuildMessage(v)).Done? && Parse(f, BuildMessage(v)).value == v) <==> Back(v).Some?
    ensures NoEmptyArray(v) ==> Parse(f, BuildMessage(v)) == Done(Echo(v), [])
  {
    hide ParseTerm, Build, Echo, Valid, NoEmptyArray, Survives, Back, Blocks;
    BackExactly(f, v, []);
    BackClean(v);
    assert Build(v) + [] == Build(v) == BuildMessage(v)[1..];
    if NoEmptyArray(v) {
      Trip(f, v, []);
    }
    if Back(v).Some? {
      BlocksSize(Back(v).value);
      assert Blocks(Back(v).value) + [] == Blocks(Back(v).value);
    }
  }

  lemma BlocksSize(bs: seq<bool>)
    ensures Blocks(bs) == [] <==> bs == []
  {
  }

  // ---- empty arrays in a row ---------------------------------------------------------------------------------

  /** An empty array writes a nil and then a list as well: only the nil is read back. */
  lemma {:induction false} EmptyArrayLeavesBytes(f: Foreign, rest: bytes)
    ensures ParseTerm(f, Build(Arr([])) + rest) == Done(Arr([]), [LIST, 0, 0, 0, 0, NIL] + rest)
  {
    hide ParseTerm, Build;
    EmptyArrayBytes();
    ReadBlock(f, [true, false], rest);
    assert [true, false][1..] == [false] && [false][1..] == [];
    assert Blocks([false]) == EMPTY_LIST;
  }

  /** An array of empty arrays reads back as itself if their number is even, and as null if it is odd. */
  lemma {:induction false} EmptyArraysByParity(f: Foreign, n: nat, rest: bytes)
    requires 0 < n < TWO32
    ensures var r := ParseTerm(f, Build(Arr(Empties(n))) + rest);
            r.Done? && r.value == if n % 2 == 0 then Arr(Empties(n)) else Null
  {
    hide ParseTerm, ParseMany, Build, BackAll, BuildAll, BeDigits, Blocks, Valid, Empties;
    var items := Empties(n);
    EmptiesBack(n);
    EmptiesValid(n);
    var left := BackAll([], items).value;
    var body := BuildAll(items) + ([NIL] + rest);
    AllBack(f, [], items, [NIL] + rest);
    NoBlocks();
    ListBytes(items, rest);
    ReadList(f, n, body);
    TailBack(left, rest);
  }

  lemma {:induction false} EmptiesValid(n: nat)
    ensures forall i :: 0 <= i < n ==> Empties(n)[i] == Arr([]) && Valid(Empties(n)[i])
  {
    if n > 0 {
      EmptiesValid(n - 1);
    }
  }
}
