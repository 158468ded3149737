/** What a JSON value becomes when it is written and read back. */
module EtfProof {
  import opened Bytes
  import opened Etf

  // ---- which values ---------------------------------------------------------------------------

  ghost predicate SortedKeys(fields: seq<Field>) {
    forall i, j :: 0 <= i < j < |fields| ==> Less(fields[i].key, fields[j].key)
  }

  /** A JSON value as the JSON library holds it, with lengths that fit 32-bit fields. */
  ghost predicate Valid(v: Json) {
    match v
    case Int(n) => -TWO63 <= n < TWO64
    case Float(bits) => bits < TWO64
    case Str(s) => |s| < TWO32
    case Arr(items) => |items| < TWO32 - 1 && forall i :: 0 <= i < |items| ==> Valid(items[i])
    case Obj(fields) =>
      && |fields| < TWO32 - 1 && SortedKeys(fields)
      && forall i :: 0 <= i < |fields| ==> |fields[i].key| < TWO32 && Valid(fields[i].value)
    case _ => true
  }

  /** No array in the value is empty. */
  ghost predicate NoEmptyArray(v: Json) {
    match v
    case Arr(items) => items != [] && forall i :: 0 <= i < |items| ==> NoEmptyArray(items[i])
    case Obj(fields) => forall i :: 0 <= i < |fields| ==> NoEmptyArray(fields[i].value)
    case _ => true
  }

  /** What an integer comes back as: itself, its low 32 bits, or its decimal text. */
  function Trimmed(n: int): Json {
    var m := Signed64(n % TWO64);
    if m >= TWO32 - 2 then Str(Decimal(m)) else Int(Signed32(m % TWO32))
  }

  /** What a value comes back as. */
  function Echo(v: Json): Json
    decreases v, 1
  {
    match v
    case Int(n) => Trimmed(n)
    case Arr(items) => Arr(EchoAll(items))
    case Obj(fields) => if fields == [] then Null else Obj(EchoFields(fields))
    case _ => v
  }

  function EchoAll(items: seq<Json>): (r: seq<Json>)
    ensures |r| == |items|
    decreases items, 0
  {
    if items == [] then [] else [Echo(items[0])] + EchoAll(items[1..])
  }

  function EchoFields(fields: seq<Field>): (r: seq<Field>)
    ensures |r| == |fields|
    decreases fields, 0
  {
    if fields == [] then [] else [Field(fields[0].key, Echo(fields[0].value))] + EchoFields(fields[1..])
  }

  /** The values that survive: no empty object, and integers that fit 32 signed bits. */
  ghost predicate Survives(v: Json) {
    match v
    case Int(n) => -TWO31 <= n < TWO31
    case Arr(items) => forall i :: 0 <= i < |items| ==> Survives(items[i])
    case Obj(fields) => fields != [] && forall i :: 0 <= i < |fields| ==> Survives(fields[i].value)
    case _ => true
  }

  // ---- reading back what was written ------------------------------------------------------------

  /** How a term is dispatched on its first byte. */
  lemma Dispatch(f: Foreign, t: byte, r: bytes)
    ensures var p := ParseTerm(f, [t] + r);
            && (t == SMALL_INT && |r| >= 1 ==> p == Done(Int(BeValue(r[..1])), r[1..]))
            && (t == INTEGER && |r| >= 4 ==> p == Done(Int(Signed32(BeValue(r[..4]))), r[4..]))
            && (t == NEW_FLOAT && |r| >= 8 ==> p == Done(Float(BeValue(r[..8])), r[8..]))
            && (t == ATOM_SMALL ==> p == DecodeAtom(r, 1))
            && (t == LIST ==> p == DecodeList(f, r))
            && (t == MAP ==> p == DecodeMap(f, r))
            && (t == BINARY ==> p == DecodeBinary(r))
            && (t == BIG_SMALL ==> p == DecodeBig(r, 1))
            && (t == NIL ==> p == Done(Arr([]), r))
  {
    hide DecodeAtom, DecodeList, DecodeMap, DecodeBinary, DecodeBig, DecodeTuple, BeValue;
    hide DecodeReference, DecodeNewReference, DecodePort, DecodePid, DecodeExport, DecodeStringAsList, DecodeFloatText;
    assert ([t] + r)[1..] == r;
  }

  lemma TakeDigits(n: nat, k: nat, r: bytes)
    requires n < Pow256(k)
    ensures Take(BeDigits(n, k) + r, k) == Done(n, r)
  {
    hide BeValue, BeDigits;
    BeRoundTrip(n, k);
    var d := BeDigits(n, k) + r;
    assert d[..k] == BeDigits(n, k) && d[k..] == r;
  }

  lemma StrTrip(f: Foreign, s: bytes, rest: bytes)
    requires |s| < TWO32
    ensures ParseTerm(f, BuildStr(s) + rest) == Done(Str(s), rest)
  {
    hide ParseTerm, Take, BeDigits, BeValue;
    var r := BeDigits(|s|, 4) + (s + rest);
    assert BuildStr(s) + rest == [BINARY] + r;
    Dispatch(f, BINARY, r);
    Pow256Is();
    TakeDigits(|s|, 4, s + rest);
    assert (s + rest)[..|s|] == s && (s + rest)[|s|..] == rest;
  }

  lemma FloatTrip(f: Foreign, bits: nat, rest: bytes)
    requires bits < TWO64
    ensures ParseTerm(f, [NEW_FLOAT] + BeDigits(bits, 8) + rest) == Done(Float(bits), rest)
  {
    hide ParseTerm, BeDigits, BeValue;
    var r := BeDigits(bits, 8) + rest;
    assert [NEW_FLOAT] + BeDigits(bits, 8) + rest == [NEW_FLOAT] + r;
    Dispatch(f, NEW_FLOAT, r);
    Pow256Is();
    TakeDigits(bits, 8, rest);
  }

  lemma AtomTrip(f: Foreign, name: bytes, rest: bytes)
    requires |name| < 256
    ensures ParseTerm(f, [ATOM_SMALL, |name|] + name + rest) == Done(AtomValue(name), rest)
  {
    hide ParseTerm, AtomValue, BeValue;
    var r := [|name|] + (name + rest);
    assert [ATOM_SMALL, |name|] + name + rest == [ATOM_SMALL] + r;
    Dispatch(f, ATOM_SMALL, r);
    assert r[..1] == [|name|] && r[1..] == name + rest;
    OneByte(|name|);
    assert (name + rest)[..|name|] == name && (name + rest)[|name|..] == rest;
  }

  // ---- integers ------------------------------------------------------------------------------

  lemma {:induction false} MinimalValue(n: nat)
    ensures Value(Minimal(n)) == n
  {
    if n > 0 {
      MinimalValue(n / 256);
      assert Minimal(n)[1..] == Minimal(n / 256);
    }
  }

  lemma {:induction false} MinimalSize(n: nat, k: nat)
    requires n < Pow256(k)
    ensures |Minimal(n)| <= k
  {
    if n > 0 {
      MinimalSize(n / 256, k - 1);
    }
  }

  lemma {:induction false} BigTrip(f: Foreign, n: nat, rest: bytes)
    requires TWO32 - 2 <= n < TWO63
    ensures ParseTerm(f, BuildBig(n) + rest) == Done(Str(Decimal(n)), rest)
  {
    hide ParseTerm, DecodeBig, Value, Minimal, Decimal, Pow256;
    var m := Minimal(n);
    Pow256Is();
    MinimalSize(n, 8);
    MinimalValue(n);
    BigText32(m, n);
    var r := [|m|] + ([0] + (m + rest));
    assert BuildBig(n) + rest == [BIG_SMALL] + r;
    Dispatch(f, BIG_SMALL, r);
    BigRead(m, rest);
  }

  /** A positive big integer of at most eight digits. */
  lemma BigRead(m: bytes, rest: bytes)
    requires |m| <= 8
    ensures DecodeBig([|m|] + ([0] + (m + rest)), 1) == Done(Str(BigText(|m|, 0, Value(m))), rest)
  {
    hide Value, BigText, BeValue;
    var r := [|m|] + ([0] + (m + rest));
    assert r[..1] == [|m|] && r[1..] == [0] + (m + rest);
    OneByte(|m|);
    OneByte(0);
    var q := r[1..];
    assert q[..1] == [0] && q[1..] == m + rest;
    assert (m + rest)[..|m|] == m && (m + rest)[|m|..] == rest;
  }

  lemma OneByte(b: byte)
    ensures BeValue([b]) == b
  {
    assert [b][..0] == [];
  }

  /** A number of at most four digits is its own low 32 bits. */
  lemma BigText32(m: bytes, n: nat)
    requires Value(m) == n
    ensures |m| <= 4 ==> n % TWO32 == n
  {
    Pow256Is();
    if |m| < 4 {
      Pow256Less(|m|, 4);
    }
  }

  lemma {:induction false} Pow256Less(a: nat, b: nat)
    requires a <= b
    ensures Pow256(a) <= Pow256(b)
  {
    if a < b {
      Pow256Less(a, b - 1);
    }
  }

  lemma SmallTrip(f: Foreign, m: byte, rest: bytes)
    ensures ParseTerm(f, [SMALL_INT, m] + rest) == Done(Int(m), rest)
  {
    hide ParseTerm, BeValue;
    var r := [m] + rest;
    assert [SMALL_INT, m] + rest == [SMALL_INT] + r;
    Dispatch(f, SMALL_INT, r);
    OneByte(m);
    assert r[..1] == [m] && r[1..] == rest;
  }

  lemma WordTrip(f: Foreign, w: uint32, rest: bytes)
    ensures ParseTerm(f, [INTEGER] + BeDigits(w, 4) + rest) == Done(Int(Signed32(w)), rest)
  {
    hide ParseTerm, BeDigits, BeValue, Signed32;
    var r := BeDigits(w, 4) + rest;
    assert [INTEGER] + BeDigits(w, 4) + rest == [INTEGER] + r;
    Dispatch(f, INTEGER, r);
    Pow256Is();
    TakeDigits(w, 4, rest);
  }

  lemma IntTrip(f: Foreign, n: int, rest: bytes)
    requires -TWO63 <= n < TWO64
    ensures ParseTerm(f, BuildInt(n) + rest) == Done(Trimmed(n), rest)
  {
    hide ParseTerm, BuildBig, BeDigits, BeValue, Decimal;
    var m := Signed64(n % TWO64);
    if 0 <= m <= 127 {
      SmallTrip(f, m, rest);
    } else if m >= TWO32 - 2 {
      BigTrip(f, m, rest);
    } else {
      WordTrip(f, m % TWO32, rest);
    }
  }

  // ---- objects --------------------------------------------------------------------------------

  lemma {:induction false} LessAsymmetric(a: bytes, b: bytes)
    requires Less(a, b)
    ensures a != b && !Less(b, a)
  {
    if a != [] && a[0] == b[0] {
      LessAsymmetric(a[1..], b[1..]);
    }
  }

  lemma {:induction false} EmplaceLast(fields: seq<Field>, k: bytes, v: Json)
    requires forall i :: 0 <= i < |fields| ==> Less(fields[i].key, k)
    ensures Emplace(fields, k, v) == fields + [Field(k, v)]
    decreases |fields|
  {
    if fields != [] {
      LessAsymmetric(fields[0].key, k);
      EmplaceLast(fields[1..], k, v);
      assert [fields[0]] + (fields[1..] + [Field(k, v)]) == fields + [Field(k, v)];
    }
  }

  ghost predicate KeysBelow(done: seq<Field>, fields: seq<Field>) {
    forall i, j :: 0 <= i < |done| && 0 <= j < |fields| ==> Less(done[i].key, fields[j].key)
  }

  function Object(fields: seq<Field>): (r: Json)
    ensures r.Null? || r.Obj?
  {
    if fields == [] then Null else Obj(fields)
  }

  lemma {:induction false} FieldStep(f: Foreign, k: bytes, v: Json, d: bytes, mid: bytes, tail: bytes, n: nat, done: seq<Field>)
    requires ParseTerm(f, d) == Done(Str(k), mid) && ParseTerm(f, mid) == Done(v, tail) && n > 0
    requires forall i :: 0 <= i < |done| ==> Less(done[i].key, k)
    ensures ParseFields(f, d, n, Object(done)) == ParseFields(f, tail, n - 1, Object(done + [Field(k, v)]))
  {
    hide ParseTerm, ParseFields, Less, Emplace;
    EmplaceLast(done, k, v);
    ParseField(f, k, v, d, mid, tail, n, Object(done));
  }

  lemma {:induction false} ParseField(f: Foreign, k: bytes, v: Json, d: bytes, mid: bytes, tail: bytes, n: nat, acc: Json)
    requires acc.Null? || acc.Obj?
    requires ParseTerm(f, d) == Done(Str(k), mid) && ParseTerm(f, mid) == Done(v, tail) && n > 0
    ensures ParseFields(f, d, n, acc) == ParseFields(f, tail, n - 1, Obj(Emplace(if acc.Null? then [] else acc.fields, k, v)))
  {
    hide ParseTerm, Emplace;
  }

  ghost predicate FieldsOk(fields: seq<Field>) {
    && SortedKeys(fields)
    && forall i :: 0 <= i < |fields| ==> |fields[i].key| < TWO32 && Valid(fields[i].value)
  }

  ghost predicate FieldsValid(fields: seq<Field>) {
    FieldsOk(fields) && forall i :: 0 <= i < |fields| ==> NoEmptyArray(fields[i].value)
  }

  lemma FieldBytes(fields: seq<Field>, rest: bytes)
    requires fields != []
    ensures BuildFields(fields) + rest == BuildStr(fields[0].key) + (Build(fields[0].value) + (BuildFields(fields[1..]) + rest))
  {
    hide Build, BuildStr;
    var a, b, c := BuildStr(fields[0].key), Build(fields[0].value), BuildFields(fields[1..]);
    Assoc(a + b, c, rest);
    Assoc(a, b, c + rest);
  }

  lemma FieldsPeel(fields: seq<Field>, done: seq<Field>, rest: bytes)
    requires fields != []
    ensures BuildFields(fields) + rest == BuildStr(fields[0].key) + (Build(fields[0].value) + (BuildFields(fields[1..]) + rest))
    ensures done + [Field(fields[0].key, Echo(fields[0].value))] + EchoFields(fields[1..]) == done + EchoFields(fields)
  {
    hide Build, BuildStr, BuildFields, Echo;
    FieldBytes(fields, rest);
    Assoc(done, [Field(fields[0].key, Echo(fields[0].value))], EchoFields(fields[1..]));
  }

  lemma FieldsPeelValid(fields: seq<Field>, done: seq<Field>, v: Json)
    requires fields != [] && FieldsValid(fields) && KeysBelow(done, fields)
    ensures |fields[0].key| < TWO32 && Valid(fields[0].value) && NoEmptyArray(fields[0].value)
    ensures FieldsValid(fields[1..]) && KeysBelow(done + [Field(fields[0].key, v)], fields[1..])
    ensures forall i :: 0 <= i < |done| ==> Less(done[i].key, fields[0].key)
  {
    hide Less, Valid, NoEmptyArray;
  }

  lemma {:induction false} FieldsTrip(f: Foreign, fields: seq<Field>, done: seq<Field>, rest: bytes)
    requires FieldsValid(fields) && KeysBelow(done, fields)
    ensures ParseFields(f, BuildFields(fields) + rest, |fields|, Object(done)) == Done(Object(done + EchoFields(fields)), rest)
    decreases fields, 0
  {
    if fields == [] {
      assert [] + rest == rest;
      assert done + [] == done;
    } else {
      hide *;
      var k, v, more := fields[0].key, fields[0].value, fields[1..];
      var tail := BuildFields(more) + rest;
      FieldsPeel(fields, done, rest);
      FieldsPeelValid(fields, done, Echo(v));
      StrTrip(f, k, Build(v) + tail);
      Trip(f, v, tail);
      FieldStep(f, k, Echo(v), BuildStr(k) + (Build(v) + tail), Build(v) + tail, tail, |fields|, done);
      FieldsTrip(f, more, done + [Field(k, Echo(v))], rest);
    }
  }

  lemma ManyTrip(f: Foreign, items: seq<Json>, rest: bytes)
    requires forall i :: 0 <= i < |items| ==> Valid(items[i]) && NoEmptyArray(items[i])
    ensures ParseMany(f, BuildAll(items) + rest, |items|) == Done(EchoAll(items), rest)
    decreases items, 0
  {
    if items == [] {
      assert [] + rest == rest;
    } else {
      hide ParseTerm, Build, Echo, Valid, NoEmptyArray;
      var tail := BuildAll(items[1..]) + rest;
      assert BuildAll(items) + rest == Build(items[0]) + tail;
      Trip(f, items[0], tail);
      ManyTrip(f, items[1..], rest);
    }
  }

  /** A list of `n` elements in front of `body`. */
  lemma ReadList(f: Foreign, n: nat, body: bytes)
    requires n < TWO32
    ensures var xs := ParseMany(f, body, n);
            ParseTerm(f, [LIST] + (BeDigits(n, 4) + body)) ==
              if xs.Fail? || xs.rest == [] then Fail
              else Done(if xs.rest[0] == NIL then Arr(xs.value) else Null, xs.rest[1..])
  {
    hide ParseTerm, ParseMany, BeDigits, BeValue;
    Dispatch(f, LIST, BeDigits(n, 4) + body);
    Pow256Is();
    TakeDigits(n, 4, body);
    var xs := ParseMany(f, body, n);
    if xs.Done? && xs.rest != [] {
      FirstByte(xs.rest);
    }
  }

  lemma FirstByte(d: bytes)
    requires d != []
    ensures BeValue(d[..1]) == d[0]
  {
    assert d[..1] == [d[0]];
    OneByte(d[0]);
  }

  lemma ListBytes(items: seq<Json>, rest: bytes)
    requires items != []
    ensures Build(Arr(items)) + rest == [LIST] + (BeDigits(|items|, 4) + (BuildAll(items) + ([NIL] + rest)))
  {
    hide BuildAll, BeDigits;
    var n, b := BeDigits(|items|, 4), BuildAll(items);
    assert Build(Arr(items)) == [LIST] + n + (b + [NIL]);
    Assoc([LIST] + n, b + [NIL], rest);
    Assoc(b, [NIL], rest);
    Assoc([LIST], n, b + ([NIL] + rest));
  }

  lemma ListTrip(f: Foreign, items: seq<Json>, rest: bytes)
    requires items != [] && |items| < TWO32
    requires ParseMany(f, BuildAll(items) + ([NIL] + rest), |items|) == Done(EchoAll(items), [NIL] + rest)
    ensures ParseTerm(f, Build(Arr(items)) + rest) == Done(Arr(EchoAll(items)), rest)
  {
    hide ParseTerm, ParseMany, Build, BuildAll, EchoAll, BeDigits;
    ListBytes(items, rest);
    ReadList(f, |items|, BuildAll(items) + ([NIL] + rest));
  }

  lemma {:induction false} MapTrip(f: Foreign, fields: seq<Field>, rest: bytes)
    requires |fields| < TWO32
    requires ParseFields(f, BuildFields(fields) + rest, |fields|, Object([])) == Done(Object([] + EchoFields(fields)), rest)
    ensures ParseTerm(f, Build(Obj(fields)) + rest) == Done(Object(EchoFields(fields)), rest)
  {
    hide ParseTerm, ParseFields, BuildFields, EchoFields, BeDigits;
    var body := BuildFields(fields) + rest;
    var r := BeDigits(|fields|, 4) + body;
    assert Build(Obj(fields)) + rest == [MAP] + r;
    Dispatch(f, MAP, r);
    Pow256Is();
    TakeDigits(|fields|, 4, body);
    assert [] + EchoFields(fields) == EchoFields(fields);
  }

  /**
   The round trip: a value with no empty array, written in front of anything, reads back as
   its echo, and exactly the bytes written are consumed.
   */
  lemma {:induction false} Trip(f: Foreign, v: Json, rest: bytes)
    requires Valid(v) && NoEmptyArray(v)
    ensures ParseTerm(f, Build(v) + rest) == Done(Echo(v), rest)
    decreases v, 1
  {
    hide ParseTerm;
    match v
    case Int(n) => IntTrip(f, n, rest);
    case Float(bits) => FloatTrip(f, bits, rest);
    case Null => AtomTrip(f, NIL_NAME, rest);
    case Bool(b) => AtomTrip(f, if b then TRUE_NAME else FALSE_NAME, rest);
    case Str(s) => StrTrip(f, s, rest);
    case Arr(items) =>
      ManyTrip(f, items, [NIL] + rest);
      ListTrip(f, items, rest);
    case Obj(fields) =>
      FieldsTrip(f, fields, [], rest);
      MapTrip(f, fields, rest);
  }

  /** A value with no empty array comes back unchanged exactly when it survives. */
  lemma {:induction false} EchoIsSame(v: Json)
    requires Valid(v)
    ensures Echo(v) == v <==> Survives(v)
    decreases v, 1
  {
    hide Valid;
    match v
    case Int(n) =>
      assert -TWO63 <= n < TWO64 by { IntRange(n); }
      IntSurvives(n);
    case Arr(items) =>
      ArrValid(items);
      AllSame(items);
    case Obj(fields) =>
      ObjValid(fields);
      FieldsSame(fields);
    case _ =>
  }

  lemma IntRange(n: int)
    requires Valid(Int(n))
    ensures -TWO63 <= n < TWO64
  {
  }

  lemma ArrValid(items: seq<Json>)
    requires Valid(Arr(items))
    ensures forall i :: 0 <= i < |items| ==> Valid(items[i])
  {
  }

  lemma ObjValid(fields: seq<Field>)
    requires Valid(Obj(fields))
    ensures forall i :: 0 <= i < |fields| ==> Valid(fields[i].value)
  {
  }

  lemma IntSurvives(n: int)
    requires -TWO63 <= n < TWO64
    ensures Trimmed(n) == Int(n) <==> -TWO31 <= n < TWO31
  {
    hide Decimal;
    var m := Signed64(n % TWO64);
    assert m == if n < TWO63 then n else n - TWO64 by {
      assert n % TWO64 == if n < 0 then n + TWO64 else n;
    }
    if -TWO31 <= m < TWO31 {
      assert m % TWO32 == if m < 0 then m + TWO32 else m;
    }
  }

  lemma {:induction false} AllSame(items: seq<Json>)
    requires forall i :: 0 <= i < |items| ==> Valid(items[i])
    ensures EchoAll(items) == items <==> forall i :: 0 <= i < |items| ==> Survives(items[i])
    decreases items, 0
  {
    hide Valid;
    if items != [] {
      EchoIsSame(items[0]);
      AllSame(items[1..]);
      hide Echo, Survives;
      assert items == [items[0]] + items[1..];
      assert forall i :: 0 < i < |items| ==> items[i] == items[1..][i - 1];
    }
  }

  lemma {:induction false} FieldsSame(fields: seq<Field>)
    requires forall i :: 0 <= i < |fields| ==> Valid(fields[i].value)
    ensures EchoFields(fields) == fields <==> forall i :: 0 <= i < |fields| ==> Survives(fields[i].value)
    decreases fields, 0
  {
    hide Valid;
    if fields != [] {
      EchoIsSame(fields[0].value);
      FieldsSame(fields[1..]);
      hide Echo, Survives;
      assert fields == [fields[0]] + fields[1..];
      assert forall i :: 0 < i < |fields| ==> fields[i] == fields[1..][i - 1];
    }
  }
}
