/**
 The Erlang External Term Format as the library writes and reads it, over JSON values.
 Writing is `Build`; reading is `ParseTerm`, on the bytes not yet consumed.
 */
module Etf {
  import opened Bytes

  /**
   A JSON value. Numbers are exact: integers within the ranges of int64 and uint64, floating
   point numbers as their 64-bit patterns. Objects list their fields in key order.
   */
  datatype Json =
    | Null
    | Bool(b: bool)
    | Int(n: int)
    | Float(bits: nat)
    | Str(s: bytes)
    | Arr(items: seq<Json>)
    | Obj(fields: seq<Field>)

  datatype Field = Field(key: bytes, value: Json)

  /** Library calls the parser makes: text to double, and double to unsigned integer. */
  datatype Foreign = Foreign(scan: bytes -> Option<uint64>, truncate: nat -> uint64)

  datatype Parsed<+T> = Fail | Done(value: T, rest: bytes)

  const VERSION: byte := 131
  const NEW_FLOAT: byte := 70
  const SMALL_INT: byte := 97
  const INTEGER: byte := 98
  const FLOAT_TEXT: byte := 99
  const ATOM: byte := 100
  const REFERENCE: byte := 101
  const PORT: byte := 102
  const PID: byte := 103
  const SMALL_TUPLE: byte := 104
  const LARGE_TUPLE: byte := 105
  const NIL: byte := 106
  const STRING: byte := 107
  const LIST: byte := 108
  const BINARY: byte := 109
  const BIG_SMALL: byte := 110
  const BIG_LARGE: byte := 111
  const EXPORT: byte := 113
  const NEW_REFERENCE: byte := 114
  const ATOM_SMALL: byte := 115
  const MAP: byte := 116

  const NULL_NAME: bytes := [110, 117, 108, 108]
  const TRUE_NAME: bytes := [116, 114, 117, 101]
  const FALSE_NAME: bytes := [102, 97, 108, 115, 101]
  const NIL_NAME: bytes := [110, 105, 108]

  const TWO31: int := 0x8000_0000
  const TWO63: int := 0x8000_0000_0000_0000

  // ---- numbers ------------------------------------------------------------------------------

  /** Two's complement reading of a 32-bit word. */
  function Signed32(w: nat): int {
    if w < TWO31 then w else w - TWO32
  }

  /** Two's complement reading of a 64-bit word. */
  function Signed64(w: nat): int {
    if w < TWO63 then w else w - TWO64
  }

  /** `std::to_string` of a non-negative number. */
  function Decimal(n: nat): bytes {
    if n < 10 then [48 + n] else Decimal(n / 10) + [48 + n % 10]
  }

  function DecimalInt(n: int): bytes {
    if n < 0 then [45] + Decimal(-n) else Decimal(n)
  }

  /** The base-256 digits of `n`, least significant first, none for zero. */
  function Minimal(n: nat): bytes {
    if n == 0 then [] else [n % 256] + Minimal(n / 256)
  }

  // ---- writing -------------------------------------------------------------------------------

  function BuildBig(n: nat): bytes {
    [BIG_SMALL, |Minimal(n)| % 256, 0] + Minimal(n)
  }

  /** An integer, as the value `get<int64_t>` gives for it. */
  function BuildInt(n: int): bytes {
    var m := Signed64(n % TWO64);
    if 0 <= m <= 127 then [SMALL_INT, m]
    else if m >= TWO32 - 2 then BuildBig(m)
    else [INTEGER] + BeDigits(m % TWO32, 4)
  }

  function BuildStr(s: bytes): bytes {
    [BINARY] + BeDigits(|s|, 4) + s
  }

  function Build(v: Json): bytes
    decreases v, 1
  {
    match v
    case Int(n) => BuildInt(n)
    case Float(bits) => [NEW_FLOAT] + BeDigits(bits, 8)
    case Null => [ATOM_SMALL, 3] + NIL_NAME
    case Bool(b) => if b then [ATOM_SMALL, 4] + TRUE_NAME else [ATOM_SMALL, 5] + FALSE_NAME
    case Str(s) => BuildStr(s)
    case Arr(items) => (if items == [] then [NIL] else []) + ([LIST] + BeDigits(|items|, 4) + (BuildAll(items) + [NIL]))
    case Obj(fields) => [MAP] + BeDigits(|fields|, 4) + BuildFields(fields)
  }

  function BuildAll(items: seq<Json>): bytes
    decreases items, 0
  {
    if items == [] then [] else Build(items[0]) + BuildAll(items[1..])
  }

  function BuildFields(fields: seq<Field>): bytes
    decreases fields, 0
  {
    if fields == [] then []
    else BuildStr(fields[0].key) + Build(fields[0].value) + BuildFields(fields[1..])
  }

  // ---- reading -------------------------------------------------------------------------------

  /** `n` bytes as a big-endian number. */
  function Take(d: bytes, n: nat): (r: Parsed<nat>)
    ensures r.Done? ==> |r.rest| + n == |d| && r.rest == d[n..] && r.value == BeValue(d[..n])
    ensures r.Fail? <==> n > |d|
  {
    if n > |d| then Fail else Done(BeValue(d[..n]), d[n..])
  }

  function AtomValue(name: bytes): Json {
    if name == NULL_NAME || name == NIL_NAME then Null
    else if name == TRUE_NAME then Bool(true)
    else if name == FALSE_NAME then Bool(false)
    else Str(name)
  }

  /** An atom whose length field takes `w` bytes; a name that runs past the end reads as null. */
  function DecodeAtom(d: bytes, w: nat): Parsed<Json> {
    var n := Take(d, w);
    if n.Fail? then Fail
    else if n.value > |n.rest| then Done(Null, n.rest)
    else Done(AtomValue(n.rest[..n.value]), n.rest[n.value..])
  }

  function DecodeBinary(d: bytes): Parsed<Json> {
    var n := Take(d, 4);
    if n.Fail? then Fail
    else if n.value > |n.rest| then Done(Null, n.rest)
    else Done(Str(n.rest[..n.value]), n.rest[n.value..])
  }

  function DecodeFloatText(f: Foreign, d: bytes): Parsed<Json> {
    if |d| < 31 then Done(Null, d)
    else
      var x := f.scan(d[..31]);
      Done(if x.Some? then Float(x.value) else Null, d[31..])
  }

  function SmallInts(s: bytes): (r: seq<Json>)
    ensures |r| == |s|
  {
    if s == [] then [] else [Int(s[0])] + SmallInts(s[1..])
  }

  function DecodeStringAsList(d: bytes): Parsed<Json> {
    var n := Take(d, 2);
    if n.Fail? || n.value > |n.rest| then Fail
    else Done(Arr(SmallInts(n.rest[..n.value])), n.rest[n.value..])
  }

  /** A big integer becomes its decimal text. */
  function BigText(digits: nat, sign: nat, value: nat): bytes {
    if sign == 0 then Decimal(if digits <= 4 then value % TWO32 else value)
    else if digits <= 4 && value < TWO31 then DecimalInt(0 - value)
    else
      var n := Signed64(value % TWO64);
      DecimalInt(if n == -TWO63 then n else -n)
  }

  /** A big integer whose digit count takes `w` bytes; at most eight digits are read. */
  function DecodeBig(d: bytes, w: nat): Parsed<Json> {
    var n := Take(d, w);
    if n.Fail? then Fail
    else
      var sign := Take(n.rest, 1);
      if sign.Fail? || n.value > 8 || n.value > |sign.rest| then Fail
      else Done(Str(BigText(n.value, sign.value, Value(sign.rest[..n.value]))), sign.rest[n.value..])
  }

  /** `std::string` order. */
  predicate Less(a: bytes, b: bytes) {
    if b == [] then false
    else if a == [] then true
    else a[0] < b[0] || (a[0] == b[0] && Less(a[1..], b[1..]))
  }

  /** `emplace`: the first value stored under a key stays. */
  function Emplace(fields: seq<Field>, k: bytes, v: Json): seq<Field> {
    if fields == [] then [Field(k, v)]
    else if fields[0].key == k then fields
    else if Less(k, fields[0].key) then [Field(k, v)] + fields
    else [fields[0]] + Emplace(fields[1..], k, v)
  }

  /** The text a map key stands for; other kinds of key are rejected. */
  function KeyText(f: Foreign, key: Json): Option<bytes> {
    match key
    case Int(n) => Some(Decimal(n % TWO64))
    case Float(bits) => Some(Decimal(f.truncate(bits)))
    case Str(s) => Some(s)
    case _ => None
  }

  const CREATION: bytes := [99, 114, 101, 97, 116, 105, 111, 110]
  const ID: bytes := [105, 100]
  const NODE: bytes := [110, 111, 100, 101]
  const SERIAL: bytes := [115, 101, 114, 105, 97, 108]
  const ARITY: bytes := [97, 114, 105, 116, 121]
  const FUN: bytes := [102, 117, 110]
  const MOD: bytes := [109, 111, 100]

  /** The rest of `d`, if it is one: what reading a term leaves. */
  ghost predicate Leaves<T>(d: bytes, r: Parsed<T>) {
    r.Done? ==> |r.rest| <= |d| && r.rest == d[|d| - |r.rest|..]
  }

  /** One term. Whatever the bytes are, reading either fails or consumes at least one of them. */
  function ParseTerm(f: Foreign, d: bytes): (r: Parsed<Json>)
    ensures Leaves(d, r) && (r.Done? ==> |r.rest| < |d|)
    decreases |d|, 0
  {
    if d == [] then Fail
    else
      var t, r := d[0], d[1..];
      if t == SMALL_INT then
        var x := Take(r, 1);
        if x.Fail? then Fail else Done(Int(x.value), x.rest)
      else if t == INTEGER then
        var x := Take(r, 4);
        if x.Fail? then Fail else Done(Int(Signed32(x.value)), x.rest)
      else if t == FLOAT_TEXT then DecodeFloatText(f, r)
      else if t == NEW_FLOAT then
        var x := Take(r, 8);
        if x.Fail? then Fail else Done(Float(x.value), x.rest)
      else if t == ATOM then DecodeAtom(r, 2)
      else if t == ATOM_SMALL then DecodeAtom(r, 1)
      else if t == SMALL_TUPLE then DecodeTuple(f, r, 1)
      else if t == LARGE_TUPLE then DecodeTuple(f, r, 4)
      else if t == NIL then Done(Arr([]), r)
      else if t == STRING then DecodeStringAsList(r)
      else if t == LIST then DecodeList(f, r)
      else if t == MAP then DecodeMap(f, r)
      else if t == BINARY then DecodeBinary(r)
      else if t == BIG_SMALL then DecodeBig(r, 1)
      else if t == BIG_LARGE then DecodeBig(r, 4)
      else if t == REFERENCE then DecodeReference(f, r)
      else if t == NEW_REFERENCE then DecodeNewReference(f, r)
      else if t == PORT then DecodePort(f, r)
      else if t == PID then DecodePid(f, r)
      else if t == EXPORT then DecodeExport(f, r)
      else Fail
  }

  /** `n` terms in a row. */
  function ParseMany(f: Foreign, d: bytes, n: nat): (r: Parsed<seq<Json>>)
    ensures Leaves(d, r) && (r.Done? ==> |r.value| == n)
    decreases |d|, 1
  {
    if n == 0 then Done([], d)
    else
      var x := ParseTerm(f, d);
      if x.Fail? then Fail
      else
        var more := ParseMany(f, x.rest, n - 1);
        if more.Fail? then Fail else Done([x.value] + more.value, more.rest)
  }

  function DecodeTuple(f: Foreign, d: bytes, w: nat): (r: Parsed<Json>)
    ensures Leaves(d, r)
    decreases |d|, 2
  {
    var n := Take(d, w);
    if n.Fail? then Fail
    else
      var xs := ParseMany(f, n.rest, n.value);
      if xs.Fail? then Fail else Done(Arr(xs.value), xs.rest)
  }

  /** A list whose tail is not nil reads as null. */
  function DecodeList(f: Foreign, d: bytes): (r: Parsed<Json>)
    ensures Leaves(d, r)
    decreases |d|, 2
  {
    var n := Take(d, 4);
    if n.Fail? then Fail
    else
      var xs := ParseMany(f, n.rest, n.value);
      if xs.Fail? then Fail
      else
        var tail := Take(xs.rest, 1);
        if tail.Fail? then Fail
        else Done(if tail.value == NIL then Arr(xs.value) else Null, tail.rest)
  }

  /** `n` more fields into an object; an object no field was put into is null. */
  function ParseFields(f: Foreign, d: bytes, n: nat, acc: Json): (r: Parsed<Json>)
    requires acc.Null? || acc.Obj?
    ensures Leaves(d, r)
    decreases |d|, 1
  {
    if n == 0 then Done(acc, d)
    else
      var key := ParseTerm(f, d);
      if key.Fail? then Fail
      else
        var k, v := KeyText(f, key.value), ParseTerm(f, key.rest);
        if k.None? || v.Fail? then Fail
        else
          var fields := if acc.Null? then [] else acc.fields;
          ParseFields(f, v.rest, n - 1, Obj(Emplace(fields, k.value, v.value)))
  }

  function DecodeMap(f: Foreign, d: bytes): (r: Parsed<Json>)
    ensures Leaves(d, r)
    decreases |d|, 2
  {
    var n := Take(d, 4);
    if n.Fail? then Fail else ParseFields(f, n.rest, n.value, Null)
  }

  /** Signed words, as many as asked for. */
  function Ids(d: bytes, n: nat): (r: Parsed<seq<Json>>)
    ensures Leaves(d, r)
    decreases n
  {
    if n == 0 then Done([], d)
    else
      var x := Take(d, 4);
      if x.Fail? then Fail
      else
        var more := Ids(x.rest, n - 1);
        if more.Fail? then Fail else Done([Int(Signed32(x.value))] + more.value, more.rest)
  }

  function DecodeReference(f: Foreign, d: bytes): (r: Parsed<Json>)
    ensures Leaves(d, r)
    decreases |d|, 2
  {
    var node := ParseTerm(f, d);
    if node.Fail? then Fail
    else
      var ids := Ids(node.rest, 1);
      if ids.Fail? then Fail
      else
        var c := Take(ids.rest, 1);
        if c.Fail? then Fail
        else Done(Obj([Field(CREATION, Int(c.value)), Field(ID, Arr(ids.value)), Field(NODE, node.value)]), c.rest)
  }

  function DecodeNewReference(f: Foreign, d: bytes): (r: Parsed<Json>)
    ensures Leaves(d, r)
    decreases |d|, 2
  {
    var n := Take(d, 2);
    if n.Fail? then Fail
    else
      var node := ParseTerm(f, n.rest);
      if node.Fail? then Fail
      else
        var c := Take(node.rest, 1);
        if c.Fail? then Fail
        else
          var ids := Ids(c.rest, n.value);
          if ids.Fail? then Fail
          else Done(Obj([Field(CREATION, Int(c.value)), Field(ID, Arr(ids.value)), Field(NODE, node.value)]), ids.rest)
  }

  function DecodePort(f: Foreign, d: bytes): (r: Parsed<Json>)
    ensures Leaves(d, r)
    decreases |d|, 2
  {
    var node := ParseTerm(f, d);
    if node.Fail? then Fail
    else
      var id := Take(node.rest, 4);
      if id.Fail? then Fail
      else
        var c := Take(id.rest, 1);
        if c.Fail? then Fail
        else Done(Obj([Field(CREATION, Int(c.value)), Field(ID, Int(id.value)), Field(NODE, node.value)]), c.rest)
  }

  function DecodePid(f: Foreign, d: bytes): (r: Parsed<Json>)
    ensures Leaves(d, r)
    decreases |d|, 2
  {
    var node := ParseTerm(f, d);
    if node.Fail? then Fail
    else
      var id := Take(node.rest, 4);
      if id.Fail? then Fail
      else
        var serial := Take(id.rest, 4);
        if serial.Fail? then Fail
        else
          var c := Take(serial.rest, 1);
          if c.Fail? then Fail
          else Done(Obj([Field(CREATION, Int(c.value)), Field(ID, Int(id.value)), Field(NODE, node.value), Field(SERIAL, Int(serial.value))]), c.rest)
  }

  function DecodeExport(f: Foreign, d: bytes): (r: Parsed<Json>)
    ensures Leaves(d, r)
    decreases |d|, 2
  {
    var m := ParseTerm(f, d);
    if m.Fail? then Fail
    else
      var fn := ParseTerm(f, m.rest);
      if fn.Fail? then Fail
      else
        var a := ParseTerm(f, fn.rest);
        if a.Fail? then Fail
        else Done(Obj([Field(ARITY, a.value), Field(FUN, fn.value), Field(MOD, m.value)]), a.rest)
  }

  /** A whole message: the format version, then one term. Bytes behind the term are ignored. */
  function Parse(f: Foreign, d: bytes): Parsed<Json> {
    if d == [] || d[0] != VERSION then Fail else ParseTerm(f, d[1..])
  }

  function BuildMessage(v: Json): bytes {
    [VERSION] + Build(v)
  }
}
