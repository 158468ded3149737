/**
 How each external term reads, from its bytes: the parser's result for every form of the format,
 also those the writer never produces, with tag numbers and names as the format gives them.
 */
module EtfForms {
  import opened Bytes
  import opened Etf
  import opened EtfProof

  /** Whatever follows them, the bytes `d` read as `v` and no further. */
  ghost predicate Spells(f: Foreign, d: bytes, v: Json) {
    forall rest: bytes :: ParseTerm(f, d + rest) == Done(v, rest)
  }

  // ---- the tags -----------------------------------------------------------------------------------

  /** What each tag byte leads to. */
  lemma ByTag(f: Foreign, t: byte, r: bytes)
    ensures var p := ParseTerm(f, [t] + r);
            && (t == 97 ==> p == if r == [] then Fail else Done(Int(BeValue(r[..1])), r[1..]))
            && (t == 98 ==> p == if |r| < 4 then Fail else Done(Int(Signed32(BeValue(r[..4]))), r[4..]))
            && (t == 70 ==> p == if |r| < 8 then Fail else Done(Float(BeValue(r[..8])), r[8..]))
            && (t == 99 ==> p == DecodeFloatText(f, r))
            && (t == 100 ==> p == DecodeAtom(r, 2)) && (t == 115 ==> p == DecodeAtom(r, 1))
            && (t == 104 ==> p == DecodeTuple(f, r, 1)) && (t == 105 ==> p == DecodeTuple(f, r, 4))
            && (t == 106 ==> p == Done(Arr([]), r)) && (t == 107 ==> p == DecodeStringAsList(r))
            && (t == 108 ==> p == DecodeList(f, r)) && (t == 116 ==> p == DecodeMap(f, r))
            && (t == 109 ==> p == DecodeBinary(r))
            && (t == 110 ==> p == DecodeBig(r, 1)) && (t == 111 ==> p == DecodeBig(r, 4))
            && (t == 101 ==> p == DecodeReference(f, r)) && (t == 114 ==> p == DecodeNewReference(f, r))
            && (t == 102 ==> p == DecodePort(f, r)) && (t == 103 ==> p == DecodePid(f, r))
            && (t == 113 ==> p == DecodeExport(f, r))
  {
    hide DecodeAtom, DecodeList, DecodeMap, DecodeBinary, DecodeBig, DecodeTuple, BeValue, Signed32;
    hide DecodeReference, DecodeNewReference, DecodePort, DecodePid, DecodeExport, DecodeStringAsList, DecodeFloatText;
    assert ([t] + r)[1..] == r;
  }

  /** All other tags, and no bytes at all, are refused. */
  lemma OtherTags(f: Foreign, t: byte, r: bytes)
    requires t !in {70, 97, 98, 99, 100, 101, 102, 103, 104, 105, 106, 107, 108, 109, 110, 111, 113, 114, 115, 116}
    ensures ParseTerm(f, [t] + r) == Fail && ParseTerm(f, []) == Fail
  {
  }

  /** The version byte in front of a message. */
  lemma Version(f: Foreign, t: byte, r: bytes)
    ensures Parse(f, [t] + r) == if t == 131 then ParseTerm(f, r) else Fail
    ensures Parse(f, []) == Fail
  {
    hide ParseTerm;
    assert ([t] + r)[1..] == r;
  }

  // ---- numbers ------------------------------------------------------------------------------------

  lemma SmallInteger(f: Foreign, b: byte, rest: bytes)
    ensures ParseTerm(f, [97] + [b] + rest) == Done(Int(b), rest)
  {
    hide ParseTerm, BeValue;
    var r := [b] + rest;
    Assoc([97], [b], rest);
    ByTag(f, 97, r);
    OneByte(b);
    assert r[..1] == [b] && r[1..] == rest;
  }

  lemma Integer(f: Foreign, n: int, rest: bytes)
    requires -0x8000_0000 <= n < 0x8000_0000
    ensures ParseTerm(f, [98] + BeDigits(n % 0x1_0000_0000, 4) + rest) == Done(Int(n), rest)
  {
    hide ParseTerm, BeValue, BeDigits;
    var w := n % TWO32;
    assert w == if n < 0 then n + TWO32 else n;
    var r := BeDigits(w, 4) + rest;
    Assoc([98], BeDigits(w, 4), rest);
    ByTag(f, 98, r);
    Pow256Is();
    TakeDigits(w, 4, rest);
  }

  lemma NewFloat(f: Foreign, bits: uint64, rest: bytes)
    ensures ParseTerm(f, [70] + BeDigits(bits, 8) + rest) == Done(Float(bits), rest)
  {
    hide ParseTerm, BeValue, BeDigits;
    var r := BeDigits(bits, 8) + rest;
    Assoc([70], BeDigits(bits, 8), rest);
    ByTag(f, 70, r);
    Pow256Is();
    TakeDigits(bits, 8, rest);
  }

  /** Text of 31 characters; shorter text reads as null and stays unread. */
  lemma FloatText(f: Foreign, s: bytes, rest: bytes)
    ensures |s| == 31 ==>
              ParseTerm(f, [99] + s + rest) == Done(if f.scan(s).Some? then Float(f.scan(s).value) else Null, rest)
    ensures |s| < 31 ==> ParseTerm(f, [99] + s) == Done(Null, s)
  {
    hide ParseTerm;
    Assoc([99], s, rest);
    ByTag(f, 99, s + rest);
    ByTag(f, 99, s);
    if |s| == 31 {
      assert (s + rest)[..31] == s && (s + rest)[31..] == rest;
    }
  }

  /** The number a text of decimal digits spells. */
  function Spelt(t: bytes): int {
    if t == [] then 0 else 10 * Spelt(t[..|t| - 1]) + (t[|t| - 1] as int - 48)
  }

  /** `to_string` gives digits that spell the number, without a leading zero. */
  lemma {:induction false} DecimalSpells(n: nat)
    ensures Spelt(Decimal(n)) == n && Decimal(n) != []
    ensures forall i :: 0 <= i < |Decimal(n)| ==> 48 <= Decimal(n)[i] <= 57
    ensures Decimal(n)[0] == 48 ==> n == 0 && |Decimal(n)| == 1
  {
    if n >= 10 {
      DecimalSpells(n / 10);
      assert Decimal(n)[..|Decimal(n)| - 1] == Decimal(n / 10);
    } else {
      assert Decimal(n)[..0] == [];
    }
  }

  /** The text of a number with a sign. */
  lemma SignedText(n: int)
    ensures DecimalInt(n) == if n < 0 then [45] + Decimal(-n) else Decimal(n)
  {
  }

  /** Big integers of up to eight digits become text; a negative one beyond 64 signed bits loses its sign. */
  function BigMeans(sign: byte, v: nat): bytes
    requires v < 0x1_0000_0000_0000_0000
  {
    if sign == 0 || v == 0 then Decimal(v)
    else if v <= 0x8000_0000_0000_0000 then [45] + Decimal(v)
    else Decimal(0x1_0000_0000_0000_0000 - v)
  }

  lemma {:induction false} BigMeansText(m: bytes, sign: byte)
    requires |m| <= 8
    ensures Value(m) < 0x1_0000_0000_0000_0000 && BigText(|m|, sign, Value(m)) == BigMeans(sign, Value(m))
  {
    hide Decimal;
    ValueFits(m);
    var v := Value(m);
    assert v % TWO64 == v && (v < TWO32 ==> v % TWO32 == v);
  }

  lemma ValueFits(m: bytes)
    requires |m| <= 8
    ensures Value(m) < TWO64 && (|m| <= 4 ==> Value(m) < TWO32)
  {
    hide Value;
    Pow256Is();
    Pow256Less(|m|, 8);
    if |m| <= 4 {
      Pow256Less(|m|, 4);
    }
  }

  lemma BigDecodes(m: bytes, w: nat, sign: byte, rest: bytes)
    requires (w == 1 && |m| < 256) || (w == 4 && |m| < TWO32)
    ensures DecodeBig(BeDigits(|m|, w) + ([sign] + (m + rest)), w) ==
              if |m| > 8 then Fail else Done(Str(BigMeans(sign, (ValueFits(m); Value(m)))), rest)
  {
    hide BeDigits, BeValue, BigText, BigMeans;
    Pow256Is();
    var q := [sign] + (m + rest);
    TakeDigits(|m|, w, q);
    OneByte(sign);
    assert q[..1] == [sign] && q[1..] == m + rest;
    assert (m + rest)[..|m|] == m && (m + rest)[|m|..] == rest;
    if |m| <= 8 {
      BigMeansText(m, sign);
    }
  }

  /** Big integers with one-byte and with four-byte digit counts, digits least significant first. */
  lemma BigInteger(f: Foreign, m: bytes, sign: byte, rest: bytes)
    ensures |m| < 256 ==>
              ParseTerm(f, [110] + (BeDigits(|m|, 1) + ([sign] + (m + rest)))) ==
                if |m| > 8 then Fail else Done(Str(BigMeans(sign, (ValueFits(m); Value(m)))), rest)
    ensures |m| < 0x1_0000_0000 ==>
              ParseTerm(f, [111] + (BeDigits(|m|, 4) + ([sign] + (m + rest)))) ==
                if |m| > 8 then Fail else Done(Str(BigMeans(sign, (ValueFits(m); Value(m)))), rest)
  {
    hide ParseTerm, DecodeBig, BeDigits, BigMeans;
    ByTag(f, 110, BeDigits(|m|, 1) + ([sign] + (m + rest)));
    ByTag(f, 111, BeDigits(|m|, 4) + ([sign] + (m + rest)));
    if |m| < 256 {
      BigDecodes(m, 1, sign, rest);
    }
    if |m| < TWO32 {
      BigDecodes(m, 4, sign, rest);
    }
  }

  // ---- atoms and strings ----------------------------------------------------------------------------

  /** Four names stand for values; any other atom is its name. */
  function AtomMeans(name: bytes): Json {
    if name == [110, 117, 108, 108] || name == [110, 105, 108] then Null
    else if name == [116, 114, 117, 101] then Bool(true)
    else if name == [102, 97, 108, 115, 101] then Bool(false)
    else Str(name)
  }

  lemma AtomDecodes(name: bytes, w: nat, rest: bytes)
    requires (w == 1 && |name| < 256) || (w == 2 && |name| < 65536)
    ensures DecodeAtom(BeDigits(|name|, w) + (name + rest), w) == Done(AtomMeans(name), rest)
  {
    hide BeDigits, BeValue;
    Pow256Is();
    TakeDigits(|name|, w, name + rest);
    assert (name + rest)[..|name|] == name && (name + rest)[|name|..] == rest;
  }

  lemma Atom(f: Foreign, name: bytes, rest: bytes)
    ensures |name| < 65536 ==> ParseTerm(f, [100] + (BeDigits(|name|, 2) + (name + rest))) == Done(AtomMeans(name), rest)
    ensures |name| < 256 ==> ParseTerm(f, [115] + (BeDigits(|name|, 1) + (name + rest))) == Done(AtomMeans(name), rest)
  {
    hide ParseTerm, DecodeAtom, BeDigits, AtomMeans;
    ByTag(f, 100, BeDigits(|name|, 2) + (name + rest));
    ByTag(f, 115, BeDigits(|name|, 1) + (name + rest));
    if |name| < 65536 {
      AtomDecodes(name, 2, rest);
    }
    if |name| < 256 {
      AtomDecodes(name, 1, rest);
    }
  }

  lemma Binary(f: Foreign, s: bytes, rest: bytes)
    requires |s| < 0x1_0000_0000
    ensures ParseTerm(f, [109] + (BeDigits(|s|, 4) + (s + rest))) == Done(Str(s), rest)
  {
    hide ParseTerm, BeDigits, BeValue;
    ByTag(f, 109, BeDigits(|s|, 4) + (s + rest));
    Pow256Is();
    TakeDigits(|s|, 4, s + rest);
    assert (s + rest)[..|s|] == s && (s + rest)[|s|..] == rest;
  }

  /** Names and strings that run past the end read as null, and what is there stays unread. */
  lemma CutShort(f: Foreign, n: nat, s: bytes)
    requires n > |s|
    ensures n < 65536 ==> ParseTerm(f, [100] + (BeDigits(n, 2) + s)) == Done(Null, s)
    ensures n < 256 ==> ParseTerm(f, [115] + (BeDigits(n, 1) + s)) == Done(Null, s)
    ensures n < 0x1_0000_0000 ==> ParseTerm(f, [109] + (BeDigits(n, 4) + s)) == Done(Null, s)
    ensures n < 65536 ==> ParseTerm(f, [107] + (BeDigits(n, 2) + s)) == Fail
  {
    hide ParseTerm, BeDigits, BeValue, AtomValue, SmallInts;
    Pow256Is();
    ByTag(f, 100, BeDigits(n, 2) + s);
    ByTag(f, 115, BeDigits(n, 1) + s);
    ByTag(f, 109, BeDigits(n, 4) + s);
    ByTag(f, 107, BeDigits(n, 2) + s);
    if n < 65536 {
      TakeDigits(n, 2, s);
    }
    if n < 256 {
      TakeDigits(n, 1, s);
    }
    if n < TWO32 {
      TakeDigits(n, 4, s);
    }
  }

  lemma {:induction false} SmallIntsAre(s: bytes)
    ensures |SmallInts(s)| == |s| && forall i :: 0 <= i < |s| ==> SmallInts(s)[i] == Int(s[i])
  {
    if s != [] {
      SmallIntsAre(s[1..]);
    }
  }

  /** A list of small integers in the form of a string: an array of its bytes. */
  lemma StringAsList(f: Foreign, s: bytes, rest: bytes)
    requires |s| < 65536
    ensures var r := ParseTerm(f, [107] + (BeDigits(|s|, 2) + (s + rest)));
            && r.Done? && r.rest == rest && r.value.Arr? && |r.value.items| == |s|
            && forall i :: 0 <= i < |s| ==> r.value.items[i] == Int(s[i])
  {
    hide ParseTerm, BeDigits, BeValue, SmallInts;
    ByTag(f, 107, BeDigits(|s|, 2) + (s + rest));
    Pow256Is();
    TakeDigits(|s|, 2, s + rest);
    assert (s + rest)[..|s|] == s && (s + rest)[|s|..] == rest;
    SmallIntsAre(s);
  }

  // ---- containers -------------------------------------------------------------------------------------

  /** Terms one after the other, each spelling its value. */
  ghost predicate AllSpell(f: Foreign, ds: seq<bytes>, vs: seq<Json>) {
    |ds| == |vs| && forall i :: 0 <= i < |ds| ==> Spells(f, ds[i], vs[i])
  }

  lemma SpellsRest(f: Foreign, d: bytes, v: Json, rest: bytes)
    requires Spells(f, d, v)
    ensures ParseTerm(f, d + rest) == Done(v, rest)
  {
    hide ParseTerm;
  }

  lemma {:induction false} ManySpelled(f: Foreign, ds: seq<bytes>, vs: seq<Json>, rest: bytes)
    requires AllSpell(f, ds, vs)
    ensures ParseMany(f, Concat(ds) + rest, |ds|) == Done(vs, rest)
    decreases |ds|
  {
    hide ParseTerm, Spells;
    if ds == [] {
      assert [] + rest == rest;
    } else {
      var tail := Concat(ds[1..]) + rest;
      Assoc(ds[0], Concat(ds[1..]), rest);
      SpellsRest(f, ds[0], vs[0], tail);
      ManySpelled(f, ds[1..], vs[1..], rest);
      assert vs == [vs[0]] + vs[1..];
    }
  }

  /** Tuples with one-byte and with four-byte counts are arrays. */
  lemma Tuple(f: Foreign, ds: seq<bytes>, vs: seq<Json>, rest: bytes)
    requires AllSpell(f, ds, vs)
    ensures |ds| < 256 ==> ParseTerm(f, [104] + (BeDigits(|ds|, 1) + (Concat(ds) + rest))) == Done(Arr(vs), rest)
    ensures |ds| < 0x1_0000_0000 ==> ParseTerm(f, [105] + (BeDigits(|ds|, 4) + (Concat(ds) + rest))) == Done(Arr(vs), rest)
  {
    hide ParseTerm, ParseMany, BeDigits, BeValue, AllSpell, Concat;
    Pow256Is();
    var body := Concat(ds) + rest;
    ManySpelled(f, ds, vs, rest);
    ByTag(f, 104, BeDigits(|ds|, 1) + body);
    ByTag(f, 105, BeDigits(|ds|, 4) + body);
    if |ds| < 256 {
      TakeDigits(|ds|, 1, body);
    }
    if |ds| < TWO32 {
      TakeDigits(|ds|, 4, body);
    }
  }

  /** A list is an array if its tail is nil; any other byte there makes it null. */
  lemma List(f: Foreign, ds: seq<bytes>, vs: seq<Json>, tail: byte, rest: bytes)
    requires AllSpell(f, ds, vs) && |ds| < 0x1_0000_0000
    ensures ParseTerm(f, [108] + (BeDigits(|ds|, 4) + (Concat(ds) + ([tail] + rest)))) ==
              Done(if tail == 106 then Arr(vs) else Null, rest)
  {
    hide ParseTerm, ParseMany, BeDigits, AllSpell, Concat;
    ManySpelled(f, ds, vs, [tail] + rest);
    ReadList(f, |ds|, Concat(ds) + ([tail] + rest));
    assert ([tail] + rest)[1..] == rest;
  }

  lemma NilTerm(f: Foreign, rest: bytes)
    ensures ParseTerm(f, [106] + rest) == Done(Arr([]), rest)
  {
    hide ParseTerm;
    ByTag(f, 106, rest);
  }

  // ---- maps -------------------------------------------------------------------------------------------

  /** Keys are ordered as byte strings: a proper prefix first, else by the first byte that differs. */
  lemma {:induction false} LessMeans(a: bytes, b: bytes)
    ensures Less(a, b) <==> a < b || exists i :: 0 <= i < |a| && i < |b| && a[..i] == b[..i] && a[i] < b[i]
  {
    if a != [] && b != [] {
      LessMeans(a[1..], b[1..]);
      if a[0] < b[0] {
        assert a[..0] == b[..0];
      } else if a[0] == b[0] {
        LessTail(a, b);
      } else {
        forall i | 0 <= i < |a| && i < |b| && a[i] < b[i]
          ensures a[..i] != b[..i]
        {
          if i > 0 {
            assert a[..i][0] != b[..i][0];
          }
        }
      }
    }
  }

  lemma LessTail(a: bytes, b: bytes)
    requires a != [] && b != [] && a[0] == b[0]
    ensures a < b <==> a[1..] < b[1..]
    ensures (exists i :: 0 <= i < |a| && i < |b| && a[..i] == b[..i] && a[i] < b[i]) <==>
            (exists i :: 0 <= i < |a[1..]| && i < |b[1..]| && a[1..][..i] == b[1..][..i] && a[1..][i] < b[1..][i])
  {
    var p, q := a[1..], b[1..];
    assert a == [a[0]] + p && b == [b[0]] + q;
    if i :| 0 <= i < |p| && i < |q| && p[..i] == q[..i] && p[i] < q[i] {
      assert a[..i + 1] == [a[0]] + p[..i] && b[..i + 1] == [b[0]] + q[..i];
      assert a[i + 1] == p[i] && b[i + 1] == q[i];
    }
    if i :| 0 <= i < |a| && i < |b| && a[..i] == b[..i] && a[i] < b[i] {
      assert i > 0 && p[..i - 1] == a[..i][1..] && q[..i - 1] == b[..i][1..];
    }
  }

  lemma {:induction false} LessTotal(a: bytes, b: bytes)
    ensures a == b || Less(a, b) || Less(b, a)
  {
    if a != [] && b != [] && a[0] == b[0] {
      LessTotal(a[1..], b[1..]);
      assert a == [a[0]] + a[1..] && b == [b[0]] + b[1..];
    }
  }

  lemma {:induction false} LessTransitive(a: bytes, b: bytes, c: bytes)
    requires Less(a, b) && Less(b, c)
    ensures Less(a, c)
  {
    if a != [] && b != [] && c != [] && a[0] == b[0] == c[0] {
      LessTransitive(a[1..], b[1..], c[1..]);
    }
  }

  /** Adding a field keeps key order and all fields, and adds its own unless the key is there already. */
  lemma {:induction false} EmplaceMeans(fields: seq<Field>, k: bytes, v: Json)
    requires SortedKeys(fields)
    ensures SortedKeys(Emplace(fields, k, v))
    ensures forall x :: x in Emplace(fields, k, v) <==>
              x in fields || (x == Field(k, v) && forall y :: y in fields ==> y.key != k)
  {
    hide Less;
    if fields != [] {
      var first, more := fields[0], fields[1..];
      assert fields == [first] + more;
      assert SortedKeys(more);
      if first.key != k {
        if Less(k, first.key) {
          LowestKey(fields, k);
          assert forall x :: x in [Field(k, v)] + fields <==> x in fields || x == Field(k, v);
        } else {
          LessTotal(k, first.key);
          EmplaceMeans(more, k, v);
          FirstStays(first, more, Emplace(more, k, v), k, v);
        }
      }
    }
  }

  lemma LowestKey(fields: seq<Field>, k: bytes)
    requires SortedKeys(fields) && fields != [] && Less(k, fields[0].key)
    ensures forall i :: 0 <= i < |fields| ==> Less(k, fields[i].key)
    ensures forall y :: y in fields ==> y.key != k
  {
    hide Less;
    forall i | 0 <= i < |fields|
      ensures Less(k, fields[i].key) && fields[i].key != k
    {
      if i > 0 {
        LessTransitive(k, fields[0].key, fields[i].key);
      }
      LessAsymmetric(k, fields[i].key);
    }
  }

  lemma FirstStays(first: Field, more: seq<Field>, r: seq<Field>, k: bytes, v: Json)
    requires SortedKeys([first] + more) && SortedKeys(r) && Less(first.key, k)
    requires forall x :: x in r ==> x in more || x == Field(k, v)
    ensures SortedKeys([first] + r)
  {
    hide Less;
    var all, was := [first] + r, [first] + more;
    forall i, j | 0 <= i < j < |all|
      ensures Less(all[i].key, all[j].key)
    {
      if i > 0 {
        assert all[i] == r[i - 1] && all[j] == r[j - 1];
      } else {
        assert all[j] == r[j - 1] && r[j - 1] in r;
        if r[j - 1] in more {
          var m :| 0 <= m < |more| && more[m] == r[j - 1];
          assert was[0] == first && was[m + 1] == more[m];
        }
      }
    }
  }

  /** Integer keys stand for their text modulo 2^64, floating point ones for that of their integer part. */
  lemma KeyMeans(f: Foreign, key: Json)
    ensures KeyText(f, key) ==
              if key.Str? then Some(key.s)
              else if key.Int? then Some(Decimal(key.n % 0x1_0000_0000_0000_0000))
              else if key.Float? then Some(Decimal(f.truncate(key.bits)))
              else None
  {
  }

  /** A pair of a map, with the terms that spell its key and its value. */
  datatype Pair = Pair(keyBytes: bytes, key: Json, valueBytes: bytes, value: Json)

  function PairBytes(ps: seq<Pair>): bytes {
    if ps == [] then [] else ps[0].keyBytes + ps[0].valueBytes + PairBytes(ps[1..])
  }

  ghost predicate PairsSpell(f: Foreign, ps: seq<Pair>) {
    forall i :: 0 <= i < |ps| ==>
      Spells(f, ps[i].keyBytes, ps[i].key) && Spells(f, ps[i].valueBytes, ps[i].value) && KeyText(f, ps[i].key).Some?
  }

  /** The fields, one pair after the other. */
  function Inserted(f: Foreign, ps: seq<Pair>, acc: seq<Field>): seq<Field> {
    if ps == [] then acc
    else if KeyText(f, ps[0].key).None? then acc
    else Inserted(f, ps[1..], Emplace(acc, KeyText(f, ps[0].key).value, ps[0].value))
  }

  lemma OnePair(f: Foreign, d: bytes, key: Json, mid: bytes, v: Json, tail: bytes, n: nat, acc: Json)
    requires (acc.Null? || acc.Obj?) && n > 0 && KeyText(f, key).Some?
    requires ParseTerm(f, d) == Done(key, mid) && ParseTerm(f, mid) == Done(v, tail)
    ensures ParseFields(f, d, n, acc) ==
              ParseFields(f, tail, n - 1, Obj(Emplace(if acc.Null? then [] else acc.fields, KeyText(f, key).value, v)))
  {
    hide ParseTerm, Emplace, KeyText;
  }

  lemma PairsStep(f: Foreign, ps: seq<Pair>, acc: seq<Field>, rest: bytes)
    requires ps != [] && PairsSpell(f, ps)
    ensures var p := ps[0];
            && Spells(f, p.keyBytes, p.key) && Spells(f, p.valueBytes, p.value) && KeyText(f, p.key).Some?
            && PairsSpell(f, ps[1..])
            && PairBytes(ps) + rest == p.keyBytes + (p.valueBytes + (PairBytes(ps[1..]) + rest))
            && Inserted(f, ps, acc) == Inserted(f, ps[1..], Emplace(acc, KeyText(f, p.key).value, p.value))
  {
    hide ParseTerm, Emplace, KeyText, Spells;
    var p := ps[0];
    Assoc(p.keyBytes + p.valueBytes, PairBytes(ps[1..]), rest);
    Assoc(p.keyBytes, p.valueBytes, PairBytes(ps[1..]) + rest);
  }

  lemma {:induction false} PairsRead(f: Foreign, ps: seq<Pair>, acc: seq<Field>, rest: bytes)
    requires PairsSpell(f, ps)
    ensures ParseFields(f, PairBytes(ps) + rest, |ps|, Object(acc)) == Done(Object(Inserted(f, ps, acc)), rest)
    decreases |ps|
  {
    hide *;
    if ps == [] {
      NoPairs(f, rest, acc);
    } else {
      var p := ps[0];
      var tail := PairBytes(ps[1..]) + rest;
      PairsStep(f, ps, acc, rest);
      SpellsRest(f, p.keyBytes, p.key, p.valueBytes + tail);
      SpellsRest(f, p.valueBytes, p.value, tail);
      OnePair(f, p.keyBytes + (p.valueBytes + tail), p.key, p.valueBytes + tail, p.value, tail, |ps|, Object(acc));
      EmplaceSome(acc, KeyText(f, p.key).value, p.value);
      PairsRead(f, ps[1..], Emplace(acc, KeyText(f, p.key).value, p.value), rest);
    }
  }

  lemma NoPairs(f: Foreign, d: bytes, acc: seq<Field>)
    ensures PairBytes([]) + d == d && Inserted(f, [], acc) == acc
    ensures ParseFields(f, d, 0, Object(acc)) == Done(Object(acc), d)
  {
    hide ParseTerm;
    assert [] + d == d;
  }

  lemma EmplaceSome(fields: seq<Field>, k: bytes, v: Json)
    ensures Object(Emplace(fields, k, v)) == Obj(Emplace(fields, k, v))
    ensures Object(fields).Null? ==> fields == []
    ensures Object(fields).Obj? ==> Object(fields).fields == fields
  {
  }

  /** A map is the object of its pairs, added in turn; without pairs it is null. */
  lemma Map(f: Foreign, ps: seq<Pair>, rest: bytes)
    requires PairsSpell(f, ps) && |ps| < 0x1_0000_0000
    ensures ParseTerm(f, [116] + (BeDigits(|ps|, 4) + (PairBytes(ps) + rest))) == Done(Object(Inserted(f, ps, [])), rest)
  {
    hide ParseTerm, ParseFields, BeDigits, BeValue, PairsSpell, PairBytes;
    var body := PairBytes(ps) + rest;
    PairsRead(f, ps, [], rest);
    ByTag(f, 116, BeDigits(|ps|, 4) + body);
    Pow256Is();
    TakeDigits(|ps|, 4, body);
  }

  // ---- references, ports, processes, functions ------------------------------------------------------------

  /** A word in front of `rest`. */
  lemma TakeWord(w: uint32, rest: bytes)
    ensures Take(BeDigits(w, 4) + rest, 4) == Done(w, rest)
  {
    hide BeDigits, BeValue;
    Pow256Is();
    TakeDigits(w, 4, rest);
  }

  lemma TakeByte(b: byte, rest: bytes)
    ensures Take([b] + rest, 1) == Done(b, rest)
  {
    hide BeValue;
    OneByte(b);
    assert ([b] + rest)[..1] == [b] && ([b] + rest)[1..] == rest;
  }

  /** A 32-bit word as a signed number. */
  function SignedWord(w: int): int {
    if w < 0x8000_0000 then w else w - 0x1_0000_0000
  }

  function SignedWords(ids: seq<uint32>): (r: seq<Json>)
    ensures |r| == |ids| && forall i :: 0 <= i < |ids| ==> r[i] == Int(SignedWord(ids[i]))
  {
    seq(|ids|, i requires 0 <= i < |ids| => Int(SignedWord(ids[i])))
  }

  function WordBytes(ids: seq<uint32>): bytes {
    if ids == [] then [] else BeDigits(ids[0], 4) + WordBytes(ids[1..])
  }

  lemma {:induction false} IdsRead(ids: seq<uint32>, rest: bytes)
    ensures Ids(WordBytes(ids) + rest, |ids|) == Done(SignedWords(ids), rest)
    decreases |ids|
  {
    hide BeDigits, BeValue, Take;
    if ids == [] {
      assert [] + rest == rest;
    } else {
      var tail := WordBytes(ids[1..]) + rest;
      Assoc(BeDigits(ids[0], 4), WordBytes(ids[1..]), rest);
      TakeWord(ids[0], tail);
      IdsRead(ids[1..], rest);
      assert SignedWords(ids) == [SignedWords(ids)[0]] + SignedWords(ids[1..]);
    }
  }

  /** node, id, creation. */
  lemma {:induction false} Reference(f: Foreign, d: bytes, node: Json, id: uint32, creation: byte, rest: bytes)
    requires Spells(f, d, node)
    ensures ParseTerm(f, [101] + (d + (BeDigits(id, 4) + ([creation] + rest)))) ==
              Done(Obj([Field([99, 114, 101, 97, 116, 105, 111, 110], Int(creation)), Field([105, 100], Arr(SignedWords([id]))),
                        Field([110, 111, 100, 101], node)]), rest)
  {
    hide ParseTerm, BeDigits, Take, Spells, SignedWords, Ids;
    var q := [creation] + rest;
    ByTag(f, 101, d + (BeDigits(id, 4) + q));
    SpellsRest(f, d, node, BeDigits(id, 4) + q);
    TakeByte(creation, rest);
    OneWord(id);
    IdsRead([id], q);
  }

  lemma OneWord(id: uint32)
    ensures WordBytes([id]) == BeDigits(id, 4)
  {
    hide BeDigits;
    assert [id][1..] == [] && WordBytes([]) == [];
  }

  lemma {:induction false} NewReference(f: Foreign, d: bytes, node: Json, ids: seq<uint32>, creation: byte, rest: bytes)
    requires Spells(f, d, node) && |ids| < 65536
    ensures ParseTerm(f, [114] + (BeDigits(|ids|, 2) + (d + ([creation] + (WordBytes(ids) + rest))))) ==
              Done(Obj([Field([99, 114, 101, 97, 116, 105, 111, 110], Int(creation)), Field([105, 100], Arr(SignedWords(ids))),
                        Field([110, 111, 100, 101], node)]), rest)
  {
    hide ParseTerm, BeDigits, BeValue, Take, Spells, SignedWords, Ids, WordBytes;
    var q := [creation] + (WordBytes(ids) + rest);
    ByTag(f, 114, BeDigits(|ids|, 2) + (d + q));
    Pow256Is();
    TakeDigits(|ids|, 2, d + q);
    SpellsRest(f, d, node, q);
    TakeByte(creation, WordBytes(ids) + rest);
    IdsRead(ids, rest);
  }

  lemma {:induction false} Port(f: Foreign, d: bytes, node: Json, id: uint32, creation: byte, rest: bytes)
    requires Spells(f, d, node)
    ensures ParseTerm(f, [102] + (d + (BeDigits(id, 4) + ([creation] + rest)))) ==
              Done(Obj([Field([99, 114, 101, 97, 116, 105, 111, 110], Int(creation)), Field([105, 100], Int(id)),
                        Field([110, 111, 100, 101], node)]), rest)
  {
    hide ParseTerm, BeDigits, Take, Spells;
    var q := [creation] + rest;
    ByTag(f, 102, d + (BeDigits(id, 4) + q));
    SpellsRest(f, d, node, BeDigits(id, 4) + q);
    TakeWord(id, q);
    TakeByte(creation, rest);
  }

  lemma {:induction false} Process(f: Foreign, d: bytes, node: Json, id: uint32, serial: uint32, creation: byte, rest: bytes)
    requires Spells(f, d, node)
    ensures ParseTerm(f, [103] + (d + (BeDigits(id, 4) + (BeDigits(serial, 4) + ([creation] + rest))))) ==
              Done(Obj([Field([99, 114, 101, 97, 116, 105, 111, 110], Int(creation)), Field([105, 100], Int(id)),
                        Field([110, 111, 100, 101], node), Field([115, 101, 114, 105, 97, 108], Int(serial))]), rest)
  {
    hide ParseTerm, BeDigits, Take, Spells;
    var q := [creation] + rest;
    ByTag(f, 103, d + (BeDigits(id, 4) + (BeDigits(serial, 4) + q)));
    SpellsRest(f, d, node, BeDigits(id, 4) + (BeDigits(serial, 4) + q));
    TakeWord(id, BeDigits(serial, 4) + q);
    TakeWord(serial, q);
    TakeByte(creation, rest);
  }

  /** module, function, arity. */
  lemma {:induction false} Export(f: Foreign, ds: seq<bytes>, vs: seq<Json>, rest: bytes)
    requires AllSpell(f, ds, vs) && |ds| == 3
    ensures ParseTerm(f, [113] + (ds[0] + (ds[1] + (ds[2] + rest)))) ==
              Done(Obj([Field([97, 114, 105, 116, 121], vs[2]), Field([102, 117, 110], vs[1]), Field([109, 111, 100], vs[0])]), rest)
  {
    hide ParseTerm, Spells;
    ByTag(f, 113, ds[0] + (ds[1] + (ds[2] + rest)));
    SpellsRest(f, ds[0], vs[0], ds[1] + (ds[2] + rest));
    SpellsRest(f, ds[1], vs[1], ds[2] + rest);
    SpellsRest(f, ds[2], vs[2], rest);
  }

  // ---- terms that are not all there ------------------------------------------------------------------------

  /** A count, a sign or digits that are not all there. */
  lemma HeaderMissing(f: Foreign, t: byte, r: bytes)
    requires || (t in {104, 115} && |r| < 1) || (t in {100, 107, 110, 114} && |r| < 2)
             || (t in {105, 108, 109, 116} && |r| < 4) || (t == 111 && |r| < 5)
    ensures ParseTerm(f, [t] + r) == Fail
  {
    hide ParseTerm, BeValue, ParseMany, ParseFields;
    ByTag(f, t, r);
  }

  lemma DigitsMissing(f: Foreign, n: nat, sign: byte, m: bytes)
    requires |m| < n
    ensures n < 256 ==> ParseTerm(f, [110] + (BeDigits(n, 1) + ([sign] + m))) == Fail
    ensures n < 0x1_0000_0000 ==> ParseTerm(f, [111] + (BeDigits(n, 4) + ([sign] + m))) == Fail
  {
    hide ParseTerm, BeDigits, BeValue, BigText;
    Pow256Is();
    ByTag(f, 110, BeDigits(n, 1) + ([sign] + m));
    ByTag(f, 111, BeDigits(n, 4) + ([sign] + m));
    if n < 256 {
      TakeDigits(n, 1, [sign] + m);
    }
    if n < TWO32 {
      TakeDigits(n, 4, [sign] + m);
    }
  }

  lemma {:induction false} ManyFail(f: Foreign, ds: seq<bytes>, vs: seq<Json>, bad: bytes, n: nat)
    requires AllSpell(f, ds, vs) && |ds| < n && ParseTerm(f, bad) == Fail
    ensures ParseMany(f, Concat(ds) + bad, n) == Fail
    decreases |ds|
  {
    hide ParseTerm, Spells;
    if ds == [] {
      assert [] + bad == bad;
    } else {
      Assoc(ds[0], Concat(ds[1..]), bad);
      SpellsRest(f, ds[0], vs[0], Concat(ds[1..]) + bad);
      ManyFail(f, ds[1..], vs[1..], bad, n - 1);
    }
  }

  /** A tuple or a list with an element that cannot be read, or without its last ones, is refused. */
  lemma ElementMissing(f: Foreign, ds: seq<bytes>, vs: seq<Json>, bad: bytes, n: nat)
    requires AllSpell(f, ds, vs) && |ds| < n && ParseTerm(f, bad) == Fail
    ensures n < 256 ==> ParseTerm(f, [104] + (BeDigits(n, 1) + (Concat(ds) + bad))) == Fail
    ensures n < 0x1_0000_0000 ==> ParseTerm(f, [105] + (BeDigits(n, 4) + (Concat(ds) + bad))) == Fail
    ensures n < 0x1_0000_0000 ==> ParseTerm(f, [108] + (BeDigits(n, 4) + (Concat(ds) + bad))) == Fail
  {
    hide ParseTerm, ParseMany, BeDigits, BeValue, AllSpell, Concat;
    Pow256Is();
    var body := Concat(ds) + bad;
    ManyFail(f, ds, vs, bad, n);
    ByTag(f, 104, BeDigits(n, 1) + body);
    ByTag(f, 105, BeDigits(n, 4) + body);
    ByTag(f, 108, BeDigits(n, 4) + body);
    if n < 256 {
      TakeDigits(n, 1, body);
    }
    if n < TWO32 {
      TakeDigits(n, 4, body);
    }
  }

  /** So is a list without its tail. */
  lemma TailMissing(f: Foreign, ds: seq<bytes>, vs: seq<Json>)
    requires AllSpell(f, ds, vs) && |ds| < 0x1_0000_0000
    ensures ParseTerm(f, [108] + (BeDigits(|ds|, 4) + (Concat(ds) + []))) == Fail
  {
    hide ParseTerm, ParseMany, BeDigits, BeValue, AllSpell, Concat;
    Pow256Is();
    ManySpelled(f, ds, vs, []);
    ByTag(f, 108, BeDigits(|ds|, 4) + (Concat(ds) + []));
    TakeDigits(|ds|, 4, Concat(ds) + []);
  }

  /** What cannot be a pair of a map: a key that cannot be read or has no text, or a value that cannot be read. */
  ghost predicate NoPair(f: Foreign, bad: bytes) {
    var key := ParseTerm(f, bad);
    key.Fail? || KeyText(f, key.value).None? || ParseTerm(f, key.rest).Fail?
  }

  lemma {:induction false} PairsFail(f: Foreign, ps: seq<Pair>, acc: seq<Field>, bad: bytes, n: nat)
    requires PairsSpell(f, ps) && |ps| < n && NoPair(f, bad)
    ensures ParseFields(f, PairBytes(ps) + bad, n, Object(acc)) == Fail
    decreases |ps|
  {
    hide *;
    if ps == [] {
      FirstPairFails(f, acc, bad, n);
    } else {
      var p := ps[0];
      var tail := PairBytes(ps[1..]) + bad;
      PairsStep(f, ps, acc, bad);
      SpellsRest(f, p.keyBytes, p.key, p.valueBytes + tail);
      SpellsRest(f, p.valueBytes, p.value, tail);
      OnePair(f, p.keyBytes + (p.valueBytes + tail), p.key, p.valueBytes + tail, p.value, tail, n, Object(acc));
      EmplaceSome(acc, KeyText(f, p.key).value, p.value);
      PairsFail(f, ps[1..], Emplace(acc, KeyText(f, p.key).value, p.value), bad, n - 1);
    }
  }

  lemma FirstPairFails(f: Foreign, acc: seq<Field>, bad: bytes, n: nat)
    requires NoPair(f, bad) && n > 0
    ensures PairBytes([]) + bad == bad && ParseFields(f, bad, n, Object(acc)) == Fail
  {
    hide ParseTerm, KeyText;
    assert [] + bad == bad;
  }

  /** A map with such a pair, or without its last ones, is refused. */
  lemma PairMissing(f: Foreign, ps: seq<Pair>, bad: bytes, n: nat)
    requires PairsSpell(f, ps) && |ps| < n < 0x1_0000_0000 && NoPair(f, bad)
    ensures ParseTerm(f, [116] + (BeDigits(n, 4) + (PairBytes(ps) + bad))) == Fail
  {
    hide ParseTerm, ParseFields, BeDigits, BeValue, PairsSpell, PairBytes, NoPair;
    var body := PairBytes(ps) + bad;
    PairsFail(f, ps, [], bad, n);
    ByTag(f, 116, BeDigits(n, 4) + body);
    Pow256Is();
    TakeDigits(n, 4, body);
  }

  /** A reference, port, process or function is refused without its node or module. */
  lemma NodeMissing(f: Foreign, t: byte, bad: bytes, count: uint16)
    requires ParseTerm(f, bad) == Fail
    ensures t in {101, 102, 103, 113} ==> ParseTerm(f, [t] + bad) == Fail
    ensures ParseTerm(f, [114] + (BeDigits(count, 2) + bad)) == Fail
  {
    hide ParseTerm, BeDigits, BeValue;
    ByTag(f, t, bad);
    ByTag(f, 114, BeDigits(count, 2) + bad);
    Pow256Is();
    TakeDigits(count, 2, bad);
  }

  lemma {:induction false} IdsMissing(d: bytes, n: nat)
    requires |d| < 4 * n
    ensures Ids(d, n) == Fail
    decreases n
  {
    hide BeValue;
    if |d| >= 4 {
      IdsMissing(d[4..], n - 1);
    }
  }

  /** And without all of its numbers. */
  lemma {:induction false} NumbersMissing(f: Foreign, d: bytes, node: Json, short: bytes, count: uint16)
    requires Spells(f, d, node)
    ensures |short| < 5 ==> ParseTerm(f, [101] + (d + short)) == Fail && ParseTerm(f, [102] + (d + short)) == Fail
    ensures |short| < 9 ==> ParseTerm(f, [103] + (d + short)) == Fail
    ensures |short| < 1 + 4 * count ==> ParseTerm(f, [114] + (BeDigits(count, 2) + (d + short))) == Fail
  {
    hide ParseTerm, BeDigits, BeValue, Spells;
    SpellsRest(f, d, node, short);
    ByTag(f, 101, d + short);
    ByTag(f, 102, d + short);
    ByTag(f, 103, d + short);
    ByTag(f, 114, BeDigits(count, 2) + (d + short));
    Pow256Is();
    TakeDigits(count, 2, d + short);
    if |short| < 4 {
      IdsMissing(short, 1);
    }
    if 1 <= |short| < 1 + 4 * count {
      IdsMissing(short[1..], count);
    }
  }

  /** And a function without its name or arity. */
  lemma {:induction false} FunctionMissing(f: Foreign, d: bytes, v: Json, e: bytes, u: Json, bad: bytes)
    requires Spells(f, d, v) && Spells(f, e, u) && ParseTerm(f, bad) == Fail
    ensures ParseTerm(f, [113] + (d + bad)) == Fail && ParseTerm(f, [113] + (d + (e + bad))) == Fail
  {
    hide ParseTerm, Spells;
    ByTag(f, 113, d + bad);
    ByTag(f, 113, d + (e + bad));
    SpellsRest(f, d, v, bad);
    SpellsRest(f, d, v, e + bad);
    SpellsRest(f, e, u, bad);
  }

  // ---- the writer's bytes --------------------------------------------------------------------------------

  /** What is written for each kind of value. */
  lemma Written(v: Json)
    ensures v.Null? ==> Build(v) == [115, 3, 110, 105, 108]
    ensures v == Bool(true) ==> Build(v) == [115, 4, 116, 114, 117, 101]
    ensures v == Bool(false) ==> Build(v) == [115, 5, 102, 97, 108, 115, 101]
    ensures v.Str? ==> Build(v) == [109] + BeDigits(|v.s|, 4) + v.s
    ensures v.Float? ==> Build(v) == [70] + BeDigits(v.bits, 8)
    ensures v.Obj? ==> Build(v) == [116] + BeDigits(|v.fields|, 4) + BuildFields(v.fields)
    ensures v.Arr? && v.items != [] ==> Build(v) == [108] + BeDigits(|v.items|, 4) + (BuildAll(v.items) + [106])
    ensures v == Arr([]) ==> Build(v) == [106, 108, 0, 0, 0, 0, 106]
    ensures BuildMessage(v) == [131] + Build(v)
  {
    hide BuildFields;
    if v == Arr([]) {
      assert BeDigits(0, 4) == [0, 0, 0, 0] && BuildAll([]) == [];
    }
  }

  /** Integers: one byte up to 127, 32 bits, or a big integer from 2^32 - 2 on. */
  lemma WrittenInt(n: int)
    requires -0x8000_0000_0000_0000 <= n < 0x8000_0000_0000_0000
    ensures 0 <= n <= 127 ==> Build(Int(n)) == [97, n]
    ensures n >= 0xFFFF_FFFE ==>
              exists m: bytes :: |m| <= 8 && Build(Int(n)) == [110, |m|, 0] + m && Value(m) == n && (m != [] ==> m[|m| - 1] != 0)
    ensures n < 0 || 127 < n < 0xFFFF_FFFE ==> Build(Int(n)) == [98] + BeDigits(n % 0x1_0000_0000, 4)
  {
    hide BeDigits, Minimal, Value;
    assert n % TWO64 == if n < 0 then n + TWO64 else n;
    assert Signed64(n % TWO64) == n;
    if n >= TWO32 - 2 {
      Pow256Is();
      MinimalSize(n, 8);
      MinimalValue(n);
      MinimalTop(n);
      var m := Minimal(n);
      assert Build(Int(n)) == [110, |m|, 0] + m;
    }
  }

  lemma {:induction false} MinimalTop(n: nat)
    ensures Minimal(n) != [] ==> Minimal(n)[|Minimal(n)| - 1] != 0
  {
    if n >= 256 {
      MinimalTop(n / 256);
      assert Minimal(n / 256) != [];
    } else if n > 0 {
      assert n / 256 == 0 && Minimal(0) == [];
    }
  }
}
