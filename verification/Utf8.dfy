/**
 Two scanners over UTF-8, one that counts code points and one that cuts by code points, against
 the encoding of section 3 of RFC 3629.
 */
module Utf8 {
  import opened Bytes

  const NPOS: int := TWO64 - 1

  // ---- section 3 of RFC 3629 ---------------------------------------------------------------------

  /** A character that text without NUL may hold. */
  predicate Scalar(c: nat) {
    0 < c < 0xD800 || 0xE000 <= c < 0x11_0000
  }

  function Tail(c: nat, shift: nat): byte
    requires shift > 0
  {
    128 + c / shift % 64
  }

  function EncodeOne(c: nat): (r: bytes)
    requires Scalar(c)
    ensures 1 <= |r| <= 4
  {
    if c < 0x80 then [c]
    else if c < 0x800 then [0xC0 + c / 0x40, Tail(c, 1)]
    else if c < 0x1_0000 then [0xE0 + c / 0x1000, Tail(c, 0x40), Tail(c, 1)]
    else [0xF0 + c / 0x4_0000, Tail(c, 0x1000), Tail(c, 0x40), Tail(c, 1)]
  }

  /** The bytes of a character: the bits of its number, six in each byte behind the first. */
  lemma EncodesBits(c: nat)
    requires Scalar(c)
    ensures var r := EncodeOne(c);
            && (forall i :: 1 <= i < |r| ==> 0x80 <= r[i] < 0xC0)
            && (|r| == 1 ==> r[0] < 0x80 && c == r[0])
            && (|r| == 2 ==> c >= 0x80 && 0xC0 <= r[0] < 0xE0 && c == Bits(r[0] - 0xC0, r[1]))
            && (|r| == 3 ==> c >= 0x800 && 0xE0 <= r[0] < 0xF0 && c == Bits(Bits(r[0] - 0xE0, r[1]), r[2]))
            && (|r| == 4 ==> c >= 0x1_0000 && 0xF0 <= r[0] < 0xF8 && c == Bits(Bits(Bits(r[0] - 0xF0, r[1]), r[2]), r[3]))
  {
    SixBits(c);
    SixBits(c / 0x40);
    SixBits(c / 0x1000);
    assert c / 0x40 / 0x40 == c / 0x1000 && c / 0x1000 / 0x40 == c / 0x4_0000;
  }

  /** A number continued by the six low bits of a byte. */
  function Bits(high: int, low: byte): int {
    high * 64 + (low - 128)
  }

  lemma SixBits(c: nat)
    ensures c == c / 64 * 64 + c % 64
  {
  }

  predicate Text(cs: seq<nat>) {
    forall i :: 0 <= i < |cs| ==> Scalar(cs[i])
  }

  function Encode(cs: seq<nat>): (r: bytes)
    requires Text(cs)
    ensures |r| >= |cs|
  {
    if cs == [] then [] else EncodeOne(cs[0]) + Encode(cs[1..])
  }

  lemma {:induction false} EncodeAppend(a: seq<nat>, b: seq<nat>)
    requires Text(a) && Text(b)
    ensures Text(a + b) && Encode(a + b) == Encode(a) + Encode(b)
  {
    if a == [] {
      assert a + b == b;
    } else {
      assert (a + b)[1..] == a[1..] + b;
      EncodeAppend(a[1..], b);
      Assoc(EncodeOne(a[0]), Encode(a[1..]), Encode(b));
    }
  }

  /** Byte offset of character `k`. */
  function At(cs: seq<nat>, k: nat): nat
    requires Text(cs) && k <= |cs|
  {
    |Encode(cs[..k])|
  }

  /** The text around character `k`. */
  lemma Around(cs: seq<nat>, k: nat)
    requires Text(cs) && k <= |cs|
    ensures At(cs, k) <= |Encode(cs)|
    ensures Encode(cs)[..At(cs, k)] == Encode(cs[..k]) && Encode(cs)[At(cs, k)..] == Encode(cs[k..])
    ensures (At(cs, k) == 0 <==> k == 0)
    ensures At(cs, k) == |Encode(cs)| <==> k == |cs|
  {
    assert cs == cs[..k] + cs[k..];
    EncodeAppend(cs[..k], cs[k..]);
  }

  lemma Next(cs: seq<nat>, k: nat)
    requires Text(cs) && k < |cs|
    ensures At(cs, k) < |Encode(cs)| && At(cs, k + 1) == At(cs, k) + |EncodeOne(cs[k])|
    ensures Encode(cs)[At(cs, k)] == EncodeOne(cs[k])[0]
  {
    hide EncodeOne, Encode;
    Around(cs, k);
    assert cs[..k + 1] == cs[..k] + [cs[k]];
    OneMore([cs[k]]);
    OneMore(cs[k..]);
    EncodeAppend(cs[..k], [cs[k]]);
    assert Encode(cs)[At(cs, k)] == Encode(cs)[At(cs, k)..][0];
  }

  lemma OneMore(cs: seq<nat>)
    requires Text(cs) && cs != []
    ensures Encode(cs) != [] && Encode(cs)[0] == EncodeOne(cs[0])[0]
    ensures |cs| == 1 ==> Encode(cs) == EncodeOne(cs[0])
  {
    hide EncodeOne;
    assert |cs| == 1 ==> cs[1..] == [];
  }

  // ---- utf8len ------------------------------------------------------------------------------------

  /** The byte at `i` of a NUL-terminated string. */
  function Byte(s: bytes, i: nat): byte
    requires i <= |s|
  {
    if i == |s| then 0 else s[i]
  }

  /** How far a byte that is negative as a signed char moves the counter. */
  function Skip(b: byte): nat {
    if b / 16 == 0xE then 3 else if b / 16 == 0xF then 4 else 2
  }

  /** Characters counted from `i`; `None` where the scan runs past the terminator. */
  function Count(s: bytes, i: nat): Option<nat>
    decreases |s| + 4 - i
  {
    if i > |s| then None
    else if Byte(s, i) == 0 then Some(0)
    else
      var rest := Count(s, i + if s[i] < 128 then 1 else Skip(s[i]));
      if rest.None? then None else Some(rest.value + 1)
  }

  function Plus(n: nat, r: Option<nat>): Option<nat> {
    if r.None? then None else Some(n + r.value)
  }

  /** The end of a run of ASCII characters. */
  method AsciiRun(s: bytes, from: nat) returns (i: nat)
    requires from <= |s|
    ensures from <= i <= |s| && !(0 < Byte(s, i) < 128)
    ensures Count(s, from) == Plus(i - from, Count(s, i))
    ensures from < |s| && 0 < s[from] < 128 ==> from < i
  {
    i := from;
    while 0 < Byte(s, i) < 128
      invariant from <= i <= |s| && Count(s, from) == Plus(i - from, Count(s, i))
      invariant i == from || 0 < s[from] < 128
      decreases |s| - i
    {
      i := i + 1;
    }
  }

  /** `utf8len`: runs of ASCII are counted by length, other characters one by one. */
  method Utf8Len(s: bytes) returns (r: Option<nat>)
    ensures r == Count(s, 0)
  {
    var i := AsciiRun(s, 0);
    var count: nat := i;
    while i <= |s| && Byte(s, i) != 0
      invariant Count(s, 0) == Plus(count, Count(s, i))
      decreases |s| + 4 - i
    {
      if s[i] < 128 {
        var before := i;
        i := AsciiRun(s, before);
        count := count + (i - before);
      } else {
        i := i + Skip(s[i]);
        count := count + 1;
      }
    }
    r := if i > |s| then None else Some(count);
  }

  lemma FirstByte(c: nat)
    requires Scalar(c)
    ensures var b: int := EncodeOne(c)[0];
            && b > 0 && |EncodeOne(c)| == (if b < 128 then 1 else Skip(b))
            && (b >= 128 ==> Width(b) == Some(Skip(b)))
  {
  }

  /** Of text, the scanner counts the characters. */
  lemma {:induction false} CountsCharacters(cs: seq<nat>, k: nat)
    requires Text(cs) && k <= |cs|
    ensures Count(Encode(cs), At(cs, k)) == Some(|cs| - k)
    decreases |cs| - k
  {
    hide EncodeOne, Skip, Encode;
    Around(cs, k);
    if k < |cs| {
      Next(cs, k);
      FirstByte(cs[k]);
      CountsCharacters(cs, k + 1);
    }
  }

  // ---- utf8substr -----------------------------------------------------------------------------------

  /** Bytes of a character that starts with `b`; `None` for a byte that starts none. */
  function Width(b: byte): Option<nat> {
    if b < 0x80 then Some(1)
    else if b / 32 == 6 then Some(2)
    else if b / 16 == 14 then Some(3)
    else if b / 8 == 30 then Some(4)
    else None
  }

  /**
   How the two scanners read a byte: both go by its leading bits, but the counter moves on two bytes
   from one that starts no character, where the cut gives up.
   */
  lemma LeadBytes(b: byte)
    ensures b < 0x80 ==> Width(b) == Some(1)
    ensures 0x80 <= b < 0xC0 ==> Width(b) == None && Skip(b) == 2
    ensures 0xC0 <= b < 0xE0 ==> Width(b) == Some(2) && Skip(b) == 2
    ensures 0xE0 <= b < 0xF0 ==> Width(b) == Some(3) && Skip(b) == 3
    ensures 0xF0 <= b < 0xF8 ==> Width(b) == Some(4) && Skip(b) == 4
    ensures 0xF8 <= b ==> Width(b) == None && Skip(b) == 4
  {
  }

  /** What the cutting loop knows: byte offsets of the first character and of the end. */
  datatype Marks = Marks(min: Option<nat>, max: Option<nat>)

  function Mark(m: Marks, i: nat, q: nat, start: nat, leng: nat): Marks {
    Marks(if q == start then Some(i) else m.min, Mark1(m, i, q, start, leng))
  }

  function Mark1(m: Marks, i: nat, q: nat, start: nat, leng: nat): Option<nat> {
    if q <= Sum(start, leng) || leng == NPOS then Some(i) else m.max
  }

  /** `start + leng` in 64 bits. */
  function Sum(start: nat, leng: nat): nat {
    (start + leng) % TWO64
  }

  /** The marks at the end of a walk that is at character `q`, byte `i`; `None` if a byte starts no character. */
  function Walk(s: bytes, i: nat, q: nat, m: Marks, start: nat, leng: nat): Option<Marks>
    decreases |s| + 4 - i
  {
    if i >= |s| then Some(Marks(m.min, Mark1(m, i, q, start, leng)))
    else if Width(s[i]).None? then None
    else Walk(s, i + Width(s[i]).value, q + 1, Mark(m, i, q, start, leng), start, leng)
  }

  /** `std::string::substr`: a count of bytes, cut off at the end. */
  function StdSubstr(s: bytes, pos: nat, count: nat): bytes
    requires pos <= |s|
  {
    if pos + count >= |s| then s[pos..] else s[pos..pos + count]
  }

  lemma {:induction false} WalkMin(s: bytes, i: nat, q: nat, m: Marks, start: nat, leng: nat)
    requires m.min.Some? ==> m.min.value < |s|
    ensures var r := Walk(s, i, q, m, start, leng);
            r.Some? && r.value.min.Some? ==> r.value.min.value < |s|
    decreases |s| + 4 - i
  {
    if i < |s| && Width(s[i]).Some? {
      WalkMin(s, i + Width(s[i]).value, q + 1, Mark(m, i, q, start, leng), start, leng);
    }
  }

  function Cut(s: bytes, start: nat, leng: nat): bytes {
    var r := Walk(s, 0, 0, Marks(None, None), start, leng);
    WalkMin(s, 0, 0, Marks(None, None), start, leng);
    if r.None? || r.value.min.None? || r.value.max.None? then []
    else StdSubstr(s, r.value.min.value, r.value.max.value)
  }

  /** `None` where counting runs past the terminator. */
  function Substr(s: bytes, start: nat, leng: nat): Option<bytes> {
    if leng == 0 then Some([])
    else if start == 0 && Count(s, 0).None? then None
    else if start == 0 && leng >= Count(s, 0).value then Some(s)
    else Some(Cut(s, start, leng))
  }

  method Utf8Substr(s: bytes, start: uint64, leng: uint64) returns (r: Option<bytes>)
    ensures r == Substr(s, start, leng)
  {
    hide Count;
    if leng == 0 {
      return Some([]);
    }
    if start == 0 {
      var n := Utf8Len(s);
      if n.None? {
        return None;
      } else if leng >= n.value {
        return Some(s);
      }
    }
    var i, q, m := 0, 0, Marks(None, None);
    while i < |s|
      invariant Walk(s, 0, 0, Marks(None, None), start, leng) == Walk(s, i, q, m, start, leng)
      decreases |s| + 4 - i
    {
      var w := Width(s[i]);
      if w.None? {
        return Some([]);
      }
      m := Mark(m, i, q, start, leng);
      i, q := i + w.value, q + 1;
    }
    m := m.(max := Mark1(m, i, q, start, leng));
    WalkMin(s, 0, 0, Marks(None, None), start, leng);
    r := Some(if m.min.None? || m.max.None? then [] else StdSubstr(s, m.min.value, m.max.value));
  }

  // ---- what the cutting means ---------------------------------------------------------------------------

  /** The character whose offset the loop takes for the end. */
  function Reached(cs: seq<nat>, start: nat, leng: nat): (e: nat)
    ensures e <= |cs|
  {
    if leng == NPOS || Sum(start, leng) >= |cs| then |cs| else Sum(start, leng)
  }

  /** The marks when the walk has seen the first `q` characters. */
  function MarksAt(cs: seq<nat>, q: nat, start: nat, leng: nat): Marks
    requires Text(cs) && q <= |cs|
  {
    Marks(
      if start < q then Some(At(cs, start)) else None,
      if q == 0 then None else Some(At(cs, if leng == NPOS || q - 1 <= Sum(start, leng) then q - 1 else Sum(start, leng))))
  }

  lemma {:induction false} WalksCharacters(cs: seq<nat>, q: nat, start: nat, leng: nat)
    requires Text(cs) && q <= |cs|
    ensures Walk(Encode(cs), At(cs, q), q, MarksAt(cs, q, start, leng), start, leng)
         == Some(Marks(if start < |cs| then Some(At(cs, start)) else None, Some(At(cs, Reached(cs, start, leng)))))
    decreases |cs| - q
  {
    hide EncodeOne, Encode, At, Width, Skip, Sum;
    Around(cs, q);
    if q < |cs| {
      Next(cs, q);
      FirstByte(cs[q]);
      WidthIs(cs[q]);
      WalksCharacters(cs, q + 1, start, leng);
    }
  }

  lemma WidthIs(c: nat)
    requires Scalar(c)
    ensures Width(EncodeOne(c)[0]) == Some(|EncodeOne(c)|)
  {
  }

  /** The characters asked for: `leng` from `start` on, as far as there are any. */
  function Wanted(cs: seq<nat>, start: nat, leng: nat): seq<nat> {
    if start >= |cs| then [] else if start + leng >= |cs| then cs[start..] else cs[start..start + leng]
  }

  lemma {:induction false} CutIs(cs: seq<nat>, start: nat, leng: nat)
    requires Text(cs)
    ensures At(cs, Reached(cs, start, leng)) <= |Encode(cs)| && (start < |cs| ==> At(cs, start) <= |Encode(cs)|)
    ensures Cut(Encode(cs), start, leng) ==
              if start < |cs| then StdSubstr(Encode(cs), At(cs, start), At(cs, Reached(cs, start, leng))) else []
  {
    hide Encode, Walk, Sum;
    assert At(cs, 0) == 0 by { Around(cs, 0); }
    WalksCharacters(cs, 0, start, leng);
    Around(cs, Reached(cs, start, leng));
    if start < |cs| {
      Around(cs, start);
    }
  }

  /** A run of characters is a run of bytes. */
  lemma Between(cs: seq<nat>, a: nat, b: nat)
    requires Text(cs) && a <= b <= |cs|
    ensures At(cs, a) <= At(cs, b) <= |Encode(cs)|
    ensures Encode(cs[a..b]) == Encode(cs)[At(cs, a)..At(cs, b)]
  {
    hide Encode;
    Around(cs, b);
    assert cs[..b] == cs[..a] + cs[a..b];
    EncodeAppend(cs[..a], cs[a..b]);
    Middle(Encode(cs), Encode(cs[..a]), Encode(cs[a..b]));
  }

  lemma Middle(s: bytes, x: bytes, y: bytes)
    requires x + y <= s
    ensures s[|x|..|x| + |y|] == y
  {
    assert s[..|x| + |y|] == x + y;
    SliceOfSlice(s, 0, |x| + |y|, |x|, |y|);
  }

  /** A length is right in place of an end only from the start or up to the end. */
  lemma StdExactly(s: bytes, from: nat, end: nat)
    requires from <= end <= |s|
    ensures StdSubstr(s, from, end) == s[from..end] <==> from == 0 || end == |s|
  {
    if from > 0 && end < |s| {
      assert |StdSubstr(s, from, end)| > end - from;
    }
  }

  /** The sum of start and length does not fit 64 bits, and the length is not the one that means no limit. */
  predicate Wraps(start: nat, leng: nat) {
    leng != NPOS && start + leng >= TWO64
  }

  /**
   When the cut is right, for arguments that ask for something: from the start, or behind the end;
   up to the end; or, if the sum wraps, with at least as many bytes before the wrapped end as there
   are from `start` on.
   */
  ghost predicate CutsRight(cs: seq<nat>, start: nat, leng: nat)
    requires Text(cs)
  {
    || start == 0 || start >= |cs|
    || if Wraps(start, leng) then Sum(start, leng) <= |cs| && At(cs, Sum(start, leng)) + At(cs, start) >= |Encode(cs)|
       else start + leng >= |cs|
  }

  /**
   Of text, for all arguments, the result is the characters asked for exactly if none are or the
   cut is right: otherwise the cut takes as many bytes as lie before the end.
   */
  lemma {:induction false} SubstrExactly(cs: seq<nat>, start: uint64, leng: uint64)
    requires Text(cs) && |cs| < NPOS
    ensures Substr(Encode(cs), start, leng).Some?
    ensures Substr(Encode(cs), start, leng).value == Encode(Wanted(cs, start, leng)) <==> leng == 0 || CutsRight(cs, start, leng)
  {
    hide Encode, Cut, Substr;
    SubstrIs(cs, start, leng);
    NoText();
    if leng == 0 {
      WantedNone(cs, start);
    } else if start == 0 && leng >= |cs| {
      WantedAll(cs, leng);
    } else {
      CutExactly(cs, start, leng);
    }
  }

  lemma {:induction false} SubstrIs(cs: seq<nat>, start: nat, leng: nat)
    requires Text(cs)
    ensures Substr(Encode(cs), start, leng) ==
              Some(if leng == 0 then [] else if start == 0 && leng >= |cs| then Encode(cs) else Cut(Encode(cs), start, leng))
  {
    hide Encode, Cut, Count;
    CountsCharacters(cs, 0);
    Around(cs, 0);
  }

  lemma WantedNone(cs: seq<nat>, start: nat)
    ensures Wanted(cs, start, 0) == []
  {
  }

  lemma WantedAll(cs: seq<nat>, leng: nat)
    requires leng >= |cs|
    ensures Wanted(cs, 0, leng) == cs
  {
  }

  lemma {:induction false} CutExactly(cs: seq<nat>, start: uint64, leng: uint64)
    requires Text(cs) && |cs| < NPOS && leng > 0
    ensures Cut(Encode(cs), start, leng) == Encode(Wanted(cs, start, leng)) <==> CutsRight(cs, start, leng)
  {
    hide Encode, Cut, At, StdSubstr;
    CutIs(cs, start, leng);
    NoText();
    if start < |cs| {
      var e := Reached(cs, start, leng);
      Around(cs, start);
      if Wraps(start, leng) {
        assert e == start + leng - TWO64 && e < start;
        StdShort(Encode(cs), At(cs, start), At(cs, e));
      } else {
        Around(cs, e);
        Between(cs, start, e);
        StdExactly(Encode(cs), At(cs, start), At(cs, e));
      }
    }
  }

  lemma StdShort(s: bytes, from: nat, count: nat)
    requires from <= |s|
    ensures StdSubstr(s, from, count) == s[from..] <==> from + count >= |s|
  {
  }

  /**
   What is cut off in every case: as many bytes from the first character asked for as there are
   before the end character, whose number is a 64-bit sum, or all that is left if the text ends before.
   */
  lemma {:induction false} CutTakes(cs: seq<nat>, start: uint64, leng: uint64)
    requires Text(cs) && |cs| < 0xFFFF_FFFF_FFFF_FFFF && leng > 0 && !(start == 0 && leng >= |cs|)
    ensures var sum := (start + leng) % 0x1_0000_0000_0000_0000;
            var end := if leng == 0xFFFF_FFFF_FFFF_FFFF || sum >= |cs| then |cs| else sum;
            var s, till := Encode(cs), |Encode(cs[..end])|;
            start < |cs| ==>
              var from := |Encode(cs[..start])|;
              from <= |s| && Substr(s, start, leng) == Some(if from + till < |s| then s[from..from + till] else s[from..])
    ensures start >= |cs| ==> Substr(Encode(cs), start, leng) == Some([])
  {
    hide Encode, Cut;
    SubstrIs(cs, start, leng);
    CutIs(cs, start, leng);
  }

  lemma {:induction false} WalkStops(cs: seq<nat>, b: byte, rest: bytes, q: nat, m: Marks, start: nat, leng: nat)
    requires Text(cs) && q <= |cs| && (0x80 <= b < 0xC0 || 0xF8 <= b)
    ensures At(cs, q) <= |Encode(cs)| && Walk(Encode(cs) + [b] + rest, At(cs, q), q, m, start, leng) == None
    decreases |cs| - q
  {
    hide EncodeOne, Encode, At, Width, Skip, Sum;
    var s := Encode(cs) + [b] + rest;
    Around(cs, q);
    if q < |cs| {
      Next(cs, q);
      assert s[At(cs, q)] == Encode(cs)[At(cs, q)];
      WidthIs(cs[q]);
      WalkStops(cs, b, rest, q + 1, Mark(m, At(cs, q), q, start, leng), start, leng);
    } else {
      LeadBytes(b);
      assert At(cs, q) == |Encode(cs)| && s[At(cs, q)] == b;
    }
  }

  /** With a byte behind some text that starts no character nothing is cut off. */
  lemma {:induction false} BadByteCutsAll(cs: seq<nat>, b: byte, rest: bytes, start: nat, leng: nat)
    requires Text(cs) && (0x80 <= b < 0xC0 || 0xF8 <= b)
    ensures Cut(Encode(cs) + [b] + rest, start, leng) == []
  {
    hide Encode, Walk;
    assert At(cs, 0) == 0 by { Around(cs, 0); }
    WalkStops(cs, b, rest, 0, Marks(None, None), start, leng);
  }

  /** Where the sum wraps, the last of three letters is cut to nothing. */
  lemma WrapCutsShort()
    ensures var cs := [65, 66, 67];
            && Text(cs) && Wanted(cs, 2, NPOS - 1) == [67] && Substr(Encode(cs), 2, NPOS - 1) == Some([])
  {
    hide Encode, Cut, Walk;
    var cs := [65, 66, 67];
    SubstrIs(cs, 2, NPOS - 1);
    CutIs(cs, 2, NPOS - 1);
    assert Reached(cs, 2, NPOS - 1) == 0;
    Around(cs, 0);
  }

  lemma NoText()
    ensures Text([]) && Encode([]) == []
  {
  }

  // ---- validate ------------------------------------------------------------------------------------------

  /** `None` where the text is too short: the exception. */
  method Validate(value: bytes, min: uint64, max: uint64) returns (r: Option<Option<bytes>>)
    ensures r == Validated(value, min, max)
  {
    hide Count, Substr;
    var n := Utf8Len(value);
    if n.None? {
      return None;
    }
    if n.value < min {
      return Some(None);
    } else if n.value > max {
      var cut := Utf8Substr(value, 0, max);
      return if cut.None? then None else Some(cut);
    }
    return Some(Some(value));
  }

  /** Outer `None`: the scan ran past the terminator; inner `None`: a length exception. */
  function Validated(value: bytes, min: nat, max: nat): Option<Option<bytes>> {
    var n := Count(value, 0);
    if n.None? then None
    else if n.value < min then Some(None)
    else if n.value > max then (var cut := Substr(value, 0, max); if cut.None? then None else Some(cut))
    else Some(Some(value))
  }

  /** Of text, `validate` returns the first `max` characters, or throws if there are fewer than `min`. */
  lemma ValidateText(cs: seq<nat>, min: nat, max: nat)
    requires Text(cs) && |cs| < NPOS && max < TWO64
    ensures Validated(Encode(cs), min, max) ==
              Some(if |cs| < min then None else Some(Encode(if |cs| > max then cs[..max] else cs)))
  {
    hide Encode, Substr, Count;
    assert At(cs, 0) == 0 by { Around(cs, 0); }
    CountsCharacters(cs, 0);
    if max < |cs| {
      SubstrExactly(cs, 0, max);
      assert Wanted(cs, 0, max) == cs[..max];
    }
  }
}
