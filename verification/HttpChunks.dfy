/**
 The chunked body of an HTTP reply: the state machine of `handle_buffer` from the chunk-length
 state on, and why the way the bytes are split over reads does not matter.
 */
module HttpChunks {
  import opened Bytes

  const CR: byte := 13
  const LF: byte := 10
  const CRLF: bytes := [CR, LF]

  datatype State = ChunkLen | ChunkContent | ChunkTrailer | ChunkLast | Done

  /** The client's fields; `size` and `receive` are unsigned 64-bit counters. */
  datatype Client = Client(
    state: State, buffer: bytes, body: bytes, size: nat, receive: nat, keepalive: bool)

  /** No more of a chunk was received than its size. */
  predicate Valid(c: Client) {
    c.state.ChunkContent? ==> c.receive <= c.size < TWO64
  }

  // ---- std::stoi in base 16 --------------------------------------------------------------------

  function HexDigit(b: byte): (r: Option<nat>)
    ensures r.Some? ==> r.value < 16
  {
    if 48 <= b <= 57 then Some(b - 48)
    else if 65 <= b <= 70 then Some(b - 55)
    else if 97 <= b <= 102 then Some(b - 87)
    else None
  }

  /** The value of the leading hexadecimal digits, read from the left. */
  function Leading(t: bytes, acc: nat): nat
    decreases |t|
  {
    if t == [] || HexDigit(t[0]).None? then acc else Leading(t[1..], 16 * acc + HexDigit(t[0]).value)
  }

  predicate Space(b: byte) {
    b == 32 || 9 <= b <= 13
  }

  function SkipSpace(t: bytes): bytes {
    if t != [] && Space(t[0]) then SkipSpace(t[1..]) else t
  }

  /** The text past an optional `0x`, which counts only before a digit. */
  function SkipPrefix(t: bytes): bytes {
    if |t| >= 3 && t[0] == 48 && (t[1] == 120 || t[1] == 88) && HexDigit(t[2]).Some? then t[2..] else t
  }

  /** `None` where `stoi` throws: no digit, or a value outside the int range. */
  function Stoi16(text: bytes): (r: Option<int>)
    ensures r.Some? ==> -0x8000_0000 <= r.value <= 0x7fff_ffff
  {
    var t := SkipSpace(text);
    var negative := t != [] && t[0] == 45;
    var u := SkipPrefix(if t != [] && (t[0] == 45 || t[0] == 43) then t[1..] else t);
    if u == [] || HexDigit(u[0]).None? then None
    else
      var v: int := Leading(u, 0);
      var s := if negative then 0 - v else v;
      if -0x8000_0000 <= s <= 0x7fff_ffff then Some(s) else None
  }

  // ---- one turn of the loop -------------------------------------------------------------------------

  predicate CrlfAt(b: bytes, i: nat) {
    i + 1 < |b| && b[i] == CR && b[i + 1] == LF
  }

  /** Index of the first CR LF, at or after `from`. */
  function Find(b: bytes, from: nat): (r: Option<nat>)
    ensures r.Some? ==> from <= r.value && CrlfAt(b, r.value) && forall i :: from <= i < r.value ==> !CrlfAt(b, i)
    ensures r.None? ==> forall i :: from <= i ==> !CrlfAt(b, i)
    decreases |b| - from
  {
    if from + 2 > |b| then None
    else if CrlfAt(b, from) then Some(from)
    else Find(b, from + 1)
  }

  /** How a turn ends: the state changed, the call returns true, the call returns false. */
  datatype Outcome = Again(c: Client) | Wait(c: Client) | Stop(c: Client)

  function LengthLine(c: Client): (r: Outcome)
    requires c.state.ChunkLen?
  {
    var at := Find(c.buffer, 0);
    if at.None? then Wait(c)
    else
      var rest, n := c.buffer[at.value + 2..], Stoi16(c.buffer[..at.value]);
      if n.None? then Stop(c.(buffer := rest, receive := 0, keepalive := false))
      else if n.value == 0 then Again(c.(state := ChunkLast, buffer := rest, receive := 0, size := 2))
      else Again(c.(state := ChunkContent, buffer := rest, receive := 0, size := n.value % TWO64))
  }

  function Content(c: Client): Outcome
    requires Valid(c) && c.state.ChunkContent?
  {
    var n := if c.receive + |c.buffer| > c.size then c.size - c.receive else |c.buffer|;
    var d := c.(body := c.body + c.buffer[..n], receive := c.receive + n, buffer := c.buffer[n..]);
    if d.receive >= d.size then Again(d.(state := ChunkTrailer)) else Wait(d)
  }

  function Turn(c: Client): (r: Outcome)
    requires Valid(c)
    ensures Valid(r.c) && c.body <= r.c.body && (r.Wait? ==> !r.c.state.Done?)
    ensures r.Again? ==> |r.c.buffer| < |c.buffer| || (|r.c.buffer| == |c.buffer| && Rank(r.c) < Rank(c))
  {
    match c.state
    case ChunkContent => Content(c)
    case ChunkLast =>
      if |c.buffer| >= 2 && c.buffer[..2] == CRLF then Stop(c.(state := Done)) else Wait(c)
    case ChunkTrailer =>
      if |c.buffer| >= 2 && c.buffer[..2] == CRLF then Again(c.(state := ChunkLen, buffer := c.buffer[2..]))
      else Wait(c)
    case ChunkLen => LengthLine(c)
    case Done => Stop(c)
  }

  function Rank(c: Client): nat {
    if c.state.ChunkContent? then 1 else 0
  }

  /** The whole loop on what is in the buffer. */
  function Run(c: Client): (r: Outcome)
    requires Valid(c)
    ensures !r.Again? && Valid(r.c) && c.body <= r.c.body && (r.Wait? ==> !r.c.state.Done?)
    decreases |c.buffer|, Rank(c)
  {
    var r := Turn(c);
    if r.Again? then Run(r.c) else r
  }

  // ---- splitting reads ---------------------------------------------------------------------------------

  function Plus(c: Client, more: bytes): Client {
    c.(buffer := c.buffer + more)
  }

  /** An outcome with bytes behind it that were not looked at. */
  function Behind(r: Outcome, more: bytes): Outcome {
    r.(c := Plus(r.c, more))
  }

  lemma {:induction false} FindGrows(b: bytes, from: nat, more: bytes)
    requires Find(b, from).Some?
    ensures Find(b + more, from) == Find(b, from)
    decreases |b| - from
  {
    assert CrlfAt(b + more, from) == CrlfAt(b, from);
    if !CrlfAt(b, from) {
      FindGrows(b, from + 1, more);
    }
  }

  lemma LengthLineGrows(c: Client, more: bytes)
    requires c.state.ChunkLen? && !LengthLine(c).Wait?
    ensures LengthLine(Plus(c, more)) == Behind(LengthLine(c), more)
  {
    hide Stoi16;
    FindGrows(c.buffer, 0, more);
    var at := Find(c.buffer, 0).value;
    assert (c.buffer + more)[..at] == c.buffer[..at];
    assert (c.buffer + more)[at + 2..] == c.buffer[at + 2..] + more;
  }

  lemma ContentGrows(c: Client, more: bytes)
    requires Valid(c) && c.state.ChunkContent? && !Content(c).Wait?
    ensures Content(Plus(c, more)) == Behind(Content(c), more)
  {
    var n := c.size - c.receive;
    assert n <= |c.buffer|;
    assert (c.buffer + more)[..n] == c.buffer[..n];
    assert (c.buffer + more)[n..] == c.buffer[n..] + more;
  }

  /** More bytes behind a turn that did something do not change what it did. */
  lemma TurnGrows(c: Client, more: bytes)
    requires Valid(c) && !Turn(c).Wait?
    ensures Turn(Plus(c, more)) == Behind(Turn(c), more)
  {
    hide Content, LengthLine;
    match c.state
    case ChunkContent => ContentGrows(c, more);
    case ChunkLen => LengthLineGrows(c, more);
    case ChunkLast => assert (c.buffer + more)[..2] == c.buffer[..2];
    case ChunkTrailer =>
      assert (c.buffer + more)[..2] == c.buffer[..2];
      assert (c.buffer + more)[2..] == c.buffer[2..] + more;
    case Done =>
  }

  lemma ContentWaits(c: Client, more: bytes)
    requires Valid(c) && c.state.ChunkContent? && Content(c).Wait?
    ensures Content(Plus(c, more)) == Content(Plus(Content(c).c, more))
  {
    var d, had := Content(c).c, |c.buffer|;
    assert d == c.(body := c.body + c.buffer, receive := c.receive + had, buffer := []) by {
      assert c.buffer[..had] == c.buffer && c.buffer[had..] == [];
    }
    var k := if d.receive + |more| > d.size then d.size - d.receive else |more|;
    TwoReads(c.body, c.buffer, more, k);
  }

  lemma TwoReads(body: bytes, b: bytes, more: bytes, k: nat)
    requires k <= |more|
    ensures body + (b + more)[..|b| + k] == body + b + ([] + more)[..k]
    ensures (b + more)[|b| + k..] == ([] + more)[k..]
  {
    assert [] + more == more;
    assert (b + more)[..|b| + k] == b + more[..k];
    Assoc(body, b, more[..k]);
  }

  /** A turn that waits has done part of what the turn after the next read will do. */
  lemma TurnWaits(c: Client, more: bytes)
    requires Valid(c) && Turn(c).Wait?
    ensures Turn(Plus(c, more)) == Turn(Plus(Turn(c).c, more))
  {
    hide Content, LengthLine;
    if c.state.ChunkContent? {
      ContentWaits(c, more);
      assert Content(c).c.state.ChunkContent? by { ContentState(c); }
    } else if c.state.ChunkLen? {
      assert LengthLine(c).c == c by { LengthLineState(c); }
    }
  }

  lemma ContentState(c: Client)
    requires Valid(c) && c.state.ChunkContent? && Content(c).Wait?
    ensures Content(c).c.state.ChunkContent?
  {
  }

  lemma LengthLineState(c: Client)
    requires c.state.ChunkLen? && LengthLine(c).Wait?
    ensures LengthLine(c).c == c
  {
  }

  /** A read after a call that returned true goes on as if both reads had been one. */
  lemma {:induction false} RunSplit(c: Client, more: bytes)
    requires Valid(c)
    ensures Run(c).Wait? ==> Run(Plus(c, more)) == Run(Plus(Run(c).c, more))
    ensures Run(c).Stop? ==> Run(Plus(c, more)) == Behind(Run(c), more)
    decreases |c.buffer|, Rank(c)
  {
    hide Turn;
    var r := Turn(c);
    if r.Wait? {
      TurnWaits(c, more);
    } else {
      TurnGrows(c, more);
      if r.Again? {
        RunSplit(r.c, more);
      }
    }
  }

  /** Reads one after the other, until a call returns false. */
  function Feed(c: Client, pieces: seq<bytes>): (r: Outcome)
    requires Valid(c) && pieces != []
    decreases |pieces|
  {
    var r := Run(Plus(c, pieces[0]));
    if r.Stop? || |pieces| == 1 then r else Feed(r.c, pieces[1..])
  }

  /** The same end, apart from bytes never looked at. */
  predicate SameEnd(a: Outcome, b: Outcome) {
    if a.Stop? then b.Stop? && b.c == a.c.(buffer := b.c.buffer) && a.c.buffer <= b.c.buffer else a == b
  }

  lemma {:induction false} AnySplit(c: Client, pieces: seq<bytes>)
    requires Valid(c) && pieces != []
    ensures SameEnd(Feed(c, pieces), Run(Plus(c, Concat(pieces))))
    decreases |pieces|
  {
    hide Run;
    var d, more := Plus(c, pieces[0]), Concat(pieces[1..]);
    Assoc(c.buffer, pieces[0], more);
    RunSplit(d, more);
    if |pieces| == 1 {
      assert pieces[0] + [] == pieces[0];
    } else if Run(d).Wait? {
      AnySplit(Run(d).c, pieces[1..]);
    }
  }

  // ---- section 4.1 of RFC 7230 -----------------------------------------------------------------------------

  /** A chunk as it is written: size in hexadecimal, extension text, data. */
  datatype Chunk = Chunk(digits: bytes, extension: bytes, data: bytes)

  predicate AllHex(t: bytes) {
    forall i :: 0 <= i < |t| ==> HexDigit(t[i]).Some?
  }

  /** The number that hexadecimal digits spell. */
  function HexValue(t: bytes): nat
    requires AllHex(t)
  {
    if t == [] then 0 else 16 * HexValue(t[..|t| - 1]) + HexDigit(t[|t| - 1]).value
  }

  /** The character of the digit `v` is `b`, in either case. */
  ghost predicate DigitIs(b: byte, v: nat) {
    v < 16 && ("0123456789abcdef"[v] as int == b || "0123456789ABCDEF"[v] as int == b)
  }

  /** `t` is a hexadecimal numeral of `n`. */
  ghost predicate Spells(t: bytes, n: nat) {
    if t == [] then n == 0 else DigitIs(t[|t| - 1], n % 16) && Spells(t[..|t| - 1], n / 16)
  }

  ghost predicate SizeLine(digits: bytes, extension: bytes, n: nat) {
    && digits != [] && Spells(digits, n)
    && (extension == [] || extension[0] as char == ';')
    && forall i :: 0 <= i < |extension| ==> extension[i] != 13
  }

  ghost predicate WellFormed(k: Chunk) {
    SizeLine(k.digits, k.extension, |k.data|) && 0 < |k.data| < 0x8000_0000
  }

  function Write(k: Chunk): bytes {
    k.digits + k.extension + [13, 10] + (k.data + [13, 10])
  }

  /** Chunks, the last chunk of size zero, no trailer fields, and the final CR LF. */
  function Encoding(ks: seq<Chunk>, last: Chunk): bytes {
    if ks == [] then last.digits + last.extension + [13, 10] + [13, 10] else Write(ks[0]) + Encoding(ks[1..], last)
  }

  function Data(ks: seq<Chunk>): bytes {
    if ks == [] then [] else ks[0].data + Data(ks[1..])
  }

  lemma {:induction false} LeadingIsValue(a: bytes, t: bytes, rest: bytes)
    requires AllHex(a + t) && AllHex(a) && (rest == [] || HexDigit(rest[0]).None?)
    ensures Leading(t + rest, HexValue(a)) == HexValue(a + t)
    decreases |t|
  {
    if t == [] {
      assert t + rest == rest && a + t == a;
    } else {
      var b := a + [t[0]];
      assert a + t == b + t[1..] && b[..|b| - 1] == a;
      assert HexDigit((a + t)[|a|]).Some?;
      assert (t + rest)[1..] == t[1..] + rest;
      LeadingIsValue(b, t[1..], rest);
    }
  }

  lemma DigitMeans(b: byte, v: nat)
    ensures DigitIs(b, v) <==> HexDigit(b) == Some(v)
  {
    if v < 16 {
      LowerIs(v);
      UpperIs(v);
    }
  }

  lemma LowerIs(v: nat)
    requires v < 16
    ensures "0123456789abcdef"[v] as int == if v < 10 then 48 + v else 87 + v
  {
  }

  lemma UpperIs(v: nat)
    requires v < 16
    ensures "0123456789ABCDEF"[v] as int == if v < 10 then 48 + v else 55 + v
  {
  }

  /** The digits the client reads are those of the numeral. */
  lemma {:induction false} SpellsIsValue(t: bytes, n: nat)
    ensures Spells(t, n) <==> AllHex(t) && HexValue(t) == n
  {
    hide HexDigit, DigitIs;
    if t != [] {
      var most, b := t[..|t| - 1], t[|t| - 1];
      DigitMeans(b, n % 16);
      SpellsIsValue(most, n / 16);
      if AllHex(t) {
        assert forall i :: 0 <= i < |most| ==> most[i] == t[i];
        assert HexValue(t) == 16 * HexValue(most) + HexDigit(b).value;
      }
    }
  }

  lemma NoPrefix(digits: bytes, extension: bytes)
    requires digits != [] && AllHex(digits) && (extension == [] || extension[0] == 59)
    ensures SkipSpace(digits + extension) == digits + extension == SkipPrefix(digits + extension)
    ensures digits[0] != 45 && digits[0] != 43
  {
    var t := digits + extension;
    assert t[0] == digits[0];
    if |t| >= 2 {
      assert t[1] == if |digits| >= 2 then digits[1] else extension[0];
    }
  }

  lemma SizeText(digits: bytes, extension: bytes, n: nat)
    requires SizeLine(digits, extension, n) && n < 0x8000_0000
    ensures Stoi16(digits + extension) == Some(n)
  {
    hide SkipSpace, SkipPrefix, Leading;
    SpellsIsValue(digits, n);
    var t := digits + extension;
    NoPrefix(digits, extension);
    assert t[0] == digits[0];
    assert Leading(t, 0) == n by {
      assert [] + digits == digits && HexValue([]) == 0;
      LeadingIsValue([], digits, extension);
    }
  }

  lemma {:induction false} FindsEnd(line: bytes, rest: bytes, from: nat)
    requires from <= |line|
    requires forall i :: 0 <= i < |line| ==> line[i] != CR
    ensures Find(line + CRLF + rest, from) == Some(|line|)
    decreases |line| - from
  {
    if from < |line| {
      FindsEnd(line, rest, from + 1);
    }
  }

  /** A size line is read and taken off the buffer. */
  lemma LineRead(c: Client, digits: bytes, extension: bytes, n: nat, rest: bytes)
    requires c.state.ChunkLen? && c.buffer == digits + extension + CRLF + rest
    requires SizeLine(digits, extension, n) && n < 0x8000_0000
    ensures LengthLine(c) == Again(
              if n == 0 then c.(state := ChunkLast, buffer := rest, receive := 0, size := 2)
              else c.(state := ChunkContent, buffer := rest, receive := 0, size := n))
  {
    hide Stoi16, HexDigit, Spells;
    var line := digits + extension;
    SpellsIsValue(digits, n);
    assert forall i :: 0 <= i < |digits| ==> digits[i] != CR by {
      forall i | 0 <= i < |digits| ensures digits[i] != CR {
        HexIsNotCr(digits[i]);
      }
    }
    FindsEnd(line, rest, 0);
    SizeText(digits, extension, n);
    assert c.buffer[..|line|] == line && c.buffer[|line| + 2..] == rest;
  }

  lemma HexIsNotCr(b: byte)
    requires HexDigit(b).Some?
    ensures b != CR
  {
  }

  lemma ContentRead(c: Client, data: bytes, rest: bytes)
    requires c.state.ChunkContent? && c.buffer == data + (CRLF + rest)
    requires c.receive == 0 && c.size == |data| < TWO64
    ensures Content(c) == Again(c.(state := ChunkTrailer, buffer := CRLF + rest, body := c.body + data, receive := |data|))
  {
    assert c.buffer[..|data|] == data && c.buffer[|data|..] == CRLF + rest;
  }

  /** A chunk is read: its data is appended to the body, and the next one is due. */
  lemma ChunkRead(c: Client, k: Chunk, rest: bytes) returns (d: Client)
    requires Valid(c) && c.state.ChunkLen? && WellFormed(k) && c.buffer == Write(k) + rest
    ensures Valid(d) && d.state.ChunkLen? && d.buffer == rest && d.body == c.body + k.data && d.keepalive == c.keepalive
    ensures Run(c) == Run(d)
  {
    hide Stoi16, HexDigit, HexValue, Content, LengthLine;
    var r1 := k.data + (CRLF + rest);
    assert c.buffer == k.digits + k.extension + CRLF + r1 by {
      Assoc(k.digits + k.extension + CRLF, k.data + CRLF, rest);
      Assoc(k.data, CRLF, rest);
    }
    LineRead(c, k.digits, k.extension, |k.data|, r1);
    var c1 := c.(state := ChunkContent, buffer := r1, receive := 0, size := |k.data|);
    ContentRead(c1, k.data, rest);
    var c2 := c1.(state := ChunkTrailer, buffer := CRLF + rest, body := c.body + k.data, receive := |k.data|);
    assert c2.buffer[..2] == CRLF && c2.buffer[2..] == rest;
    d := c2.(state := ChunkLen, buffer := rest);
    assert Turn(c) == Again(c1) && Turn(c1) == Again(c2) && Turn(c2) == Again(d);
    assert Run(c) == Run(c1) == Run(c2) == Run(d);
  }

  ghost predicate AllWellFormed(ks: seq<Chunk>) {
    forall i :: 0 <= i < |ks| ==> WellFormed(ks[i])
  }

  /** The whole encoding in one read: the body is the data, and the call returns false at the final CR LF. */
  lemma {:induction false} AtOnce(c: Client, ks: seq<Chunk>, last: Chunk, extra: bytes)
    requires Valid(c) && c.state.ChunkLen? && AllWellFormed(ks) && SizeLine(last.digits, last.extension, 0)
    requires c.buffer == Encoding(ks, last) + extra
    ensures Run(c).Stop? && Run(c).c.state.Done? && Run(c).c.keepalive == c.keepalive
    ensures Run(c).c.body == c.body + Data(ks) && Run(c).c.buffer == CRLF + extra
    decreases |ks|
  {
    hide Turn, Run, HexDigit, HexValue, WellFormed, Write;
    if ks == [] {
      LastRead(c, last, extra);
      assert c.body + [] == c.body;
    } else {
      Assoc(Write(ks[0]), Encoding(ks[1..], last), extra);
      var d := ChunkRead(c, ks[0], Encoding(ks[1..], last) + extra);
      AtOnce(d, ks[1..], last, extra);
      Assoc(c.body, ks[0].data, Data(ks[1..]));
    }
  }

  lemma LastRead(c: Client, last: Chunk, extra: bytes)
    requires Valid(c) && c.state.ChunkLen? && SizeLine(last.digits, last.extension, 0)
    requires c.buffer == last.digits + last.extension + CRLF + CRLF + extra
    ensures Run(c).Stop? && Run(c).c == c.(state := Done, buffer := CRLF + extra, receive := 0, size := 2)
  {
    hide Stoi16, HexDigit, HexValue, LengthLine, SizeLine;
    Assoc(last.digits + last.extension + CRLF, CRLF, extra);
    LineRead(c, last.digits, last.extension, 0, CRLF + extra);
    var c1 := c.(state := ChunkLast, buffer := CRLF + extra, receive := 0, size := 2);
    assert c1.buffer[..2] == CRLF;
    assert Turn(c) == Again(c1) && Turn(c1) == Stop(c1.(state := Done));
    assert Run(c) == Run(c1);
  }

  /** Short of its last byte an encoding leaves the call waiting for more. */
  lemma NotEarly(c: Client, ks: seq<Chunk>, last: Chunk, rest: bytes)
    requires Valid(c) && c.state.ChunkLen? && AllWellFormed(ks) && SizeLine(last.digits, last.extension, 0)
    requires c.buffer + rest == Encoding(ks, last) && rest != []
    ensures Run(c).Wait? && Run(c).c.body <= c.body + Data(ks)
  {
    hide Run, Encoding, SizeLine, WellFormed;
    RunSplit(c, rest);
    assert c.buffer + rest == Encoding(ks, last) + [];
    AtOnce(Plus(c, rest), ks, last, []);
    if Run(c).Stop? {
      assert Run(c).c.state.Done?;
      StopsAtCrlf(c);
    } else {
      assert Run(c).c.body <= Run(Plus(Run(c).c, rest)).c.body;
    }
  }

  /** The last CR LF is in the buffer, and stays there, when the body is done. */
  lemma {:induction false} StopsAtCrlf(c: Client)
    requires Valid(c) && !c.state.Done? && Run(c).c.state.Done?
    ensures |Run(c).c.buffer| >= 2
    decreases |c.buffer|, Rank(c)
  {
    hide Stoi16, Find;
    var r := Turn(c);
    if r.Again? {
      StopsAtCrlf(r.c);
    }
  }

  /**
   For every list of chunks and every split of its encoding into reads: while bytes are missing
   each call returns true with a part of the data as the body; with the final CR LF the call
   returns false, the state is done and the body is all of the data.
   */
  lemma {:induction false} EveryRead(c: Client, pieces: seq<bytes>, ks: seq<Chunk>, last: Chunk)
    requires Valid(c) && c.state.ChunkLen? && AllWellFormed(ks) && SizeLine(last.digits, last.extension, 0)
    requires pieces != [] && c.buffer + Concat(pieces) <= Encoding(ks, last)
    ensures var r := Feed(c, pieces);
            if c.buffer + Concat(pieces) == Encoding(ks, last) then
              r.Stop? && r.c.state.Done? && r.c.body == c.body + Data(ks) && r.c.keepalive == c.keepalive
            else
              r.Wait? && !r.c.state.Done? && r.c.body <= c.body + Data(ks)
  {
    hide Run, Encoding, SizeLine, WellFormed, Concat, Feed;
    AnySplit(c, pieces);
    var got := c.buffer + Concat(pieces);
    var rest := Encoding(ks, last)[|got|..];
    assert got + rest == Encoding(ks, last);
    if rest == [] {
      assert got + [] == got;
      AtOnce(Plus(c, Concat(pieces)), ks, last, []);
    } else {
      NotEarly(Plus(c, Concat(pieces)), ks, last, rest);
    }
  }

  // ---- what the size text may be --------------------------------------------------------------------------

  /** Blank, tab, line feed, vertical tab, form feed, carriage return. */
  ghost predicate Blanks(t: bytes) {
    forall i :: 0 <= i < |t| ==> t[i] in {32, 9, 10, 11, 12, 13}
  }

  ghost predicate IsHex(b: byte) {
    exists v: nat :: DigitIs(b, v)
  }

  lemma IsHexMeans(b: byte)
    ensures IsHex(b) <==> HexDigit(b).Some?
  {
    hide HexDigit, DigitIs;
    if HexDigit(b).Some? {
      DigitMeans(b, HexDigit(b).value);
    }
    if IsHex(b) {
      var v: nat :| DigitIs(b, v);
      DigitMeans(b, v);
    }
  }

  lemma {:induction false} SkipsBlanks(blanks: bytes, t: bytes)
    requires Blanks(blanks) && (t == [] || t[0] !in {32, 9, 10, 11, 12, 13})
    ensures SkipSpace(blanks + t) == t
    decreases |blanks|
  {
    if blanks == [] {
      assert blanks + t == t;
    } else {
      assert (blanks + t)[1..] == blanks[1..] + t;
      SkipsBlanks(blanks[1..], t);
    }
  }

  /** The text of a numeral: "+", "-" or no sign; "0x", "0X" or nothing before the digits. */
  ghost predicate Numeral(sign: bytes, prefix: bytes, digits: bytes, n: nat, rest: bytes) {
    && sign in {[], [43], [45]} && prefix in {[], [48, 120], [48, 88]}
    && digits != [] && Spells(digits, n)
    && (rest != [] ==> !IsHex(rest[0]))
    && (prefix == [] && digits == [48] && |rest| >= 2 && rest[0] in {120, 88} ==> !IsHex(rest[1]))
  }

  /** The text behind blanks and sign, and its first character. */
  lemma NumeralStarts(sign: bytes, prefix: bytes, digits: bytes, n: nat, rest: bytes)
    requires Numeral(sign, prefix, digits, n, rest)
    ensures sign in {[], [43], [45]}
    ensures digits != [] && AllHex(digits) && HexValue(digits) == n && HexDigit(digits[0]).Some?
    ensures rest != [] ==> HexDigit(rest[0]).None?
    ensures digits[0] !in {32, 9, 10, 11, 12, 13, 43, 45, 120, 88}
    ensures (prefix + digits + rest)[0] in {48, digits[0]}
  {
    hide Spells, IsHex;
    SpellsIsValue(digits, n);
    if rest != [] {
      IsHexMeans(rest[0]);
    }
    assert (prefix + digits + rest)[0] == if prefix == [] then digits[0] else 48;
  }

  lemma {:induction false} SkipsPrefix(sign: bytes, prefix: bytes, digits: bytes, n: nat, rest: bytes)
    requires Numeral(sign, prefix, digits, n, rest)
    ensures SkipPrefix(prefix + digits + rest) == digits + rest
  {
    hide Spells, IsHex, HexDigit, HexValue;
    NumeralStarts(sign, prefix, digits, n, rest);
    var t := prefix + digits + rest;
    if prefix == [] {
      assert t == digits + rest;
      if |t| >= 3 && t[0] == 48 && (t[1] == 120 || t[1] == 88) {
        if |digits| >= 2 {
          assert t[1] == digits[1];
          HexIsNoX(digits[1]);
        } else {
          assert digits == [48] && rest[0] == t[1] && rest[1] == t[2];
          IsHexMeans(rest[1]);
        }
      }
    } else {
      assert t[0] == 48 && t[1] == prefix[1] && t[2] == digits[0];
      assert t[2..] == digits + rest;
    }
  }

  lemma HexIsNoX(b: byte)
    requires HexDigit(b).Some?
    ensures b != 120 && b != 88
  {
  }

  /**
   Every text `std::stoi` can make a number of, and the number: blanks, a sign, a prefix and digits,
   followed by anything. It throws exactly if the number is no 32-bit integer.
   */
  lemma {:induction false} ReadsNumeral(blanks: bytes, sign: bytes, prefix: bytes, digits: bytes, n: nat, rest: bytes)
    requires Blanks(blanks) && Numeral(sign, prefix, digits, n, rest)
    ensures var v: int := if sign == [45] then 0 - n else n;
            Stoi16(blanks + (sign + (prefix + digits + rest))) == if -0x8000_0000 <= v <= 0x7fff_ffff then Some(v) else None
  {
    hide SkipSpace, SkipPrefix, Spells, IsHex, HexDigit, HexValue, Numeral, Leading;
    NumeralStarts(sign, prefix, digits, n, rest);
    SkipsPrefix(sign, prefix, digits, n, rest);
    var u := prefix + digits + rest;
    var t := sign + u;
    assert t[0] == if sign == [] then u[0] else sign[0];
    assert (if sign == [] then t else t[1..]) == u;
    SkipsBlanks(blanks, t);
    assert (digits + rest)[0] == digits[0];
    assert Leading(digits + rest, 0) == n by {
      EmptyValue();
      assert [] + digits == digits;
      LeadingIsValue([], digits, rest);
    }
  }

  lemma EmptyValue()
    ensures HexValue([]) == 0
  {
  }

  /** Anything else it throws at: no digit behind the blanks and the sign. */
  lemma {:induction false} ReadsNothing(blanks: bytes, sign: bytes, rest: bytes)
    requires Blanks(blanks) && sign in {[], [43], [45]}
    requires rest != [] ==> !IsHex(rest[0])
    requires sign == [] && rest != [] ==> rest[0] !in {32, 9, 10, 11, 12, 13, 43, 45}
    ensures Stoi16(blanks + (sign + rest)) == None
  {
    hide SkipSpace, IsHex, HexDigit, Leading;
    var t := sign + rest;
    SkipsBlanks(blanks, t);
    assert sign == [] ==> t == rest;
    assert sign != [] ==> t[0] == sign[0] && t[1..] == rest;
    if rest != [] {
      IsHexMeans(rest[0]);
      ZeroIsHex();
    }
  }

  lemma ZeroIsHex()
    ensures HexDigit(48) == Some(0)
  {
  }

  /**
   What the client does with a size line: it is taken off, and a text without a number ends the
   connection; zero leads to the last CR LF, and any other number is the size of the chunk, a
   negative one as an unsigned 64-bit number.
   */
  lemma LineEnds(c: Client, line: bytes, rest: bytes)
    requires c.state.ChunkLen? && c.buffer == line + [13, 10] + rest
    requires forall i :: 0 <= i < |line| ==> !(line[i] == 13 && (line + [13])[i + 1] == 10)
    ensures Stoi16(line) == None ==> LengthLine(c) == Stop(c.(buffer := rest, receive := 0, keepalive := false))
    ensures Stoi16(line) == Some(0) ==> LengthLine(c) == Again(c.(state := ChunkLast, buffer := rest, receive := 0, size := 2))
    ensures Stoi16(line).Some? && Stoi16(line).value > 0 ==>
              LengthLine(c) == Again(c.(state := ChunkContent, buffer := rest, receive := 0, size := Stoi16(line).value))
    ensures Stoi16(line).Some? && Stoi16(line).value < 0 ==>
              LengthLine(c) == Again(c.(state := ChunkContent, buffer := rest, receive := 0,
                                        size := 0x1_0000_0000_0000_0000 + Stoi16(line).value))
  {
    hide Stoi16;
    var b := c.buffer;
    assert CrlfAt(b, |line|);
    forall i | 0 <= i < |line|
      ensures !CrlfAt(b, i)
    {
      assert b[i] == line[i] && b[i + 1] == (line + [13])[i + 1];
    }
    assert Find(b, 0) == Some(|line|);
    assert b[..|line|] == line && b[|line| + 2..] == rest;
  }

  /** Without a CR LF the client waits. */
  lemma LineWaits(c: Client)
    requires c.state.ChunkLen?
    requires forall i :: 0 <= i && i + 1 < |c.buffer| ==> !(c.buffer[i] == 13 && c.buffer[i + 1] == 10)
    ensures LengthLine(c) == Wait(c)
  {
    hide Stoi16;
  }

  // ---- the client ---------------------------------------------------------------------------------------------

  method FindCrlf(b: bytes) returns (at: int)
    ensures at == -1 <==> Find(b, 0).None?
    ensures at != -1 ==> Find(b, 0) == Some(at)
  {
    at := 0;
    while at + 2 <= |b| && !(b[at] == CR && b[at + 1] == LF)
      invariant 0 <= at && Find(b, 0) == Find(b, at)
      decreases |b| - at
    {
      at := at + 1;
    }
    if at + 2 > |b| {
      at := -1;
    }
  }

  class HttpsClient {
    var state: State
    var buffer: bytes
    var body: bytes
    var chunkSize: nat
    var chunkReceive: nat
    var keepalive: bool

    ghost function Value(): Client
      reads this
    {
      Client(state, buffer, body, chunkSize, chunkReceive, keepalive)
    }

    /** Headers are done and announced a chunked body; `ahead` arrived with them. */
    constructor (ahead: bytes)
      ensures Value() == Client(ChunkLen, ahead, [], 0, 0, true)
    {
      state, buffer, body, chunkSize, chunkReceive, keepalive := ChunkLen, ahead, [], 0, 0, true;
    }

    /** The size line at the front of the buffer; returns whether the loop goes on, and what to return if not. */
    method OnLength() returns (changed: bool, open: bool)
      requires state.ChunkLen?
      modifies this
      ensures LengthLine(old(Value())) == OutcomeOf(changed, open, Value())
    {
      changed, open := false, true;
      var at := FindCrlf(buffer);
      if at != -1 {
        chunkReceive := 0;
        var text := buffer[..at];
        buffer := buffer[at + 2..];
        var n := Stoi16(text);
        if n.None? {
          keepalive := false;
          return false, false;
        }
        chunkSize := n.value % TWO64;
        state := ChunkContent;
        if chunkSize == 0 {
          state := ChunkLast;
          chunkSize := 2;
        }
        changed := true;
      }
    }

    method OnContent() returns (changed: bool, open: bool)
      requires Valid(Value()) && state.ChunkContent?
      modifies this
      ensures Content(old(Value())) == OutcomeOf(changed, open, Value())
    {
      var toRead := |buffer|;
      if chunkReceive + |buffer| > chunkSize {
        toRead := chunkSize - chunkReceive;
      }
      body := body + buffer[..toRead];
      chunkReceive := chunkReceive + toRead;
      buffer := buffer[toRead..];
      changed, open := chunkReceive >= chunkSize, true;
      if changed {
        state := ChunkTrailer;
      }
    }

    method OnCrlf() returns (changed: bool, open: bool)
      requires state.ChunkLast? || state.ChunkTrailer?
      modifies this
      ensures Turn(old(Value())) == OutcomeOf(changed, open, Value())
    {
      changed, open := false, true;
      if |buffer| >= 2 && buffer[..2] == CRLF {
        if state.ChunkLast? {
          state := Done;
          return false, false;
        }
        state := ChunkLen;
        buffer := buffer[2..];
        changed := true;
      }
    }

    /** `handle_buffer`: turns until the state stays the same or the connection is finished with. */
    method HandleBuffer() returns (open: bool)
      requires Valid(Value())
      modifies this
      ensures Run(old(Value())) == OutcomeOf(false, open, Value())
      ensures Valid(Value()) && old(body) <= body
    {
      hide LengthLine, Content;
      var changed := true;
      open := true;
      while changed
        invariant Valid(Value())
        invariant changed ==> Run(old(Value())) == Run(Value())
        invariant !changed ==> Run(old(Value())) == OutcomeOf(false, open, Value())
        decreases changed, |buffer|, Rank(Value())
      {
        ghost var before := Value();
        match state {
          case ChunkContent => changed, open := OnContent();
          case ChunkLen => changed, open := OnLength();
          case ChunkLast => changed, open := OnCrlf();
          case ChunkTrailer => changed, open := OnCrlf();
          case Done => changed, open := false, false;
        }
        assert Turn(before) == OutcomeOf(changed, open, Value());
      }
    }

    /** A read: the bytes are appended and the buffer handled. */
    method Read(piece: bytes) returns (open: bool)
      requires Valid(Value())
      modifies this
      ensures Run(Plus(old(Value()), piece)) == OutcomeOf(false, open, Value())
      ensures Valid(Value()) && old(body) <= body
    {
      buffer := buffer + piece;
      open := HandleBuffer();
    }
  }

  function OutcomeOf(changed: bool, open: bool, c: Client): Outcome {
    if changed then Again(c) else if open then Wait(c) else Stop(c)
  }
}
