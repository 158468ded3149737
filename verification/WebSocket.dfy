/**
 Incoming WebSocket frames: the header parser, the loop that drains a buffer, and exactly when
 the way the bytes are split over reads does not matter.
 */
module WebSocket {
  import opened Bytes

  const FIN: int := 128
  const MASK: int := 128
  const LARGE: int := 126
  const HUGE: int := 127

  const OP_CONTINUATION: byte := 0
  const OP_TEXT: byte := 1
  const OP_BINARY: byte := 2
  const OP_CLOSE: byte := 8
  const OP_PING: byte := 9
  const OP_PONG: byte := 10

  /** What a complete frame leads to: the frame handler, or the ping/pong handler. */
  datatype Frame = Message(payload: bytes) | PingPong(ping: bool, payload: bytes)

  /** What the header parser makes of the front of a buffer. */
  datatype Front =
    | Incomplete                   // wait for more bytes
    | Complete(frame: Frame, size: nat)
    | Masked                       // reported as progress without consuming anything
    | Closing(code: nat)           // the error handler is called and nothing consumed

  predicate Handled(op: byte) {
    op == OP_CONTINUATION || op == OP_TEXT || op == OP_BINARY || op == OP_PING || op == OP_PONG
  }

  /** Header size and payload length, once enough of the header is there. */
  function Extent(d: bytes): Option<(nat, nat)>
    requires |d| >= 4
  {
    if d[1] == LARGE then
      if |d| < 8 then None else Some((4, BeValue(d[2..4])))
    else if d[1] == HUGE then
      if |d| < 10 then None else Some((10, BeValue(d[2..10])))
    else Some((2, d[1]))
  }

  function FrameOf(op: byte, payload: bytes): Frame {
    if op == OP_PING || op == OP_PONG then PingPong(op == OP_PING, payload) else Message(payload)
  }

  /** `std::string::substr`: what there is of `n` bytes from `start` on. */
  function Payload(d: bytes, start: nat, n: nat): bytes
    requires start <= |d|
  {
    if |d| < start + n then d[start..] else d[start..start + n]
  }

  /** The front of a buffer. The end of a frame is a 64-bit sum, which nothing keeps from wrapping. */
  function ParseHeader(d: bytes): (r: Front)
    ensures r.Complete? ==> r.size <= |d|
  {
    if |d| < 4 then Incomplete
    else
      var op := d[0] % FIN;
      if op == OP_CLOSE then Closing(BeValue(d[2..4]))
      else if !Handled(op) then Closing(0)
      else if d[1] >= MASK then Masked
      else
        var e := Extent(d);
        if e.None? then Incomplete
        else
          var (start, n) := e.value;
          var end := (start + n) % TWO64;
          if |d| < end then Incomplete else Complete(FrameOf(op, Payload(d, start, n)), end)
  }

  /** A front the loop never gets past: it reports progress and consumes nothing. */
  predicate Endless(f: Front) {
    f.Masked? || (f.Complete? && f.size == 0)
  }

  /** Frames handled, bytes left in the buffer, and the front where the loop stopped or, if endless, stays. */
  datatype Drained = Drained(frames: seq<Frame>, rest: bytes, stop: Front)

  /** The loop of `handle_buffer` in the connected state, up to an endless front. */
  function Drain(d: bytes): (r: Drained)
    ensures (r.stop.Complete? ==> Endless(r.stop)) && |r.rest| <= |d|
    decreases |d|
  {
    var f := ParseHeader(d);
    if f.Complete? && f.size > 0 then
      var r := Drain(d[f.size..]);
      r.(frames := [f.frame] + r.frames)
    else Drained([], d, f)
  }

  // ---- lengths that wrap --------------------------------------------------------------------

  /** A frame at the front of `d` whose header size and payload length do not fit 64 bits together. */
  predicate Wraps(d: bytes) {
    && |d| >= 10 && d[0] % 128 in {0, 1, 2, 9, 10} && d[1] == 127
    && 10 + BeValue(d[2..10]) >= 0x1_0000_0000_0000_0000
  }

  /** Such a frame counts as complete, hands on all that is there and takes at most nine bytes off. */
  lemma WrappedFront(d: bytes)
    requires Wraps(d) && |d| < TWO64
    ensures ParseHeader(d) == Complete(FrameOf(d[0] % FIN, d[10..]), 10 + BeValue(d[2..10]) - TWO64)
    ensures ParseHeader(d).size <= 9
  {
    Pow256Is();
    hide BeValue;
  }

  /** The fronts that make the loop run for ever: masked ones, and one length. */
  lemma EndlessExactly(d: bytes)
    ensures Endless(ParseHeader(d)) <==>
              && |d| >= 4 && d[0] % 128 in {0, 1, 2, 9, 10}
              && (d[1] >= 128 || (|d| >= 10 && d[1] == 127 && BeValue(d[2..10]) == 0xFFFF_FFFF_FFFF_FFF6))
  {
    if |d| >= 4 && d[1] == LARGE {
      ShortLength(d[2..4], 2);
    }
    if |d| >= 10 {
      ShortLength(d[2..10], 8);
    }
    hide BeValue;
  }

  lemma ShortLength(w: bytes, k: nat)
    requires |w| == k && (k == 2 || k == 8)
    ensures BeValue(w) < if k == 2 then 0x1_0000 else TWO64
  {
    Pow256Is();
  }

  const STUCK: bytes := [130, 127, 255, 255, 255, 255, 255, 255, 255, 246]

  lemma BeNext(w: bytes, k: nat)
    requires k < |w|
    ensures BeValue(w[..k + 1]) == 256 * BeValue(w[..k]) + w[k]
  {
    assert w[..k + 1][..k] == w[..k];
  }

  lemma StuckLength()
    ensures BeValue(STUCK[2..10]) == TWO64 - 10
  {
    var w := STUCK[2..10];
    hide BeValue;
    assert BeValue(w[..0]) == 0 by { NoDigits(); }
    BeNext(w, 0);
    BeNext(w, 1);
    BeNext(w, 2);
    BeNext(w, 3);
    BeNext(w, 4);
    BeNext(w, 5);
    BeNext(w, 6);
    BeNext(w, 7);
    assert w[..8] == w;
  }

  lemma NoDigits()
    ensures BeValue([]) == 0
  {
  }

  /** Ten bytes that are handed on as a frame for ever. */
  lemma TenBytesNeverEnd()
    ensures ParseHeader(STUCK) == Complete(Message([]), 0) && Endless(Drain(STUCK).stop)
  {
    StuckLength();
    hide BeValue;
    assert Wraps(STUCK);
    WrappedFront(STUCK);
  }

  // ---- splitting reads ---------------------------------------------------------------------

  lemma ExtentGrows(d: bytes, more: bytes)
    requires |d| >= 4 && Extent(d).Some?
    ensures Extent(d + more) == Extent(d)
  {
    hide BeValue;
    assert (d + more)[2..4] == d[2..4];
    if d[1] == HUGE {
      assert (d + more)[2..10] == d[2..10];
    }
  }

  /** Once the front of a buffer is decided, more bytes do not change it, unless its length wraps. */
  lemma {:induction false} FrontGrows(d: bytes, more: bytes)
    requires !ParseHeader(d).Incomplete? && !Wraps(d)
    ensures ParseHeader(d + more) == ParseHeader(d) && !Wraps(d + more)
  {
    var all := d + more;
    if |d| >= 4 && d[1] == LARGE {
      ShortLength(d[2..4], 2);
    }
    hide BeValue, Extent;
    assert all[0] == d[0] && all[1] == d[1] && all[2..4] == d[2..4];
    if d[0] % FIN != OP_CLOSE && Handled(d[0] % FIN) && d[1] < MASK {
      ExtentGrows(d, more);
      var (start, n) := Extent(d).value;
      assert start + n < TWO64 by { ExtentFits(d); }
      assert all[start..start + n] == d[start..start + n];
    }
  }

  /** Only the longest form of a length can wrap. */
  lemma ExtentFits(d: bytes)
    requires |d| >= 4 && Extent(d).Some? && Handled(d[0] % FIN) && d[1] < MASK && !Wraps(d)
    ensures Extent(d).value.0 + Extent(d).value.1 < TWO64 && Extent(d).value.0 <= |d|
  {
    if d[1] == LARGE {
      ShortLength(d[2..4], 2);
    }
    hide BeValue;
  }

  /** If it wraps, more bytes do change what is handed on. */
  lemma {:induction false} WrappedGrows(d: bytes, more: bytes)
    requires Wraps(d) && more != [] && |d| + |more| < TWO64
    ensures Wraps(d + more) && ParseHeader(d).Complete? && ParseHeader(d + more).Complete?
    ensures ParseHeader(d + more).size == ParseHeader(d).size && ParseHeader(d + more).frame != ParseHeader(d).frame
  {
    var all := d + more;
    hide BeValue;
    assert all[0] == d[0] && all[1] == d[1] && all[2..10] == d[2..10];
    WrappedFront(d);
    WrappedFront(all);
    assert |all[10..]| > |d[10..]|;
  }

  function Prepend(frames: seq<Frame>, r: Drained): Drained {
    r.(frames := frames + r.frames)
  }

  /** Draining `d` hands on a frame whose length wraps. */
  predicate HandsOnWrapped(d: bytes)
    decreases |d|
  {
    var f := ParseHeader(d);
    f.Complete? && f.size > 0 && (Wraps(d) || HandsOnWrapped(d[f.size..]))
  }

  lemma {:induction false} DrainRest(d: bytes)
    ensures Drain(Drain(d).rest) == Drained([], Drain(d).rest, Drain(d).stop)
    decreases |d|
  {
    hide ParseHeader;
    var f := ParseHeader(d);
    if f.Complete? && f.size > 0 {
      DrainRest(d[f.size..]);
    }
  }

  /**
   Draining what has arrived and then the rest is the same as draining everything at once, exactly
   if nothing else arrives or no frame handed on before has a length that wraps.
   */
  lemma {:induction false} DrainSplit(d: bytes, more: bytes)
    requires |d| + |more| < TWO64
    ensures Drain(d + more) == Prepend(Drain(d).frames, Drain(Drain(d).rest + more)) <==> more == [] || !HandsOnWrapped(d)
    decreases |d|
  {
    hide ParseHeader, Wraps;
    if more == [] {
      assert d + [] == d && Drain(d).rest + [] == Drain(d).rest;
      DrainRest(d);
      assert Drain(d).frames + [] == Drain(d).frames;
    } else {
      var f := ParseHeader(d);
      if f.Complete? && f.size > 0 {
        if Wraps(d) {
          WrappedGrows(d, more);
          assert Drain(d + more).frames[0] != f.frame;
        } else {
          FrontGrows(d, more);
          var tail := d[f.size..];
          assert (d + more)[f.size..] == tail + more;
          DrainSplit(tail, more);
          SameTails(f.frame, Drain(tail + more), Drain(tail).frames, Drain(Drain(tail).rest + more));
        }
      }
    }
  }

  lemma SameTails(x: Frame, a: Drained, frames: seq<Frame>, b: Drained)
    ensures Prepend([x], a) == Prepend([x] + frames, b) <==> a == Prepend(frames, b)
  {
    Assoc([x], frames, b.frames);
    assert ([x] + a.frames)[1..] == a.frames;
    assert ([x] + (frames + b.frames))[1..] == frames + b.frames;
  }

  /** A buffer fed piece by piece, drained after each. */
  function Feed(buffer: bytes, pieces: seq<bytes>): Drained
    decreases |pieces|
  {
    if pieces == [] then Drain(buffer)
    else
      var r := Drain(buffer + pieces[0]);
      Prepend(r.frames, Feed(r.rest, pieces[1..]))
  }

  /** In a whole stream: a frame handed on whose length wraps and whose header is not the end of the stream. */
  predicate SplitMatters(d: bytes)
    decreases |d|
  {
    var f := ParseHeader(d);
    f.Complete? && f.size > 0 && if Wraps(d) then |d| > 10 else SplitMatters(d[f.size..])
  }

  /** A frame that was handed on too early was so in the stream. */
  lemma {:induction false} EarlyMatters(d: bytes, more: bytes)
    requires HandsOnWrapped(d) && more != [] && |d| + |more| < TWO64
    ensures SplitMatters(d + more)
    decreases |d|
  {
    hide ParseHeader, Wraps;
    var f := ParseHeader(d);
    if Wraps(d) {
      WrappedGrows(d, more);
      assert |d| >= 10 by { WrapsSize(d); }
    } else {
      FrontGrows(d, more);
      assert (d + more)[f.size..] == d[f.size..] + more;
      EarlyMatters(d[f.size..], more);
    }
  }

  lemma WrapsSize(d: bytes)
    requires Wraps(d)
    ensures |d| >= 10
  {
  }

  /** What matters in the rest of a stream matters in the stream. */
  lemma {:induction false} RestMatters(d: bytes, more: bytes)
    requires |d| + |more| < TWO64 && !HandsOnWrapped(d) && SplitMatters(Drain(d).rest + more)
    ensures SplitMatters(d + more)
    decreases |d|
  {
    hide ParseHeader, Wraps;
    var f := ParseHeader(d);
    if f.Complete? && f.size > 0 {
      FrontGrows(d, more);
      assert (d + more)[f.size..] == d[f.size..] + more;
      RestMatters(d[f.size..], more);
    }
  }

  /** Unless the split matters, the frames handled, the bytes left and the stop are those of one read. */
  lemma {:induction false} AnySplit(buffer: bytes, pieces: seq<bytes>)
    requires |buffer| + |Concat(pieces)| < TWO64 && !SplitMatters(buffer + Concat(pieces))
    ensures Feed(buffer, pieces) == Drain(buffer + Concat(pieces))
    decreases |pieces|
  {
    hide Drain, SplitMatters, HandsOnWrapped;
    if pieces == [] {
      assert buffer + [] == buffer;
    } else {
      var d, more := buffer + pieces[0], Concat(pieces[1..]);
      Assoc(buffer, pieces[0], more);
      DrainSplit(d, more);
      if more != [] && HandsOnWrapped(d) {
        EarlyMatters(d, more);
      } else {
        if SplitMatters(Drain(d).rest + more) {
          StaysUnsplit(d, more);
        }
        AnySplit(Drain(d).rest, pieces[1..]);
      }
    }
  }

  lemma StaysUnsplit(d: bytes, more: bytes)
    requires |d| + |more| < TWO64 && (more == [] || !HandsOnWrapped(d)) && SplitMatters(Drain(d).rest + more)
    ensures SplitMatters(d + more)
  {
    hide ParseHeader, Wraps, HandsOnWrapped, SplitMatters;
    if more == [] {
      NothingLeft(d);
    } else {
      RestMatters(d, more);
    }
  }

  lemma NothingLeft(d: bytes)
    ensures !SplitMatters(Drain(d).rest + [])
  {
    hide ParseHeader, Wraps;
    DrainRest(d);
    assert Drain(d).rest + [] == Drain(d).rest;
  }

  /** Where it matters, the last byte held back makes a difference. */
  lemma {:induction false} LastByteMatters(d: bytes, b: byte)
    requires |d| + 1 < TWO64 && SplitMatters(d + [b])
    ensures HandsOnWrapped(d) && |d| >= 10
    decreases |d|
  {
    hide BeValue;
    var all := d + [b];
    var f := ParseHeader(all);
    if Wraps(all) {
      WrappedFront(all);
      assert all[2..10] == d[2..10];
      WrappedFront(d);
    } else {
      assert f.size <= |d| by { MattersLong(all[f.size..]); }
      assert all[f.size..] == d[f.size..] + [b];
      LastByteMatters(d[f.size..], b);
      FrontShrinks(d, b);
    }
  }

  lemma {:induction false} MattersLong(d: bytes)
    requires SplitMatters(d)
    ensures |d| > 10
    decreases |d|
  {
    hide ParseHeader, Wraps;
    var f := ParseHeader(d);
    if !Wraps(d) {
      MattersLong(d[f.size..]);
    }
  }

  /** A front with ten bytes behind it is complete without the last byte, too. */
  lemma {:induction false} FrontShrinks(d: bytes, b: byte)
    requires ParseHeader(d + [b]).Complete? && !Wraps(d + [b]) && ParseHeader(d + [b]).size + 10 <= |d|
    ensures ParseHeader(d) == ParseHeader(d + [b]) && !Wraps(d)
  {
    hide BeValue;
    var all := d + [b];
    assert all[0] == d[0] && all[1] == d[1] && all[2..4] == d[2..4] && all[2..10] == d[2..10];
    assert Extent(d) == Extent(all);
    ExtentFits(all);
    var (start, n) := Extent(all).value;
    assert start + n == ParseHeader(all).size;
    assert all[start..start + n] == d[start..start + n];
  }

  /** For every stream: all ways to split it give the same as one read exactly if no frame with a wrapped length is handed on in its middle. */
  lemma {:induction false} AnySplitExactly(d: bytes)
    requires |d| < TWO64
    ensures (forall pieces :: Concat(pieces) == d ==> Feed([], pieces) == Drain(d)) <==> !SplitMatters(d)
  {
    hide Drain, SplitMatters, HandsOnWrapped, Feed, Concat;
    assert [] + d == d;
    if SplitMatters(d) {
      LastByteSplits(d);
    } else {
      forall pieces | Concat(pieces) == d
        ensures Feed([], pieces) == Drain(d)
      {
        AnySplit([], pieces);
      }
    }
  }

  lemma LastByteSplits(d: bytes)
    requires |d| < TWO64 && SplitMatters(d)
    ensures exists pieces :: Concat(pieces) == d && Feed([], pieces) != Drain(d)
  {
    hide Drain, SplitMatters, HandsOnWrapped;
    MattersLong(d);
    var most, last := d[..|d| - 1], d[|d| - 1];
    assert d == most + [last];
    LastByteMatters(most, last);
    DrainSplit(most, [last]);
    var pieces := [most, [last]];
    assert pieces[1..] == [[last]] && [[last]][1..] == [];
    assert [] + most == most && [last] + [] == [last];
    assert Concat([[last]]) == [last] + Concat([]) == [last];
    assert Concat(pieces) == most + Concat(pieces[1..]) == d;
    var r := Drain(most);
    assert Feed(r.rest, [[last]]) == Drain(r.rest + [last]) by { OneMore(r.rest, last); }
    assert Feed([], pieces) == Prepend(r.frames, Drain(r.rest + [last]));
  }

  lemma OneMore(buffer: bytes, last: byte)
    ensures Feed(buffer, [[last]]) == Drain(buffer + [last])
  {
    var r := Drain(buffer + [last]);
    DrainRest(buffer + [last]);
    assert [[last]][1..] == [];
    assert r.frames + [] == r.frames;
  }

  // ---- the reader --------------------------------------------------------------------------------

  /** The receiving side in the connected state. */
  class Receiver {
    var buffer: bytes
    var handled: seq<Frame>

    constructor ()
      ensures buffer == [] && handled == []
    {
      buffer, handled := [], [];
    }

    /** One read: append, then parse frames until none is complete. At an endless front it would not return. */
    method Receive(piece: bytes)
      requires !Endless(Drain(buffer + piece).stop)
      modifies this
      ensures handled == old(handled) + Drain(old(buffer) + piece).frames
      ensures buffer == Drain(old(buffer) + piece).rest
    {
      hide ParseHeader;
      buffer := buffer + piece;
      ghost var all := buffer;
      var more := true;
      while more
        invariant Drain(all).stop == Drain(buffer).stop && Drain(all).rest == Drain(buffer).rest
        invariant old(handled) + Drain(all).frames == handled + Drain(buffer).frames
        invariant !more ==> Drain(buffer).frames == [] && Drain(buffer).rest == buffer
        decreases |buffer|, more
      {
        var f := ParseHeader(buffer);
        more := f.Complete?;
        assert f.Complete? ==> f.size > 0;
        if f.Complete? {
          Assoc(handled, [f.frame], Drain(buffer[f.size..]).frames);
          handled := handled + [f.frame];
          buffer := buffer[f.size..];
        }
      }
      assert handled + [] == handled;
    }
  }
}
