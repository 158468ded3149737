/**
 The receiving loop against section 5.2 of RFC 6455: which frames of a byte stream it hands on,
 and which it holds back.
 */
module WebSocketReceive {
  import opened Bytes
  import opened WebSocket
  import opened WebSocketSend

  /** What the receiver should make of a frame: opcode 9 is a ping, 10 a pong, and the rest are messages. */
  function Meant(f: RfcFrame): Frame {
    if f.opcode == 9 then PingPong(true, f.payload)
    else if f.opcode == 10 then PingPong(false, f.payload)
    else Message(f.payload)
  }

  /**
   The receiver's extra demands on a frame at the front of `d`: a continuation, text, binary, ping
   or pong, no mask, and more bytes than the standard asks for.
   */
  predicate Accepted(d: bytes) {
    && |d| >= 4 && (d[1] == 126 ==> |d| >= 8)
    && d[0] % 128 in {0, 1, 2, 9, 10} && d[1] < 128
  }

  lemma HandledBits(b: byte)
    requires Handled(b % FIN)
    ensures b / 16 % 8 == 0 && b % 16 == b % FIN
  {
  }

  lemma HandledMeans(op: byte)
    ensures Handled(op) <==> op in {0, 1, 2, 9, 10}
  {
  }

  /**
   Why a front is not handed on. Fewer than four bytes wait; a close calls the error handler with
   its 16-bit code and an unknown opcode calls it with 0; a masked frame is left where it is; and
   a known one waits until its length field and then the whole of it are there.
   */
  lemma {:induction false} StopsExactly(d: bytes)
    ensures |d| < 4 ==> ParseHeader(d) == Incomplete
    ensures |d| >= 4 && d[0] % 128 == 8 ==> (var high: int := d[2]; ParseHeader(d) == Closing(256 * high + d[3]))
    ensures |d| >= 4 && d[0] % 128 !in {0, 1, 2, 8, 9, 10} ==> ParseHeader(d) == Closing(0)
    ensures |d| >= 4 && d[0] % 128 in {0, 1, 2, 9, 10} && d[1] >= 128 ==> ParseHeader(d) == Masked
    ensures |d| < TWO64 ==>
              (ParseHeader(d).Incomplete? <==>
                 || |d| < 4
                 || (d[0] % 128 in {0, 1, 2, 9, 10} && d[1] < 128 && !Wraps(d) && (RfcDecode(d) == None || (d[1] == 126 && |d| < 8))))
  {
    if |d| >= 4 {
      hide BeValue, Unmask, Extent, FrameOf, RfcDecode, Wraps;
      HandledMeans(d[0] % FIN);
      TwoDigitValue(d[2..4]);
      if |d| < TWO64 {
        FrontMeansRfc(d);
      }
    }
  }

  lemma TwoDigitValue(w: bytes)
    requires |w| == 2
    ensures var high: int := w[0]; BeValue(w) == 256 * high + w[1]
  {
    assert BeValue(w[..1]) == w[0] by { assert w[..1][..0] == []; }
  }

  /**
   A front counts as complete exactly if the standard sees a frame there and the extra demands
   hold, and then it is the same frame; or if its length wraps, where the standard sees none.
   */
  lemma {:induction false} FrontMeansRfc(d: bytes)
    requires |d| < TWO64
    ensures ParseHeader(d).Complete? <==> Wraps(d) || (RfcDecode(d).Some? && Accepted(d))
    ensures Wraps(d) ==> RfcDecode(d) == None
    ensures ParseHeader(d).Complete? && !Wraps(d) ==>
              && var f := RfcDecode(d).value;
              && Meant(f.0) == ParseHeader(d).frame
              && f.1 == d[ParseHeader(d).size..]
  {
    if Wraps(d) {
      WrappedFront(d);
      WrappedIsNoFrame(d);
    } else {
      UnwrappedMeansRfc(d);
    }
  }

  lemma WrappedIsNoFrame(d: bytes)
    requires Wraps(d) && |d| < TWO64
    ensures RfcDecode(d) == None
  {
    hide BeValue, Unmask;
  }

  lemma UnwrappedMeansRfc(d: bytes)
    requires !Wraps(d)
    ensures ParseHeader(d).Complete? <==> RfcDecode(d).Some? && Accepted(d)
    ensures ParseHeader(d).Complete? ==>
              && var f := RfcDecode(d).value;
              && Meant(f.0) == ParseHeader(d).frame
              && f.1 == d[ParseHeader(d).size..]
  {
    hide ParseHeader, RfcDecode, Accepted, Meant, Wraps;
    CompleteWhereRfc(d);
    if ParseHeader(d).Complete? {
      CompleteMeansRfc(d);
    }
  }

  lemma CompleteWhereRfc(d: bytes)
    requires !Wraps(d)
    ensures ParseHeader(d).Complete? <==> RfcDecode(d).Some? && Accepted(d)
  {
    hide ParseHeader, RfcDecode, Wraps;
    if ParseHeader(d).Complete? {
      CompleteMeansRfc(d);
      var start, n := CompleteFields(d);
    } else if Accepted(d) {
      WaitsWhereRfc(d);
    }
  }

  /** An accepted front that is not complete is no frame yet. */
  lemma WaitsWhereRfc(d: bytes)
    requires Accepted(d) && !Wraps(d) && !ParseHeader(d).Complete?
    ensures RfcDecode(d) == None
  {
    hide BeValue, Unmask, Extent, Wraps;
    HandledBits(d[0]);
    if Extent(d).Some? {
      ExtentFits(d);
      ExtentMeansRfc(d);
    } else {
      NoExtent(d);
    }
  }

  lemma CompleteMeansRfc(d: bytes)
    requires !Wraps(d) && ParseHeader(d).Complete?
    ensures RfcDecode(d).Some?
    ensures Meant(RfcDecode(d).value.0) == ParseHeader(d).frame
    ensures RfcDecode(d).value.1 == d[ParseHeader(d).size..]
  {
    hide *;
    var start, n := CompleteFields(d);
    HandledBits(d[0]);
    RfcFields(d, start, n);
    FrameMeans(d[0]);
  }

  /** The parts of a complete front. */
  lemma CompleteFields(d: bytes) returns (start: nat, n: nat)
    requires !Wraps(d) && ParseHeader(d).Complete?
    ensures |d| >= 4 && Handled(d[0] % FIN) && d[1] < 128
    ensures d[1] == 126 ==> |d| >= 8
    ensures start == 2 + ExtendedSize(d[1] % 128) && start + n <= |d|
    ensures n == if ExtendedSize(d[1] % 128) == 0 then d[1] % 128 else BeValue(d[2..start])
    ensures ParseHeader(d) == Complete(FrameOf(d[0] % FIN, d[start..start + n]), start + n)
  {
    hide BeValue, Extent, FrameOf, Wraps, ExtendedSize, RfcDecode;
    ExtentFits(d);
    ExtentMeansRfc(d);
    start, n := Extent(d).value.0, Extent(d).value.1;
  }

  lemma RfcFields(d: bytes, start: nat, n: nat)
    requires |d| >= 4 && d[0] / 16 % 8 == 0 && d[1] < 128
    requires start == 2 + ExtendedSize(d[1] % 128) && start + n <= |d|
    requires n == if ExtendedSize(d[1] % 128) == 0 then d[1] % 128 else BeValue(d[2..start])
    ensures RfcDecode(d) == Some((RfcFrame(d[0] >= 128, d[0] % 16, d[start..start + n]), d[start + n..]))
  {
    hide BeValue, Unmask;
  }

  lemma FrameMeans(b: byte)
    requires Handled(b % FIN)
    ensures forall fin, payload :: FrameOf(b % FIN, payload) == Meant(RfcFrame(fin, b % 16, payload))
  {
  }

  /** The standard's header size and length are the parser's. */
  lemma ExtentMeansRfc(d: bytes)
    requires |d| >= 4 && d[1] < MASK && Extent(d).Some?
    ensures var (start, n) := Extent(d).value;
            var x := ExtendedSize(d[1] % 128);
            && start == 2 + x && start <= |d| && n == (if x == 0 then d[1] % 128 else BeValue(d[2..2 + x]))
            && (d[1] == LARGE ==> |d| >= 8)
  {
    hide BeValue;
  }

  lemma NoExtent(d: bytes)
    requires |d| >= 4 && d[1] < MASK && Extent(d).None?
    ensures (d[1] == LARGE && |d| < 8) || (d[1] == HUGE && |d| < 10)
  {
    hide BeValue;
  }

  function Meaning(fs: seq<RfcFrame>): (r: seq<Frame>)
    requires forall i :: 0 <= i < |fs| ==> fs[i].opcode < 256
    ensures |r| == |fs|
  {
    if fs == [] then [] else [Meant(fs[0])] + Meaning(fs[1..])
  }

  lemma {:induction false} OpcodesSmall(d: bytes)
    ensures forall i :: 0 <= i < |RfcFrames(d).0| ==> RfcFrames(d).0[i].opcode < 256
    decreases |d|
  {
    hide BeValue, Unmask;
    if RfcDecode(d).Some? {
      OpcodesSmall(RfcDecode(d).value.1);
    }
  }

  /**
   For every stream the frames handed on are the first frames the standard sees, in order, exactly
   if none of them has a length that wraps; then a stop for want of bytes with eight or more of them
   left misses none.
   */
  lemma {:induction false} ReceivesRfcFrames(d: bytes)
    requires |d| < TWO64
    ensures forall i :: 0 <= i < |RfcFrames(d).0| ==> RfcFrames(d).0[i].opcode < 256
    ensures Drain(d).frames <= Meaning(RfcFrames(d).0) <==> !HandsOnWrapped(d)
    ensures !HandsOnWrapped(d) && Drain(d).stop.Incomplete? && |Drain(d).rest| >= 8 ==>
              Drain(d).frames == Meaning(RfcFrames(d).0) && Drain(d).rest == RfcFrames(d).1
    decreases |d|
  {
    hide ParseHeader, RfcDecode, Meant, Wraps;
    OpcodesSmall(d);
    FrontMeansRfc(d);
    var p := ParseHeader(d);
    if p.Complete? && p.size > 0 && !Wraps(d) {
      var f := RfcDecode(d).value;
      ReceivesRfcFrames(f.1);
      assert RfcFrames(d).0 == [f.0] + RfcFrames(f.1).0;
      assert RfcFrames(d).0[1..] == RfcFrames(f.1).0;
      SamePrefix(p.frame, Drain(f.1).frames, Meaning(RfcFrames(f.1).0));
    } else if p.Incomplete? && |d| >= 8 {
      StopsOnlyForBytes(d);
    }
  }

  lemma SamePrefix(x: Frame, a: seq<Frame>, b: seq<Frame>)
    ensures [x] + a <= [x] + b <==> a <= b
  {
    assert ([x] + a)[1..] == a && ([x] + b)[1..] == b;
    if [x] + a <= [x] + b {
      assert forall i :: 0 <= i < |a| ==> a[i] == ([x] + a)[i + 1] == ([x] + b)[i + 1] == b[i];
    }
  }

  /** Eight bytes are enough to tell why a frame at the front is not handed on. */
  lemma StopsOnlyForBytes(d: bytes)
    requires ParseHeader(d).Incomplete? && |d| >= 8
    ensures RfcDecode(d) == None
  {
    hide BeValue, Unmask;
    HandledBits(d[0]);
  }
}
