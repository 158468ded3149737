/**
 Outgoing WebSocket frames: the header writer, and what a peer that follows section 5.2 of
 RFC 6455 makes of the wire.
 */
module WebSocketSend {
  import opened Bytes

  // ---- section 5.2 of RFC 6455, from the peer's side ---------------------------------------------

  datatype RfcFrame = RfcFrame(fin: bool, opcode: nat, payload: bytes)

  /** Bitwise exclusive or of two bytes. */
  function Xor(a: byte, b: byte): byte {
    ((a as bv8) ^ (b as bv8)) as int
  }

  /** Section 5.3: byte i of the payload is combined with byte i modulo 4 of the masking key. */
  function Unmask(payload: bytes, key: bytes): (r: bytes)
    requires |key| == 4
    ensures |r| == |payload|
  {
    seq(|payload|, i requires 0 <= i < |payload| => Xor(payload[i], key[i % 4]))
  }

  /** Bytes of the extended payload length. */
  function ExtendedSize(l7: nat): nat {
    if l7 == 126 then 2 else if l7 == 127 then 8 else 0
  }

  /** One complete frame at the front of `d`, with the bytes behind it; reserved bits must be zero. */
  function RfcDecode(d: bytes): (r: Option<(RfcFrame, bytes)>)
    ensures r.Some? ==> |r.value.1| < |d|
  {
    if |d| < 2 || d[0] / 16 % 8 != 0 then None
    else
      var masked, l7 := d[1] >= 128, d[1] % 128;
      var x := ExtendedSize(l7);
      var start := 2 + x + (if masked then 4 else 0);
      if |d| < start then None
      else
        var n := if x == 0 then l7 else BeValue(d[2..2 + x]);
        if |d| < start + n then None
        else
          var raw := d[start..start + n];
          var payload := if masked then Unmask(raw, d[2 + x..start]) else raw;
          Some((RfcFrame(d[0] >= 128, d[0] % 16, payload), d[start + n..]))
  }

  /** All complete frames at the front of `d`, and what is left. */
  function RfcFrames(d: bytes): (r: (seq<RfcFrame>, bytes))
    decreases |d|
  {
    var f := RfcDecode(d);
    if f.None? then ([], d)
    else
      var r := RfcFrames(f.value.1);
      ([f.value.0] + r.0, r.1)
  }

  lemma XorZero(a: byte)
    ensures Xor(a, 0) == a
  {
  }

  lemma {:induction false} UnmaskZero(payload: bytes)
    ensures Unmask(payload, [0, 0, 0, 0]) == payload
  {
    hide Xor;
    forall i | 0 <= i < |payload|
      ensures Unmask(payload, [0, 0, 0, 0])[i] == payload[i]
    {
      XorZero(payload[i]);
    }
  }

  // ---- headers ------------------------------------------------------------------------------------

  /** The header `fill_header` writes: final frame, masked with an all-zero key. */
  function Header(n: uint64, opcode: byte): (r: bytes)
    requires opcode < 16
    ensures |r| == HeaderSize(n)
  {
    [128 + opcode] +
    (if n <= 125 then [128 + n]
     else if n <= 65535 then [128 + 126] + BeDigits(n, 2)
     else [128 + 127] + BeDigits(n, 8)) +
    [0, 0, 0, 0]
  }

  function HeaderSize(n: nat): nat {
    if n <= 125 then 6 else if n <= 65535 then 8 else 14
  }

  /** `n >> 8 * i`. */
  function Shift(n: nat, i: nat): nat {
    if i == 0 then n else Shift(n / 256, i - 1)
  }

  lemma {:induction false} ShiftNext(n: nat, i: nat)
    ensures Shift(n, i + 1) == Shift(n, i) / 256
  {
    if i > 0 {
      ShiftNext(n / 256, i - 1);
    }
  }

  /** The digits of a shifted number, most significant first, grow at the end. */
  lemma ShiftDigits(n: nat, i: nat, k: nat)
    ensures BeDigits(Shift(n, i), k + 1) == BeDigits(Shift(n, i + 1), k) + [Shift(n, i) % 256]
  {
    hide Shift;
    ShiftNext(n, i);
  }

  /** The eight bytes of a 64-bit length. */
  method FillHuge(out: array<byte>, n: uint64, from: nat)
    requires from + 8 <= out.Length
    modifies out
    ensures out[from..from + 8] == BeDigits(n, 8)
    ensures forall k :: 0 <= k < out.Length && !(from <= k < from + 8) ==> out[k] == old(out[k])
  {
    hide BeDigits, Shift;
    var pos := from;
    DigitEnds(n);
    for i := 8 downto 0
      invariant pos == from + 8 - i
      invariant out[from..pos] == BeDigits(Shift(n, i), 8 - i)
      invariant forall k :: 0 <= k < out.Length && !(from <= k < pos) ==> out[k] == old(out[k])
    {
      ShiftDigits(n, i, 7 - i);
      out[pos] := Shift(n, i) % 256;
      pos := pos + 1;
      assert out[from..pos] == out[from..pos - 1] + [out[pos - 1]];
    }
  }

  lemma DigitEnds(n: nat)
    ensures BeDigits(Shift(n, 8), 0) == [] && Shift(n, 0) == n
  {
  }

  lemma TwoDigits(n: nat)
    ensures BeDigits(n, 2) == [n / 256 % 256, n % 256]
  {
    assert BeDigits(n / 256 / 256, 0) == [];
    assert BeDigits(n / 256, 1) == [n / 256 % 256];
  }

  /** The length field of a header, before the mask bit is set. */
  function LengthField(n: uint64): (r: bytes)
    ensures |r| > 0 && r[0] < 128
  {
    if n <= 125 then [n] else if n <= 65535 then [126] + BeDigits(n, 2) else [127] + BeDigits(n, 8)
  }

  method FillLength(out: array<byte>, n: uint64) returns (pos: nat)
    requires out.Length >= 1 + |LengthField(n)|
    modifies out
    ensures pos == 1 + |LengthField(n)| && out[1..pos] == LengthField(n)
    ensures forall k :: 0 <= k < out.Length && !(1 <= k < pos) ==> out[k] == old(out[k])
  {
    hide BeDigits;
    pos := 1;
    if n <= 125 {
      out[pos] := n;
      pos := pos + 1;
    } else if n <= 65535 {
      TwoDigits(n);
      out[pos] := 126;
      out[pos + 1] := n / 256 % 256;
      out[pos + 2] := n % 256;
      pos := pos + 3;
    } else {
      out[pos] := 127;
      FillHuge(out, n, pos + 1);
      pos := pos + 9;
      assert out[1..pos] == [out[1]] + out[2..pos];
    }
  }

  /** Writes a header into an output array, byte by byte, and returns its size. */
  method FillHeader(out: array<byte>, n: uint64, opcode: byte) returns (pos: nat)
    requires opcode < 16 && out.Length >= HeaderSize(n)
    modifies out
    ensures pos == HeaderSize(n) && out[..pos] == Header(n, opcode)
    ensures forall i :: pos <= i < out.Length ==> out[i] == old(out[i])
  {
    hide BeDigits;
    out[0] := 128 + opcode;
    pos := FillLength(out, n);
    ghost var field := out[1..pos];
    out[1] := 128 + out[1];
    out[pos], out[pos + 1], out[pos + 2], out[pos + 3] := 0, 0, 0, 0;
    assert out[..pos] == [128 + opcode] + ([128 + field[0]] + field[1..]);
    pos := pos + 4;
    assert out[..pos] == out[..pos - 4] + [0, 0, 0, 0];
  }

  // ---- the wire -------------------------------------------------------------------------------------

  datatype Outgoing = Outgoing(opcode: byte, payload: bytes)

  ghost predicate Sendable(m: Outgoing) {
    m.opcode < 16 && |m.payload| < TWO64
  }

  function Packet(m: Outgoing): bytes
    requires Sendable(m)
  {
    Header(|m.payload|, m.opcode) + m.payload
  }

  ghost predicate AllSendable(ms: seq<Outgoing>) {
    forall i :: 0 <= i < |ms| ==> Sendable(ms[i])
  }

  /** The bytes of a list of messages, one packet after the other. */
  function Wire(ms: seq<Outgoing>): bytes
    requires AllSendable(ms)
  {
    if ms == [] then [] else Packet(ms[0]) + Wire(ms[1..])
  }

  function Peer(m: Outgoing): RfcFrame {
    RfcFrame(true, m.opcode, m.payload)
  }

  function Peers(ms: seq<Outgoing>): (r: seq<RfcFrame>)
    ensures |r| == |ms|
  {
    if ms == [] then [] else [Peer(ms[0])] + Peers(ms[1..])
  }

  /** What the peer computes of the header of a packet: sizes and length. */
  lemma HeaderDecodes(n: uint64, opcode: byte)
    requires opcode < 16
    ensures var h := Header(n, opcode);
            var l7 := h[1] % 128;
            && h[0] == 128 + opcode && h[1] >= 128
            && 2 + ExtendedSize(l7) + 4 == |h|
            && h[2 + ExtendedSize(l7)..] == [0, 0, 0, 0]
            && (if ExtendedSize(l7) == 0 then l7 else BeValue(h[2..2 + ExtendedSize(l7)])) == n
  {
    hide BeDigits, BeValue;
    var h := Header(n, opcode);
    Pow256Is();
    if 125 < n <= 65535 {
      BeRoundTrip(n, 2);
      assert h[2..4] == BeDigits(n, 2);
    } else if n > 65535 {
      BeRoundTrip(n, 8);
      assert h[2..10] == BeDigits(n, 8);
    }
  }

  /** The peer reads a packet back as the message, wherever it is followed by other bytes. */
  lemma {:induction false} PacketDecodes(m: Outgoing, rest: bytes)
    requires Sendable(m)
    ensures RfcDecode(Packet(m) + rest) == Some((Peer(m), rest))
  {
    hide BeValue, Header, Unmask;
    var h, n := Header(|m.payload|, m.opcode), |m.payload|;
    var d := Packet(m) + rest;
    HeaderDecodes(n, m.opcode);
    UnmaskZero(m.payload);
    var x := ExtendedSize(h[1] % 128);
    assert d[0] == h[0] && d[1] == h[1];
    assert d[2..2 + x] == h[2..2 + x];
    assert d[2 + x..2 + x + 4] == h[2 + x..];
    assert d[|h|..|h| + n] == m.payload;
    assert d[|h| + n..] == rest;
  }

  /** A part of a packet is no frame yet. */
  lemma {:induction false} PartIsNoFrame(m: Outgoing, p: bytes)
    requires Sendable(m) && p < Packet(m)
    ensures RfcDecode(p) == None
  {
    hide BeValue, Header, Unmask;
    var h, n := Header(|m.payload|, m.opcode), |m.payload|;
    HeaderDecodes(n, m.opcode);
    var x := ExtendedSize(h[1] % 128);
    if |p| >= 2 {
      assert p[0] == h[0] && p[1] == h[1];
      if |p| >= 2 + x {
        assert p[2..2 + x] == h[2..2 + x];
      }
    }
  }

  /** On any part of the wire sent so far the peer has read exactly the first messages. */
  lemma {:induction false} PeerReadsPrefix(ms: seq<Outgoing>, p: bytes)
    requires AllSendable(ms) && p <= Wire(ms)
    ensures RfcFrames(p).0 <= Peers(ms)
    ensures p == Wire(ms) ==> RfcFrames(p) == (Peers(ms), [])
    decreases |ms|
  {
    hide RfcDecode, Packet;
    if ms == [] {
      assert RfcDecode([]) == None by { NoBytes(); }
    } else {
      var first := Packet(ms[0]);
      if |p| >= |first| {
        var rest := p[|first|..];
        assert p == first + rest by { assert p[..|first|] == Wire(ms)[..|first|] == first; }
        PacketDecodes(ms[0], rest);
        assert Wire(ms)[|first|..] == Wire(ms[1..]);
        PeerReadsPrefix(ms[1..], rest);
        var r := RfcFrames(rest);
        assert RfcFrames(p) == ([Peer(ms[0])] + r.0, r.1);
      } else {
        assert p <= first by { assert p == Wire(ms)[..|p|] == first[..|p|]; }
        PartIsNoFrame(ms[0], p);
      }
    }
  }

  lemma NoBytes()
    ensures RfcDecode([]) == None
  {
  }

  lemma {:induction false} WireAppend(ms: seq<Outgoing>, m: Outgoing)
    requires AllSendable(ms) && Sendable(m)
    ensures AllSendable(ms + [m])
    ensures Wire(ms + [m]) == Wire(ms) + Packet(m)
  {
    hide Packet;
    if ms == [] {
      assert ms + [m] == [m] && [m][1..] == [];
    } else {
      WireAppend(ms[1..], m);
      assert (ms + [m])[1..] == ms[1..] + [m];
      Assoc(Packet(ms[0]), Wire(ms[1..]), Packet(m));
    }
  }
}
