/** The send half of the socket loop: an unbounded queue, a staging buffer, partial writes. */
module SendPump {
  import opened Bytes
  import opened WebSocketSend

  const BUFSIZE: nat := 16 * 1024

  /** What the socket answered to a write: how much it took, or why it took nothing. */
  datatype Answer = Took(n: nat) | WouldBlock | WantRead | Broken

  class Pump {
    var obuffer: bytes
    const staging: array<byte>
    var length: nat
    var offset: nat
    var writeBlockedOnRead: bool
    var bytesOut: nat
    ghost var accepted: bytes   // everything the socket took
    ghost var written: bytes    // everything `write` was given

    /** Bytes on their way to the socket. */
    ghost function Pending(): bytes
      requires offset + length <= staging.Length
      reads this, staging
    {
      staging[offset..offset + length] + obuffer
    }

    /** No byte is lost, repeated or reordered between `write` and the socket. */
    ghost predicate Valid()
      reads this, staging
    {
      && staging.Length == BUFSIZE && offset + length <= BUFSIZE
      && accepted + Pending() == written
      && bytesOut == |accepted|
    }

    constructor ()
      ensures Valid() && fresh(staging) && written == [] && accepted == []
    {
      staging := new byte[BUFSIZE](_ => 0);
      obuffer, length, offset, writeBlockedOnRead, bytesOut := [], 0, 0, false, 0;
      accepted, written := [], [];
    }

    /** `write` in non-blocking mode. */
    method Write(data: bytes)
      requires Valid()
      modifies this
      ensures Valid() && written == old(written) + data && accepted == old(accepted)
      ensures Pending() == old(Pending()) + data
    {
      ghost var st := staging[offset..offset + length];
      Assoc(st, obuffer, data);
      Assoc(accepted, st + obuffer, data);
      obuffer := obuffer + data;
      written := written + data;
    }

    /** Moves the front of the queue into the staging buffer if that is empty. */
    method Stage()
      requires Valid()
      modifies this, staging
      ensures Valid() && written == old(written) && accepted == old(accepted)
      ensures Pending() == old(Pending())
      ensures old(length) != 0 ==> length == old(length) && obuffer == old(obuffer)
      ensures old(length) == 0 && |old(obuffer)| <= 16384 ==> length == |old(obuffer)| && obuffer == []
      ensures old(length) == 0 && |old(obuffer)| > 16384 ==> length == 16384 && obuffer == old(obuffer)[16384..]
      ensures writeBlockedOnRead == old(writeBlockedOnRead)
    {
      if obuffer != [] && length == 0 {
        var n := Offered(length, obuffer);
        Fill(n);
        EmptyStage(staging[offset..offset], staging[0..n], obuffer, n);
        length := n;
        obuffer := obuffer[n..];
        offset := 0;
      }
    }

    /** The copy of the first `n` queued bytes into the staging buffer. */
    method Fill(n: nat)
      requires n <= |obuffer| && n <= staging.Length
      modifies staging
      ensures staging[0..n] == obuffer[..n]
    {
      forall i | 0 <= i < n {
        staging[i] := obuffer[i];
      }
    }

    /** The socket took the first `n` staged bytes. */
    method Take(n: nat)
      requires Valid() && n <= length
      modifies this
      ensures Valid() && written == old(written) && writeBlockedOnRead == old(writeBlockedOnRead)
      ensures exists taken :: |taken| == n && accepted == old(accepted) + taken && old(Pending()) == taken + Pending()
    {
      ghost var taken, left := staging[offset..offset + n], staging[offset + n..offset + length];
      Handover(accepted, staging[offset..offset + length], n, taken, left, obuffer);
      length := length - n;
      offset := offset + n;
      bytesOut := bytesOut + n;
      accepted := accepted + taken;
    }

    /**
     One turn of the loop's send half: stage, then write if the socket is ready. `answer` is what
     the socket says to the write; it can take no more than it is offered. The loop tries to write
     if the socket is ready and something waits, or if an earlier try waits for input that is there.
     Returns whether the loop goes on.
     */
    method Turn(pollOut: bool, pollIn: bool, answer: Answer) returns (alive: bool)
      requires Valid()
      requires answer.Took? ==> answer.n <= Offered(length, obuffer)
      modifies this, staging
      ensures Valid() && written == old(written) && old(accepted) <= accepted
      ensures var tries := (pollOut && (old(length) != 0 || old(obuffer) != [])) || (old(writeBlockedOnRead) && pollIn);
              && |accepted| == |old(accepted)| + (if answer.Took? && tries then answer.n else 0)
              && writeBlockedOnRead == (if tries then answer.WantRead? else old(writeBlockedOnRead))
              && (alive <==> !(answer.Broken? && tries))
    {
      Stage();
      alive := true;
      if (pollOut && length != 0) || (writeBlockedOnRead && pollIn) {
        writeBlockedOnRead := false;
        match answer
        case Took(n) => Take(n);
        case WouldBlock =>
        case WantRead => writeBlockedOnRead := true;
        case Broken => alive := false;
      }
    }
  }

  lemma EmptyStage(none: bytes, staged: bytes, queue: bytes, n: nat)
    requires none == [] && n <= |queue| && staged == queue[..n]
    ensures none + queue == staged + queue[n..]
  {
  }

  lemma Handover(accepted: bytes, staged: bytes, n: nat, taken: bytes, left: bytes, queue: bytes)
    requires n <= |staged| && taken == staged[..n] && left == staged[n..]
    ensures staged + queue == taken + (left + queue)
    ensures accepted + (staged + queue) == accepted + taken + (left + queue)
  {
    assert staged == taken + left;
    Assoc(taken, left, queue);
    Assoc(accepted, taken, left + queue);
  }

  /** How many bytes the next write to the socket offers. */
  function Offered(length: nat, obuffer: bytes): nat {
    if length != 0 then length else if |obuffer| > BUFSIZE then BUFSIZE else |obuffer|
  }

  /** A connected client: every message goes out as a header and a payload. */
  class Client {
    const pump: Pump
    const opcode: byte
    ghost var sent: seq<Outgoing>

    /** What `write` was given so far is the wire form of the messages sent. */
    ghost predicate Valid()
      reads this, pump, pump.staging
    {
      && opcode < 16 && pump.Valid() && AllSendable(sent) && pump.written == Wire(sent)
    }

    constructor (opcode: byte)
      requires opcode < 16
      ensures Valid() && sent == [] && this.opcode == opcode
      ensures fresh(pump) && fresh(pump.staging)
    {
      pump := new Pump();
      this.opcode := opcode;
      sent := [];
    }

    /** `write` in the connected state; the header buffer has ten bytes. */
    method Send(payload: bytes)
      requires Valid() && |payload| <= 65535
      modifies this, pump
      ensures Valid() && sent == old(sent) + [Outgoing(opcode, payload)]
    {
      hide Header, Wire;
      ghost var m := Outgoing(opcode, payload);
      var out := new byte[10](_ => 0);
      var s := FillHeader(out, |payload|, opcode);
      var header := out[..s];
      WireAppend(sent, m);
      Assoc(Wire(sent), header, payload);
      pump.Write(header);
      pump.Write(payload);
      sent := sent + [m];
    }

    /** A turn of the send loop between messages changes none of them. */
    method Turn(pollOut: bool, pollIn: bool, answer: Answer) returns (alive: bool)
      requires Valid()
      requires answer.Took? ==> answer.n <= Offered(pump.length, pump.obuffer)
      modifies pump, pump.staging
      ensures Valid() && sent == old(sent) && old(pump.accepted) <= pump.accepted
    {
      alive := pump.Turn(pollOut, pollIn, answer);
    }

    /** At any time the peer has read exactly the first messages, and all of them once nothing is pending. */
    lemma PeerSees()
      requires Valid()
      ensures RfcFrames(pump.accepted).0 <= Peers(sent)
      ensures pump.Pending() == [] ==> RfcFrames(pump.accepted) == (Peers(sent), [])
    {
      hide RfcFrames, Wire;
      assert pump.accepted <= pump.written;
      assert pump.accepted + [] == pump.accepted;
      PeerReadsPrefix(sent, pump.accepted);
    }
  }
}
