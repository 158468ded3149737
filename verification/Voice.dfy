/**
 Reordering of received voice payloads: the comparison of 16-bit sequence numbers that wrap
 around, and the loop that empties a parking lot in order and conceals what was lost.
 */
module Voice {
  import opened Bytes

  const WRAP: int := 0x1_0000
  const BOUNDARY: int := 5000

  /** A parked payload; `id` stands for the event it carries. */
  datatype Payload = Payload(seqNo: uint16, timestamp: uint32, id: nat)

  /** `operator<` on sequence numbers, for equal timestamps: true if `a` comes later than `b`. */
  predicate LaterSeq(a: uint16, b: uint16) {
    if (a < BOUNDARY) != (b < BOUNDARY) then (a + BOUNDARY) % WRAP > (b + BOUNDARY) % WRAP else a > b
  }

  /** `operator<`: the lower priority belongs to the later payload. */
  predicate Less(p: Payload, q: Payload) {
    if p.timestamp != q.timestamp then p.timestamp > q.timestamp else LaterSeq(p.seqNo, q.seqNo)
  }

  /** How many steps forward, with wrap-around, lead from `m` to `s`. */
  function Distance(m: uint16, s: uint16): (d: uint16)
    ensures (m + d) % WRAP == s
  {
    (s - m) % WRAP
  }

  // ---- where the comparison is right --------------------------------------------------------------

  /** The comparison agrees with the distance on the numbers `m` to `m + n`. */
  ghost predicate Orders(m: uint16, n: uint16) {
    forall a: uint16, b: uint16 :: Distance(m, a) <= n && Distance(m, b) <= n ==>
      (LaterSeq(a, b) <==> Distance(m, a) > Distance(m, b))
  }

  /** No wrap and not both ends near the wrap, or a wrap with both parts inside the boundary. */
  predicate GoodWindow(m: uint16, n: uint16) {
    if m + n < 65536 then m >= 5000 || m + n < 60536
    else m >= 60536 && m + n < 70536
  }

  lemma GoodPair(m: uint16, n: uint16, a: uint16, b: uint16)
    requires GoodWindow(m, n) && Distance(m, a) <= n && Distance(m, b) <= n
    ensures LaterSeq(a, b) <==> Distance(m, a) > Distance(m, b)
  {
  }

  /** Two numbers of a bad window that are compared the wrong way. */
  lemma BadPair(m: uint16, n: uint16) returns (a: uint16, b: uint16)
    requires !GoodWindow(m, n)
    ensures Distance(m, a) <= n && Distance(m, b) <= n
    ensures LaterSeq(a, b) != (Distance(m, a) > Distance(m, b))
  {
    if m + n < WRAP {
      a, b := m, m + n;
    } else if m >= WRAP - BOUNDARY {
      a, b := m, BOUNDARY;
    } else {
      a, b := m, 0;
    }
  }

  /** The exact windows on which the comparison is right. */
  lemma OrdersExactly(m: uint16, n: uint16)
    ensures Orders(m, n) <==> GoodWindow(m, n)
  {
    if GoodWindow(m, n) {
      forall a: uint16, b: uint16 | Distance(m, a) <= n && Distance(m, b) <= n
        ensures LaterSeq(a, b) <==> Distance(m, a) > Distance(m, b)
      {
        GoodPair(m, n, a, b);
      }
    } else {
      var a, b := BadPair(m, n);
    }
  }

  /** The longest window that is right wherever it starts ends 5000 after its start. */
  lemma {:induction false} BoundaryIsExact(n: uint16)
    ensures (forall m: uint16 :: Orders(m, n)) <==> n <= 5000
  {
    forall m: uint16
      ensures Orders(m, n) <==> GoodWindow(m, n)
    {
      OrdersExactly(m, n);
    }
    if n > BOUNDARY {
      var m: uint16 := WRAP - 1;
      assert !GoodWindow(m, n);
      assert !Orders(m, n);
    }
  }

  /** Every pair: numbers below 5000 come after those from 60536 on, and otherwise the higher one is the later. */
  lemma LaterExactly(a: uint16, b: uint16)
    ensures LaterSeq(a, b) <==>
              if a < 5000 && b >= 60536 then true
              else if a >= 60536 && b < 5000 then false
              else a > b
  {
  }

  // ---- the priority queue ----------------------------------------------------------------------------

  /**
   The payloads of a batch: one for each number at most, all within 5000 of `m`, and a later
   number never with an earlier timestamp.
   */
  ghost predicate Batch(m: uint16, q: seq<Payload>) {
    && (forall i :: 0 <= i < |q| ==> Distance(m, q[i].seqNo) <= 5000)
    && (forall i, j :: 0 <= i < |q| && 0 <= j < |q| && Distance(m, q[i].seqNo) < Distance(m, q[j].seqNo) ==>
          q[i].timestamp <= q[j].timestamp)
    && (forall i, j :: 0 <= i < j < |q| ==> q[i].seqNo != q[j].seqNo)
  }

  lemma BatchPair(m: uint16, q: seq<Payload>, i: nat, j: nat)
    requires Batch(m, q) && i < |q| && j < |q|
    ensures Less(q[i], q[j]) <==> Distance(m, q[i].seqNo) > Distance(m, q[j].seqNo)
  {
    hide LaterSeq, Distance;
    var a, b := q[i].seqNo, q[j].seqNo;
    GoodPair(m, BOUNDARY, a, b);
    assert Distance(m, a) == Distance(m, b) ==> i == j;
  }

  /** The entry of highest priority; the container keeps the first of several. */
  function Top(q: seq<Payload>): (k: nat)
    requires q != []
    ensures k < |q|
  {
    if |q| == 1 then 0
    else
      var k := Top(q[..|q| - 1]);
      if Less(q[k], q[|q| - 1]) then |q| - 1 else k
  }

  function Pop(q: seq<Payload>): (r: seq<Payload>)
    requires q != []
    ensures |r| == |q| - 1
    ensures multiset(q) == multiset(r) + multiset{q[Top(q)]}
  {
    var k := Top(q);
    assert q == q[..k] + [q[k]] + q[k + 1..];
    q[..k] + q[k + 1..]
  }

  method TopOf(q: seq<Payload>) returns (k: nat)
    requires q != []
    ensures k == Top(q)
  {
    k := 0;
    for n := 1 to |q|
      invariant k == Top(q[..n])
    {
      assert q[..n + 1][..n] == q[..n];
      if Less(q[k], q[n]) {
        k := n;
      }
    }
    assert q[..|q|] == q;
  }

  /** In a batch the top is the payload nearest to the start. */
  lemma {:induction false} TopIsNearest(m: uint16, q: seq<Payload>, i: nat)
    requires q != [] && Batch(m, q) && i < |q|
    ensures Distance(m, q[Top(q)].seqNo) <= Distance(m, q[i].seqNo)
    decreases |q|, i == |q| - 1
  {
    hide Less, Distance;
    if |q| > 1 {
      var p := q[..|q| - 1];
      BatchPair(m, q, Top(p), |q| - 1);
      if i < |q| - 1 {
        TopIsNearest(m, p, i);
        assert p[i] == q[i];
      }
    }
  }

  /** `p` is due before `q` or with it: its timestamp is lower, or the same and its number no further from `m`. */
  ghost predicate NotAfter(m: uint16, p: Payload, q: Payload) {
    p.timestamp < q.timestamp || (p.timestamp == q.timestamp && Distance(m, p.seqNo) <= Distance(m, q.seqNo))
  }

  /** Where the comparison of numbers is right, the order is by timestamp first and by number among equal ones. */
  lemma LessExactly(m: uint16, n: uint16, p: Payload, q: Payload)
    requires GoodWindow(m, n) && Distance(m, p.seqNo) <= n && Distance(m, q.seqNo) <= n
    ensures Less(p, q) <==> !NotAfter(m, p, q)
  {
    hide LaterSeq, Distance, GoodWindow;
    GoodPair(m, n, p.seqNo, q.seqNo);
  }

  /** The top of any queue has the lowest timestamp, whatever its numbers. */
  lemma {:induction false} TopIsEarliest(q: seq<Payload>, i: nat)
    requires q != [] && i < |q|
    ensures q[Top(q)].timestamp <= q[i].timestamp
    decreases |q|
  {
    hide LaterSeq;
    if |q| > 1 {
      var p := q[..|q| - 1];
      if i < |q| - 1 {
        TopIsEarliest(p, i);
        assert p[i] == q[i];
      }
    }
  }

  /** And on a window that is compared right, among those with the lowest timestamp the number nearest to the start. */
  lemma {:induction false} TopIsDue(m: uint16, n: uint16, q: seq<Payload>, i: nat)
    requires q != [] && i < |q| && GoodWindow(m, n)
    requires forall j :: 0 <= j < |q| ==> Distance(m, q[j].seqNo) <= n
    ensures NotAfter(m, q[Top(q)], q[i])
    decreases |q|, i == |q| - 1
  {
    hide Less, Distance, GoodWindow;
    if |q| > 1 {
      var p := q[..|q| - 1];
      LessExactly(m, n, q[Top(p)], q[|q| - 1]);
      assert forall j :: 0 <= j < |p| ==> p[j] == q[j];
      if i < |q| - 1 {
        TopIsDue(m, n, p, i);
      }
    }
  }

  lemma PopMember(q: seq<Payload>, i: nat)
    requires q != [] && i < |q| - 1
    ensures Pop(q)[i] == q[if i < Top(q) then i else i + 1]
  {
  }

  lemma PopBatch(m: uint16, q: seq<Payload>)
    requires q != [] && Batch(m, q)
    ensures Batch(m, Pop(q))
  {
    hide Top, Distance, Pop;
    forall i | 0 <= i < |q| - 1
      ensures Pop(q)[i] == q[if i < Top(q) then i else i + 1]
    {
      PopMember(q, i);
    }
  }

  // ---- the flush loop ---------------------------------------------------------------------------------

  /** A call of the decoder: with a payload, or without one to conceal a lost packet. */
  datatype Event = Delivered(p: Payload) | Concealed(seqNo: uint16)

  function Payloads(out: seq<Event>): multiset<Payload> {
    if out == [] then multiset{}
    else
      var last := out[|out| - 1];
      Payloads(out[..|out| - 1]) + if last.Delivered? then multiset{last.p} else multiset{}
  }

  /** The events for the numbers `m`, `m + 1`, ... of a batch: its payload where there is one. */
  ghost predicate InOrder(m: uint16, q: seq<Payload>, out: seq<Event>) {
    forall d :: 0 <= d < |out| ==> RightAt(m, q, d, out[d])
  }

  ghost predicate RightAt(m: uint16, q: seq<Payload>, d: nat, e: Event) {
    match e
    case Delivered(p) => p in q && Distance(m, p.seqNo) == d
    case Concealed(s) => s == Number(m, d) && forall p :: p in q ==> Distance(m, p.seqNo) != d
  }

  /** What is still parked after the numbers below `m + n` were dealt with. */
  ghost predicate Left(m: uint16, q: seq<Payload>, left: seq<Payload>, n: nat) {
    && Batch(m, left)
    && (forall p :: p in left <==> p in q && Distance(m, p.seqNo) >= n)
  }

  lemma LeftAll(m: uint16, q: seq<Payload>)
    requires Batch(m, q)
    ensures Left(m, q, q, 0)
  {
    hide Batch;
  }

  /** The next number has no payload: it is concealed. */
  lemma {:induction false} Conceals(m: uint16, q: seq<Payload>, left: seq<Payload>, n: nat)
    requires Left(m, q, left, n) && left != [] && left[Top(left)].seqNo != Number(m, n)
    ensures RightAt(m, q, n, Concealed(Number(m, n))) && Left(m, q, left, n + 1)
    ensures n < BOUNDARY
  {
    hide Top;
    var t := left[Top(left)];
    assert t in left && Distance(m, t.seqNo) != n;
    forall p | p in q
      ensures Distance(m, p.seqNo) != n
    {
      if Distance(m, p.seqNo) == n {
        assert p in left;
        var i :| 0 <= i < |left| && left[i] == p;
        TopIsNearest(m, left, i);
      }
    }
  }

  /** The next number is the top's: it is delivered and popped. */
  lemma {:induction false} Delivers(m: uint16, q: seq<Payload>, left: seq<Payload>, n: nat)
    requires Left(m, q, left, n) && left != [] && left[Top(left)].seqNo == Number(m, n)
    ensures RightAt(m, q, n, Delivered(left[Top(left)])) && Left(m, q, Pop(left), n + 1)
  {
    hide Top, Pop, Distance, Batch;
    var t := left[Top(left)];
    assert t in left && Distance(m, t.seqNo) == n by { TopNumber(m, left, n, Top(left)); }
    PopBatch(m, left);
    forall p
      ensures p in Pop(left) <==> p in q && Distance(m, p.seqNo) >= n + 1
    {
      PopKeeps(m, left, n, p);
    }
  }

  lemma TopNumber(m: uint16, left: seq<Payload>, n: nat, k: nat)
    requires k < |left| && Batch(m, left) && left[k].seqNo == Number(m, n) && Distance(m, left[k].seqNo) >= n
    ensures Distance(m, left[k].seqNo) == n
  {
  }

  lemma PopKeeps(m: uint16, left: seq<Payload>, n: nat, p: Payload)
    requires left != [] && Batch(m, left) && Distance(m, left[Top(left)].seqNo) == n
    requires p in left ==> Distance(m, p.seqNo) >= n
    ensures p in Pop(left) <==> p in left && Distance(m, p.seqNo) >= n + 1
  {
    hide Top, Distance;
    var k := Top(left);
    if p in Pop(left) {
      var i :| 0 <= i < |Pop(left)| && Pop(left)[i] == p;
      var j := if i < k then i else i + 1;
      PopMember(left, i);
      assert left[j] == p && j != k && left[j].seqNo != left[k].seqNo;
      SameDistance(m, left[j].seqNo, left[k].seqNo);
    }
    if p in left {
      var j :| 0 <= j < |left| && left[j] == p;
      if j != k {
        PopMember(left, if j < k then j else j - 1);
      }
    }
  }

  lemma SameDistance(m: uint16, a: uint16, b: uint16)
    ensures Distance(m, a) == Distance(m, b) <==> a == b
  {
  }

  /** The number `n` steps after `m`. */
  function Number(m: uint16, n: nat): uint16 {
    (m + n) % 0x1_0000
  }

  lemma NextNumber(m: uint16, n: nat)
    ensures (Number(m, n) + 1) % WRAP == Number(m, n + 1) && Number(m, 0) == m
  {
  }

  lemma Closer(s: uint16, t: uint16)
    requires s != t
    ensures Distance((s + 1) % WRAP, t) < Distance(s, t)
  {
  }

  lemma PayloadsAppend(out: seq<Event>, e: Event)
    ensures Payloads(out + [e]) == Payloads(out) + if e.Delivered? then multiset{e.p} else multiset{}
  {
    assert (out + [e])[..|out|] == out;
  }

  /** Nothing is left, and the last event was a payload. */
  ghost predicate Complete(m: uint16, q: seq<Payload>, out: seq<Event>) {
    && InOrder(m, q, out)
    && (forall p :: p in q ==> Distance(m, p.seqNo) < |out| && out[Distance(m, p.seqNo)] == Delivered(p))
    && (out != [] ==> out[|out| - 1].Delivered?)
  }

  lemma AllDealtWith(m: uint16, q: seq<Payload>, out: seq<Event>)
    requires Batch(m, q) && InOrder(m, q, out) && Left(m, q, [], |out|)
    requires out != [] ==> out[|out| - 1].Delivered?
    ensures Complete(m, q, out)
  {
    hide Distance;
    forall p | p in q
      ensures Distance(m, p.seqNo) < |out| && out[Distance(m, p.seqNo)] == Delivered(p)
    {
      var d := Distance(m, p.seqNo);
      assert d < |out| by { assert p !in []; }
      assert RightAt(m, q, d, out[d]);
      var i :| 0 <= i < |q| && q[i] == p;
      var j :| 0 <= j < |q| && q[j] == out[d].p;
      SameDistance(m, q[i].seqNo, q[j].seqNo);
    }
  }

  /** The part of a batch dealt with so far is right. */
  ghost predicate Progress(m: uint16, q: seq<Payload>, left: seq<Payload>, out: seq<Event>) {
    Batch(m, q) ==> InOrder(m, q, out) && Left(m, q, left, |out|)
  }

  function EventOf(q: seq<Payload>, s: uint16): Event
    requires q != []
  {
    if q[Top(q)].seqNo != s then Concealed(s) else Delivered(q[Top(q)])
  }

  function Remains(q: seq<Payload>, s: uint16): (r: seq<Payload>)
    requires q != []
    ensures |r| <= |q|
    ensures multiset(q) == multiset(r) + if EventOf(q, s).Delivered? then multiset{EventOf(q, s).p} else multiset{}
  {
    if q[Top(q)].seqNo != s then q else Pop(q)
  }

  lemma {:induction false} Progresses(m: uint16, q: seq<Payload>, left: seq<Payload>, out: seq<Event>)
    requires Progress(m, q, left, out) && left != []
    ensures var s := Number(m, |out|);
            Progress(m, q, Remains(left, s), out + [EventOf(left, s)])
  {
    hide Batch, Top, Pop, Number, RightAt, Left;
    if Batch(m, q) {
      if left[Top(left)].seqNo != Number(m, |out|) {
        Conceals(m, q, left, |out|);
      } else {
        Delivers(m, q, left, |out|);
      }
    }
  }

  /**
   Empties a parking lot. For any contents it terminates and decodes each payload once; for a
   batch the payloads come in order and exactly the missing numbers in between are concealed.
   */
  method Flush(minSeq: uint16, parked: seq<Payload>) returns (out: seq<Event>)
    ensures Payloads(out) == multiset(parked)
    ensures Batch(minSeq, parked) ==> Complete(minSeq, parked, out)
  {
    hide Batch, Less, Top, Pop, Number, Distance, Progress, Complete, Payloads;
    var q, s := parked, minSeq;
    out := [];
    Starts(minSeq, parked);
    while q != []
      invariant s == Number(minSeq, |out|)
      invariant Payloads(out) + multiset(q) == multiset(parked)
      invariant Progress(minSeq, parked, q, out)
      invariant q == [] && out != [] ==> out[|out| - 1].Delivered?
      decreases |q|, if q == [] then 0 else Distance(s, q[Top(q)].seqNo)
    {
      Progresses(minSeq, parked, q, out);
      PayloadsAppend(out, EventOf(q, s));
      NextNumber(minSeq, |out|);
      var k := TopOf(q);
      if q[k].seqNo != s {
        Closer(s, q[k].seqNo);
        out := out + [Concealed(s)];
      } else {
        out := out + [Delivered(q[k])];
        q := Pop(q);
      }
      s := (s + 1) % WRAP;
    }
    Ends(minSeq, parked, out);
  }

  lemma Starts(m: uint16, q: seq<Payload>)
    ensures Progress(m, q, q, []) && Payloads([]) == multiset{} && Number(m, 0) == m
  {
    if Batch(m, q) {
      LeftAll(m, q);
    }
  }

  lemma Ends(m: uint16, q: seq<Payload>, out: seq<Event>)
    requires Progress(m, q, [], out) && (out != [] ==> out[|out| - 1].Delivered?)
    ensures Batch(m, q) ==> Complete(m, q, out)
  {
    hide Complete;
    if Batch(m, q) {
      AllDealtWith(m, q, out);
    }
  }
}
