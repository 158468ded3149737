/** The rules of the queue's threads, step by step: who may go on when, and what a step records. */
module RequestRules {
  import opened Bytes
  import opened RequestQueue

  /** Worker `w` stands before request `r` of endpoint `e` in its pass; `more` are the requests behind it, `items` the endpoints. */
  ghost predicate Before(s: State, w: nat, e: Endpoint, r: Req, more: seq<Req>, items: seq<Item>) {
    w < |s.workers| && s.workers[w].pc == Pass([Item(e, [r] + more)] + items)
  }

  /** The endpoint has no bucket, its bucket has something left, or the bucket's delay is over. */
  ghost predicate Open(s: State, w: nat, e: Endpoint)
    requires w < |s.workers|
  {
    e in s.workers[w].buckets ==>
      var b := s.workers[w].buckets[e];
      || b.remaining >= 1
      || s.now > (b.timestamp + if b.retryAfter != 0 then b.retryAfter else b.resetAfter) % 0x1_0000_0000_0000_0000
  }

  /** All that differs between the states is worker `w`. */
  ghost predicate OnlyWorker(s: State, s': State, w: nat) {
    && |s'.workers| == |s.workers|
    && (forall v :: 0 <= v < |s.workers| && v != w ==> s'.workers[v] == s.workers[v])
  }

  /**
   A worker in its pass runs the next request exactly if the endpoint is open, and otherwise leaves
   the whole endpoint for this pass. A run takes that request off the pass, marks it completed and
   is recorded with the clock and the reply.
   */
  lemma {:induction false} RunsExactly(s: State, w: nat, e: Endpoint, r: Req, more: seq<Req>, items: seq<Item>, reply: Reply)
    requires |s.workers| > 0 && Before(s, w, e, r, more, items)
    ensures Do(s, Serve(w, reply)).Some? <==> Open(s, w, e)
    ensures Do(s, Defer(w)).Some? <==> !Open(s, w, e)
    ensures Open(s, w, e) ==>
              var s' := Do(s, Serve(w, reply)).value;
              && OnlyWorker(s, s', w) && s'.now == s.now && s'.responses == s.responses
              && s'.workers[w] == s.workers[w].(pc := HasRun(r, reply, [Item(e, more)] + items))
              && s'.completed == s.completed + {r} && s'.history == s.history + [Ran(r, s.now, reply)]
    ensures !Open(s, w, e) ==> Do(s, Defer(w)) == Some(s.(workers := s.workers[w := s.workers[w].(pc := Pass(items))]))
  {
    var pc := s.workers[w].pc;
    assert pc.items[0] == Item(e, [r] + more) && pc.items[0].todo[0] == r;
    assert pc.items[1..] == items && pc.items[0].todo[1..] == more;
    assert pc.items[0 := Item(e, more)] == [Item(e, more)] + items;
  }

  /**
   What a worker notes of a reply: the rate-limit fields under the endpoint of the request, with the
   clock, and the global limit with the delay the reply asks for.
   */
  lemma {:induction false} NotesExactly(s: State, w: nat)
    requires |s.workers| > 0 && w < |s.workers|
    ensures Do(s, Note(w)).Some? <==> s.workers[w].pc.HasRun?
    ensures s.workers[w].pc.HasRun? ==>
              var (pc, s') := (s.workers[w].pc, Do(s, Note(w)).value);
              var reply := pc.reply;
              var b := Bucket(reply.limit, reply.remaining, reply.resetAfter, reply.retryAfter, s.now);
              && OnlyWorker(s, s', w) && s'.now == s.now && s'.responses == s.responses && s'.completed == s.completed
              && s'.workers[w].buckets == s.workers[w].buckets[pc.req.endpoint := b]
              && s'.workers[w].queues == s.workers[w].queues && s'.workers[w].pc == HasNoted(pc.req, reply, pc.items)
              && s'.history == s.history + [Noted(pc.req, b)]
              && s'.limited == reply.global
              && (reply.global && reply.retryAfter != 0 ==> s'.limitedFor == reply.retryAfter)
              && (reply.global && reply.retryAfter == 0 ==> s'.limitedFor == reply.resetAfter)
              && (!reply.global ==> s'.limitedFor == s.limitedFor)
  {
  }

  /** A pass is over once its last endpoint is; an endpoint is over once its last request is. */
  lemma PassEnds(s: State, w: nat)
    requires |s.workers| > 0 && w < |s.workers|
    ensures Do(s, PurgePass(w)).Some? <==> s.workers[w].pc == Pass([])
    ensures Do(s, Advance(w)).Some? <==> s.workers[w].pc.Pass? && s.workers[w].pc.items != [] && s.workers[w].pc.items[0].todo == []
  {
  }

  /** At the end of a pass the worker's queues keep, in order, the requests that are not completed. */
  lemma PurgesExactly(s: State, w: nat)
    requires |s.workers| > 0 && w < |s.workers| && s.workers[w].pc == Pass([])
    ensures var was, s' := s.workers[w], Do(s, PurgePass(w)).value;
            && OnlyWorker(s, s', w) && s'.history == s.history && s'.completed == s.completed && s'.responses == s.responses
            && s'.workers[w].pc == Idle && s'.workers[w].buckets == was.buckets
            && (forall e :: e in s'.workers[w].queues <==> e in was.queues)
            && (forall e :: e in was.queues ==> s'.workers[w].queues[e] == Remaining(was.queues[e], s.completed))
  {
    hide Remaining;
  }

  /**
   The global limit: an idle worker starts a pass exactly if no global limit is set, and otherwise
   sleeps; the limit is lifted when it wakes. A pass covers every queue once, with all it holds.
   */
  lemma {:induction false} StartsExactly(s: State, w: nat, order: seq<Endpoint>)
    requires |s.workers| > 0 && w < |s.workers|
    ensures Do(s, Snapshot(w, order)).Some? ==> s.workers[w].pc == Idle && !s.limited
    ensures Do(s, Doze(w)).Some? <==> s.workers[w].pc == Idle && s.limited
    ensures Do(s, Wake(w)).Some? <==> s.workers[w].pc == Sleeping
    ensures Do(s, Wake(w)).Some? ==>
              var s' := Do(s, Wake(w)).value;
              !s'.limited && s'.limitedFor == 0 && s'.workers[w].pc == Idle && OnlyWorker(s, s', w) && s'.history == s.history
    ensures Do(s, Snapshot(w, order)).Some? ==>
              var s' := Do(s, Snapshot(w, order)).value;
              && OnlyWorker(s, s', w) && s'.history == s.history && s'.workers[w].pc.Pass?
              && s'.workers[w].queues == s.workers[w].queues && s'.workers[w].buckets == s.workers[w].buckets
              && (forall e :: e in s.workers[w].queues <==> exists i :: 0 <= i < |order| && order[i] == e)
              && |s'.workers[w].pc.items| == |order|
              && (forall i :: 0 <= i < |order| ==> order[i] in s.workers[w].queues
                                                   && s'.workers[w].pc.items[i].endpoint == order[i]
                                                   && s'.workers[w].pc.items[i].todo == s.workers[w].queues[order[i]])
  {
  }

  /** An idle worker that is not limited can start its pass, in any order of its queues. */
  lemma StartsUnlimited(s: State, w: nat, order: seq<Endpoint>)
    requires |s.workers| > 0 && w < |s.workers| && s.workers[w].pc == Idle && !s.limited
    requires forall i, j :: 0 <= i < j < |order| ==> order[i] != order[j]
    requires forall e :: e in order <==> e in s.workers[w].queues
    ensures Do(s, Snapshot(w, order)).Some?
  {
  }

  /** A response is queued behind the others, taken from the front, and handed on only once its request is completed. */
  lemma {:induction false} RepliesInTurn(s: State, w: nat)
    requires |s.workers| > 0 && w < |s.workers|
    ensures Do(s, Push(w)).Some? <==> s.workers[w].pc.HasNoted?
    ensures Do(s, Push(w)).Some? ==>
              var pc, s' := s.workers[w].pc, Do(s, Push(w)).value;
              && OnlyWorker(s, s', w) && s'.workers[w] == s.workers[w].(pc := Pass(pc.items))
              && s'.responses == s.responses + [(pc.req, pc.reply)] && s'.history == s.history
    ensures Do(s, Pop).Some? <==> s.calling == None && |s.responses| > 0
    ensures Do(s, Pop).Some? ==>
              var s' := Do(s, Pop).value;
              s'.calling.Some? && [s'.calling.value] + s'.responses == s.responses && s'.history == s.history && s'.workers == s.workers
    ensures Do(s, Call).Some? <==> s.calling.Some?
    ensures Do(s, Call).Some? ==>
              var (r, s') := (s.calling.value.0, Do(s, Call).value);
              && s'.calling == None && s'.workers == s.workers && s'.responses == s.responses
              && (r in s.completed ==> s'.history == s.history + [CalledBack(r)])
              && (r !in s.completed ==> s'.history == s.history)
  {
  }

  // ---- the hash -------------------------------------------------------------------------------

  /** The polynomial in 31 whose coefficients are 17 and then the characters, as signed numbers. */
  ghost function Poly(s: Endpoint): int {
    if s == [] then 17
    else
      var c: int := s[|s| - 1];
      31 * Poly(s[..|s| - 1]) + if c >= 0x80 then c - 0x100 else c
  }

  lemma {:induction false} HashAppend(s: Endpoint, b: byte, h: uint32)
    requires 0 !in s && b != 0
    ensures var c: int := b;
            HashFrom(s + [b], h) == (31 * HashFrom(s, h) + if c >= 0x80 then c - 0x100 else c) % TWO32
    decreases |s|
  {
    if s != [] {
      var c: int := s[0];
      HashAppend(s[1..], b, ((if c < 128 then c else c - 256) + 31 * h) % TWO32);
      assert (s + [b])[1..] == s[1..] + [b];
    } else {
      assert HashFrom([], 0) == 0;
      assert (s + [b])[1..] == [];
    }
  }

  lemma ModStep(a: int, b: int, c: int)
    requires a == b % 0x1_0000_0000
    ensures (31 * a + c) % 0x1_0000_0000 == (31 * b + c) % 0x1_0000_0000
  {
    var q := b / 0x1_0000_0000;
    assert 31 * b + c == 31 * a + c + 0x1_0000_0000 * (31 * q);
  }

  /** Routing hashes an endpoint as the polynomial says, with 32-bit wrap-around. */
  lemma {:induction false} HashIsPolynomial(s: Endpoint)
    requires 0 !in s
    ensures HashFrom(s, 17) == Poly(s) % 0x1_0000_0000
    decreases |s|
  {
    if s != [] {
      var t := s[..|s| - 1];
      HashIsPolynomial(t);
      HashAppend(t, s[|s| - 1], 17);
      assert s == t + [s[|s| - 1]];
      var c: int := s[|s| - 1];
      ModStep(HashFrom(t, 17), Poly(t), if c >= 0x80 then c - 0x100 else c);
    }
  }

  /** Nothing behind the first NUL of an endpoint matters. */
  lemma {:induction false} HashStopsAtNul(s: Endpoint, t: Endpoint, h: uint32)
    requires 0 !in s
    ensures HashFrom(s + [0] + t, h) == HashFrom(s, h)
    decreases |s|
  {
    if s != [] {
      var c: int := s[0];
      assert (s + [0] + t)[1..] == s[1..] + [0] + t;
      HashStopsAtNul(s[1..], t, ((if c < 128 then c else c - 256) + 31 * h) % TWO32);
    }
  }

  /** A posted request goes to the end of its endpoint's queue, at the worker its hash says, and nowhere else. */
  lemma {:induction false} PostsExactly(s: State, r: Req, w: nat)
    requires |s.workers| > 0 && w == HashFrom(r.endpoint, 17) % |s.workers|
    ensures w < |s.workers|
    ensures Do(s, Post(r)).Some? <==> Posted(r) !in s.history
    ensures Do(s, Post(r)).Some? ==>
              var (s', e) := (Do(s, Post(r)).value, r.endpoint);
              && OnlyWorker(s, s', w) && s'.history == s.history + [Posted(r)] && s'.responses == s.responses
              && s'.workers[w].pc == s.workers[w].pc && s'.workers[w].buckets == s.workers[w].buckets
              && e in s'.workers[w].queues
              && s'.workers[w].queues[e] == (if e in s.workers[w].queues then s.workers[w].queues[e] else []) + [r]
              && (forall f :: f != e ==> (f in s'.workers[w].queues <==> f in s.workers[w].queues))
              && (forall f :: f != e && f in s.workers[w].queues ==> s'.workers[w].queues[f] == s.workers[w].queues[f])
  {
    hide HashFrom;
  }
}
