/** Rate limits over every run, and the two loops of the queue. */
module RequestLimits {
  import opened Bytes
  import opened RequestQueue
  import opened RequestProof

  // ---- the events that touch an endpoint's bucket ------------------------------------------------

  predicate Touches(ev: Event, e: Endpoint) {
    (ev.Ran? || ev.Noted?) && ev.req.endpoint == e
  }

  /** The index of the last event before `n` that ran, or noted the reply of, a request to `e`. */
  function LastTouch(h: seq<Event>, n: nat, e: Endpoint): (i: Option<nat>)
    requires n <= |h|
    ensures i.Some? ==> i.value < n && Touches(h[i.value], e) && forall k :: i.value < k < n ==> !Touches(h[k], e)
    ensures i.None? ==> forall k :: 0 <= k < n ==> !Touches(h[k], e)
  {
    if n == 0 then None
    else if Touches(h[n - 1], e) then Some(n - 1)
    else LastTouch(h, n - 1, e)
  }

  lemma {:induction false} LastTouchAppend(h: seq<Event>, ev: Event, n: nat, e: Endpoint)
    requires n <= |h|
    ensures LastTouch(h + [ev], n, e) == LastTouch(h, n, e)
  {
    if n > 0 {
      LastTouchAppend(h, ev, n - 1, e);
    }
  }

  /** Something remains in the bucket, or at `at` the delay it asks for has passed; the deadline is a 64-bit sum. */
  ghost predicate Waited(b: Bucket, at: uint64) {
    b.remaining >= 1 || at > (b.timestamp + if b.retryAfter != 0 then b.retryAfter else b.resetAfter) % 0x1_0000_0000_0000_0000
  }

  /** The bucket holds what the reply said. */
  ghost predicate Carries(b: Bucket, reply: Reply) {
    && b.limit == reply.limit && b.remaining == reply.remaining
    && b.resetAfter == reply.resetAfter && b.retryAfter == reply.retryAfter
  }

  /**
   Event `n` respects the bucket: a run follows either no earlier touch of its endpoint or a
   noted bucket whose delay it waited for; a note records the bucket of the run just before it.
   */
  ghost predicate Respects(h: seq<Event>, n: nat)
    requires n < |h|
  {
    match h[n]
    case Ran(r, at, _) =>
      var t := LastTouch(h, n, r.endpoint);
      t.Some? ==> h[t.value].Noted? && Waited(h[t.value].bucket, at)
    case Noted(r, b) =>
      var t := LastTouch(h, n, r.endpoint);
      t.Some? && h[t.value].Ran? && h[t.value].req == r && Carries(b, h[t.value].reply)
    case _ => true
  }

  /** The worker of `e` remembers the last touch of `e`. */
  ghost predicate Remembers(s: State, e: Endpoint)
    requires |s.workers| > 0
  {
    var w, t := WorkerOf(s, e), LastTouch(s.history, |s.history|, e);
    if w.pc.HasRun? && w.pc.req.endpoint == e then
      t.Some? && s.history[t.value].Ran? && s.history[t.value].req == w.pc.req && s.history[t.value].reply == w.pc.reply
    else if t.None? then e !in w.buckets
    else s.history[t.value].Noted? && e in w.buckets && w.buckets[e] == s.history[t.value].bucket
  }

  ghost predicate Limits(s: State) {
    && |s.workers| > 0
    && (forall e :: Remembers(s, e))
    && (forall n :: 0 <= n < |s.history| ==> Respects(s.history, n))
  }

  lemma RespectsAppend(h: seq<Event>, ev: Event, n: nat)
    requires n < |h| && Respects(h, n)
    ensures Respects(h + [ev], n)
  {
    hide LastTouch;
    if h[n].Ran? || h[n].Noted? {
      LastTouchAppend(h, ev, n, h[n].req.endpoint);
    }
  }

  /** The last touch after one more event. */
  lemma TouchAfter(h: seq<Event>, ev: Event, e: Endpoint)
    ensures LastTouch(h + [ev], |h| + 1, e) == if Touches(ev, e) then Some(|h|) else LastTouch(h, |h|, e)
  {
    LastTouchAppend(h, ev, |h|, e);
  }

  lemma HistoryRespects(s: State, s': State, ev: Event)
    requires Limits(s) && s'.history == s.history + [ev] && Respects(s'.history, |s.history|)
    ensures forall n :: 0 <= n < |s'.history| ==> Respects(s'.history, n)
  {
    hide Respects, Remembers;
    forall n | 0 <= n < |s.history|
      ensures Respects(s'.history, n)
    {
      RespectsAppend(s.history, ev, n);
    }
  }

  /** The guard of a run, on the fields of the bucket. */
  lemma AllowsMeans(s: State, w: nat)
    requires AtRequest(s, w)
    ensures var worker, e := s.workers[w], s.workers[w].pc.items[0].endpoint;
            MayRun(s, w) <==> e !in worker.buckets || Waited(worker.buckets[e], s.now)
  {
  }

  lemma ServeChanges(s: State, s': State, w: nat, reply: Reply)
    requires |s.workers| > 0 && Do(s, Serve(w, reply)) == Some(s')
    ensures AtRequest(s, w) && MayRun(s, w)
    ensures var r := s.workers[w].pc.items[0].todo[0];
            && |s'.workers| == |s.workers| && s'.history == s.history + [Ran(r, s.now, reply)]
            && s'.workers[w].buckets == s.workers[w].buckets
            && s'.workers[w].pc.HasRun? && s'.workers[w].pc.req == r && s'.workers[w].pc.reply == reply
            && forall v :: 0 <= v < |s.workers| && v != w ==> s'.workers[v] == s.workers[v]
  {
    hide MayRun, Route;
  }

  lemma LimitsServe(s: State, s': State, w: nat, reply: Reply)
    requires Inv(s) && Limits(s) && Do(s, Serve(w, reply)) == Some(s')
    ensures Limits(s')
  {
    hide Route, Inv, LastTouch, ViewOf, Allows, Waited, Do, MayRun;
    ServeChanges(s, s', w, reply);
    ServeHead(s, w);
    AllowsMeans(s, w);
    var f, r := s.workers[w].pc.items[0].endpoint, s.workers[w].pc.items[0].todo[0];
    var ev := Ran(r, s.now, reply);
    assert Remembers(s, f);
    LastTouchAppend(s.history, ev, |s.history|, f);
    HistoryRespects(s, s', ev);
    forall e
      ensures Remembers(s', e)
    {
      TouchAfter(s.history, ev, e);
      assert Remembers(s, e);
    }
  }

  lemma {:induction false} LimitsNote(s: State, s': State, w: nat)
    requires Inv(s) && Limits(s) && Do(s, Note(w)) == Some(s')
    ensures Limits(s')
  {
    hide Route, LastTouch, ViewOf, Allows, Flagged, Ordered, Respects;
    var HasRun(r, reply, items) := s.workers[w].pc;
    var ev := Noted(r, BucketOf(reply, s.now));
    assert Remembers(s, r.endpoint);
    NoteRespects(s, ev, reply);
    HistoryRespects(s, s', ev);
    forall e
      ensures Remembers(s', e)
    {
      TouchAfter(s.history, ev, e);
      assert Remembers(s, e);
    }
  }

  lemma NoteRespects(s: State, ev: Event, reply: Reply)
    requires |s.workers| > 0 && ev == Noted(ev.req, BucketOf(reply, s.now)) && Remembers(s, ev.req.endpoint)
    requires WorkerOf(s, ev.req.endpoint).pc.HasRun? && WorkerOf(s, ev.req.endpoint).pc.req == ev.req
    requires WorkerOf(s, ev.req.endpoint).pc.reply == reply
    ensures Respects(s.history + [ev], |s.history|)
  {
    hide Route, LastTouch;
    LastTouchAppend(s.history, ev, |s.history|, ev.req.endpoint);
  }

  /** Steps that touch no bucket. */
  lemma LimitsQuiet(s: State, s': State, step: Step)
    requires Limits(s) && Do(s, step) == Some(s') && !step.Serve? && !step.Note?
    ensures Limits(s')
  {
    hide Route, LastTouch, Allows, Respects, Do, Touches;
    QuietHistory(s, s', step);
    if s'.history != s.history {
      var ev := s'.history[|s.history|];
      QuietRespects(s'.history, |s.history|);
      HistoryRespects(s, s', ev);
    }
    forall e
      ensures Remembers(s', e)
    {
      assert Remembers(s, e);
      QuietWorker(s, s', step, e);
      if s'.history != s.history {
        var ev := s'.history[|s.history|];
        TouchAfter(s.history, ev, e);
        QuietTouch(ev, e);
      }
    }
  }

  lemma QuietTouch(ev: Event, e: Endpoint)
    requires !ev.Ran? && !ev.Noted?
    ensures !Touches(ev, e)
  {
  }

  lemma QuietHistory(s: State, s': State, step: Step)
    requires |s.workers| > 0 && Do(s, step) == Some(s') && !step.Serve? && !step.Note?
    ensures |s'.workers| == |s.workers|
    ensures s'.history == s.history ||
            (|s'.history| == |s.history| + 1 && s'.history == s.history + [s'.history[|s.history|]] &&
             !s'.history[|s.history|].Ran? && !s'.history[|s.history|].Noted?)
  {
    hide Route;
  }

  lemma QuietWorker(s: State, s': State, step: Step, e: Endpoint)
    requires |s.workers| > 0 && Do(s, step) == Some(s') && !step.Serve? && !step.Note? && |s'.workers| == |s.workers|
    ensures WorkerOf(s', e).buckets == WorkerOf(s, e).buckets
    ensures WorkerOf(s', e).pc.HasRun? <==> WorkerOf(s, e).pc.HasRun?
    ensures WorkerOf(s, e).pc.HasRun? ==> WorkerOf(s', e).pc == WorkerOf(s, e).pc
  {
    hide Route, Purged, Items, Lists;
  }

  lemma QuietRespects(h: seq<Event>, n: nat)
    requires n < |h| && !h[n].Ran? && !h[n].Noted?
    ensures Respects(h, n)
  {
  }

  lemma {:induction false} LimitsKept(n: nat, steps: seq<Step>, s: State)
    requires n > 0 && Run(Start(n), steps) == Some(s)
    ensures Limits(s)
    decreases |steps|
  {
    hide Limits, Inv, Do;
    if steps == [] {
      LimitsStart(n);
    } else {
      var before, step := Run(Start(n), steps[..|steps| - 1]).value, steps[|steps| - 1];
      LimitsKept(n, steps[..|steps| - 1], before);
      RunKeeps(n, steps[..|steps| - 1], before);
      match step
      case Serve(w, reply) => LimitsServe(before, s, w, reply);
      case Note(w) => LimitsNote(before, s, w);
      case _ => LimitsQuiet(before, s, step);
    }
  }

  lemma LimitsStart(n: nat)
    requires n > 0
    ensures Limits(Start(n))
  {
    hide Route;
  }

  /**
   Between two consecutive runs of requests to one endpoint the first one's reply is noted as
   the endpoint's bucket, and the second run respects that bucket: something remained, or the
   clock had passed the time of noting plus the delay the reply asked for.
   */
  lemma RateLimited(n: nat, steps: seq<Step>, s: State, i: nat, j: nat) returns (k: nat)
    requires n > 0 && Run(Start(n), steps) == Some(s)
    requires i < j < |s.history| && s.history[i].Ran? && s.history[j].Ran?
    requires s.history[j].req.endpoint == s.history[i].req.endpoint
    requires forall m :: i < m < j && s.history[m].Ran? ==> s.history[m].req.endpoint != s.history[i].req.endpoint
    ensures i < k < j && s.history[k].Noted? && s.history[k].req == s.history[i].req
    ensures var reply, noted := s.history[i].reply, s.history[k].bucket.timestamp;
            || reply.remaining >= 1
            || s.history[j].at > (noted + if reply.retryAfter != 0 then reply.retryAfter else reply.resetAfter) % 0x1_0000_0000_0000_0000
  {
    hide Run, LastTouch;
    LimitsKept(n, steps, s);
    var h, e := s.history, s.history[i].req.endpoint;
    assert Respects(h, j);
    var t := LastTouch(h, j, e);
    assert Touches(h[i], e);
    k := t.value;
    assert Respects(h, k);
    var u := LastTouch(h, k, e);
    assert u.value == i;
  }

  // ---- the two loops ------------------------------------------------------------------------------

  /** The loop of the hash: it stops at the first NUL. */
  method Hash(s: Endpoint) returns (h: uint32)
    ensures h == HashFrom(s, 17)
  {
    h := 17;
    var i := 0;
    while i < |s| && s[i] != 0
      invariant i <= |s| && HashFrom(s, 17) == HashFrom(s[i..], h)
    {
      var b: int := s[i];
      var c := if b < 128 then b else b - 256;
      h := (c + 31 * h) % TWO32;
      i := i + 1;
    }
  }

  lemma {:induction false} RemainingClean(q: seq<Req>, done: set<Req>)
    requires forall i :: 0 <= i < |q| ==> q[i] !in done
    ensures Remaining(q, done) == q
  {
    if q != [] {
      RemainingClean(q[..|q| - 1], done);
    }
  }

  lemma {:induction false} RemainingErase(a: seq<Req>, x: Req, b: seq<Req>, done: set<Req>)
    requires x in done
    ensures Remaining(a + [x] + b, done) == Remaining(a + b, done)
    decreases |b|
  {
    if b == [] {
      assert (a + [x] + b)[..|a|] == a;
      assert a + b == a;
    } else {
      var c := b[..|b| - 1];
      RemainingErase(a, x, c, done);
      assert (a + [x] + b)[..|a + [x] + b| - 1] == a + [x] + c;
      assert (a + b)[..|a + b| - 1] == a + c;
    }
  }

  /** How many requests the queues hold. */
  function Size(queues: map<Endpoint, seq<Req>>, order: seq<Endpoint>): nat
    requires forall i :: 0 <= i < |order| ==> order[i] in queues
  {
    if order == [] then 0 else Size(queues, order[..|order| - 1]) + |queues[order[|order| - 1]]|
  }

  lemma {:induction false} SizeShrinks(q: map<Endpoint, seq<Req>>, q': map<Endpoint, seq<Req>>, order: seq<Endpoint>, i: nat)
    requires forall k :: 0 <= k < |order| ==> order[k] in q && order[k] in q' && |q'[order[k]]| <= |q[order[k]]|
    ensures Size(q', order) <= Size(q, order)
    ensures i < |order| && |q'[order[i]]| < |q[order[i]]| ==> Size(q', order) < Size(q, order)
    decreases |order|
  {
    if order != [] {
      SizeShrinks(q, q', order[..|order| - 1], if i < |order| - 1 then i else 0);
    }
  }

  /** The first completed request met when the queues are scanned in `order`. */
  method FindCompleted(queues: map<Endpoint, seq<Req>>, order: seq<Endpoint>, done: set<Req>) returns (found: bool, k: nat, m: nat)
    requires forall i :: 0 <= i < |order| ==> order[i] in queues
    ensures found ==> k < |order| && m < |queues[order[k]]| && queues[order[k]][m] in done
    ensures found ==> forall j :: 0 <= j < m ==> queues[order[k]][j] !in done
    ensures found ==> forall i, j :: 0 <= i < k && 0 <= j < |queues[order[i]]| ==> queues[order[i]][j] !in done
    ensures !found ==> forall i, j :: 0 <= i < |order| && 0 <= j < |queues[order[i]]| ==> queues[order[i]][j] !in done
  {
    k, m := 0, 0;
    while k < |order|
      invariant k <= |order|
      invariant forall i, j :: 0 <= i < k && 0 <= j < |queues[order[i]]| ==> queues[order[i]][j] !in done
    {
      m := 0;
      while m < |queues[order[k]]|
        invariant m <= |queues[order[k]]|
        invariant forall j :: 0 <= j < m ==> queues[order[k]][j] !in done
      {
        if queues[order[k]][m] in done {
          return true, k, m;
        }
        m := m + 1;
      }
      k := k + 1;
    }
    found := false;
  }

  lemma EraseKeeps(r: map<Endpoint, seq<Req>>, order: seq<Endpoint>, done: set<Req>, k: nat, m: nat)
    requires (forall i :: 0 <= i < |order| ==> order[i] in r)
    requires k < |order| && m < |r[order[k]]| && r[order[k]][m] in done
    ensures var q := r[order[k]];
            var r' := r[order[k] := q[..m] + q[m + 1..]];
            && Size(r', order) < Size(r, order)
            && forall e :: e in r ==> Remaining(r'[e], done) == Remaining(r[e], done)
  {
    hide Remaining, Size;
    var q := r[order[k]];
    var r' := r[order[k] := q[..m] + q[m + 1..]];
    assert q == q[..m] + [q[m]] + q[m + 1..];
    RemainingErase(q[..m], q[m], q[m + 1..], done);
    SizeShrinks(r, r', order, k);
  }

  /**
   The purge at the end of a pass: scan, erase the first completed request found, start again,
   until a scan finds none. `order` is the order in which the queues are scanned.
   */
  method Purge(queues: map<Endpoint, seq<Req>>, order: seq<Endpoint>, done: set<Req>) returns (r: map<Endpoint, seq<Req>>)
    requires Lists(order, queues)
    ensures r == Purged(queues, done)
  {
    hide Remaining, Size;
    r := queues;
    var again := true;
    while again
      invariant r.Keys == queues.Keys
      invariant forall e :: e in queues ==> Remaining(r[e], done) == Remaining(queues[e], done)
      invariant !again ==> forall i, j :: 0 <= i < |order| && 0 <= j < |r[order[i]]| ==> r[order[i]][j] !in done
      decreases Size(r, order), again
    {
      var found, k, m := FindCompleted(r, order, done);
      again := found;
      if found {
        EraseKeeps(r, order, done, k, m);
        var q := r[order[k]];
        r := r[order[k] := q[..m] + q[m + 1..]];
      }
    }
    forall e | e in queues
      ensures r[e] == Remaining(queues[e], done)
    {
      var i :| 0 <= i < |order| && order[i] == e;
      RemainingClean(r[e], done);
    }
  }
}
