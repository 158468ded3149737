/**
 The rate-limited REST queue as an interleaved step system: any number of posters, a fixed
 pool of worker threads making snapshot, run and purge passes, and one callback thread. A
 run is any sequence of steps; `history` records what happened in it.
 */
module RequestQueue {
  import opened Bytes

  type Endpoint = bytes

  /** A request object; the object itself is its identity. */
  datatype Req = Req(id: nat, endpoint: Endpoint)

  /** The rate-limit headers of a reply. */
  datatype Reply = Reply(limit: uint64, remaining: uint64, resetAfter: uint64, retryAfter: uint64, global: bool)

  datatype Bucket = Bucket(limit: uint64, remaining: uint64, resetAfter: uint64, retryAfter: uint64, timestamp: uint64)

  function Delay(resetAfter: uint64, retryAfter: uint64): uint64 {
    if retryAfter != 0 then retryAfter else resetAfter
  }

  function BucketOf(reply: Reply, now: uint64): Bucket {
    Bucket(reply.limit, reply.remaining, reply.resetAfter, reply.retryAfter, now)
  }

  /** A bucket lets a request through at `now`; the deadline is a 64-bit sum. */
  predicate Allows(b: Bucket, now: uint64) {
    b.remaining >= 1 || now > (b.timestamp + Delay(b.resetAfter, b.retryAfter)) % TWO64
  }

  /** What is left of one endpoint's vector in a worker's snapshot. */
  datatype Item = Item(endpoint: Endpoint, todo: seq<Req>)

  /** Where a worker is in its loop. */
  datatype Pc =
    | Idle
    | Sleeping
    | Pass(items: seq<Item>)
    | HasRun(req: Req, reply: Reply, items: seq<Item>)
    | HasNoted(req: Req, reply: Reply, items: seq<Item>)

  datatype Worker = Worker(queues: map<Endpoint, seq<Req>>, buckets: map<Endpoint, Bucket>, pc: Pc)

  datatype Event =
    | Posted(req: Req)
    | Ran(req: Req, at: uint64, reply: Reply)
    | Noted(req: Req, bucket: Bucket)
    | CalledBack(req: Req)

  datatype State = State(
    workers: seq<Worker>,
    responses: seq<(Req, Reply)>,
    calling: Option<(Req, Reply)>,
    completed: set<Req>,
    limited: bool,
    limitedFor: uint64,
    now: uint64,
    history: seq<Event>)

  /** One atomic step of one thread, with what the outside world answered it. */
  datatype Step =
    | Post(req: Req)                         // a poster appends under the queue's mutex
    | Clock(now: uint64)                     // time passes, in any direction
    | Snapshot(w: nat, order: seq<Endpoint>) // a worker copies its queues under the mutex
    | Serve(w: nat, reply: Reply)            // a worker runs the next request
    | Defer(w: nat)                          // a worker leaves an endpoint whose bucket says wait
    | Advance(w: nat)                        // a worker has finished an endpoint
    | Note(w: nat)                           // a worker records the reply's bucket and global limit
    | Push(w: nat)                           // a worker queues the response
    | PurgePass(w: nat)                      // a worker drops completed requests under the mutex
    | Doze(w: nat)                           // a worker sees the global limit
    | Wake(w: nat)                           // and lifts it after sleeping
    | Pop                                    // the callback thread takes a response
    | Call                                   // and calls its handler

  // ---- routing -----------------------------------------------------------------------

  /** The pool's hash of a NUL-terminated string: signed characters, 32-bit arithmetic. */
  function HashFrom(s: Endpoint, h: uint32): uint32 {
    if s == [] || s[0] == 0 then h
    else
      var b: int := s[0];
      var c := if b < 128 then b else b - 256;
      HashFrom(s[1..], (c + 31 * h) % TWO32)
  }

  function Route(s: Endpoint, n: nat): (w: nat)
    requires n > 0
    ensures w < n
  {
    HashFrom(s, 17) % n
  }

  // ---- steps --------------------------------------------------------------------------

  function Queue(w: Worker, e: Endpoint): seq<Req> {
    if e in w.queues then w.queues[e] else []
  }

  /** A queue without its completed requests. */
  function Remaining(q: seq<Req>, done: set<Req>): (r: seq<Req>) {
    if q == [] then []
    else
      var r := Remaining(q[..|q| - 1], done);
      if q[|q| - 1] in done then r else r + [q[|q| - 1]]
  }

  function Purged(queues: map<Endpoint, seq<Req>>, done: set<Req>): map<Endpoint, seq<Req>> {
    map e | e in queues :: Remaining(queues[e], done)
  }

  function Items(queues: map<Endpoint, seq<Req>>, order: seq<Endpoint>): (r: seq<Item>)
    requires forall i :: 0 <= i < |order| ==> order[i] in queues
    ensures |r| == |order| && forall i :: 0 <= i < |r| ==> r[i] == Item(order[i], queues[order[i]])
  {
    seq(|order|, i requires 0 <= i < |order| => Item(order[i], queues[order[i]]))
  }

  /** `order` lists the keys of `queues` once each. */
  predicate Lists(order: seq<Endpoint>, queues: map<Endpoint, seq<Req>>) {
    && Distinct(order)
    && (forall i :: 0 <= i < |order| ==> order[i] in queues)
    && (forall e :: e in queues ==> e in order)
  }

  function SetPc(s: State, w: nat, pc: Pc): State
    requires w < |s.workers|
  {
    s.(workers := s.workers[w := s.workers[w].(pc := pc)])
  }

  /** A worker's pass stands before a request. */
  predicate AtRequest(s: State, w: nat) {
    w < |s.workers| && s.workers[w].pc.Pass? && s.workers[w].pc.items != [] && s.workers[w].pc.items[0].todo != []
  }

  predicate MayRun(s: State, w: nat)
    requires AtRequest(s, w)
  {
    var worker, e := s.workers[w], s.workers[w].pc.items[0].endpoint;
    e in worker.buckets ==> Allows(worker.buckets[e], s.now)
  }

  /** The state after a step, or None when the step cannot be taken. */
  function Do(s: State, step: Step): Option<State>
    requires |s.workers| > 0
  {
    match step
    case Post(r) =>
      if Posted(r) in s.history then None
      else
        var w := Route(r.endpoint, |s.workers|);
        var q := s.workers[w].queues[r.endpoint := Queue(s.workers[w], r.endpoint) + [r]];
        Some(s.(workers := s.workers[w := s.workers[w].(queues := q)], history := s.history + [Posted(r)]))
    case Clock(t) => Some(s.(now := t))
    case Snapshot(w, order) =>
      if w < |s.workers| && s.workers[w].pc.Idle? && !s.limited && Lists(order, s.workers[w].queues) then
        Some(SetPc(s, w, Pass(Items(s.workers[w].queues, order))))
      else None
    case Serve(w, reply) =>
      if AtRequest(s, w) && MayRun(s, w) then
        var items := s.workers[w].pc.items;
        var r := items[0].todo[0];
        var rest := items[0 := Item(items[0].endpoint, items[0].todo[1..])];
        Some(SetPc(s, w, HasRun(r, reply, rest)).(completed := s.completed + {r}, history := s.history + [Ran(r, s.now, reply)]))
      else None
    case Defer(w) =>
      if AtRequest(s, w) && !MayRun(s, w) then Some(SetPc(s, w, Pass(s.workers[w].pc.items[1..]))) else None
    case Advance(w) =>
      if w < |s.workers| && s.workers[w].pc.Pass? && s.workers[w].pc.items != [] && s.workers[w].pc.items[0].todo == [] then
        Some(SetPc(s, w, Pass(s.workers[w].pc.items[1..])))
      else None
    case Note(w) =>
      if w < |s.workers| && s.workers[w].pc.HasRun? then
        var HasRun(r, reply, items) := s.workers[w].pc;
        var b := BucketOf(reply, s.now);
        var worker := s.workers[w].(buckets := s.workers[w].buckets[r.endpoint := b], pc := HasNoted(r, reply, items));
        Some(s.(workers := s.workers[w := worker], limited := reply.global,
                limitedFor := if reply.global then Delay(reply.resetAfter, reply.retryAfter) else s.limitedFor,
                history := s.history + [Noted(r, b)]))
      else None
    case Push(w) =>
      if w < |s.workers| && s.workers[w].pc.HasNoted? then
        var HasNoted(r, reply, items) := s.workers[w].pc;
        Some(SetPc(s, w, Pass(items)).(responses := s.responses + [(r, reply)]))
      else None
    case PurgePass(w) =>
      if w < |s.workers| && s.workers[w].pc == Pass([]) then
        var worker := s.workers[w].(queues := Purged(s.workers[w].queues, s.completed), pc := Idle);
        Some(s.(workers := s.workers[w := worker]))
      else None
    case Doze(w) =>
      if w < |s.workers| && s.workers[w].pc.Idle? && s.limited then Some(SetPc(s, w, Sleeping)) else None
    case Wake(w) =>
      if w < |s.workers| && s.workers[w].pc.Sleeping? then
        Some(SetPc(s, w, Idle).(limited := false, limitedFor := 0))
      else None
    case Pop =>
      if s.calling.None? && s.responses != [] then
        Some(s.(calling := Some(s.responses[0]), responses := s.responses[1..]))
      else None
    case Call =>
      if s.calling.Some? then
        var r := s.calling.value.0;
        Some(s.(calling := None, history := if r in s.completed then s.history + [CalledBack(r)] else s.history))
      else None
  }

  function Start(n: nat): State {
    State(seq(n, _ => Worker(map[], map[], Idle)), [], None, {}, false, 0, 0, [])
  }

  /** The state after a run, or None if one of its steps cannot be taken. */
  function Run(s: State, steps: seq<Step>): (r: Option<State>)
    requires |s.workers| > 0
    decreases |steps|
  {
    if steps == [] then Some(s)
    else
      var before := Run(s, steps[..|steps| - 1]);
      if before.None? || |before.value.workers| == 0 then None else Do(before.value, steps[|steps| - 1])
  }
}
