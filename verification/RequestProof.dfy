/** What every run of the request queue keeps, endpoint by endpoint. */
module RequestProof {
  import opened Bytes
  import opened RequestQueue

  // ---- what the history says about one endpoint -----------------------------------------

  datatype Kind = OnPost | OnRun | OnCall

  function Subject(ev: Event, k: Kind): Option<Req> {
    match (ev, k)
    case (Posted(r), OnPost) => Some(r)
    case (Ran(r, _, _), OnRun) => Some(r)
    case (CalledBack(r), OnCall) => Some(r)
    case _ => None
  }

  function If(ev: Event, k: Kind, e: Endpoint): seq<Req> {
    var r := Subject(ev, k);
    if r.Some? && r.value.endpoint == e then [r.value] else []
  }

  /** The requests to endpoint `e` that were posted, run or called back, in that order of events. */
  function Log(h: seq<Event>, k: Kind, e: Endpoint): seq<Req> {
    if h == [] then [] else Log(h[..|h| - 1], k, e) + If(h[|h| - 1], k, e)
  }

  lemma LogAppend(h: seq<Event>, ev: Event, k: Kind, e: Endpoint)
    ensures Log(h + [ev], k, e) == Log(h, k, e) + If(ev, k, e)
  {
    assert (h + [ev])[..|h|] == h;
  }

  lemma {:induction false} LogEndpoint(h: seq<Event>, k: Kind, e: Endpoint)
    ensures forall r :: r in Log(h, k, e) ==> r.endpoint == e
  {
    if h != [] {
      LogEndpoint(h[..|h| - 1], k, e);
    }
  }

  /** Whether a request was ever posted is whether its endpoint's log has it. */
  lemma {:induction false} PostedInLog(h: seq<Event>, r: Req)
    ensures Posted(r) in h <==> r in Log(h, OnPost, r.endpoint)
  {
    if h != [] {
      PostedInLog(h[..|h| - 1], r);
      assert h == h[..|h| - 1] + [h[|h| - 1]];
    }
  }

  // ---- one endpoint's share of a state ---------------------------------------------------

  function ItemsOf(pc: Pc): seq<Item> {
    if pc.Idle? || pc.Sleeping? then [] else pc.items
  }

  function TodoIn(items: seq<Item>, e: Endpoint): Option<seq<Req>> {
    if items == [] then None
    else if items[0].endpoint == e then Some(items[0].todo)
    else TodoIn(items[1..], e)
  }

  function Only(r: Req, e: Endpoint): seq<Req> {
    if r.endpoint == e then [r] else []
  }

  function PendingIn(pc: Pc, e: Endpoint): seq<Req> {
    if pc.HasRun? || pc.HasNoted? then Only(pc.req, e) else []
  }

  function OutFor(rs: seq<(Req, Reply)>, e: Endpoint): seq<Req> {
    if rs == [] then [] else Only(rs[0].0, e) + OutFor(rs[1..], e)
  }

  function CallingFor(c: Option<(Req, Reply)>, e: Endpoint): seq<Req> {
    if c.Some? then Only(c.value.0, e) else []
  }

  lemma {:induction false} OutForAppend(rs: seq<(Req, Reply)>, x: (Req, Reply), e: Endpoint)
    ensures OutFor(rs + [x], e) == OutFor(rs, e) + Only(x.0, e)
  {
    hide Only;
    if rs == [] {
      assert rs + [x] == [x];
      assert [x][1..] == [];
    } else {
      OutForAppend(rs[1..], x, e);
      assert (rs + [x])[1..] == rs[1..] + [x];
      var a, b, c := Only(rs[0].0, e), OutFor(rs[1..], e), Only(x.0, e);
      assert a + (b + c) == a + b + c;
    }
  }

  /**
   What a state holds of one endpoint: what was posted, run and called back, what its worker's
   queue and snapshot hold, and the run requests still on their way to the callback.
   */
  datatype View = View(
    posted: seq<Req>, ran: seq<Req>, called: seq<Req>,
    queue: seq<Req>, todo: Option<seq<Req>>, resting: bool, inflight: seq<Req>)

  function WorkerOf(s: State, e: Endpoint): Worker
    requires |s.workers| > 0
  {
    s.workers[Route(e, |s.workers|)]
  }

  function ViewOf(s: State, e: Endpoint): View
    requires |s.workers| > 0
  {
    var w := WorkerOf(s, e);
    View(Log(s.history, OnPost, e), Log(s.history, OnRun, e), Log(s.history, OnCall, e),
         Queue(w, e), TodoIn(ItemsOf(w.pc), e), w.pc.Idle? || w.pc.Sleeping?,
         CallingFor(s.calling, e) + OutFor(s.responses, e) + PendingIn(w.pc, e))
  }

  /**
   The endpoint's order is kept: what ran is a prefix of what was posted, the queue is a suffix
   of it that starts no later than the first request not run, a snapshot continues where
   running stopped, and called-back plus in-flight requests are what ran.
   */
  ghost predicate Good(v: View) {
    && Distinct(v.posted)
    && |v.queue| <= |v.posted| && v.queue == v.posted[|v.posted| - |v.queue|..]
    && |v.ran| <= |v.posted| && v.ran == v.posted[..|v.ran|]
    && |v.posted| - |v.queue| <= |v.ran|
    && (v.resting ==> |v.posted| - |v.queue| == |v.ran|)
    && (v.todo.Some? ==>
          && |v.ran| + |v.todo.value| <= |v.posted|
          && v.todo.value == v.posted[|v.ran|..|v.ran| + |v.todo.value|])
    && v.called + v.inflight == v.ran
  }

  lemma GoodPost(v: View, r: Req)
    requires Good(v) && r !in v.posted
    ensures Good(v.(posted := v.posted + [r], queue := v.queue + [r]))
  {
  }

  lemma GoodServe(v: View, r: Req, more: seq<Req>)
    requires Good(v) && v.todo == Some([r] + more)
    ensures Good(v.(ran := v.ran + [r], todo := Some(more), inflight := v.inflight + [r], resting := false))
  {
    assert v.posted[|v.ran|] == ([r] + more)[0];
    assert forall i :: 0 <= i < |more| ==> more[i] == ([r] + more)[i + 1];
    assert v.called + (v.inflight + [r]) == v.called + v.inflight + [r];
  }

  lemma GoodDrop(v: View)
    requires Good(v)
    ensures Good(v.(todo := None, resting := false))
  {
  }

  lemma GoodSnapshot(v: View)
    requires Good(v) && v.resting
    ensures Good(v.(todo := Some(v.queue), resting := false))
  {
  }

  lemma GoodCall(v: View, r: Req, rest: seq<Req>)
    requires Good(v) && v.inflight == [r] + rest
    ensures Good(v.(called := v.called + [r], inflight := rest))
  {
    assert v.called + [r] + rest == v.called + ([r] + rest);
  }

  lemma {:induction false} RemainingSplit(a: seq<Req>, b: seq<Req>, done: set<Req>)
    requires forall r :: r in a ==> r in done
    requires forall r :: r in b ==> r !in done
    ensures Remaining(a + b, done) == b
    decreases |a| + |b|
  {
    if b != [] {
      RemainingSplit(a, b[..|b| - 1], done);
      assert (a + b)[..|a + b| - 1] == a + b[..|b| - 1];
    } else if a != [] {
      RemainingSplit(a[..|a| - 1], [], done);
      assert a[..|a| - 1] + [] == a[..|a| - 1];
      assert a + b == a;
    }
  }

  lemma PrefixAndSuffix(q: seq<Req>, n: nat, r: Req)
    requires Distinct(q) && n <= |q| && r in q[n..]
    ensures r !in q[..n]
  {
  }

  lemma PurgedQueue(posted: seq<Req>, p: nat, n: nat, done: set<Req>)
    requires Distinct(posted) && p <= n <= |posted|
    requires forall r :: r in posted ==> (r in done <==> r in posted[..n])
    ensures Remaining(posted[p..], done) == posted[n..]
  {
    var a, b := posted[p..n], posted[n..];
    assert posted[p..] == a + b;
    forall r | r in a
      ensures r in done
    {
      assert r in posted[..n] by { var i :| 0 <= i < |a| && a[i] == r; assert posted[..n][p + i] == r; }
    }
    forall r | r in b
      ensures r !in done
    {
      PrefixAndSuffix(posted, n, r);
    }
    RemainingSplit(a, b, done);
  }

  lemma GoodPurge(v: View, done: set<Req>)
    requires Good(v) && (forall r :: r in v.posted ==> (r in done <==> r in v.ran))
    ensures Remaining(v.queue, done) == v.posted[|v.ran|..]
    ensures Good(v.(queue := Remaining(v.queue, done), resting := true))
  {
    hide Remaining, Distinct;
    PurgedQueue(v.posted, |v.posted| - |v.queue|, |v.ran|, done);
  }

  // ---- the invariant -----------------------------------------------------------------------

  ghost predicate ItemsRouted(items: seq<Item>, w: nat, n: nat)
    requires n > 0
  {
    && (forall i :: 0 <= i < |items| ==> Route(items[i].endpoint, n) == w)
    && (forall i, j :: 0 <= i < j < |items| ==> items[i].endpoint != items[j].endpoint)
  }

  /** Each endpoint is handled by one worker only. */
  ghost predicate Routed(s: State)
    requires |s.workers| > 0
  {
    forall w {:trigger s.workers[w]} :: 0 <= w < |s.workers| ==>
      && (forall e :: e in s.workers[w].queues ==> Route(e, |s.workers|) == w)
      && ItemsRouted(ItemsOf(s.workers[w].pc), w, |s.workers|)
      && (s.workers[w].pc.HasRun? || s.workers[w].pc.HasNoted? ==> Route(s.workers[w].pc.req.endpoint, |s.workers|) == w)
  }

  /** The `completed` flags are the requests that ran. */
  ghost predicate Flagged(s: State) {
    forall r :: r in s.completed <==> r in Log(s.history, OnRun, r.endpoint)
  }

  ghost predicate Ordered(s: State)
    requires |s.workers| > 0
  {
    forall e :: Good(ViewOf(s, e))
  }

  ghost predicate Inv(s: State) {
    |s.workers| > 0 && Routed(s) && Flagged(s) && Ordered(s)
  }

  // ---- snapshots -----------------------------------------------------------------------------

  lemma {:induction false} TodoOfItems(items: seq<Item>, e: Endpoint, i: nat)
    requires i < |items| && items[i].endpoint == e && forall j :: 0 <= j < i ==> items[j].endpoint != e
    ensures TodoIn(items, e) == Some(items[i].todo)
  {
    if i > 0 {
      TodoOfItems(items[1..], e, i - 1);
    }
  }

  lemma {:induction false} TodoNone(items: seq<Item>, e: Endpoint)
    requires forall j :: 0 <= j < |items| ==> items[j].endpoint != e
    ensures TodoIn(items, e) == None
  {
    if items != [] {
      TodoNone(items[1..], e);
    }
  }

  lemma SnapshotTodo(queues: map<Endpoint, seq<Req>>, order: seq<Endpoint>, e: Endpoint)
    requires Lists(order, queues)
    ensures TodoIn(Items(queues, order), e) == if e in queues then Some(queues[e]) else None
  {
    var items := Items(queues, order);
    if e in queues {
      var i :| 0 <= i < |order| && order[i] == e;
      TodoOfItems(items, e, i);
    } else {
      TodoNone(items, e);
    }
  }

  lemma TodoDropped(items: seq<Item>, w: nat, n: nat, e: Endpoint)
    requires n > 0 && ItemsRouted(items, w, n) && items != []
    ensures ItemsRouted(items[1..], w, n)
    ensures TodoIn(items[1..], e) == if items[0].endpoint == e then None else TodoIn(items, e)
  {
    if items[0].endpoint == e {
      TodoNone(items[1..], e);
    }
  }

  // ---- what a step changes of an endpoint ------------------------------------------------------

  lemma {:induction false} PostView(s: State, s': State, r: Req, e: Endpoint)
    requires Inv(s) && Do(s, Post(r)) == Some(s')
    ensures |s'.workers| == |s.workers| && r !in ViewOf(s, r.endpoint).posted
    ensures var v := ViewOf(s, e);
            ViewOf(s', e) == if e == r.endpoint then v.(posted := v.posted + [r], queue := v.queue + [r]) else v
  {
    hide Log, Route, Good, OutFor, TodoIn;
    LogAppend(s.history, Posted(r), OnPost, e);
    LogAppend(s.history, Posted(r), OnRun, e);
    LogAppend(s.history, Posted(r), OnCall, e);
    PostedInLog(s.history, r);
  }

  lemma {:induction false} SnapshotView(s: State, s': State, w: nat, order: seq<Endpoint>, e: Endpoint)
    requires Inv(s) && Do(s, Snapshot(w, order)) == Some(s')
    ensures |s'.workers| == |s.workers|
    ensures var v := ViewOf(s, e);
            ViewOf(s', e) == if Route(e, |s.workers|) != w then v
                             else v.(todo := if e in s.workers[w].queues then Some(v.queue) else None, resting := false)
  {
    hide Log, Route, Good, OutFor;
    if Route(e, |s.workers|) == w {
      SnapshotTodo(s.workers[w].queues, order, e);
    }
  }

  /** The request a pass stands before is the endpoint's next one that has not run. */
  lemma ServeHead(s: State, w: nat)
    requires Inv(s) && AtRequest(s, w)
    ensures var items := s.workers[w].pc.items;
            var r, v := items[0].todo[0], ViewOf(s, items[0].endpoint);
            && Route(items[0].endpoint, |s.workers|) == w
            && v.todo == Some(items[0].todo)
            && |v.ran| < |v.posted| && v.posted[|v.ran|] == r
            && r.endpoint == items[0].endpoint && r !in s.completed
  {
    hide Route, OutFor, Log;
    var items := s.workers[w].pc.items;
    var r, f := items[0].todo[0], items[0].endpoint;
    assert ItemsRouted(items, w, |s.workers|);
    var v := ViewOf(s, f);
    assert Good(v);
    LogEndpoint(s.history, OnPost, f);
    assert r in v.posted[|v.ran|..];
    PrefixAndSuffix(v.posted, |v.ran|, r);
  }

  lemma TodoServed(items: seq<Item>, e: Endpoint)
    requires items != [] && items[0].todo != []
    ensures TodoIn(items[0 := Item(items[0].endpoint, items[0].todo[1..])], e)
         == if e == items[0].endpoint then Some(items[0].todo[1..]) else TodoIn(items, e)
  {
    var next := items[0 := Item(items[0].endpoint, items[0].todo[1..])];
    assert next[1..] == items[1..];
  }

  lemma {:induction false} ServeView(s: State, s': State, w: nat, reply: Reply, e: Endpoint)
    requires Inv(s) && Do(s, Serve(w, reply)) == Some(s')
    ensures |s'.workers| == |s.workers|
    ensures var items := s.workers[w].pc.items;
            var r, more, v := items[0].todo[0], items[0].todo[1..], ViewOf(s, e);
            if e == r.endpoint then
              && v.todo == Some([r] + more)
              && ViewOf(s', e) == v.(ran := v.ran + [r], todo := Some(more), inflight := v.inflight + [r], resting := false)
            else ViewOf(s', e) == v
  {
    hide Route, OutFor, Log, Good, TodoIn, Routed, Flagged, MayRun;
    ServeHead(s, w);
    var items := s.workers[w].pc.items;
    var r := items[0].todo[0];
    TodoServed(items, e);
    LogAppend(s.history, Ran(r, s.now, reply), OnPost, e);
    LogAppend(s.history, Ran(r, s.now, reply), OnRun, e);
    LogAppend(s.history, Ran(r, s.now, reply), OnCall, e);
    assert items[0].todo == [r] + items[0].todo[1..];
    ServePending(s, s', w, e, r);
  }

  lemma ServePending(s: State, s': State, w: nat, e: Endpoint, r: Req)
    requires w < |s.workers| == |s'.workers| && Route(r.endpoint, |s.workers|) == w
    requires s.workers[w].pc.Pass? && s'.workers[w].pc.HasRun? && s'.workers[w].pc.req == r
    requires s'.workers == s.workers[w := s'.workers[w]] && s'.calling == s.calling && s'.responses == s.responses
    ensures ViewOf(s', e).inflight == ViewOf(s, e).inflight + Only(r, e)
  {
    hide Route, OutFor, Log, TodoIn;
  }

  lemma {:induction false} DropView(s: State, s': State, w: nat, e: Endpoint)
    requires Inv(s) && w < |s.workers| && s.workers[w].pc.Pass? && s.workers[w].pc.items != []
    requires s' == SetPc(s, w, Pass(s.workers[w].pc.items[1..]))
    ensures var v := ViewOf(s, e);
            ViewOf(s', e) == if e == s.workers[w].pc.items[0].endpoint then v.(todo := None, resting := false) else v
  {
    hide Route, OutFor, Log, Good, TodoIn;
    assert ItemsRouted(ItemsOf(s.workers[w].pc), w, |s.workers|);
    TodoDropped(s.workers[w].pc.items, w, |s.workers|, e);
  }

  lemma {:induction false} NoteView(s: State, s': State, w: nat, e: Endpoint)
    requires Inv(s) && Do(s, Note(w)) == Some(s')
    ensures |s'.workers| == |s.workers| && ViewOf(s', e) == ViewOf(s, e)
  {
    hide Route, OutFor, Log, Good, TodoIn;
    var HasRun(r, reply, items) := s.workers[w].pc;
    var ev := Noted(r, BucketOf(reply, s.now));
    LogAppend(s.history, ev, OnPost, e);
    LogAppend(s.history, ev, OnRun, e);
    LogAppend(s.history, ev, OnCall, e);
  }

  lemma {:induction false} PushView(s: State, s': State, w: nat, e: Endpoint)
    requires Inv(s) && Do(s, Push(w)) == Some(s')
    ensures |s'.workers| == |s.workers| && ViewOf(s', e) == ViewOf(s, e)
  {
    hide Route, OutFor, Log, Good, TodoIn;
    var HasNoted(r, reply, items) := s.workers[w].pc;
    OutForAppend(s.responses, (r, reply), e);
    assert Route(r.endpoint, |s.workers|) == w;
    var c, o := CallingFor(s.calling, e), OutFor(s.responses, e);
    assert c + (o + Only(r, e)) + [] == c + o + Only(r, e);
    assert c + (o + []) == c + o;
  }

  lemma {:induction false} PurgeView(s: State, s': State, w: nat, e: Endpoint)
    requires Inv(s) && Do(s, PurgePass(w)) == Some(s')
    ensures |s'.workers| == |s.workers|
    ensures var v := ViewOf(s, e);
            ViewOf(s', e) == if Route(e, |s.workers|) != w then v
                             else v.(queue := Remaining(v.queue, s.completed), resting := true)
  {
    hide Route, OutFor, Log, Good, TodoIn;
  }

  lemma {:induction false} PopView(s: State, s': State, e: Endpoint)
    requires Inv(s) && Do(s, Pop) == Some(s')
    ensures |s'.workers| == |s.workers| && ViewOf(s', e) == ViewOf(s, e)
  {
    hide Route, Log, Good, TodoIn, PendingIn;
    var o, p := OutFor(s.responses[1..], e), PendingIn(WorkerOf(s, e).pc, e);
    var x := Only(s.responses[0].0, e);
    assert OutFor(s.responses, e) == x + o;
    assert [] + (x + o) + p == x + o + p;
  }

  /** What is in flight behind the response being called. */
  function Behind(s: State, e: Endpoint): seq<Req>
    requires |s.workers| > 0
  {
    OutFor(s.responses, e) + PendingIn(WorkerOf(s, e).pc, e)
  }

  lemma CallView(s: State, s': State, e: Endpoint)
    requires |s.workers| > 0 && s.calling.Some? && s.calling.value.0 in s.completed && Do(s, Call) == Some(s')
    ensures |s'.workers| == |s.workers|
    ensures var v, r := ViewOf(s, e), s.calling.value.0;
            if e == r.endpoint then
              v.inflight == [r] + Behind(s, e) && ViewOf(s', e) == v.(called := v.called + [r], inflight := Behind(s, e))
            else ViewOf(s', e) == v
  {
    hide Route, Log, Good, TodoIn, OutFor, PendingIn;
    var r := s.calling.value.0;
    LogAppend(s.history, CalledBack(r), OnPost, e);
    LogAppend(s.history, CalledBack(r), OnRun, e);
    LogAppend(s.history, CalledBack(r), OnCall, e);
    var o, p := OutFor(s.responses, e), PendingIn(WorkerOf(s, e).pc, e);
    assert [r] + o + p == [r] + (o + p);
    assert [] + o + p == o + p;
  }

  lemma CallingHasRun(s: State, r: Req)
    requires Inv(s) && s.calling.Some? && s.calling.value.0 == r
    ensures r in s.completed
  {
    hide Route, Log, TodoIn, OutFor, PendingIn;
    var v := ViewOf(s, r.endpoint);
    assert Good(v);
    assert r in v.inflight;
    assert r in v.called + v.inflight;
  }

  // ---- every step keeps the invariant -------------------------------------------------------------

  lemma FlaggedAfter(s: State, s': State, ev: Event)
    requires Flagged(s) && s'.history == s.history + [ev]
    requires s'.completed == if ev.Ran? then s.completed + {ev.req} else s.completed
    ensures Flagged(s')
  {
    hide Log;
    forall r
      ensures r in s'.completed <==> r in Log(s'.history, OnRun, r.endpoint)
    {
      LogAppend(s.history, ev, OnRun, r.endpoint);
    }
  }

  lemma {:induction false} StepPost(s: State, s': State, r: Req)
    requires Inv(s) && Do(s, Post(r)) == Some(s')
    ensures Inv(s')
  {
    hide Log, Route, Good, OutFor, TodoIn, ViewOf;
    FlaggedAfter(s, s', Posted(r));
    forall e
      ensures Good(ViewOf(s', e))
    {
      PostView(s, s', r, e);
      if e == r.endpoint {
        GoodPost(ViewOf(s, e), r);
      }
    }
  }

  lemma StepSnapshot(s: State, s': State, w: nat, order: seq<Endpoint>)
    requires Inv(s) && Do(s, Snapshot(w, order)) == Some(s')
    ensures Inv(s')
  {
    hide Log, Route, Good, OutFor, TodoIn, ViewOf;
    forall e
      ensures Good(ViewOf(s', e))
    {
      SnapshotView(s, s', w, order, e);
      if Route(e, |s.workers|) == w {
        RestingView(s, w, e);
        if e in s.workers[w].queues {
          GoodSnapshot(ViewOf(s, e));
        } else {
          GoodDrop(ViewOf(s, e));
        }
      }
    }
  }

  lemma RestingView(s: State, w: nat, e: Endpoint)
    requires |s.workers| > 0 && w < |s.workers| && Route(e, |s.workers|) == w
    ensures ViewOf(s, e).resting == (s.workers[w].pc.Idle? || s.workers[w].pc.Sleeping?)
  {
  }

  lemma StepServe(s: State, s': State, w: nat, reply: Reply)
    requires Inv(s) && Do(s, Serve(w, reply)) == Some(s')
    ensures Inv(s')
  {
    hide Log, Route, Good, OutFor, TodoIn, ViewOf;
    var items := s.workers[w].pc.items;
    var r := items[0].todo[0];
    ServeHead(s, w);
    FlaggedAfter(s, s', Ran(r, s.now, reply));
    forall e
      ensures Good(ViewOf(s', e))
    {
      ServeView(s, s', w, reply, e);
      if e == r.endpoint {
        GoodServe(ViewOf(s, e), r, items[0].todo[1..]);
      }
    }
  }

  lemma {:induction false} StepDrop(s: State, s': State, w: nat)
    requires Inv(s) && w < |s.workers| && s.workers[w].pc.Pass? && s.workers[w].pc.items != []
    requires s' == SetPc(s, w, Pass(s.workers[w].pc.items[1..]))
    ensures Inv(s')
  {
    hide Log, Route, Good, OutFor, TodoIn, ViewOf;
    assert ItemsRouted(ItemsOf(s.workers[w].pc), w, |s.workers|);
    forall e
      ensures Good(ViewOf(s', e))
    {
      TodoDropped(s.workers[w].pc.items, w, |s.workers|, e);
      DropView(s, s', w, e);
      GoodDrop(ViewOf(s, e));
    }
  }

  lemma {:induction false} StepNote(s: State, s': State, w: nat)
    requires Inv(s) && Do(s, Note(w)) == Some(s')
    ensures Inv(s')
  {
    hide Log, Route, Good, OutFor, TodoIn, ViewOf;
    var HasRun(r, reply, items) := s.workers[w].pc;
    FlaggedAfter(s, s', Noted(r, BucketOf(reply, s.now)));
    forall e
      ensures Good(ViewOf(s', e))
    {
      NoteView(s, s', w, e);
    }
  }

  lemma {:induction false} StepPush(s: State, s': State, w: nat)
    requires Inv(s) && Do(s, Push(w)) == Some(s')
    ensures Inv(s')
  {
    hide Log, Route, Good, OutFor, TodoIn, ViewOf;
    forall e
      ensures Good(ViewOf(s', e))
    {
      PushView(s, s', w, e);
    }
  }

  /** The flags of the requests in one endpoint's log. */
  lemma RunFlags(s: State, e: Endpoint)
    requires Flagged(s) && |s.workers| > 0
    ensures forall r :: r in ViewOf(s, e).posted ==> (r in s.completed <==> r in ViewOf(s, e).ran)
  {
    hide Log, Route, OutFor, TodoIn;
    LogEndpoint(s.history, OnPost, e);
  }

  lemma StepPurge(s: State, s': State, w: nat)
    requires Inv(s) && Do(s, PurgePass(w)) == Some(s')
    ensures Inv(s')
  {
    hide Log, Route, Good, OutFor, TodoIn, ViewOf;
    forall e
      ensures Good(ViewOf(s', e))
    {
      PurgeView(s, s', w, e);
      RunFlags(s, e);
      GoodPurge(ViewOf(s, e), s.completed);
    }
  }

  lemma {:induction false} StepOut(s: State, s': State, step: Step)
    requires Inv(s) && (step.Pop? || step.Call?) && Do(s, step) == Some(s')
    ensures Inv(s')
  {
    hide Log, Route, Good, OutFor, TodoIn, ViewOf;
    if step.Call? {
      CallingHasRun(s, s.calling.value.0);
      FlaggedAfter(s, s', CalledBack(s.calling.value.0));
    }
    forall e
      ensures Good(ViewOf(s', e))
    {
      if step.Pop? {
        PopView(s, s', e);
      } else {
        CallView(s, s', e);
        var r := s.calling.value.0;
        if e == r.endpoint {
          var v := ViewOf(s, e);
          GoodCall(v, r, Behind(s, e));
        }
      }
    }
  }

  lemma {:induction false} StepRest(s: State, s': State, step: Step)
    requires Inv(s) && (step.Clock? || step.Doze? || step.Wake?) && Do(s, step) == Some(s')
    ensures Inv(s')
  {
    hide Log, Route, Good, OutFor, TodoIn, ViewOf, Routed, Flagged, Do;
    RestGlobals(s, s', step);
    forall e
      ensures Good(ViewOf(s', e))
    {
      RestView(s, s', step, e);
    }
  }

  lemma RestGlobals(s: State, s': State, step: Step)
    requires |s.workers| > 0 && Routed(s) && Flagged(s)
    requires (step.Clock? || step.Doze? || step.Wake?) && Do(s, step) == Some(s')
    ensures |s'.workers| == |s.workers| && Routed(s') && Flagged(s')
  {
    hide Log, Route;
  }

  lemma RestView(s: State, s': State, step: Step, e: Endpoint)
    requires |s.workers| > 0 && (step.Clock? || step.Doze? || step.Wake?) && Do(s, step) == Some(s')
    ensures |s'.workers| == |s.workers| && ViewOf(s', e) == ViewOf(s, e)
  {
    hide Log, Route, OutFor, TodoIn;
  }

  lemma {:induction false} StepKeeps(s: State, s': State, step: Step)
    requires Inv(s) && Do(s, step) == Some(s')
    ensures Inv(s')
  {
    hide Inv;
    match step
    case Post(r) => StepPost(s, s', r);
    case Snapshot(w, order) => StepSnapshot(s, s', w, order);
    case Serve(w, reply) => StepServe(s, s', w, reply);
    case Defer(w) => StepDrop(s, s', w);
    case Advance(w) => StepDrop(s, s', w);
    case Note(w) => StepNote(s, s', w);
    case Push(w) => StepPush(s, s', w);
    case PurgePass(w) => StepPurge(s, s', w);
    case Pop => StepOut(s, s', step);
    case Call => StepOut(s, s', step);
    case Clock(_) => StepRest(s, s', step);
    case Doze(_) => StepRest(s, s', step);
    case Wake(_) => StepRest(s, s', step);
  }

  lemma StartHolds(n: nat)
    requires n > 0
    ensures Inv(Start(n))
  {
    hide Route;
  }

  /** Every state of every run satisfies the invariant. */
  lemma {:induction false} RunKeeps(n: nat, steps: seq<Step>, s: State)
    requires n > 0 && Run(Start(n), steps) == Some(s)
    ensures Inv(s)
    decreases |steps|
  {
    if steps == [] {
      StartHolds(n);
    } else {
      var before := Run(Start(n), steps[..|steps| - 1]).value;
      RunKeeps(n, steps[..|steps| - 1], before);
      StepKeeps(before, s, steps[|steps| - 1]);
    }
  }

  // ---- what the invariant means ---------------------------------------------------------------------

  lemma GoodOrder(v: View)
    requires Good(v)
    ensures v.ran <= v.posted && v.called <= v.ran
    ensures Distinct(v.posted) && Distinct(v.ran) && Distinct(v.called)
  {
    assert v.called <= v.called + v.inflight;
  }

  lemma GoodPrefix(v: View, done: set<Req>, i: nat)
    requires Good(v) && (forall r :: r in v.posted ==> (r in done <==> r in v.ran)) && i < |v.queue|
    ensures v.queue[i] in done <==> i < |v.ran| - (|v.posted| - |v.queue|)
  {
    var p, n := |v.posted| - |v.queue|, |v.ran|;
    assert v.queue[i] == v.posted[p + i];
    if p + i < n {
      assert v.ran[p + i] == v.queue[i];
    } else {
      assert v.posted[n..][p + i - n] == v.queue[i];
      PrefixAndSuffix(v.posted, n, v.queue[i]);
    }
  }

  lemma SplitDistinct(a: seq<Req>, b: seq<Req>, r: Req)
    requires Distinct(a + b) && r in a + b
    ensures r in a <==> r !in b
  {
    if r in a {
      var i :| 0 <= i < |a| && a[i] == r;
      forall j | 0 <= j < |b|
        ensures b[j] != r
      {
        assert (a + b)[i] == r && (a + b)[|a| + j] == b[j];
      }
    }
  }

  lemma GoodPlace(v: View, done: set<Req>, r: Req)
    requires Good(v) && (forall x :: x in v.posted ==> (x in done <==> x in v.ran)) && r in v.posted
    ensures r in done ==> (r in v.called <==> r !in v.inflight)
    ensures r !in done ==> r in v.queue && r !in v.called && r !in v.inflight
  {
    if r in done {
      GoodOrder(v);
      SplitDistinct(v.called, v.inflight, r);
    } else {
      var i :| 0 <= i < |v.posted| && v.posted[i] == r;
      assert forall k :: 0 <= k < |v.ran| ==> v.posted[k] in v.ran;
      assert v.queue[i - (|v.posted| - |v.queue|)] == r;
      assert forall x :: x in v.called || x in v.inflight ==> x in v.called + v.inflight;
    }
  }

  /** The invariant, for one endpoint. */
  lemma ReachGood(n: nat, steps: seq<Step>, s: State, e: Endpoint)
    requires n > 0 && Run(Start(n), steps) == Some(s)
    ensures |s.workers| > 0 && Flagged(s) && Good(ViewOf(s, e))
    ensures forall r :: r in ViewOf(s, e).posted ==> (r in s.completed <==> r in ViewOf(s, e).ran)
  {
    hide Run, Good, ViewOf, Flagged, Routed;
    RunKeeps(n, steps, s);
    RunFlags(s, e);
  }

  /** Requests to one endpoint run, and are called back, in the order they were posted, once each. */
  lemma PostingOrder(n: nat, steps: seq<Step>, s: State, e: Endpoint)
    requires n > 0 && Run(Start(n), steps) == Some(s)
    ensures Log(s.history, OnRun, e) <= Log(s.history, OnPost, e)
    ensures Log(s.history, OnCall, e) <= Log(s.history, OnRun, e)
    ensures Distinct(Log(s.history, OnPost, e)) && Distinct(Log(s.history, OnRun, e)) && Distinct(Log(s.history, OnCall, e))
  {
    hide Run, Log, Good, Flagged, Distinct, Route, OutFor, TodoIn;
    ReachGood(n, steps, s, e);
    GoodOrder(ViewOf(s, e));
  }

  /** The completed requests of an endpoint's queue are a prefix of it. */
  lemma {:induction false} CompletedPrefix(n: nat, steps: seq<Step>, s: State, e: Endpoint) returns (k: int)
    requires n > 0 && Run(Start(n), steps) == Some(s)
    ensures |s.workers| > 0
    ensures var q := Queue(WorkerOf(s, e), e);
            forall i :: 0 <= i < |q| ==> (q[i] in s.completed <==> i < k)
  {
    hide Run, Log, Good, Flagged, Distinct, Route, OutFor, TodoIn;
    ReachGood(n, steps, s, e);
    var v := ViewOf(s, e);
    k := |v.ran| - (|v.posted| - |v.queue|);
    forall i | 0 <= i < |v.queue|
      ensures v.queue[i] in s.completed <==> i < k
    {
      GoodPrefix(v, s.completed, i);
    }
  }

  ghost predicate Waiting(s: State, r: Req)
    requires |s.workers| > 0
  {
    r in Queue(WorkerOf(s, r.endpoint), r.endpoint) && r !in s.completed
  }

  /** Run, and on its way from the worker through the response queue to its handler. */
  ghost predicate InFlight(s: State, r: Req)
    requires |s.workers| > 0
  {
    || (s.calling.Some? && s.calling.value.0 == r)
    || (exists i :: 0 <= i < |s.responses| && s.responses[i].0 == r)
    || (WorkerOf(s, r.endpoint).pc.HasRun? && WorkerOf(s, r.endpoint).pc.req == r)
    || (WorkerOf(s, r.endpoint).pc.HasNoted? && WorkerOf(s, r.endpoint).pc.req == r)
  }

  ghost predicate Delivered(s: State, r: Req) {
    CalledBack(r) in s.history
  }

  lemma {:induction false} CalledInLog(h: seq<Event>, r: Req)
    ensures CalledBack(r) in h <==> r in Log(h, OnCall, r.endpoint)
  {
    if h != [] {
      CalledInLog(h[..|h| - 1], r);
      assert h == h[..|h| - 1] + [h[|h| - 1]];
    }
  }

  lemma {:induction false} InResponses(rs: seq<(Req, Reply)>, r: Req)
    ensures r in OutFor(rs, r.endpoint) <==> exists i :: 0 <= i < |rs| && rs[i].0 == r
  {
    if rs != [] {
      InResponses(rs[1..], r);
      if r in OutFor(rs[1..], r.endpoint) {
        var i :| 0 <= i < |rs[1..]| && rs[1..][i].0 == r;
        assert rs[i + 1].0 == r;
      }
      if i :| 0 <= i < |rs| && rs[i].0 == r {
        assert i > 0 ==> rs[1..][i - 1].0 == r;
      }
    }
  }

  lemma InFlightView(s: State, r: Req)
    requires |s.workers| > 0
    ensures InFlight(s, r) <==> r in ViewOf(s, r.endpoint).inflight
  {
    hide Route, OutFor, TodoIn, Log;
    InResponses(s.responses, r);
  }

  /** Every posted request is in exactly one place: queued and not run, in flight, or called back. */
  lemma OnePlace(n: nat, steps: seq<Step>, s: State, r: Req)
    requires n > 0 && Run(Start(n), steps) == Some(s) && Posted(r) in s.history
    ensures |s.workers| > 0
    ensures Waiting(s, r) || InFlight(s, r) || Delivered(s, r)
    ensures !(Waiting(s, r) && InFlight(s, r)) && !(Waiting(s, r) && Delivered(s, r)) && !(InFlight(s, r) && Delivered(s, r))
  {
    hide Run, Log, Good, Flagged, Distinct, Route, OutFor, TodoIn, InFlight;
    PostedInLog(s.history, r);
    CalledInLog(s.history, r);
    ReachGood(n, steps, s, r.endpoint);
    InFlightView(s, r);
    GoodPlace(ViewOf(s, r.endpoint), s.completed, r);
    GoodOrder(ViewOf(s, r.endpoint));
  }
}
