/**
 Cameras and the world objects they look through: a list of cameras in each object, a grid link
 in each camera, and events that run over such a list while their handlers change it.
 */
module Cameras {
  import opened Bytes

  // ---- lists ------------------------------------------------------------------------------------

  /** `std::list::remove`: every occurrence goes. */
  function Without<T(==)>(s: seq<T>, x: T): seq<T> {
    if s == [] then [] else (if s[0] == x then [] else [s[0]]) + Without(s[1..], x)
  }

  /** The entries of `s` that are in `stay`. */
  function Kept<T(==)>(s: seq<T>, stay: set<T>): seq<T> {
    if s == [] then [] else Kept(s[..|s| - 1], stay) + if s[|s| - 1] in stay then [s[|s| - 1]] else []
  }

  lemma {:induction false} WithoutHas<T>(s: seq<T>, x: T)
    ensures forall y <- Without(s, x) :: y in s && y != x
    ensures forall y <- s :: y != x ==> y in Without(s, x)
    ensures Distinct(s) ==> Distinct(Without(s, x))
    ensures x !in s ==> Without(s, x) == s
  {
    if s != [] {
      WithoutHas(s[1..], x);
      assert s == [s[0]] + s[1..];
      assert Distinct(s) ==> s[0] !in s[1..] && Distinct(s[1..]);
    }
  }

  lemma {:induction false} KeptHas<T>(s: seq<T>, stay: set<T>)
    ensures forall y <- Kept(s, stay) :: y in s && y in stay
    ensures forall y <- s :: y in stay ==> y in Kept(s, stay)
    ensures (forall y <- s :: y in stay) ==> Kept(s, stay) == s
  {
    if s != [] {
      KeptHas(s[..|s| - 1], stay);
      assert s == s[..|s| - 1] + [s[|s| - 1]];
    }
  }

  lemma {:induction false} WithoutMiddle<T>(a: seq<T>, x: T, b: seq<T>)
    requires x !in a && x !in b
    ensures Without(a + [x] + b, x) == a + b
  {
    if a == [] {
      WithoutHas(b, x);
      assert [] + [x] + b == [x] + b && ([x] + b)[1..] == b && [] + b == b;
    } else {
      assert (a + [x] + b)[1..] == a[1..] + [x] + b;
      WithoutMiddle(a[1..], x, b);
    }
  }

  // ---- objects ------------------------------------------------------------------------------------

  /** The list of cameras a grid cell broadcasts to. */
  class Grid {
    var listed: seq<Camera>

    constructor ()
      ensures listed == []
    {
      listed := [];
    }
  }

  /** A world object with its view point. */
  class WorldObject {
    var cameras: seq<Camera>
    var grid: Grid?
    var inWorld: bool
    var mapId: nat
    var flagged: bool          // made active by hand
    var active: bool           // in its map's set of active objects
    const viewable: bool       // a unit or a dynamic object

    constructor (viewable: bool, mapId: nat)
      ensures cameras == [] && grid == null && inWorld && !flagged && !active
      ensures this.viewable == viewable && this.mapId == mapId
    {
      this.viewable, this.mapId := viewable, mapId;
      cameras, grid, inWorld, flagged, active := [], null, true, false, false;
    }

    predicate IsActiveObject()
      reads this`flagged, this`cameras
    {
      flagged || cameras != []
    }

    predicate IsInMap(obj: WorldObject)
      reads this, obj
    {
      inWorld && obj.inWorld && mapId == obj.mapId
    }

    method Attach(c: Camera)
      modifies this`cameras
      ensures cameras == old(cameras) + [c]
    {
      cameras := cameras + [c];
    }

    method Detach(c: Camera)
      modifies this`cameras
      ensures cameras == Without(old(cameras), c)
    {
      cameras := Without(cameras, c);
    }

    /** The cameras a handler leaves with the object they look through. */
    ghost function Staying(w: World, h: Handler): set<Camera>
      reads w.objects`inWorld
      requires forall c <- w.cameras :: c.owner in w.objects
    {
      set c | c in w.cameras && !c.Leaves(h, this)
    }

    /** The cameras in `done` were called, and the others are as they were. */
    ghost predicate SoFar(w: World, h: Handler, done: set<Camera>, before: map<Camera, Links>)
      reads this`grid, w.cameras, (set c <- w.cameras :: c.owner)`inWorld, (set c <- w.cameras :: c.owner)`grid
    {
      forall c <- w.cameras :: c in before &&
        var was := before[c];
        if c in done then c.source == c.View(h, this) && c.gridRef == c.GridAfter(h, this, was.gridRef)
        else c.source == was.source && c.gridRef == was.gridRef
    }

    ghost predicate AllSettled(w: World)
      reads w.cameras, w.objects
    {
      forall c <- w.cameras :: c.source in w.objects && Settled(c)
    }

    lemma NoneYet(w: World, h: Handler, before: map<Camera, Links>)
      requires forall c <- w.cameras :: c in before && before[c] == Links(c.source, c.gridRef)
      ensures SoFar(w, h, Elements([]), before)
    {
    }

    lemma AllCalled(w: World, h: Handler, list: seq<Camera>, before: map<Camera, Links>)
      requires SoFar(w, h, Elements(list), before)
      ensures forall c <- w.cameras :: c in before &&
                if c in list then c.source == c.View(h, this) && c.gridRef == c.GridAfter(h, this, before[c].gridRef)
                else c.source == before[c].source && c.gridRef == before[c].gridRef
    {
    }

    /** A handler's effect as the list sees it. */
    method CallOne(ghost w: World, h: Handler, c: Camera, ghost done: set<Camera>, ghost before: map<Camera, Links>)
      requires Linked(w) && this in w.objects && c in w.cameras && c in cameras
      requires h.AddedToWorld? || h.Moved? ==> grid != null
      requires SoFar(w, h, done, before) && c !in done
      modifies w.objects`cameras, w.objects`active, w.cameras`source, w.cameras`gridRef, w.grids`listed
      ensures Linked(w)
      ensures cameras == if c.Leaves(h, this) then Without(old(cameras), c) else old(cameras)
      ensures SoFar(w, h, done + {c}, before)
      ensures forall o <- w.objects :: o != this ==> old(o.cameras) <= o.cameras
    {
      hide ListLinks, GridLinks, Camera.View, Camera.GridAfter, Without;
      ListOf(w);
      c.OwnerKnown(w);
      c.Handle(w, h);
    }

    lemma StayingHas(w: World, h: Handler, c: Camera)
      requires Linked(w) && this in w.objects && c in cameras
      requires forall d <- w.cameras :: d.owner in w.objects
      ensures c in w.cameras && (c in Staying(w, h) <==> !c.Leaves(h, this))
    {
    }

    /** Runs a handler on each camera of the list; the iterator has moved on before the handler may take its camera out. */
    method CameraCall(ghost w: World, h: Handler) returns (ghost called: seq<Camera>)
      requires Linked(w) && this in w.objects
      requires h.AddedToWorld? || h.Moved? ==> grid != null
      modifies w.objects`cameras, w.objects`active, w.cameras`source, w.cameras`gridRef, w.grids`listed
      ensures Linked(w)
      ensures called == old(cameras)
      ensures cameras == Kept(old(cameras), old(Staying(w, h)))
      ensures forall c <- w.cameras ::
                if c in old(cameras) then c.source == c.View(h, this) && c.gridRef == c.GridAfter(h, this, old(c.gridRef))
                else c.source == old(c.source) && c.gridRef == old(c.gridRef)
      ensures forall o <- w.objects :: o != this ==> old(o.cameras) <= o.cameras
    {
      hide *;
      ListOf(w);
      ghost var list, rest, stay := cameras, cameras, Staying(w, h);
      ghost var before := map c <- w.cameras :: Links(c.source, c.gridRef);
      called := [];
      NoneYet(w, h, before);
      var next: Camera? := if cameras == [] then null else cameras[0];
      Begins(list, stay, next);
      while next != null
        invariant Linked(w)
        invariant Midway(list, called, rest, stay, cameras, next)
        invariant SoFar(w, h, Elements(called), before)
        invariant forall o <- w.objects :: o != this ==> old(o.cameras) <= o.cameras
        decreases |rest|
      {
        var c: Camera := next;
        Advance(list, called, rest, stay, cameras, c);
        StayingHas(w, h, c);
        next := After(cameras, c);
        CallOne(w, h, c, Elements(called), before);
        called, rest := called + [c], rest[1..];
      }
      Finished(list, called, rest, stay, cameras);
      AllCalled(w, h, list, before);
    }

    /** A round of handlers when every other object's cameras are in its grid cell. */
    method CallHandlers(ghost w: World, h: Handler) returns (ghost called: seq<Camera>)
      requires Linked(w) && this in w.objects
      requires (h.AddedToWorld? || h.Moved? ==> grid != null) && (h.RemovedFromWorld? ==> grid == null)
      requires forall c <- w.cameras :: c.source in w.objects && (c.source != this || h.VisibilityChanged? || h.UpdateVisibility? ==> Settled(c))
      modifies w.objects`cameras, w.objects`active, w.cameras`source, w.cameras`gridRef, w.grids`listed
      ensures Linked(w) && called == old(cameras)
      ensures forall c <- old(cameras) :: c in cameras <==> !c.Leaves(h, this)
      ensures forall c <- cameras :: c in old(cameras)
      ensures h.AddedToWorld? || h.Moved? || h.UpdateVisibility? ==> cameras == old(cameras)
      ensures forall c <- w.cameras :: c.source == if c in old(cameras) && c.Leaves(h, this) then c.owner else old(c.source)
      ensures forall c <- w.cameras :: c.source in w.objects
      ensures forall c <- w.cameras :: Settled(c) || (h.RemovedFromWorld? && c in cameras && c.owner != this)
      ensures h.RemovedFromWorld? ==> forall c <- w.cameras :: c in cameras && c.owner != this ==> c.gridRef == old(c.gridRef)
    {
      hide ListLinks, GridLinks, Kept;
      ListOf(w);
      called := CameraCall(w, h);
      KeptHas(called, old(Staying(w, h)));
    }

    // Events of the object, each of which leaves every camera in its object's grid cell.

    method EventAddedToWorld(ghost w: World, g: Grid)
      requires Linked(w) && this in w.objects && g in w.grids && AllSettled(w)
      modifies this`grid, w.objects`cameras, w.objects`active, w.cameras`source, w.cameras`gridRef, w.grids`listed
      ensures Linked(w) && AllSettled(w)
      ensures grid == g && cameras == old(cameras)
    {
      hide ListLinks, GridLinks, Settled;
      grid := g;
      ghost var called := CallHandlers(w, AddedToWorld);
    }

    method EventGridChanged(ghost w: World, g: Grid)
      requires Linked(w) && this in w.objects && g in w.grids && AllSettled(w)
      modifies this`grid, w.objects`cameras, w.objects`active, w.cameras`source, w.cameras`gridRef, w.grids`listed
      ensures Linked(w) && AllSettled(w)
      ensures grid == g && cameras == old(cameras)
    {
      hide ListLinks, GridLinks, Settled;
      grid := g;
      ghost var called := CallHandlers(w, Moved);
    }

    /** Cameras whose owner lost sight of the object go home, unless their owner is out of the world. */
    method EventVisibilityChanged(ghost w: World, lost: set<Camera>)
      requires Linked(w) && this in w.objects && AllSettled(w)
      modifies w.objects`cameras, w.objects`active, w.cameras`source, w.cameras`gridRef, w.grids`listed
      ensures Linked(w) && AllSettled(w)
      ensures forall c <- old(cameras) :: c in cameras <==> c !in lost || c.owner == this || !c.owner.inWorld
      ensures forall c <- w.cameras :: c.source == if c in old(cameras) && c !in cameras then c.owner else old(c.source)
    {
      hide ListLinks, GridLinks, Settled;
      ghost var called := CallHandlers(w, VisibilityChanged(lost));
    }

    /**
     The object leaves the world: every camera but its own goes home. A camera whose owner is out
     of the world cannot, and those alone are left behind in the list and in the old grid cell.
     */
    method EventRemovedFromWorld(ghost w: World)
      requires Linked(w) && this in w.objects && AllSettled(w)
      modifies this`grid, w.objects`cameras, w.objects`active, w.cameras`source, w.cameras`gridRef, w.grids`listed
      ensures Linked(w) && grid == null
      ensures forall c <- old(cameras) :: c in cameras <==> c.owner == this || !c.owner.inWorld
      ensures forall c <- w.cameras :: c.source == if c in old(cameras) && c !in cameras then c.owner else old(c.source)
      ensures forall c <- w.cameras :: Settled(c) || (c in cameras && c.owner != this)
      ensures forall c <- w.cameras :: c in cameras && c.owner != this ==> c.gridRef == old(c.gridRef)
      ensures (forall c <- old(cameras) :: c.owner.inWorld) ==> AllSettled(w) && |cameras| <= 1 && forall c <- cameras :: c.owner == this
    {
      hide ListLinks, GridLinks;
      grid := null;
      ghost var called := CallHandlers(w, RemovedFromWorld);
      if forall c <- old(cameras) :: c.owner.inWorld {
        OneOwn(w);
      }
    }

    lemma OneOwn(w: World)
      requires Linked(w) && this in w.objects && forall c <- cameras :: c.owner == this
      ensures |cameras| <= 1
    {
      hide GridLinks;
      var list := cameras;
      assert Distinct(list) && forall c <- list, d <- list :: c == d;
      OneOfDistinct(list);
    }

    lemma ListOf(w: World)
      requires Linked(w) && this in w.objects
      ensures Distinct(cameras) && forall c <- w.cameras :: c in cameras <==> c.source == this
      ensures forall c <- cameras :: c in w.cameras
      ensures forall c <- w.cameras :: c.owner in w.objects
    {
    }
  }

  lemma OneOfDistinct(list: seq<Camera>)
    requires Distinct(list) && forall c <- list, d <- list :: c == d
    ensures |list| <= 1
  {
    FirstTwo(list);
  }

  lemma FirstTwo(list: seq<Camera>)
    ensures |list| > 1 ==> list[0] in list && list[1] in list
  {
  }

  /** The two links of a camera. */
  datatype Links = Links(source: WorldObject, gridRef: Grid?)

  ghost function Elements(s: seq<Camera>): set<Camera> {
    set c | c in s
  }

  /**
   An iteration over a list whose entries outside `stay` are taken out when they are called:
   `called` was dealt with, `rest` was not, `now` is the list and the iterator is at `next`.
   */
  ghost predicate Midway(list: seq<Camera>, called: seq<Camera>, rest: seq<Camera>, stay: set<Camera>, now: seq<Camera>, next: Camera?) {
    && Distinct(list) && list == called + rest && now == Kept(called, stay) + rest
    && next == if rest == [] then null else rest[0]
  }

  lemma Begins(list: seq<Camera>, stay: set<Camera>, next: Camera?)
    requires Distinct(list) && next == if list == [] then null else list[0]
    ensures Midway(list, [], list, stay, list, next)
  {
    assert Kept([], stay) + list == list == [] + list;
  }

  lemma Finished(list: seq<Camera>, called: seq<Camera>, rest: seq<Camera>, stay: set<Camera>, now: seq<Camera>)
    requires Midway(list, called, rest, stay, now, null)
    ensures called == list && now == Kept(list, stay)
  {
    assert rest == [] && called + [] == called;
  }

  /** One step of the iteration. */
  lemma Advance(list: seq<Camera>, called: seq<Camera>, rest: seq<Camera>, stay: set<Camera>, now: seq<Camera>, c: Camera)
    requires Midway(list, called, rest, stay, now, c)
    ensures rest != [] && c in now && Distinct(list)
    ensures Midway(list, called + [c], rest[1..], stay, if c in stay then now else Without(now, c), After(now, c))
    ensures c !in Elements(called) && Elements(called + [c]) == Elements(called) + {c}
  {
    hide After, Without, Kept, Distinct, Elements;
    var a, left := Kept(called, stay), rest[1..];
    assert rest == [c] + left;
    Apart(called, c, left);
    KeptHas(called, stay);
    KeptNext(called, c, stay);
    Assoc(a, [c], left);
    Assoc(called, [c], left);
    AfterMiddle(a, c, left);
    WithoutMiddle(a, c, left);
    assert c in a + [c] + left;
  }

  lemma KeptNext(called: seq<Camera>, c: Camera, stay: set<Camera>)
    ensures Kept(called + [c], stay) == Kept(called, stay) + if c in stay then [c] else []
    ensures Elements(called + [c]) == Elements(called) + {c}
  {
    assert (called + [c])[..|called|] == called;
  }

  lemma Apart(called: seq<Camera>, c: Camera, rest: seq<Camera>)
    requires Distinct(called + ([c] + rest))
    ensures c !in called && c !in rest && c !in Elements(called)
  {
    var all := called + ([c] + rest);
    assert all[|called|] == c && all[|called| + 1..] == rest && all[..|called|] == called;
  }

  /** The increment of a list iterator that points at `c`. */
  function After(list: seq<Camera>, c: Camera): Camera?
    requires c in list
  {
    if list[0] != c then After(list[1..], c) else if |list| > 1 then list[1] else null
  }

  lemma {:induction false} AfterMiddle(a: seq<Camera>, c: Camera, b: seq<Camera>)
    requires c !in a
    ensures After(a + [c] + b, c) == if b == [] then null else b[0]
  {
    if a != [] {
      assert (a + [c] + b)[1..] == a[1..] + [c] + b;
      AfterMiddle(a[1..], c, b);
    }
  }

  /** Everything that can be reached: a fixed set of objects, cameras and grid cells. */
  datatype World = World(objects: set<WorldObject>, cameras: set<Camera>, grids: set<Grid>)

  /** Each camera is in the list of the object it looks through, once, and in no other list; each owner has one camera. */
  ghost predicate ViewLinks(w: World)
    reads w.objects`cameras, w.cameras`source
  {
    && (forall c <- w.cameras :: c.source in w.objects && c.owner in w.objects && c.owner.viewable)
    && (forall c <- w.cameras, d <- w.cameras :: c.owner == d.owner ==> c == d)
    && (forall o <- w.objects, c <- o.cameras :: c in w.cameras)
    && (forall o <- w.objects, c <- w.cameras :: c in o.cameras <==> c.source == o)
    && (forall o <- w.objects :: Distinct(o.cameras))
  }

  /** And nothing stays registered as active without a reason. */
  ghost predicate ListLinks(w: World)
    reads w.objects`cameras, w.objects`active, w.objects`flagged, w.cameras`source
  {
    ViewLinks(w) && forall o <- w.objects :: o.active ==> o.IsActiveObject()
  }

  /** The same with camera `x` in no list, as between leaving one and entering the next. */
  ghost predicate ListLinksBut(w: World, x: Camera)
    reads w.objects`cameras, w.objects`active, w.objects`flagged, w.cameras`source
  {
    && (forall c <- w.cameras :: c.source in w.objects && c.owner in w.objects && c.owner.viewable)
    && (forall c <- w.cameras, d <- w.cameras :: c.owner == d.owner ==> c == d)
    && (forall o <- w.objects, c <- o.cameras :: c in w.cameras)
    && (forall o <- w.objects, c <- w.cameras :: c in o.cameras <==> c.source == o && c != x)
    && (forall o <- w.objects :: Distinct(o.cameras) && (o.active ==> o.IsActiveObject()))
  }

  /** The same for grid cells and the grid links of cameras. */
  ghost predicate GridLinks(w: World)
    reads w.cameras`gridRef, w.grids`listed
  {
    && (forall c <- w.cameras :: c.gridRef != null ==> c.gridRef in w.grids)
    && (forall g <- w.grids, c <- g.listed :: c in w.cameras)
    && (forall g <- w.grids, c <- w.cameras :: c in g.listed <==> c.gridRef == g)
    && (forall g <- w.grids :: Distinct(g.listed))
  }

  ghost predicate Linked(w: World)
    reads w.objects, w.cameras, w.grids
  {
    ListLinks(w) && GridLinks(w) && forall o <- w.objects :: o.grid != null ==> o.grid in w.grids
  }

  /** The camera is in the grid cell of the object it looks through. */
  ghost predicate Settled(c: Camera)
    reads c, c.source
  {
    c.gridRef == c.source.grid
  }

  /** Which of a camera's handlers is called; for a visibility change, whose owners lost sight. */
  datatype Handler =
    | AddedToWorld
    | RemovedFromWorld
    | Moved
    | VisibilityChanged(lost: set<Camera>)
    | UpdateVisibility

  class Camera {
    const owner: WorldObject
    var source: WorldObject
    var gridRef: Grid?

    /** A camera starts out in its owner's list, and joins the linked ones. */
    constructor (ghost w: World, owner: WorldObject)
      requires Linked(w) && owner in w.objects && owner.viewable && forall c <- w.cameras :: c.owner != owner
      modifies owner`cameras
      ensures this.owner == owner && source == owner && gridRef == null
      ensures Linked(World(w.objects, w.cameras + {this}, w.grids))
      ensures owner.cameras == old(owner.cameras) + [this]
    {
      hide ListLinks, GridLinks, ListLinksBut;
      this.owner, source, gridRef := owner, owner, null;
      new;
      Joins(w);
      EnterList(World(w.objects, w.cameras + {this}, w.grids));
    }

    /** A camera outside all lists can be counted among the linked ones. */
    lemma Joins(w: World)
      requires Linked(w) && this !in w.cameras && source == owner && gridRef == null
      requires owner in w.objects && owner.viewable && forall c <- w.cameras :: c.owner != owner
      ensures ListLinksBut(World(w.objects, w.cameras + {this}, w.grids), this)
      ensures GridLinks(World(w.objects, w.cameras + {this}, w.grids))
    {
    }

    /** A camera outside all lists and cells can be forgotten. */
    lemma Forgotten(w: World)
      requires GridLinks(w) && gridRef == null && this in w.cameras
      ensures GridLinks(World(w.objects, w.cameras - {this}, w.grids))
    {
    }

    method EnterList(ghost w: World)
      requires ListLinksBut(w, this) && this in w.cameras && source in w.objects
      modifies source`cameras
      ensures ListLinks(w) && source.cameras == old(source.cameras) + [this]
    {
      source.Attach(this);
    }

    method Unlink(ghost w: World)
      requires GridLinks(w) && this in w.cameras
      modifies this`gridRef, w.grids`listed
      ensures GridLinks(w) && gridRef == null
      ensures forall g <- w.grids :: g.listed == if old(gridRef) == g then Without(old(g.listed), this) else old(g.listed)
    {
      if gridRef != null {
        WithoutHas(gridRef.listed, this);
        gridRef.listed := Without(gridRef.listed, this);
        gridRef := null;
      }
    }

    /** `AddWorldObject`: a link that is still valid is cut first. */
    method Link(ghost w: World, g: Grid)
      requires GridLinks(w) && this in w.cameras && g in w.grids
      modifies this`gridRef, w.grids`listed
      ensures GridLinks(w) && gridRef == g
      ensures g.listed == [this] + if old(gridRef) == g then Without(old(g.listed), this) else old(g.listed)
    {
      Unlink(w);
      gridRef := g;
      g.listed := [this] + g.listed;
    }

    method UpdateForCurrentViewPoint(ghost w: World)
      requires GridLinks(w) && this in w.cameras && (source.grid != null ==> source.grid in w.grids)
      modifies this`gridRef, w.grids`listed
      ensures GridLinks(w) && Settled(this)
    {
      Unlink(w);
      if source.grid != null {
        Link(w, source.grid);
      }
    }

    /** The camera leaves its object's list, which is deregistered if nothing keeps it active. */
    method Leave(ghost w: World)
      requires ListLinks(w) && this in w.cameras
      modifies source`cameras, source`active
      ensures ListLinksBut(w, this)
      ensures source.cameras == Without(old(source.cameras), this)
      ensures source.active == (old(source.active) && source.IsActiveObject())
    {
      source.Detach(this);
      WithoutHas(old(source.cameras), this);
      if !source.IsActiveObject() {
        source.active := false;
      }
    }

    /** The camera enters an object's list, which is registered first if it was not active. */
    method Enter(ghost w: World, obj: WorldObject)
      requires ListLinksBut(w, this) && this in w.cameras && obj in w.objects
      modifies this`source, obj`cameras, obj`active
      ensures ListLinks(w) && source == obj
      ensures obj.cameras == old(obj.cameras) + [this]
      ensures obj.active == (old(obj.active) || !old(obj.IsActiveObject()))
    {
      source := obj;
      if !source.IsActiveObject() {
        source.active := true;
      }
      source.Attach(this);
    }

    /**
     A change of view goes through exactly if the object is another one, in the world, on the map of
     an owner who is in the world, and a unit or dynamic object.
     */
    method SetView(ghost w: World, obj: WorldObject)
      requires Linked(w) && this in w.cameras && obj in w.objects
      modifies this`source, this`gridRef, source`cameras, source`active, obj`cameras, obj`active, w.grids`listed
      ensures Linked(w)
      ensures var was := old(source);
              if old(source) != obj && owner.inWorld && obj.inWorld && owner.mapId == obj.mapId && obj.viewable then
                && source == obj && gridRef == obj.grid
                && was.cameras == Without(old(source.cameras), this)
                && was.active == (old(source.active) && (was.flagged || was.cameras != []))
                && obj.cameras == old(obj.cameras) + [this]
                && obj.active == (old(obj.active) || (!obj.flagged && old(obj.cameras) == []))
              else
                source == was && was.cameras == old(source.cameras) && obj.cameras == old(obj.cameras) && gridRef == old(gridRef)
                && was.active == old(source.active) && obj.active == old(obj.active)
    {
      hide ListLinks, ListLinksBut, GridLinks;
      if source == obj || !owner.IsInMap(obj) || !obj.viewable {
        return;
      }
      Leave(w);
      Enter(w, obj);
      UpdateForCurrentViewPoint(w);
    }

    method ResetView(ghost w: World)
      requires Linked(w) && this in w.cameras
      modifies this`source, this`gridRef, source`cameras, source`active, owner`cameras, owner`active, w.grids`listed
      ensures Linked(w)
      ensures !old(source != owner && owner.inWorld) ==> Stayed(old(source), old(source.cameras), old(owner.cameras)) && gridRef == old(gridRef)
      ensures old(source != owner && owner.inWorld) ==> Returned(old(source), old(source.cameras), old(owner.cameras))
    {
      hide ListLinks, GridLinks;
      assert owner in w.objects && owner.viewable by { OwnerKnown(w); }
      SetView(w, owner);
    }

    lemma OwnerKnown(w: World)
      requires Linked(w) && this in w.cameras
      ensures owner in w.objects && owner.viewable && source in w.objects
      ensures this in source.cameras && Distinct(source.cameras)
      ensures source.grid != null ==> source.grid in w.grids
    {
    }

    /** The camera looks through the same object as before, and the lists are what they were. */
    ghost predicate Stayed(was: WorldObject, list: seq<Camera>, owners: seq<Camera>)
      reads this`source, was`cameras, owner`cameras
    {
      source == was && was.cameras == list && owner.cameras == owners
    }

    /** The camera has gone from the list of `was` to the end of its owner's, and to its owner's grid cell. */
    ghost predicate Returned(was: WorldObject, list: seq<Camera>, owners: seq<Camera>)
      reads this, owner, was`cameras
    {
      && source == owner && gridRef == owner.grid
      && was.cameras == Without(list, this) && owner.cameras == owners + [this]
    }

    /** Whether a handler takes the camera back to its owner. */
    predicate Leaves(h: Handler, was: WorldObject)
      reads owner`inWorld
    {
      was != owner && owner.inWorld && (h.RemovedFromWorld? || (h.VisibilityChanged? && this in h.lost))
    }

    /** What the camera looks through after a handler. */
    ghost function View(h: Handler, was: WorldObject): WorldObject
      reads owner`inWorld
    {
      if Leaves(h, was) then owner else was
    }

    /** Its grid link after a handler. */
    ghost function GridAfter(h: Handler, was: WorldObject, link: Grid?): Grid?
      reads owner`inWorld, owner`grid, was`grid
    {
      if Leaves(h, was) then owner.grid
      else
        match h
        case AddedToWorld | Moved => was.grid
        case RemovedFromWorld => if was == owner then null else link
        case VisibilityChanged(_) => link
        case UpdateVisibility => link
    }

    /** The handlers that a view point calls on its cameras. */
    method Handle(ghost w: World, h: Handler)
      requires Linked(w) && this in w.cameras
      requires h.AddedToWorld? || h.Moved? ==> source.grid != null
      modifies this`source, this`gridRef, source`cameras, source`active, owner`cameras, owner`active, w.grids`listed
      ensures Linked(w)
      ensures Leaves(h, old(source)) ==> Returned(old(source), old(source.cameras), old(owner.cameras))
      ensures !Leaves(h, old(source)) ==> Stayed(old(source), old(source.cameras), old(owner.cameras))
      ensures source == View(h, old(source)) && gridRef == GridAfter(h, old(source), old(gridRef))
    {
      hide ListLinks, GridLinks;
      OwnerKnown(w);
      match h
      case AddedToWorld => Link(w, source.grid);
      case RemovedFromWorld =>
        if source == owner {
          Unlink(w);
        } else {
          ResetView(w);
        }
      case Moved =>
        Unlink(w);
        Link(w, source.grid);
      case VisibilityChanged(lost) =>
        if this in lost {
          ResetView(w);
        }
      case UpdateVisibility =>
    }

    /** Without its camera the owner's list, and with it the whole structure, is linked again. */
    lemma ForgottenViews(w: World, before: seq<Camera>)
      requires this in w.cameras && source == owner && Distinct(before) && owner.cameras == Without(before, this)
      requires forall c <- w.cameras :: c.source in w.objects && c.owner in w.objects && c.owner.viewable
      requires forall c <- w.cameras, d <- w.cameras :: c.owner == d.owner ==> c == d
      requires forall o <- w.objects :: o != owner ==> Distinct(o.cameras) && forall c <- o.cameras :: c in w.cameras
      requires forall c <- before :: c in w.cameras
      requires forall o <- w.objects, c <- w.cameras :: c in (if o == owner then before else o.cameras) <==> c.source == o
      ensures ViewLinks(World(w.objects, w.cameras - {this}, w.grids))
    {
      WithoutHas(before, this);
    }

    /** The camera leaves its owner's list for good. */
    method LeaveForGood(ghost w: World)
      requires ListLinks(w) && this in w.cameras && source == owner
      modifies owner`cameras
      ensures ViewLinks(World(w.objects, w.cameras - {this}, w.grids))
      ensures owner.cameras == Without(old(owner.cameras), this)
      ensures forall o <- w.objects :: this !in o.cameras && (o != owner ==> o.active ==> o.IsActiveObject())
    {
      source.Detach(this);
      ForgottenViews(w, old(owner.cameras));
      WithoutHas(old(owner.cameras), this);
    }

    lemma LinkedAgain(w: World)
      requires ViewLinks(w) && GridLinks(w) && owner in w.objects
      requires forall o <- w.objects :: (o.grid != null ==> o.grid in w.grids) && (o != owner ==> o.active ==> o.IsActiveObject())
      ensures Linked(w) <==> (owner.active ==> owner.IsActiveObject())
    {
      hide ViewLinks, GridLinks;
    }

    /**
     The owner is deleted; its camera must look through it again by then. The other cameras stay
     linked; the owner may stay registered as active, which nothing here undoes.
     */
    method Destroy(ghost w: World)
      requires Linked(w) && this in w.cameras && source == owner
      modifies owner`cameras, this`gridRef, w.grids`listed
      ensures gridRef == null && GridLinks(World(w.objects, w.cameras - {this}, w.grids))
      ensures ViewLinks(World(w.objects, w.cameras - {this}, w.grids))
      ensures Linked(World(w.objects, w.cameras - {this}, w.grids)) <==> (owner.active ==> owner.IsActiveObject())
      ensures forall o <- w.objects :: this !in o.cameras
      ensures owner.cameras == Without(old(owner.cameras), this)
    {
      hide GridLinks, ListLinks, ViewLinks, Without;
      OwnerKnown(w);
      LeaveForGood(w);
      Unlink(w);
      Forgotten(w);
      LinkedAgain(World(w.objects, w.cameras - {this}, w.grids));
    }
  }

  /** A small linked world: two objects in it, one of them in a grid cell. */
  method TwoObjects() returns (ghost w: World, owner: WorldObject, seen: WorldObject)
    ensures Linked(w) && w.objects == {owner, seen} && w.cameras == {} && owner != seen
    ensures owner.viewable && seen.viewable && owner.inWorld && seen.inWorld && owner.mapId == seen.mapId
    ensures owner.grid == null && seen.grid != null && seen.cameras == []
    ensures fresh(owner) && fresh(seen) && fresh(w.grids)
  {
    owner := new WorldObject(true, 0);
    seen := new WorldObject(true, 0);
    var cell := new Grid();
    seen.grid := cell;
    w := World({owner, seen}, {}, {cell});
    hide Linked;
    NoCameras(w);
  }

  lemma NoCameras(w: World)
    requires w.cameras == {} && forall o <- w.objects :: o.cameras == [] && !o.active && (o.grid != null ==> o.grid in w.grids)
    requires forall g <- w.grids :: g.listed == []
    ensures Linked(w)
  {
  }

  /** With a camera of the one that looks through the other. */
  method Watched() returns (ghost w: World, owner: WorldObject, seen: WorldObject, c: Camera)
    ensures Linked(w) && seen.AllSettled(w) && w.objects == {owner, seen} && w.cameras == {c}
    ensures owner != seen && c.owner == owner && c.source == seen && owner.inWorld && c.gridRef != null
    ensures fresh(owner) && fresh(seen) && fresh(c) && fresh(w.grids)
  {
    hide ListLinks, GridLinks, Without, Distinct, Kept;
    ghost var empty;
    empty, owner, seen := TwoObjects();
    c := new Camera(empty, owner);
    w := World(empty.objects, empty.cameras + {c}, empty.grids);
    c.SetView(w, seen);
  }

  /**
   A linked world in which a camera stays behind: its owner left the world before the object it
   looks through did.
   */
  method StaysBehind() returns (ghost w: World, seen: WorldObject, c: Camera)
    ensures Linked(w) && seen in w.objects && c in w.cameras
    ensures c.owner != seen && !c.owner.inWorld && c in seen.cameras && seen.grid == null && !Settled(c)
  {
    hide ListLinks, GridLinks, Without, Distinct, Kept;
    var owner;
    w, owner, seen, c := Watched();
    assert c in seen.cameras by { c.OwnerKnown(w); }
    owner.inWorld := false;
    seen.EventRemovedFromWorld(w);
  }
}
