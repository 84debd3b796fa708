/** Telling a click from a drag on the main mesh. The mesh component keeps two
    refs, the pointer-down position and an `isDragging` flag; pointer down,
    pointer move and click update them, and only a click that is not the end
    of a drag goes on to pick a vertex. */
module ClickTracking {
  import opened JsValues
  import opened Pick

  datatype ScreenPoint = ScreenPoint(x: int, y: int)

  /** Pixels the pointer may move, on either axis, before a press is a drag. */
  const DragThreshold: int := 5

  function Abs(n: int): nat {
    if n < 0 then -n else n
  }

  /** Moving to (x, y) from the press at `down` goes past the threshold. */
  predicate Exceeds(down: ScreenPoint, x: int, y: int) {
    Abs(x - down.x) > DragThreshold || Abs(y - down.y) > DragThreshold
  }

  /** The two refs, as values. */
  datatype Refs = Refs(mouseDownPos: Option<ScreenPoint>, isDragging: bool)

  /** What the handlers see. A click says whether the mesh ref and the main
      mesh were both there (`!meshRef.current || !mainMesh` returns early). */
  datatype PointerEvent = Down(x: int, y: int) | Move(x: int, y: int) | Click(meshReady: bool)

  const Released := Refs(None, false)

  /** One handler's effect on the refs. */
  function Step(r: Refs, e: PointerEvent): Refs {
    match e
    case Down(x, y) => Refs(Some(ScreenPoint(x, y)), false)
    case Move(x, y) =>
      if r.mouseDownPos.Some? && Exceeds(r.mouseDownPos.value, x, y) then r.(isDragging := true) else r
    case Click(meshReady) =>
      if r.isDragging then Released
      else if !meshReady then r
      else Released
  }

  /** The handlers' effect over a sequence of events. */
  function Run(r: Refs, es: seq<PointerEvent>): Refs
    decreases |es|
  {
    if |es| == 0 then r else Step(Run(r, es[..|es| - 1]), es[|es| - 1])
  }

  /** `isDragging` is only ever set while a press position is recorded. */
  predicate Consistent(r: Refs) {
    r.isDragging ==> r.mouseDownPos.Some?
  }

  function Moves(ps: seq<ScreenPoint>): seq<PointerEvent> {
    seq(|ps|, k requires 0 <= k < |ps| => Move(ps[k].x, ps[k].y))
  }

  /** After a press at `down` and some pointer moves, the press position is
      kept and `isDragging` holds exactly when one of the moves went past the
      threshold: once set it stays set, however the pointer comes back. */
  lemma {:induction false} DragIffSomeMoveExceeds(r: Refs, down: ScreenPoint, ps: seq<ScreenPoint>)
    ensures Run(Step(r, Down(down.x, down.y)), Moves(ps)) ==
            Refs(Some(down), exists k :: 0 <= k < |ps| && Exceeds(down, ps[k].x, ps[k].y))
    decreases |ps|
  {
    if |ps| > 0 {
      var init := ps[..|ps| - 1];
      DragIffSomeMoveExceeds(r, down, init);
      assert Moves(ps)[..|ps| - 1] == Moves(init);
      var last := ps[|ps| - 1];
      assert Moves(ps)[|ps| - 1] == Move(last.x, last.y);
      if exists k :: 0 <= k < |init| && Exceeds(down, init[k].x, init[k].y) {
        var k :| 0 <= k < |init| && Exceeds(down, init[k].x, init[k].y);
        assert ps[k] == init[k];
      }
      if exists k :: 0 <= k < |ps| && Exceeds(down, ps[k].x, ps[k].y) {
        var k :| 0 <= k < |ps| && Exceeds(down, ps[k].x, ps[k].y);
        if k < |ps| - 1 {
          assert init[k] == ps[k];
        }
      }
    }
  }

  /** Every handler keeps the refs consistent, so every run does. */
  lemma {:induction false} RunConsistent(r: Refs, es: seq<PointerEvent>)
    requires Consistent(r)
    ensures Consistent(Run(r, es))
    decreases |es|
  {
    if |es| > 0 {
      RunConsistent(r, es[..|es| - 1]);
    }
  }

  /** The mesh component's handlers and the two refs they share. */
  class MeshPointer {
    var mouseDownPos: Option<ScreenPoint>
    var isDragging: bool

    ghost predicate Valid()
      reads this
    {
      Consistent(Current())
    }

    function Current(): Refs
      reads this
    {
      Refs(mouseDownPos, isDragging)
    }

    constructor ()
      ensures Valid() && Current() == Released
    {
      mouseDownPos := None;
      isDragging := false;
    }

    /** `handleMouseDown`: record the press, not dragging yet. */
    method MouseDown(x: int, y: int)
      requires Valid()
      modifies this
      ensures Valid() && Current() == Step(old(Current()), Down(x, y))
      ensures mouseDownPos == Some(ScreenPoint(x, y)) && !isDragging
    {
      mouseDownPos := Some(ScreenPoint(x, y));
      isDragging := false;
    }

    /** `handleMouseMove`: a move past the threshold from the press makes it a
      drag; without a recorded press nothing changes. */
    method MouseMove(x: int, y: int)
      requires Valid()
      modifies this
      ensures Valid() && Current() == Step(old(Current()), Move(x, y))
      ensures mouseDownPos == old(mouseDownPos)
      ensures isDragging <==> old(isDragging) || (mouseDownPos.Some? && Exceeds(mouseDownPos.value, x, y))
    {
      if mouseDownPos.Some? {
        var deltaX := Abs(x - mouseDownPos.value.x);
        var deltaY := Abs(y - mouseDownPos.value.y);
        if deltaX > DragThreshold || deltaY > DragThreshold {
          isDragging := true;
        }
      }
    }

    /** `handleClick`. `mesh` is None when the mesh ref or the main mesh is
      missing; `hit` is the first intersection of the ray cast, None when the
      ray hits nothing. The result is what `onVertexSelect` is called with, if
      anything. */
    method HandleClick<P>(mesh: Option<Geometry<P>>, hit: Option<Intersection>, dist: P -> real, origin: P)
      returns (selected: Option<SelectedVertex<P>>)
      requires Valid()
      requires mesh.Some? && hit.Some? && hit.value.faceIndex.Some? ==> HitFace(mesh.value, hit.value.faceIndex.value)
      modifies this
      ensures Valid() && Current() == Step(old(Current()), Click(mesh.Some?))
      ensures old(isDragging) ==> selected.None? && Current() == Released
      ensures !old(isDragging) && mesh.None? ==> selected.None? && Current() == old(Current())
      ensures selected.Some? <==> !old(isDragging) && mesh.Some? && hit.Some? && hit.value.faceIndex.Some?
      ensures selected.Some? ==>
                var g, face := mesh.value, hit.value.faceIndex.value;
                exists c :: IsClosest(Candidates(g, face), g.world, dist, c) &&
                  selected.value.index == ReportedIndex(g, c) &&
                  selected.value.position == (if AnyInRange(Candidates(g, face), |g.world|) then g.world[c] else origin)
    {
      if isDragging {
        mouseDownPos := None;
        isDragging := false;
        return None;
      }
      if mesh.None? {
        return None;
      }
      selected := None;
      if hit.Some? {
        var faceIndex := hit.value.faceIndex;
        if faceIndex.Some? {
          var sel := PickVertex(mesh.value, faceIndex.value, dist, origin);
          selected := Some(sel);
        }
      }
      mouseDownPos := None;
      isDragging := false;
    }
  }
}
