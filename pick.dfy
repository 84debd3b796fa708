/** Pick resolution in the viewer: from the triangle the ray hit to the OBJ
    vertex index that is reported. World positions of the geometry's vertices
    and their distances to the hit point come from the graphics library and
    are inputs here; the position type `P` is left abstract. */
module Pick {
  import opened JsValues
  import opened OriginalIndex

  /** What the viewer reports for a click: an index and a world position. */
  datatype SelectedVertex<P> = SelectedVertex(index: Value, position: P)

  /** The geometry the ray is cast against: the world position of each vertex
      (`position.count` of them), the index buffer when the geometry is
      indexed, and the `originalIndex` attribute when it has one. */
  datatype Geometry<P> = Geometry(world: seq<P>, index: Option<seq<int>>, originalIndex: Option<seq<Value>>)

  /** The first intersection the ray cast returns; its `faceIndex` may be
      missing. */
  datatype Intersection = Intersection(faceIndex: Option<nat>)

  /** A face the ray caster can report: on indexed geometry its three index
      slots exist. */
  predicate HitFace<P>(g: Geometry<P>, face: nat) {
    g.index.Some? ==> 3 * face + 2 < |g.index.value|
  }

  /** The three geometry indices of the hit triangle. */
  function Candidates<P>(g: Geometry<P>, face: nat): seq<int>
    requires HitFace(g, face)
  {
    match g.index
    case Some(ix) => [ix[3 * face], ix[3 * face + 1], ix[3 * face + 2]]
    case None => [3 * face, 3 * face + 1, 3 * face + 2]
  }

  predicate InRange(i: int, count: nat) {
    0 <= i < count
  }

  predicate AnyInRange(cands: seq<int>, count: nat) {
    exists j :: 0 <= j < |cands| && InRange(cands[j], count)
  }

  /** Among the first `n` candidates, the one at `k` is in range, no in-range
      candidate is strictly closer, and every in-range candidate before it is
      strictly farther: it is the first closest one. */
  ghost predicate FirstClosestAmong<P>(cands: seq<int>, world: seq<P>, dist: P -> real, k: int, n: int)
    requires 0 <= n <= |cands|
  {
    0 <= k < n && InRange(cands[k], |world|) &&
    (forall j :: 0 <= j < n && InRange(cands[j], |world|) ==> dist(world[cands[k]]) <= dist(world[cands[j]])) &&
    (forall j :: 0 <= j < k && InRange(cands[j], |world|) ==> dist(world[cands[k]]) < dist(world[cands[j]]))
  }

  /** The vertex the viewer settles on: the first closest in-range candidate,
      or the first candidate when none is in range. */
  ghost predicate IsClosest<P>(cands: seq<int>, world: seq<P>, dist: P -> real, c: int)
    requires |cands| > 0
  {
    if AnyInRange(cands, |world|) then
      exists k :: FirstClosestAmong(cands, world, dist, k, |cands|) && c == cands[k]
    else c == cands[0]
  }

  /** The closest-vertex loop. `best` stands for `closestDistance`, with None
      for its initial `Infinity`; `origin` is the `new THREE.Vector3()` the
      position starts as. */
  method ClosestVertex<P>(cands: seq<int>, world: seq<P>, dist: P -> real, origin: P)
    returns (closest: int, position: P)
    requires |cands| > 0
    ensures IsClosest(cands, world, dist, closest)
    ensures AnyInRange(cands, |world|) ==> InRange(closest, |world|) && position == world[closest]
    ensures !AnyInRange(cands, |world|) ==> closest == cands[0] && position == origin
  {
    closest, position := cands[0], origin;
    var best: Option<real> := None;
    ghost var at := 0;
    for i := 0 to |cands|
      invariant best.None? <==> forall j :: 0 <= j < i ==> !InRange(cands[j], |world|)
      invariant best.None? ==> closest == cands[0] && position == origin
      invariant best.Some? ==> FirstClosestAmong(cands, world, dist, at, i) && closest == cands[at]
      invariant best.Some? ==> best.value == dist(world[closest]) && position == world[closest]
    {
      var geometryIndex := cands[i];
      if 0 <= geometryIndex < |world| {
        var vertex := world[geometryIndex];
        var distance := dist(vertex);
        if best.None? || distance < best.value {
          best, closest, position := Some(distance), geometryIndex, vertex;
          at := i;
        }
      }
    }
    if AnyInRange(cands, |world|) {
      ghost var j :| 0 <= j < |cands| && InRange(cands[j], |world|);
      assert best.Some?;
    }
  }

  /** The reported index: `originalIndex.getX(closest)` when the attribute
      exists, else the geometry index itself. */
  function ReportedIndex<P>(g: Geometry<P>, closest: int): Value {
    match g.originalIndex
    case Some(buf) => Lookup(buf, closest)
    case None => Num(closest)
  }

  /** The body of the click handler once a face was hit. */
  method PickVertex<P>(g: Geometry<P>, face: nat, dist: P -> real, origin: P) returns (sel: SelectedVertex<P>)
    requires HitFace(g, face)
    ensures exists c :: IsClosest(Candidates(g, face), g.world, dist, c) && sel.index == ReportedIndex(g, c) &&
              sel.position == (if AnyInRange(Candidates(g, face), |g.world|) then g.world[c] else origin)
  {
    var cands := Candidates(g, face);
    var closest, position := ClosestVertex(cands, g.world, dist, origin);
    sel := SelectedVertex(ReportedIndex(g, closest), position);
  }

  /** The closest-vertex rule picks one vertex: two candidates that both meet
      it are the same. */
  lemma ClosestUnique<P>(cands: seq<int>, world: seq<P>, dist: P -> real, c1: int, c2: int)
    requires |cands| > 0
    requires IsClosest(cands, world, dist, c1) && IsClosest(cands, world, dist, c2)
    ensures c1 == c2
  {
    if AnyInRange(cands, |world|) {
      var k1 :| FirstClosestAmong(cands, world, dist, k1, |cands|) && c1 == cands[k1];
      var k2 :| FirstClosestAmong(cands, world, dist, k2, |cands|) && c2 == cands[k2];
      assert k1 == k2;
    }
  }

  /** On the de-indexed main mesh, tagged from the parser's face list, a click
      on a face the list covers reports one of that triangle's three OBJ
      vertex indices: the one at the closest corner. */
  lemma ReportsTriangleCorner<P>(g: Geometry<P>, faces: seq<Value>, face: nat, dist: P -> real, c: int)
    requires g.index.None? && g.originalIndex.Some?
    requires |g.originalIndex.value| == |g.world| && TagsFaces(g.originalIndex.value, faces)
    requires 3 * face + 3 <= |faces| && 3 * face + 3 <= |g.world|
    requires IsClosest(Candidates(g, face), g.world, dist, c)
    ensures 3 * face <= c < 3 * face + 3
    ensures ReportedIndex(g, c) == faces[c]
  {
    var cands := Candidates(g, face);
    assert InRange(cands[0], |g.world|);
    assert AnyInRange(cands, |g.world|);
    var k :| FirstClosestAmong(cands, g.world, dist, k, |cands|) && c == cands[k];
    assert c == 3 * face + k;
  }
}
