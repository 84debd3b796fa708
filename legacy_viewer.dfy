/** The older viewer: it flattens the positions of every mesh of the loaded
    object into one vertex list, picks by the index of the point the ray
    hits, and toggles selected vertices by index. */
module LegacyViewer {
  import opened JsValues

  datatype SelectedVertex<P> = SelectedVertex(index: int, position: P)

  // ---------------------------------------------------------------------------
  // Selection toggle by index

  /** `prev.findIndex(v => v.index === index)`: the first position holding
      that index, or -1. */
  function FindIndex<P>(prev: seq<SelectedVertex<P>>, index: int): (k: int)
    ensures -1 <= k < |prev|
    ensures k >= 0 ==> prev[k].index == index && forall j :: 0 <= j < k ==> prev[j].index != index
    ensures k == -1 ==> forall j :: 0 <= j < |prev| ==> prev[j].index != index
    decreases |prev|
  {
    if |prev| == 0 then -1
    else if prev[0].index == index then 0
    else
      var k := FindIndex(prev[1..], index);
      if k == -1 then -1 else k + 1
  }

  /** `handleVertexSelect`'s update: drop the first entry with the vertex's
      index (`prev.filter((_, i) => i !== existingIndex)`), or append the vertex
      when there is none; the `null` vertex changes nothing. */
  function ToggleByIndex<P>(prev: seq<SelectedVertex<P>>, vertex: Option<SelectedVertex<P>>)
    : (r: seq<SelectedVertex<P>>)
    ensures vertex.None? ==> r == prev
    ensures vertex.Some? ==> |r| == |prev| - 1 || r == prev + [vertex.value]
  {
    match vertex
    case None => prev
    case Some(v) =>
      var existingIndex := FindIndex(prev, v.index);
      if existingIndex >= 0 then prev[..existingIndex] + prev[existingIndex + 1..] else prev + [v]
  }

  /** What a toggle does: with the vertex's index selected, the first entry
      holding it is dropped and the others keep their order; otherwise the
      vertex is appended. */
  lemma ToggleByIndexEffect<P>(prev: seq<SelectedVertex<P>>, v: SelectedVertex<P>)
    ensures (exists j :: 0 <= j < |prev| && prev[j].index == v.index) ==>
              exists k :: 0 <= k < |prev| && prev[k].index == v.index &&
                (forall j :: 0 <= j < k ==> prev[j].index != v.index) &&
                ToggleByIndex(prev, Some(v)) == prev[..k] + prev[k + 1..]
    ensures (forall j :: 0 <= j < |prev| ==> prev[j].index != v.index) ==>
              ToggleByIndex(prev, Some(v)) == prev + [v]
  {
    var k := FindIndex(prev, v.index);
    if k >= 0 {
      assert ToggleByIndex(prev, Some(v)) == prev[..k] + prev[k + 1..];
    }
  }

  /** `clearSelection`. */
  function ClearSelection<P>(): (r: seq<SelectedVertex<P>>)
    ensures |r| == 0
  {
    []
  }

  predicate DistinctIndices<P>(s: seq<SelectedVertex<P>>) {
    forall i, j :: 0 <= i < j < |s| ==> s[i].index != s[j].index
  }

  /** Toggling keeps selected indices distinct. */
  lemma ToggleKeepsDistinct<P>(prev: seq<SelectedVertex<P>>, vertex: Option<SelectedVertex<P>>)
    requires DistinctIndices(prev)
    ensures DistinctIndices(ToggleByIndex(prev, vertex))
  {
    if vertex.Some? {
      if FindIndex(prev, vertex.value.index) >= 0 {
        DeselectDistinct(prev, vertex.value);
      } else {
        SelectDistinct(prev, vertex.value);
      }
    }
  }

  lemma DeselectDistinct<P>(prev: seq<SelectedVertex<P>>, v: SelectedVertex<P>)
    requires DistinctIndices(prev) && FindIndex(prev, v.index) >= 0
    ensures DistinctIndices(ToggleByIndex(prev, Some(v)))
  {
    var k := FindIndex(prev, v.index);
    assert ToggleByIndex(prev, Some(v)) == prev[..k] + prev[k + 1..];
    RemoveDistinct(prev, k);
  }

  lemma SelectDistinct<P>(prev: seq<SelectedVertex<P>>, v: SelectedVertex<P>)
    requires DistinctIndices(prev) && FindIndex(prev, v.index) < 0
    ensures DistinctIndices(ToggleByIndex(prev, Some(v)))
  {
    assert ToggleByIndex(prev, Some(v)) == prev + [v];
    AppendDistinct(prev, v);
  }

  /** With distinct indices, a toggle of a selected index leaves no entry
      with that index and one entry fewer. */
  lemma ToggleDeselects<P>(prev: seq<SelectedVertex<P>>, v: SelectedVertex<P>)
    requires DistinctIndices(prev)
    requires exists j :: 0 <= j < |prev| && prev[j].index == v.index
    ensures var r := ToggleByIndex(prev, Some(v));
            |r| == |prev| - 1 && forall j :: 0 <= j < |r| ==> r[j].index != v.index
  {
    var k := FindIndex(prev, v.index);
    assert ToggleByIndex(prev, Some(v)) == prev[..k] + prev[k + 1..];
    RemoveLeavesNone(prev, k);
  }

  /** Appending a vertex whose index is not selected keeps indices distinct. */
  lemma AppendDistinct<P>(prev: seq<SelectedVertex<P>>, v: SelectedVertex<P>)
    requires DistinctIndices(prev)
    requires forall j :: 0 <= j < |prev| ==> prev[j].index != v.index
    ensures DistinctIndices(prev + [v])
  {
    var r := prev + [v];
    assert forall j :: 0 <= j < |r| ==> r[j] == if j < |prev| then prev[j] else v;
  }

  /** Removing the entry at `k` from a selection with distinct indices leaves
      them distinct. */
  lemma RemoveDistinct<P>(prev: seq<SelectedVertex<P>>, k: int)
    requires DistinctIndices(prev) && 0 <= k < |prev|
    ensures DistinctIndices(prev[..k] + prev[k + 1..])
  {
    var r := prev[..k] + prev[k + 1..];
    assert forall j :: 0 <= j < |r| ==> r[j] == prev[if j < k then j else j + 1];
  }

  /** ... and leaves no entry with the removed entry's index. */
  lemma RemoveLeavesNone<P>(prev: seq<SelectedVertex<P>>, k: int)
    requires DistinctIndices(prev) && 0 <= k < |prev|
    ensures var r := prev[..k] + prev[k + 1..]; forall j :: 0 <= j < |r| ==> r[j].index != prev[k].index
  {
    var r := prev[..k] + prev[k + 1..];
    assert forall j :: 0 <= j < |r| ==> r[j] == prev[if j < k then j else j + 1];
  }

  /** Selecting a vertex that is not selected and then selecting it again
      gives the selection back. */
  lemma ToggleTwice<P>(prev: seq<SelectedVertex<P>>, v: SelectedVertex<P>)
    requires forall j :: 0 <= j < |prev| ==> prev[j].index != v.index
    ensures ToggleByIndex(ToggleByIndex(prev, Some(v)), Some(v)) == prev
  {
    var once := prev + [v];
    assert ToggleByIndex(prev, Some(v)) == once;
    assert FindIndex(once, v.index) == |prev| by {
      assert once[|prev|].index == v.index;
    }
    assert once[..|prev|] == prev;
  }

  // ---------------------------------------------------------------------------
  // Flattening the loaded object's vertices

  /** A node of the loaded object: whether it is a mesh, its world matrix, the
      positions of its geometry, and its children. */
  datatype Object3D<M, P> = Object3D(isMesh: bool, matrixWorld: M, positions: seq<P>, children: seq<Object3D<M, P>>)

  /** The order `traverse` visits nodes in: a node, then each child's subtree. */
  function Traverse<M, P>(o: Object3D<M, P>): seq<Object3D<M, P>>
    decreases o, 1
  {
    [o] + TraverseAll(o.children)
  }

  function TraverseAll<M, P>(cs: seq<Object3D<M, P>>): seq<Object3D<M, P>>
    decreases cs, 0
  {
    if |cs| == 0 then [] else Traverse(cs[0]) + TraverseAll(cs[1..])
  }

  /** The world positions of one node's vertices (none unless a mesh). */
  function NodeVertices<M, P>(o: Object3D<M, P>, toWorld: (M, P) -> P): seq<P> {
    if o.isMesh then seq(|o.positions|, i requires 0 <= i < |o.positions| => toWorld(o.matrixWorld, o.positions[i]))
    else []
  }

  /** The vertices of a sequence of visited nodes, in visiting order. */
  function WorldVertices<M, P>(nodes: seq<Object3D<M, P>>, toWorld: (M, P) -> P): seq<P>
    decreases |nodes|
  {
    if |nodes| == 0 then []
    else WorldVertices(nodes[..|nodes| - 1], toWorld) + NodeVertices(nodes[|nodes| - 1], toWorld)
  }

  /** The number of vertices of the meshes among the nodes. */
  function MeshVertexCount<M, P>(nodes: seq<Object3D<M, P>>): nat
    decreases |nodes|
  {
    if |nodes| == 0 then 0
    else MeshVertexCount(nodes[..|nodes| - 1]) +
         (if nodes[|nodes| - 1].isMesh then |nodes[|nodes| - 1].positions| else 0)
  }

  /** The flattened list is as long as all meshes' vertex counts together. */
  lemma {:induction false} WorldVertexCount<M, P>(nodes: seq<Object3D<M, P>>, toWorld: (M, P) -> P)
    ensures |WorldVertices(nodes, toWorld)| == MeshVertexCount(nodes)
    decreases |nodes|
  {
    if |nodes| > 0 {
      WorldVertexCount(nodes[..|nodes| - 1], toWorld);
    }
  }

  /** The `useMemo` that builds `allVertices`: for each mesh met in the
      traversal, each of its positions, moved to world space, is pushed. */
  method FlattenVertices<M, P>(root: Object3D<M, P>, toWorld: (M, P) -> P) returns (allVertices: seq<P>)
    ensures allVertices == WorldVertices(Traverse(root), toWorld)
    ensures |allVertices| == MeshVertexCount(Traverse(root))
  {
    var nodes := Traverse(root);
    allVertices := [];
    for j := 0 to |nodes|
      invariant allVertices == WorldVertices(nodes[..j], toWorld)
    {
      var child := nodes[j];
      assert nodes[..j + 1][..j] == nodes[..j];
      if child.isMesh {
        ghost var before := allVertices;
        for i := 0 to |child.positions|
          invariant allVertices == before + NodeVertices(child, toWorld)[..i]
        {
          assert NodeVertices(child, toWorld)[..i + 1] == NodeVertices(child, toWorld)[..i] + [toWorld(child.matrixWorld, child.positions[i])];
          allVertices := allVertices + [toWorld(child.matrixWorld, child.positions[i])];
        }
        assert NodeVertices(child, toWorld)[..|child.positions|] == NodeVertices(child, toWorld);
      }
    }
    assert nodes[..|nodes|] == nodes;
    WorldVertexCount(nodes, toWorld);
  }

  // ---------------------------------------------------------------------------
  // Resolving a click

  /** The first intersection of the ray with the vertex points; `index` may be
      missing. */
  datatype PointHit = PointHit(index: Option<nat>)

  /** `intersect.index || 0`. */
  function HitIndex(hit: PointHit): nat {
    match hit.index
    case Some(i) => i
    case None => 0
  }

  /** What a click passes to `handleVertexSelect`: the vertex at the hit index,
      only when the ray hit a point and that index is within the vertex list. */
  function ClickSelection<P>(vertices: seq<P>, hit: Option<PointHit>): (r: Option<SelectedVertex<P>>)
    ensures r.Some? <==> hit.Some? && HitIndex(hit.value) < |vertices|
    ensures r.Some? ==> r.value.index == HitIndex(hit.value) && r.value.position == vertices[r.value.index]
  {
    match hit
    case None => None
    case Some(h) =>
      var index := HitIndex(h);
      if index < |vertices| then Some(SelectedVertex(index, vertices[index])) else None
  }

  /** A click that selects and a second click on the same point, from a
      selection without that index, leave the selection as it was; a click that
      selects nothing leaves it too. */
  lemma ClickTwice<P>(prev: seq<SelectedVertex<P>>, vertices: seq<P>, hit: Option<PointHit>)
    requires forall j :: 0 <= j < |prev| ==> hit.Some? ==> prev[j].index != HitIndex(hit.value)
    ensures var once := ToggleByIndex(prev, ClickSelection(vertices, hit));
            ToggleByIndex(once, ClickSelection(vertices, hit)) == prev
  {
    var sel := ClickSelection(vertices, hit);
    if sel.Some? {
      ToggleTwice(prev, sel.value);
    }
  }
}
