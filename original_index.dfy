/** The `originalIndex` attribute of the viewer's de-indexed mesh: geometry
    vertex i, which is corner i % 3 of triangle i / 3, is tagged with the OBJ
    vertex index the parser put at `faces[i]`. */
module OriginalIndex {
  import opened JsValues
  import opened ObjParse

  /** `buf` tags geometry vertex i with `faces[i]` wherever the face list
      reaches, and leaves the rest at 0. */
  predicate TagsFaces(buf: seq<Value>, faces: seq<Value>) {
    forall i :: 0 <= i < |buf| ==> buf[i] == if i < |faces| then faces[i] else Num(0)
  }

  /** The loop that fills the `Float32Array` of `vertexCount` zeros: entry i
      is set only when its triangle `i / 3` is below `faces.length / 3`, from
      `faces[3 * (i / 3) + i % 3]`. */
  method TagVertices(vertexCount: nat, faces: seq<Value>) returns (buf: array<Value>)
    ensures buf.Length == vertexCount
    ensures forall i :: 0 <= i < vertexCount ==>
              buf[i] == if i < |faces| then StoreFloat32(faces[i])
                        else if 3 * (i / 3) < |faces| then NaN
                        else Num(0)
    ensures |faces| % 3 == 0 && Defined(faces) ==> TagsFaces(buf[..], faces)
  {
    buf := new Value[vertexCount](_ => Num(0));
    for i := 0 to vertexCount
      invariant forall k :: 0 <= k < i ==>
                  buf[k] == if k < |faces| then StoreFloat32(faces[k])
                            else if 3 * (k / 3) < |faces| then NaN
                            else Num(0)
      invariant forall k :: i <= k < vertexCount ==> buf[k] == Num(0)
    {
      var triangleIndex := i / 3;
      var vertexInTriangle := i % 3;
      // triangleIndex < faces.length / 3, the division being on reals
      if 3 * triangleIndex < |faces| {
        var faceStartIndex := triangleIndex * 3;
        buf[i] := StoreFloat32(Lookup(faces, faceStartIndex + vertexInTriangle));
      }
    }
    if |faces| % 3 == 0 && Defined(faces) {
      forall i | 0 <= i < vertexCount
        ensures buf[i] == if i < |faces| then faces[i] else Num(0)
      {
        WholeTriangles(i, |faces|);
      }
    }
  }

  /** The tags of the main mesh, from the face list the parser builds from the
      file's text: geometry vertex i carries `faces[i]` for every i below both
      `vertexCount` and the face list's length, and 0 beyond the face list. */
  method TagParsedFaces(text: string, vertexCount: nat) returns (faces: seq<Value>, buf: array<Value>)
    ensures faces == ParsedFaces(Lines(text))
    ensures buf.Length == vertexCount
    ensures TagsFaces(buf[..], faces)
  {
    var vertices;
    vertices, faces := ParseObj(text);
    buf := TagVertices(vertexCount, faces);
  }

  /** With whole triangles, a triangle that starts inside the list ends inside
      it. */
  lemma WholeTriangles(i: nat, n: nat)
    requires n % 3 == 0
    ensures 3 * (i / 3) < n <==> i < n
  {
  }
}
