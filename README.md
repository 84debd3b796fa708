# 3D Vertex Identifier: the index logic, modelled and proved in Dafny

The 3D Vertex Identifier shows a Wavefront OBJ model in the browser. A click on
the model selects and deselects vertices and reports each selected vertex's
OBJ index. This project models the program's own index logic, the part that
is not rendering glue, and proves what that logic guarantees.

The newer viewer is `obj-point-identifier/src/components/OBJViewer.tsx`. Its
logic is modelled in five parts:

- **OBJ front-end** (`obj_parse.dfy`, module `ObjParse`). The text is split
  into lines, and only `v ` and `f ` lines are kept. Each face token's vertex
  reference is the `parseInt` of its part before the first `/`, minus one.
  Every face is fan-triangulated into one flat index list.
- **`originalIndex` tagging** (`original_index.dfy`, module `OriginalIndex`).
  This is the `Float32Array` fill that tags each vertex of the de-indexed mesh
  with the OBJ index of its triangle corner.
- **Pick resolution** (`pick.dfy`, module `Pick`). It forms the hit
  triangle's three geometry indices and picks the first strictly closest
  in-range vertex. It then reports that vertex's `originalIndex`, or the
  geometry index itself when the attribute is missing.
- **Click vs. drag** (`click_tracking.dfy`, module `ClickTracking`). The two
  refs `mouseDownPos` and `isDragging` become a class whose methods are the
  three handlers. Their pure semantics is a step function over pointer events.
- **Tolerance toggle** (`position_selection.dfy`, module `PositionSelection`).
  A click near an already selected vertex deselects every selected vertex near
  it. Any other click appends the vertex.

The older viewer is `src/components/OBJViewer.tsx` (`legacy_viewer.dfy`,
module `LegacyViewer`). The model covers four of its pieces:

- its index toggle;
- `clearSelection`;
- the flattening of every mesh's vertices into one list;
- the click's `intersect.index || 0` resolution.

Two shared modules model the JavaScript the code relies on:

- `values.dfy` (`JsValues`) models numbers as they appear in index arithmetic:
  an integer, `NaN` or `undefined`.
- `text.dfy` (`JsText`) models `split` on one character, `split(/\s+/)`,
  `startsWith` and `parseInt`, following the ECMAScript definitions. Examples:
  `parseInt` skips leading white space, accepts a sign and a `0x` prefix, and
  reads the longest digit prefix. `split(/\s+/)` leaves an empty piece on each
  side when the text starts or ends with white space.

Some inputs stay abstract:

- Positions are an abstract type `P`.
- Distances to the ray's hit point are an input function `P -> real`.
- The tolerance test `distanceTo(...) < 0.0001` is an input relation `near`.
- The loaded scene's world matrices and the local-to-world map are inputs.

These values come from three.js, and the index logic depends only on how they
compare.

## Model

| member | source | states |
|---|---|---|
| JsText.SplitWsNoSpace | obj-point-identifier/src/components/OBJViewer.tsx:45 | no piece of `split(/\s+/)` contains white space |
| JsText.SplitCharJoin | obj-point-identifier/src/components/OBJViewer.tsx:38 | splitting on `'\n'` loses nothing: the pieces joined with the separator give the text back, and no piece contains it |
| JsText.SplitWsJoin | obj-point-identifier/src/components/OBJViewer.tsx:45 | tokens without white space joined by single spaces split back into exactly those tokens |
| JsText.ParseIntDecimal | obj-point-identifier/src/components/OBJViewer.tsx:58 | `parseInt` of a decimal digit run followed by nothing, or by a character that is neither a digit nor `x`/`X` (such as `/`), is the run's decimal value |
| JsText.ParseIntNaN | obj-point-identifier/src/components/OBJViewer.tsx:58 | `parseInt` of a string that starts with no digit, sign or white space is NaN |
| ObjParse.ParseObj | obj-point-identifier/src/components/OBJViewer.tsx:38-69 | the parse loop yields exactly the vertices and the face indices of the lines of `text.split('\n')`, in file order; the face list's length is a multiple of 3 and it holds no `undefined` |
| ObjParse.ReadFaceRefs | obj-point-identifier/src/components/OBJViewer.tsx:57-60 | one reference per token, each the token's integer before the first `/` minus one |
| ObjParse.PushFan | obj-point-identifier/src/components/OBJViewer.tsx:63-67 | the triangulation loop appends exactly the fan of the face to the list it is given |
| ObjParse.FanLength | obj-point-identifier/src/components/OBJViewer.tsx:63-67 | a face of k references yields 3·max(0, k−2) indices |
| ObjParse.FanTriangle | obj-point-identifier/src/components/OBJViewer.tsx:63-67 | triangle j of a face is (f[0], f[j+1], f[j+2]), so every triangle starts with the face's first vertex |
| ObjParse.ParsedFacesMultipleOf3 | obj-point-identifier/src/components/OBJViewer.tsx:63-67 | the face list of any text holds whole triangles |
| ObjParse.ParsedAppend | obj-point-identifier/src/components/OBJViewer.tsx:42-69 | vertices and faces come out in file order: those of the first lines, then those of the rest |
| ObjParse.SplitWsTrailing | obj-point-identifier/src/components/OBJViewer.tsx:54 | tokens joined by single spaces and followed by one white-space character split into the tokens and a last empty piece |
| ObjParse.ParsedFacesDefined | obj-point-identifier/src/components/OBJViewer.tsx:57-67 | every entry of the face list of any text is a number or NaN, never `undefined` |
| ObjParse.IgnoredLine | obj-point-identifier/src/components/OBJViewer.tsx:42-52 | a line that is neither `v ` nor `f `, or a `v ` line with fewer than four parts, can be removed without changing vertices or faces |
| ObjParse.FaceRefDecimal | obj-point-identifier/src/components/OBJViewer.tsx:58 | a face token maps to its decimal prefix minus one, whatever follows the first `/` |
| ObjParse.FaceRefExample | obj-point-identifier/src/components/OBJViewer.tsx:58 | the token `5/2/7` maps to 4 |
| ObjParse.FaceRefNaN | obj-point-identifier/src/components/OBJViewer.tsx:58 | an empty token, or one with nothing before its first `/`, maps to NaN |
| ObjParse.FaceLine | obj-point-identifier/src/components/OBJViewer.tsx:52-67 | the line `f t1 ... tk` adds the fan of the tokens' references |
| ObjParse.VertexLine | obj-point-identifier/src/components/OBJViewer.tsx:43-51 | the line `v x y z` adds the one vertex (x, y, z) |
| ObjParse.TrailingBlank | obj-point-identifier/src/components/OBJViewer.tsx:54-67 | a face line ending in any white-space character gets an extra empty token: with k ≥ 3 tokens, one triangle more than they give, whose last index is NaN |
| ObjParse.CarriageReturnFace | obj-point-identifier/src/components/OBJViewer.tsx:54-67 | a face line ending in the `\r` that `split('\n')` leaves on each line of a CRLF file gets that extra triangle (k ≥ 3 tokens), with a NaN last index |
| OriginalIndex.TagVertices | obj-point-identifier/src/components/OBJViewer.tsx:123-142 | the buffer has `vertexCount` entries: entry i is `faces[i]` where the face list reaches, NaN in a trailing partial triangle, 0 elsewhere; with whole triangles of defined indices it tags vertex i with `faces[i]` |
| OriginalIndex.TagParsedFaces | obj-point-identifier/src/components/OBJViewer.tsx:38-145 | tagging from the parser's face list: geometry vertex i carries `faces[i]` for every i below both `vertexCount` and the list's length, and 0 beyond the list |
| Pick.ClosestVertex | obj-point-identifier/src/components/OBJViewer.tsx:242-263 | the loop settles on the first in-range candidate of least distance, with its world position; when no candidate is in range, on the first candidate with the zero vector |
| Pick.PickVertex | obj-point-identifier/src/components/OBJViewer.tsx:229-271 | the selection is the closest corner of the hit triangle, reported through `originalIndex` when the attribute exists and as the geometry index otherwise |
| Pick.ClosestUnique | obj-point-identifier/src/components/OBJViewer.tsx:247-263 | the closest-vertex rule determines one vertex: first wins among equally close candidates |
| Pick.ReportsTriangleCorner | obj-point-identifier/src/components/OBJViewer.tsx:265-271 | on the de-indexed mesh tagged from the face list, a click on a triangle reports the OBJ index of one of its three corners, `faces[c]` for the closest corner c |
| ClickTracking.DragIffSomeMoveExceeds | obj-point-identifier/src/components/OBJViewer.tsx:176-187 | after a press and a series of moves, the press is still recorded and `isDragging` holds exactly when some move went more than 5 pixels from the press on an axis |
| ClickTracking.RunConsistent | obj-point-identifier/src/components/OBJViewer.tsx:169-199 | over any sequence of handler calls, `isDragging` is only set while a press position is recorded |
| ClickTracking.MeshPointer.constructor | obj-point-identifier/src/components/OBJViewer.tsx:25-26 | the refs start with no press and not dragging |
| ClickTracking.MeshPointer.MouseDown | obj-point-identifier/src/components/OBJViewer.tsx:169-173 | the press position is recorded and dragging is cleared |
| ClickTracking.MeshPointer.MouseMove | obj-point-identifier/src/components/OBJViewer.tsx:176-187 | `isDragging` becomes true exactly when a press is recorded and the pointer is more than 5 pixels from it on an axis; it never becomes false here |
| ClickTracking.MeshPointer.HandleClick | obj-point-identifier/src/components/OBJViewer.tsx:190-285 | a click while dragging selects nothing and resets both refs; a click without the mesh selects nothing and leaves them; otherwise the refs are reset and a vertex is selected exactly when the ray hit a face, namely the picked one |
| PositionSelection.KeepFar | obj-point-identifier/src/components/OBJViewer.tsx:473-476 | the filter's result is a subsequence of the selection holding exactly the entries not near the click |
| PositionSelection.KeepFarMultiset | obj-point-identifier/src/components/OBJViewer.tsx:473-476 | the filter keeps each entry not near the click as many times as it occurs, and no entry near it |
| PositionSelection.ToggleNear | obj-point-identifier/src/components/OBJViewer.tsx:458-492 | the `null` vertex changes nothing; any other vertex either shortens the selection or is appended to it |
| PositionSelection.ToggleNearEffect | obj-point-identifier/src/components/OBJViewer.tsx:458-492 | with some selected vertex near the click, every near one is removed, the rest keep their order and their multiplicity, and the list gets shorter; otherwise the click is appended |
| PositionSelection.ToggleNearTwice | obj-point-identifier/src/components/OBJViewer.tsx:464-482 | clicking the same vertex twice from a selection with nothing near it restores the selection |
| PositionSelection.ToggleNearSeparated | obj-point-identifier/src/components/OBJViewer.tsx:464-482 | with a symmetric `near`, a selection with no two vertices near each other stays so after a toggle |
| LegacyViewer.FindIndex | src/components/OBJViewer.tsx:117 | the result is the first position holding the index, or −1 when none does |
| LegacyViewer.ToggleByIndex | src/components/OBJViewer.tsx:113-126 | the `null` vertex changes nothing; any other vertex either shrinks the list by one or is appended (which entry goes is stated by `ToggleByIndexEffect`) |
| LegacyViewer.ToggleByIndexEffect | src/components/OBJViewer.tsx:117-123 | with the vertex's index selected, exactly the first entry holding it is removed and the others keep their order; otherwise the vertex is appended |
| LegacyViewer.ToggleKeepsDistinct | src/components/OBJViewer.tsx:117-123 | toggling keeps the selected indices pairwise distinct |
| LegacyViewer.ToggleDeselects | src/components/OBJViewer.tsx:117-120 | with distinct indices, toggling a selected index removes it entirely and shortens the list by one |
| LegacyViewer.ToggleTwice | src/components/OBJViewer.tsx:117-123 | toggling a vertex whose index is not selected twice restores the list |
| LegacyViewer.ClearSelection | src/components/OBJViewer.tsx:129-131 | clearing gives the empty selection |
| LegacyViewer.FlattenVertices | src/components/OBJViewer.tsx:26-42 | the list is each mesh's positions, moved to world space, in traversal order, and as long as all meshes' vertex counts together |
| LegacyViewer.WorldVertexCount | src/components/OBJViewer.tsx:26-41 | the flattened list's length is the sum of the meshes' vertex counts |
| LegacyViewer.ClickSelection | src/components/OBJViewer.tsx:60-71 | a click selects exactly when the ray hit a point and `intersect.index` (0 when absent) is inside the vertex list; it then selects that index and that vertex |
| LegacyViewer.ClickTwice | src/components/OBJViewer.tsx:60-71 | two clicks on the same point, from a selection without its index, leave the selection as it was |

## Left out

- Rendering is left out because it is UI: the React components, JSX, `Canvas`, `OrbitControls`, the sphere markers and their `toFixed` keys, and the hover state.
- `fetch`, `useLoader(OBJLoader)`, the `setTimeout` parent notification and the `useEffect` that copies external selections in are left out: they are I/O and event-loop scheduling. `ParseObj` takes the fetched text as its input.
- The three.js calls are inputs, not models, because they are library code. These are the ray cast, `toNonIndexed`, `fromBufferAttribute`, `localToWorld` and `distanceTo`. Their results enter as the world positions, the distance function, the hit face or point, and the `near` relation.
- `parseFloat` of the vertex coordinates is left out because it is floating-point numerics: `ObjVertex` keeps the three tokens as text. The bounding box, the mesh centring and the camera distance are left out for the same reason.
- ToggleByIndex: its own ensures give only the length of the result when an entry is removed. Which entry goes, and that the others keep their order, is proved separately in `LegacyViewer.ToggleByIndexEffect`, because stating it on the function itself makes the proofs that use the function too costly.
- JsText.ParseInt: does not model the rounding of integers too large for a double, because `parseInt` gives an exact integer here.
- OriginalIndex.TagVertices: does not model the `Float32Array`'s rounding of indices above 2^24, because stored integers are kept exact.
- Pick.ClosestVertex: assumes every distance is a real number, because a NaN distance is not modelled. A NaN distance is never `< closestDistance`.
- PositionSelection.ToggleNear: `find` tests `< tolerance` and `filter` keeps `>= tolerance`. These are complementary only when no distance is NaN, and the model's single `near` relation assumes they are.
- ClickTracking.MeshPointer.MouseMove: takes pointer coordinates as integers, because fractional `clientX`/`clientY` values are not modelled.
- Pick.PickVertex: on indexed geometry, it requires the hit face's three slots in the index buffer. It relies on the ray caster for that, because `getX` past the end is not modelled for the index attribute. The main mesh is always de-indexed, so this branch is unused.
- The `console.log` calls are left out because they have no effect on the state.
- `obj-point-identifier/src/App.tsx` and the render tests are not part of this model, because they are layout, file input and DOM smoke tests.
