/** The viewer's own Wavefront OBJ front-end: it keeps the `v ` and `f ` lines
    of the text, reads each face token's vertex reference, and fan-triangulates
    every face into one flat list of 0-based vertex indices. */
module ObjParse {
  import opened JsValues
  import opened JsText

  /** A `v` line's three coordinate tokens. Converting them with `parseFloat`
      is not part of this model. */
  datatype ObjVertex = ObjVertex(x: string, y: string, z: string)

  function Lines(text: string): seq<string> {
    SplitChar(text, '\n')
  }

  /** The 0-based vertex index of a face token such as `5/2/7`: the integer
      before the first `/`, minus one. */
  function FaceRef(token: string): Value {
    Pred(ParseInt(SplitChar(token, '/')[0]))
  }

  /** What a line adds to the vertex list. */
  function LineVertices(line: string): seq<ObjVertex> {
    if StartsWith(line, "v ") then
      var parts := SplitWs(line);
      if |parts| >= 4 then [ObjVertex(parts[1], parts[2], parts[3])] else []
    else []
  }

  /** Fan triangulation: triangle j of a face is (f[0], f[j+1], f[j+2]). */
  function Fan(f: seq<Value>): seq<Value>
    decreases |f|
  {
    if |f| < 3 then [] else Fan(f[..|f| - 1]) + [f[0], f[|f| - 2], f[|f| - 1]]
  }

  function FaceRefsOf(parts: seq<string>): seq<Value> {
    seq(|parts|, k requires 0 <= k < |parts| => FaceRef(parts[k]))
  }

  /** What a line adds to the face-index list. */
  function LineFaces(line: string): seq<Value> {
    if !StartsWith(line, "v ") && StartsWith(line, "f ") then
      Fan(FaceRefsOf(SplitWs(line)[1..]))
    else []
  }

  /** What the lines contribute, one line after the other, in file order. */
  function Collect<T>(lines: seq<string>, per: string -> seq<T>): seq<T>
    decreases |lines|
  {
    if |lines| == 0 then [] else Collect(lines[..|lines| - 1], per) + per(lines[|lines| - 1])
  }

  /** The vertices of a sequence of lines. */
  function ParsedVertices(lines: seq<string>): seq<ObjVertex> {
    Collect(lines, LineVertices)
  }

  /** The face indices of a sequence of lines. */
  function ParsedFaces(lines: seq<string>): seq<Value> {
    Collect(lines, LineFaces)
  }

  // ---------------------------------------------------------------------------
  // The loops of the parser

  /** The loop over a face line's tokens. */
  method ReadFaceRefs(parts: seq<string>) returns (refs: seq<Value>)
    ensures |refs| == |parts|
    ensures forall k :: 0 <= k < |parts| ==> refs[k] == FaceRef(parts[k])
  {
    refs := [];
    for i := 0 to |parts|
      invariant |refs| == i
      invariant forall k :: 0 <= k < i ==> refs[k] == FaceRef(parts[k])
    {
      refs := refs + [FaceRef(parts[i])];
    }
  }

  /** The triangulation loop: pushes one triangle per `i` from 1 to
      `|f| - 2` onto `faces`. */
  method PushFan(faces: seq<Value>, f: seq<Value>) returns (out: seq<Value>)
    ensures out == faces + Fan(f)
  {
    out := faces;
    var i := 1;
    while i < |f| - 1
      invariant 1 <= i
      invariant |f| >= 2 ==> i <= |f| - 1
      invariant out == faces + Fan(f[..if i + 1 <= |f| then i + 1 else |f|])
    {
      assert f[..i + 2][..i + 1] == f[..i + 1];
      out := out + [f[0], f[i], f[i + 1]];
      i := i + 1;
    }
    if |f| < 3 {
      assert Fan(f) == [];
      assert 2 <= |f| ==> f[..2] == f[..|f|];
    } else {
      assert f[..|f|] == f;
    }
  }

  /** The parser: `text.split('\n')`, then each line in turn. */
  method ParseObj(text: string) returns (vertices: seq<ObjVertex>, faces: seq<Value>)
    ensures vertices == ParsedVertices(Lines(text))
    ensures faces == ParsedFaces(Lines(text))
    ensures |faces| % 3 == 0 && Defined(faces)
  {
    var lines := SplitChar(text, '\n');
    vertices, faces := [], [];
    for i := 0 to |lines|
      invariant vertices == ParsedVertices(lines[..i])
      invariant faces == ParsedFaces(lines[..i])
    {
      var line := lines[i];
      assert lines[..i + 1][..i] == lines[..i];
      assert ParsedVertices(lines[..i + 1]) == vertices + LineVertices(line);
      assert ParsedFaces(lines[..i + 1]) == faces + LineFaces(line);
      if StartsWith(line, "v ") {
        var parts := SplitWs(line);
        if |parts| >= 4 {
          vertices := vertices + [ObjVertex(parts[1], parts[2], parts[3])];
        }
      } else if StartsWith(line, "f ") {
        var parts := SplitWs(line)[1..];
        var refs := ReadFaceRefs(parts);
        assert refs == FaceRefsOf(parts);
        faces := PushFan(faces, refs);
      }
    }
    assert lines[..|lines|] == lines;
    ParsedFacesMultipleOf3(lines);
    ParsedFacesDefined(lines);
  }

  // ---------------------------------------------------------------------------
  // Properties

  /** A face with k vertex references gives 3 * max(0, k - 2) indices. */
  lemma {:induction false} FanLength(f: seq<Value>)
    ensures |Fan(f)| == if |f| < 3 then 0 else 3 * (|f| - 2)
    decreases |f|
  {
    if |f| >= 3 {
      FanLength(f[..|f| - 1]);
    }
  }

  /** Triangle j of a face is (f[0], f[j+1], f[j+2]): every triangle starts
      with the face's first vertex. */
  lemma {:induction false} FanTriangle(f: seq<Value>, j: nat)
    requires j + 2 < |f|
    ensures |Fan(f)| == 3 * (|f| - 2)
    ensures Fan(f)[3 * j] == f[0] && Fan(f)[3 * j + 1] == f[j + 1] && Fan(f)[3 * j + 2] == f[j + 2]
    decreases |f|
  {
    FanLength(f);
    var g := f[..|f| - 1];
    FanLength(g);
    if j + 3 < |f| {
      FanTriangle(g, j);
    }
  }

  /** Collecting the lines of `a` and then those of `b` gives their
      contributions in that order. */
  lemma {:induction false} CollectAppend<T>(a: seq<string>, b: seq<string>, per: string -> seq<T>)
    ensures Collect(a + b, per) == Collect(a, per) + Collect(b, per)
    decreases |b|
  {
    if |b| == 0 {
      assert a + b == a;
    } else {
      var b' := b[..|b| - 1];
      CollectAppend(a, b', per);
      assert (a + b)[..|a + b| - 1] == a + b';
      assert (a + b)[|a + b| - 1] == b[|b| - 1];
    }
  }

  lemma {:induction false} CollectWholeTriangles<T>(lines: seq<string>, per: string -> seq<T>)
    requires forall k :: 0 <= k < |lines| ==> |per(lines[k])| % 3 == 0
    ensures |Collect(lines, per)| % 3 == 0
    decreases |lines|
  {
    if |lines| > 0 {
      var init := lines[..|lines| - 1];
      assert forall k :: 0 <= k < |init| ==> init[k] == lines[k];
      CollectWholeTriangles(init, per);
      assert |per(lines[|lines| - 1])| % 3 == 0;
    }
  }

  /** A line that contributes nothing can be dropped. */
  lemma CollectSkip<T>(a: seq<string>, line: string, b: seq<string>, per: string -> seq<T>)
    requires per(line) == []
    ensures Collect(a + [line] + b, per) == Collect(a + b, per)
  {
    CollectAppend(a + [line], b, per);
    CollectAppend(a, [line], per);
    CollectAppend(a, b, per);
    assert [line][..0] == [];
    assert Collect([line], per) == [];
  }

  /** Every line adds whole triangles. */
  lemma LineFacesMultipleOf3(line: string)
    ensures |LineFaces(line)| % 3 == 0
  {
    if !StartsWith(line, "v ") && StartsWith(line, "f ") {
      var f := FaceRefsOf(SplitWs(line)[1..]);
      FanWhole(f);
      assert LineFaces(line) == Fan(f);
    }
  }

  lemma FanWhole(f: seq<Value>)
    ensures |Fan(f)| % 3 == 0
  {
    FanLength(f);
    if |f| >= 3 {
      var k := |f| - 2;
      assert 3 * k % 3 == 0;
    }
  }

  /** The face list always holds whole triangles. */
  lemma ParsedFacesMultipleOf3(lines: seq<string>)
    ensures |ParsedFaces(lines)| % 3 == 0
  {
    forall k | 0 <= k < |lines| ensures |LineFaces(lines[k])| % 3 == 0 {
      LineFacesMultipleOf3(lines[k]);
    }
    CollectWholeTriangles(lines, LineFaces);
  }

  /** Triangulation only copies references. */
  lemma {:induction false} FanDefined(f: seq<Value>)
    requires Defined(f)
    ensures Defined(Fan(f))
    decreases |f|
  {
    if |f| >= 3 {
      FanDefined(f[..|f| - 1]);
      assert Fan(f) == Fan(f[..|f| - 1]) + [f[0], f[|f| - 2], f[|f| - 1]];
    }
  }

  lemma LineFacesDefined(line: string)
    ensures Defined(LineFaces(line))
  {
    if !StartsWith(line, "v ") && StartsWith(line, "f ") {
      FanDefined(FaceRefsOf(SplitWs(line)[1..]));
    }
  }

  /** The face list holds numbers and NaN only: `parseInt(...) - 1` is never
      undefined. */
  lemma {:induction false} ParsedFacesDefined(lines: seq<string>)
    ensures Defined(ParsedFaces(lines))
    decreases |lines|
  {
    if |lines| > 0 {
      ParsedFacesDefined(lines[..|lines| - 1]);
      LineFacesDefined(lines[|lines| - 1]);
      assert ParsedFaces(lines) == ParsedFaces(lines[..|lines| - 1]) + LineFaces(lines[|lines| - 1]);
    }
  }

  /** Vertices and faces come out in file order: those of the lines of `a`,
      then those of the lines of `b`. */
  lemma ParsedAppend(a: seq<string>, b: seq<string>)
    ensures ParsedVertices(a + b) == ParsedVertices(a) + ParsedVertices(b)
    ensures ParsedFaces(a + b) == ParsedFaces(a) + ParsedFaces(b)
  {
    CollectAppend(a, b, LineVertices);
    CollectAppend(a, b, LineFaces);
  }

  /** A line that adds neither a vertex nor a face: not a `v ` or `f ` line, or
      a `v ` line with fewer than four white-space separated parts. */
  predicate Ignored(line: string) {
    (!StartsWith(line, "v ") && !StartsWith(line, "f ")) ||
    (StartsWith(line, "v ") && |SplitWs(line)| < 4)
  }

  /** Removing an ignored line anywhere in the file changes nothing. */
  lemma IgnoredLine(a: seq<string>, line: string, b: seq<string>)
    requires Ignored(line)
    ensures ParsedVertices(a + [line] + b) == ParsedVertices(a + b)
    ensures ParsedFaces(a + [line] + b) == ParsedFaces(a + b)
  {
    assert LineVertices(line) == [] && LineFaces(line) == [];
    CollectSkip(a, line, b, LineVertices);
    CollectSkip(a, line, b, LineFaces);
  }

  /** A face token maps to its integer prefix minus one: the texture and
      normal references after the first `/` are ignored. */
  lemma FaceRefDecimal(d: string, rest: string)
    requires IsDecimal(d)
    requires rest == [] || rest[0] == '/'
    ensures FaceRef(d + rest) == Num(DigitsValue(d, 10) - 1)
  {
    assert forall k :: 0 <= k < |d| ==> d[k] != '/';
    SplitCharFirst(d, '/', rest);
    ParseIntDecimal(d, "");
    assert d + "" == d;
  }

  lemma FaceRefExample()
    ensures FaceRef("5/2/7") == Num(4)
  {
    assert "5/2/7" == "5" + "/2/7";
    FaceRefDecimal("5", "/2/7");
  }

  /** A token with nothing before its first `/` (or an empty token, as a
      trailing blank on a face line leaves) gives NaN. */
  lemma FaceRefNaN(rest: string)
    requires rest == [] || rest[0] == '/'
    ensures FaceRef(rest) == NaN
  {
    SplitCharFirst("", '/', rest);
    assert "" + rest == rest;
  }

  lemma FaceLineShape(line: string)
    requires StartsWith(line, "f ")
    ensures LineFaces(line) == Fan(FaceRefsOf(SplitWs(line)[1..]))
  {
    assert line[0] == 'f';
  }

  lemma VertexLineShape(line: string)
    requires StartsWith(line, "v ") && |SplitWs(line)| >= 4
    ensures LineVertices(line) == [ObjVertex(SplitWs(line)[1], SplitWs(line)[2], SplitWs(line)[3])]
  {
  }

  predicate Words(ts: seq<string>) {
    forall k :: 0 <= k < |ts| ==> |ts[k]| > 0 && NoSpace(ts[k])
  }

  /** A face line `f t1 t2 ... tk` written with single spaces gives the fan of
      its tokens' references. */
  lemma FaceLine(ts: seq<string>)
    requires |ts| >= 1 && Words(ts)
    ensures LineFaces("f " + Join(ts, ' ')) == Fan(FaceRefsOf(ts))
  {
    var line := "f " + Join(ts, ' ');
    FaceLineTokens(ts);
    FaceLineShape(line);
  }

  lemma FaceLineTokens(ts: seq<string>)
    requires |ts| >= 1 && Words(ts)
    ensures StartsWith("f " + Join(ts, ' '), "f ")
    ensures SplitWs("f " + Join(ts, ' '))[1..] == ts
  {
    var all := ["f"] + ts;
    assert NoSpace("f");
    WordsCons("f", ts);
    SplitWsJoin(all);
    JoinCons("f", ts);
    assert all[1..] == ts;
    PrefixF(Join(ts, ' '));
  }

  lemma PrefixF(rest: string)
    ensures StartsWith("f " + rest, "f ")
  {
    assert ("f " + rest)[..2] == "f ";
  }

  lemma WordsCons(w: string, ts: seq<string>)
    requires |w| > 0 && NoSpace(w) && Words(ts)
    ensures Words([w] + ts)
  {
    var all := [w] + ts;
    assert forall k :: 1 <= k < |all| ==> all[k] == ts[k - 1];
  }

  /** A vertex line `v x y z` written with single spaces gives one vertex. */
  lemma VertexLine(x: string, y: string, z: string)
    requires Words([x, y, z])
    ensures LineVertices("v " + Join([x, y, z], ' ')) == [ObjVertex(x, y, z)]
  {
    var line := "v " + Join([x, y, z], ' ');
    var all := ["v", x, y, z];
    assert NoSpace("v");
    assert forall k :: 1 <= k < |all| ==> all[k] == [x, y, z][k - 1];
    assert Words(all);
    SplitWsJoin(all);
    JoinCons("v", [x, y, z]);
    assert all == ["v"] + [x, y, z];
    assert line == Join(all, ' ');
    assert line[..2] == "v ";
    VertexLineShape(line);
  }

  /** A white-space character at the end of a face line (a trailing space, or
      the `\r` a CRLF file leaves before each `\n`) gives an empty last token,
      so the face gets one more triangle, whose last index is NaN. */
  lemma TrailingBlank(ts: seq<string>, c: char)
    requires |ts| >= 3 && Words(ts) && IsSpace(c)
    ensures |LineFaces("f " + Join(ts, ' ') + [c])| == 3 * (|ts| - 1)
    ensures LineFaces("f " + Join(ts, ' ') + [c])[3 * (|ts| - 1) - 1] == NaN
  {
    var line := "f " + Join(ts, ' ') + [c];
    TrailingTokens(ts, c);
    var parts := SplitWs(line)[1..];
    var refs := FaceRefsOf(parts);
    assert |refs| == |ts| + 1;
    FaceRefNaN("");
    assert refs[|ts|] == NaN;
    FanTriangle(refs, |ts| - 2);
    assert line == "f " + (Join(ts, ' ') + [c]);
    PrefixF(Join(ts, ' ') + [c]);
    FaceLineShape(line);
  }

  lemma TrailingTokens(ts: seq<string>, c: char)
    requires |ts| >= 1 && Words(ts) && IsSpace(c)
    ensures SplitWs("f " + Join(ts, ' ') + [c])[1..] == ts + [""]
  {
    var all := ["f"] + ts;
    assert NoSpace("f");
    WordsCons("f", ts);
    JoinCons("f", ts);
    assert "f" + " " == "f ";
    assert Join(all, ' ') + [c] == "f " + Join(ts, ' ') + [c];
    SplitWsTrailing(all, c);
    assert (all + [""])[1..] == ts + [""];
  }

  /** The `\r` of a CRLF file is such a character. */
  lemma CarriageReturnFace(ts: seq<string>)
    requires |ts| >= 3 && Words(ts)
    ensures |LineFaces("f " + Join(ts, ' ') + "\r")| == 3 * (|ts| - 1)
    ensures LineFaces("f " + Join(ts, ' ') + "\r")[3 * (|ts| - 1) - 1] == NaN
  {
    TrailingBlank(ts, '\r');
  }

  lemma JoinCons(head: string, ts: seq<string>)
    requires |ts| >= 1
    ensures Join([head] + ts, ' ') == head + " " + Join(ts, ' ')
  {
    assert ([head] + ts)[1..] == ts;
  }

  /** Tokens joined by single spaces and followed by one white-space
      character split into the tokens and an empty last piece. */
  lemma {:induction false} SplitWsTrailing(ts: seq<string>, c: char)
    requires |ts| >= 1 && Words(ts) && IsSpace(c)
    ensures SplitWs(Join(ts, ' ') + [c]) == ts + [""]
    decreases |ts|
  {
    var sp := [c];
    assert SplitWs(sp) == ["", ""] by {
      assert sp[1..] == "";
    }
    if |ts| == 1 {
      SplitWsWord(ts[0], sp);
      assert ts[0] + "" == ts[0];
    } else {
      var tail := Join(ts[1..], ' ');
      SplitWsTrailing(ts[1..], c);
      JoinStartsWithHead(ts[1..]);
      var u := [' '] + (tail + sp);
      assert u[1..] == tail + sp;
      assert (tail + sp)[0] == tail[0];
      assert SplitWs(u) == [""] + SplitWs(tail + sp);
      SplitWsWord(ts[0], u);
      var rest := SplitWs(tail + sp);
      assert SplitWs(u)[0] == "" && SplitWs(u)[1..] == rest;
      assert ts[0] + "" == ts[0];
      assert SplitWs(ts[0] + u) == [ts[0]] + rest;
      assert Join(ts, ' ') + sp == ts[0] + u;
      assert ts == [ts[0]] + ts[1..];
    }
  }
}
