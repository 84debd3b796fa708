/** The viewer's selection toggle by position. A reported vertex that is near
    an already selected one deselects every selected vertex near it;
    otherwise it is appended. "Near" is a distance below the viewer's
    tolerance of 0.0001, given here as a relation on positions. */
module PositionSelection {
  import opened JsValues
  import opened Pick

  /** Some selected vertex is near `v` (`prev.find(...)` finds one). */
  predicate AnyNear<P(==)>(prev: seq<SelectedVertex<P>>, v: SelectedVertex<P>, near: (P, P) -> bool) {
    exists i :: 0 <= i < |prev| && near(prev[i].position, v.position)
  }

  /** `s` is `t` with some entries left out, the rest in their order. */
  predicate IsSubsequence<T(==)>(s: seq<T>, t: seq<T>)
    decreases |t|
  {
    if |s| == 0 then true
    else if |t| == 0 then false
    else if s[0] == t[0] then IsSubsequence(s[1..], t[1..])
    else IsSubsequence(s, t[1..])
  }

  /** `prev.filter(...)`: the selected vertices not near `v`, in their order. */
  function KeepFar<P(==)>(prev: seq<SelectedVertex<P>>, v: SelectedVertex<P>, near: (P, P) -> bool)
    : (r: seq<SelectedVertex<P>>)
    ensures IsSubsequence(r, prev)
    ensures forall x :: x in r ==> x in prev && !near(x.position, v.position)
    ensures forall x :: x in prev && !near(x.position, v.position) ==> x in r
    decreases |prev|
  {
    if |prev| == 0 then []
    else if near(prev[0].position, v.position) then KeepFar(prev[1..], v, near)
    else [prev[0]] + KeepFar(prev[1..], v, near)
  }

  /** The filter keeps every entry not near `v` as often as it occurs, and
      none near it. */
  lemma {:induction false} KeepFarMultiset<P>(prev: seq<SelectedVertex<P>>, v: SelectedVertex<P>, near: (P, P) -> bool)
    ensures forall x :: x in prev ==>
              multiset(KeepFar(prev, v, near))[x] == if near(x.position, v.position) then 0 else multiset(prev)[x]
    decreases |prev|
  {
    if |prev| > 0 {
      var tail := prev[1..];
      KeepFarMultiset(tail, v, near);
      assert prev == [prev[0]] + tail;
      assert multiset(prev) == multiset([prev[0]]) + multiset(tail);
      var r := KeepFar(prev, v, near);
      var rt := KeepFar(tail, v, near);
      forall x | x in prev
        ensures multiset(r)[x] == if near(x.position, v.position) then 0 else multiset(prev)[x]
      {
        if x !in tail {
          assert x !in rt;
          assert multiset(rt)[x] == 0;
          assert multiset(tail)[x] == 0;
        }
        if !near(prev[0].position, v.position) {
          assert r == [prev[0]] + rt;
          assert multiset(r) == multiset([prev[0]]) + multiset(rt);
        }
      }
    }
  }

  /** `handleVertexSelect`'s update of the selection; None is the `null`
      vertex, which changes nothing. */
  function ToggleNear<P(==)>(prev: seq<SelectedVertex<P>>, vertex: Option<SelectedVertex<P>>, near: (P, P) -> bool)
    : (r: seq<SelectedVertex<P>>)
    ensures vertex.None? ==> r == prev
    ensures vertex.Some? ==> |r| < |prev| || r == prev + [vertex.value]
  {
    match vertex
    case None => prev
    case Some(v) =>
      if AnyNear(prev, v, near) then KeepFarShorter(prev, v, near); KeepFar(prev, v, near) else prev + [v]
  }

  /** What a toggle does. With a vertex near some selected one, the selection
      loses exactly the entries near it, keeps the others in order and with
      their multiplicity, and gets shorter; otherwise the vertex is appended. */
  lemma ToggleNearEffect<P>(prev: seq<SelectedVertex<P>>, v: SelectedVertex<P>, near: (P, P) -> bool)
    ensures var r := ToggleNear(prev, Some(v), near);
            if AnyNear(prev, v, near) then
              IsSubsequence(r, prev) && |r| < |prev| &&
              (forall x :: x in r ==> !near(x.position, v.position)) &&
              (forall x :: x in prev ==> (x in r <==> !near(x.position, v.position))) &&
              (forall x :: x in prev ==> multiset(r)[x] == if near(x.position, v.position) then 0 else multiset(prev)[x])
            else r == prev + [v] && |r| == |prev| + 1
  {
    if AnyNear(prev, v, near) {
      KeepFarShorter(prev, v, near);
      KeepFarMultiset(prev, v, near);
    }
  }

  lemma {:induction false} KeepFarShorter<P>(prev: seq<SelectedVertex<P>>, v: SelectedVertex<P>, near: (P, P) -> bool)
    requires AnyNear(prev, v, near)
    ensures |KeepFar(prev, v, near)| < |prev|
    decreases |prev|
  {
    if !near(prev[0].position, v.position) {
      var i :| 0 <= i < |prev| && near(prev[i].position, v.position);
      assert prev[1..][i - 1] == prev[i];
      KeepFarShorter(prev[1..], v, near);
    } else {
      KeepFarLength(prev[1..], v, near);
    }
  }

  lemma {:induction false} KeepFarLength<P>(prev: seq<SelectedVertex<P>>, v: SelectedVertex<P>, near: (P, P) -> bool)
    ensures |KeepFar(prev, v, near)| <= |prev|
    decreases |prev|
  {
    if |prev| > 0 {
      KeepFarLength(prev[1..], v, near);
    }
  }

  /** A selection with nothing near `v` passes the filter unchanged. */
  lemma {:induction false} KeepFarAll<P>(prev: seq<SelectedVertex<P>>, v: SelectedVertex<P>, near: (P, P) -> bool)
    requires !AnyNear(prev, v, near)
    ensures KeepFar(prev, v, near) == prev
    decreases |prev|
  {
    if |prev| > 0 {
      assert !near(prev[0].position, v.position);
      assert forall i :: 0 <= i < |prev[1..]| ==> prev[1..][i] == prev[i + 1];
      KeepFarAll(prev[1..], v, near);
      assert prev == [prev[0]] + prev[1..];
    }
  }

  lemma {:induction false} KeepFarAppend<P>(a: seq<SelectedVertex<P>>, x: SelectedVertex<P>, v: SelectedVertex<P>, near: (P, P) -> bool)
    ensures KeepFar(a + [x], v, near) == KeepFar(a, v, near) + KeepFar([x], v, near)
    decreases |a|
  {
    if |a| == 0 {
      assert a + [x] == [x];
    } else {
      assert (a + [x])[1..] == a[1..] + [x];
      assert (a + [x])[0] == a[0];
      KeepFarAppend(a[1..], x, v, near);
    }
  }

  /** Clicking the same vertex twice, from a selection with nothing near it,
      gives the selection back (a position is near itself: its distance to
      itself is 0). */
  lemma ToggleNearTwice<P>(prev: seq<SelectedVertex<P>>, v: SelectedVertex<P>, near: (P, P) -> bool)
    requires near(v.position, v.position)
    requires !AnyNear(prev, v, near)
    ensures ToggleNear(ToggleNear(prev, Some(v), near), Some(v), near) == prev
  {
    var once := prev + [v];
    assert ToggleNear(prev, Some(v), near) == once;
    assert once[|prev|] == v;
    assert AnyNear(once, v, near);
    KeepFarAppend(prev, v, v, near);
    KeepFarAll(prev, v, near);
    assert [v][1..] == [];
  }

  /** No two selected vertices near each other. */
  predicate Separated<P(==)>(s: seq<SelectedVertex<P>>, near: (P, P) -> bool) {
    forall i, j :: 0 <= i < j < |s| ==> !near(s[i].position, s[j].position)
  }

  /** With a symmetric `near`, toggling keeps the selection separated. */
  lemma ToggleNearSeparated<P>(prev: seq<SelectedVertex<P>>, vertex: Option<SelectedVertex<P>>, near: (P, P) -> bool)
    requires forall a, b :: near(a, b) == near(b, a)
    requires Separated(prev, near)
    ensures Separated(ToggleNear(prev, vertex, near), near)
  {
    if vertex.Some? {
      var v := vertex.value;
      if AnyNear(prev, v, near) {
        SubsequenceSeparated(KeepFar(prev, v, near), prev, near);
      } else {
        var r := prev + [v];
        forall i, j | 0 <= i < j < |r| ensures !near(r[i].position, r[j].position) {
          if j == |prev| {
            assert !near(prev[i].position, v.position);
          }
        }
      }
    }
  }

  lemma {:induction false} SubsequenceSeparated<P>(s: seq<SelectedVertex<P>>, t: seq<SelectedVertex<P>>, near: (P, P) -> bool)
    requires IsSubsequence(s, t) && Separated(t, near)
    ensures Separated(s, near)
    decreases |t|
  {
    if |s| > 0 && |t| > 0 {
      assert Separated(t[1..], near) by {
        forall i, j | 0 <= i < j < |t| - 1 ensures !near(t[1..][i].position, t[1..][j].position) {
          assert t[1..][i] == t[i + 1] && t[1..][j] == t[j + 1];
        }
      }
      if s[0] == t[0] {
        SubsequenceSeparated(s[1..], t[1..], near);
        SubsequenceIn(s[1..], t[1..]);
        forall i, j | 0 <= i < j < |s| ensures !near(s[i].position, s[j].position) {
          if i == 0 {
            assert s[j] == s[1..][j - 1];
            assert s[j] in s[1..];
            var m :| 0 <= m < |t[1..]| && t[1..][m] == s[j];
            assert t[m + 1] == s[j];
          } else {
            assert s[i] == s[1..][i - 1] && s[j] == s[1..][j - 1];
          }
        }
      } else {
        SubsequenceSeparated(s, t[1..], near);
      }
    }
  }

  lemma {:induction false} SubsequenceIn<T>(s: seq<T>, t: seq<T>)
    requires IsSubsequence(s, t)
    ensures forall x :: x in s ==> x in t
    decreases |t|
  {
    if |s| > 0 && |t| > 0 {
      if s[0] == t[0] {
        SubsequenceIn(s[1..], t[1..]);
        assert s == [s[0]] + s[1..];
      } else {
        SubsequenceIn(s, t[1..]);
      }
    }
  }
}
