/**
 `SphereLoc` and the value-level meaning of `SphereListAction.Do`: each listed
 cell is swapped with the entry's sphere in list order, then the list is
 reversed (`spheres.Reverse()`), so the next `Do` visits the cells backwards.
 */
module SphereLists {
  import opened SphereTypes
  import opened Grids

  /** A sphere at a grid position (`SphereLoc`); the C# object's `Sphere` is mutable,
      here an updated entry is a new value. */
  datatype SphereLoc = SphereLoc(sphere: SphereType, x: int, y: int)

  /** `SphereLoc.Equals`: field-wise equality, which is value equality. */
  predicate Equals(a: SphereLoc, b: SphereLoc): (r: bool)
    ensures r <==> a == b
  {
    a.sphere == b.sphere && a.x == b.x && a.y == b.y
  }

  /** All entries name cells of a `w` by `h` grid (the list is indexed without wrapping). */
  predicate AllInGrid(s: seq<SphereLoc>, w: int, h: int)
  {
    forall i :: 0 <= i < |s| ==> 0 <= s[i].x < w && 0 <= s[i].y < h
  }

  /** Two lists naming the same cells in the same order. */
  predicate SamePositions(s: seq<SphereLoc>, t: seq<SphereLoc>)
  {
    |s| == |t| && forall i :: 0 <= i < |s| ==> s[i].x == t[i].x && s[i].y == t[i].y
  }

  /** One iteration of the loop: swap the cell with the entry's sphere. */
  function Step(g: Grid, l: SphereLoc): (r: (Grid, SphereLoc))
    requires WfGrid(g) && 0 <= l.x < Width(g) && 0 <= l.y < Height(g)
    ensures WfGrid(r.0) && IsGrid(r.0, Width(g), Height(g)) && r.1.x == l.x && r.1.y == l.y
  {
    (Set(g, l.x, l.y, l.sphere), SphereLoc(g[l.x][l.y], l.x, l.y))
  }

  /** The `foreach` loop over the whole list. */
  function SwapAll(g: Grid, s: seq<SphereLoc>): (r: (Grid, seq<SphereLoc>))
    requires WfGrid(g) && AllInGrid(s, Width(g), Height(g))
    ensures WfGrid(r.0) && IsGrid(r.0, Width(g), Height(g)) && SamePositions(r.1, s)
    decreases |s|
  {
    if s == [] then (g, [])
    else
      var (g1, s1) := SwapAll(g, s[..|s| - 1]);
      var (g2, l) := Step(g1, s[|s| - 1]);
      (g2, s1 + [l])
  }

  function Reverse<T>(s: seq<T>): (r: seq<T>)
    ensures |r| == |s| && forall i :: 0 <= i < |s| ==> r[i] == s[|s| - 1 - i]
  {
    if s == [] then [] else Reverse(s[1..]) + [s[0]]
  }

  /** One `SphereListAction.Do`: the new grid and the list the action keeps. */
  function SphereListApply(g: Grid, s: seq<SphereLoc>): (r: (Grid, seq<SphereLoc>))
    requires WfGrid(g) && AllInGrid(s, Width(g), Height(g))
    ensures IsGrid(r.0, Width(g), Height(g)) && AllInGrid(r.1, Width(g), Height(g))
  {
    var (g1, s1) := SwapAll(g, s);
    (g1, Reverse(s1))
  }

  /** Swapping the same cell twice gives both the cell and the entry back. */
  lemma StepTwice(g: Grid, l: SphereLoc)
    requires WfGrid(g) && 0 <= l.x < Width(g) && 0 <= l.y < Height(g)
    ensures Step(Step(g, l).0, Step(g, l).1) == (g, l)
  {
    var (g1, l1) := Step(g, l);
    GridExt(Step(g1, l1).0, g, Width(g), Height(g));
  }

  /** Both halves of a list of cells in the grid are lists of cells in the grid. */
  lemma AllInGridSplit(a: seq<SphereLoc>, b: seq<SphereLoc>, w: int, h: int)
    requires AllInGrid(a + b, w, h)
    ensures AllInGrid(a, w, h) && AllInGrid(b, w, h)
  {
    forall i | 0 <= i < |a| ensures 0 <= a[i].x < w && 0 <= a[i].y < h {
      assert a[i] == (a + b)[i];
    }
    forall i | 0 <= i < |b| ensures 0 <= b[i].x < w && 0 <= b[i].y < h {
      assert b[i] == (a + b)[|a| + i];
    }
  }

  /** The loop over `a + b` is the loop over `a` followed by the loop over `b`. */
  lemma {:induction false} SwapAllAppend(g: Grid, a: seq<SphereLoc>, b: seq<SphereLoc>)
    requires WfGrid(g) && AllInGrid(a + b, Width(g), Height(g))
    ensures AllInGrid(a, Width(g), Height(g)) && AllInGrid(b, Width(g), Height(g))
    ensures
      var ra := SwapAll(g, a);
      var rb := SwapAll(ra.0, b);
      SwapAll(g, a + b) == (rb.0, ra.1 + rb.1)
    decreases |b|
  {
    AllInGridSplit(a, b, Width(g), Height(g));
    var ra := SwapAll(g, a);
    if b == [] {
      assert a + b == a;
      assert ra.1 + [] == ra.1;
    } else {
      var b', l := b[..|b| - 1], b[|b| - 1];
      assert a + b == (a + b') + [l];
      AllInGridSplit(a + b', [l], Width(g), Height(g));
      SwapAllAppend(g, a, b');
      var rb' := SwapAll(ra.0, b');
      var st := Step(rb'.0, l);
      assert SwapAll(ra.0, b) == (st.0, rb'.1 + [st.1]);
      assert SwapAll(g, a + b) == (st.0, (ra.1 + rb'.1) + [st.1]);
      assert (ra.1 + rb'.1) + [st.1] == ra.1 + (rb'.1 + [st.1]);
    }
  }

  /** The loop over one entry is one swap. */
  lemma SwapAllSingle(g: Grid, l: SphereLoc)
    requires WfGrid(g) && 0 <= l.x < Width(g) && 0 <= l.y < Height(g)
    ensures AllInGrid([l], Width(g), Height(g))
    ensures SwapAll(g, [l]) == (Step(g, l).0, [Step(g, l).1])
  {
    assert [l][..0] == [];
    assert SwapAll(g, []) == (g, []);
    assert [] + [Step(g, l).1] == [Step(g, l).1];
  }

  lemma ReverseSnoc<T>(a: seq<T>, x: T)
    ensures Reverse(a + [x]) == [x] + Reverse(a)
  {
    assert Reverse(a + [x])[1..] == Reverse(a);
  }

  /** Reversing a list keeps its cells in the grid. */
  lemma AllInGridReverse(s: seq<SphereLoc>, w: int, h: int)
    requires AllInGrid(s, w, h)
    ensures AllInGrid(Reverse(s), w, h)
  {
    var r := Reverse(s);
    forall i | 0 <= i < |r| ensures 0 <= r[i].x < w && 0 <= r[i].y < h {
      assert r[i] == s[|s| - 1 - i];
    }
  }

  /** A list naming the same cells as a list in the grid is in the grid. */
  lemma AllInGridSame(s: seq<SphereLoc>, t: seq<SphereLoc>, w: int, h: int)
    requires SamePositions(s, t) && AllInGrid(t, w, h)
    ensures AllInGrid(s, w, h)
  {
    forall i | 0 <= i < |s| ensures 0 <= s[i].x < w && 0 <= s[i].y < h {
      assert s[i].x == t[i].x && s[i].y == t[i].y;
    }
  }

  /** Running the loop over the kept entries in reverse order undoes the loop. */
  lemma {:induction false} SwapAllReversed(g: Grid, s: seq<SphereLoc>)
    requires WfGrid(g) && AllInGrid(s, Width(g), Height(g))
    ensures AllInGrid(Reverse(SwapAll(g, s).1), Width(g), Height(g))
    ensures SwapAll(SwapAll(g, s).0, Reverse(SwapAll(g, s).1)) == (g, Reverse(s))
    decreases |s|
  {
    if s == [] {
      assert Reverse(SwapAll(g, s).1) == [];
    } else {
      var a, l := s[..|s| - 1], s[|s| - 1];
      assert s == a + [l];
      AllInGridSplit(a, [l], Width(g), Height(g));
      var ga, a1 := SwapAll(g, a).0, SwapAll(g, a).1;
      var gl, l1 := Step(ga, l).0, Step(ga, l).1;
      assert SwapAll(g, s) == (gl, a1 + [l1]);
      AllInGridSame(SwapAll(g, s).1, s, Width(g), Height(g));
      AllInGridReverse(SwapAll(g, s).1, Width(g), Height(g));
      SwapAllReversed(g, a);
      StepTwice(ga, l);
      SwapAllSingle(gl, l1);
      ReverseSnoc(a1, l1);
      SwapAllAppend(gl, [l1], Reverse(a1));
      ReverseSnoc(a, l);
    }
  }

  lemma ReverseReverse<T>(s: seq<T>)
    ensures Reverse(Reverse(s)) == s
  {
    assert |Reverse(Reverse(s))| == |s|;
  }

  /** `SphereListAction.Do` twice restores every cell and the list itself, also when
      a position occurs more than once in the list. */
  lemma SphereListApplyTwice(g: Grid, s: seq<SphereLoc>)
    requires WfGrid(g) && AllInGrid(s, Width(g), Height(g))
    ensures
      var (g1, s1) := SphereListApply(g, s);
      WfGrid(g1) && SphereListApply(g1, s1) == (g, s)
  {
    SwapAllReversed(g, s);
    ReverseReverse(s);
  }
}
