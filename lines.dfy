/**
 `DrawLine`, both overloads: the cells of a line between two grid points.
 Axis-parallel lines visit every cell between the endpoints; any other line
 runs along its major axis from the lower end and accumulates the slope in
 `error`, stepping the minor coordinate whenever `error` reaches one half.
 `LinePoints` is the closed form of the cells visited, in visiting order.
 */
module Lines {
  import opened Wrappers
  import opened Seqs
  import opened SphereTypes
  import opened Grids
  import opened SphereLists
  import opened LayoutModel

  function Abs(x: int): nat
  {
    if x < 0 then -x else x
  }

  /** A slanted line after the two swaps of `DrawLine`: major axis first (`steep` when that is
      the `y` axis), lower end of the major axis first. */
  datatype Norm = Norm(steep: bool, a1: int, b1: int, a2: int, b2: int)

  function Normalize(x1: int, y1: int, x2: int, y2: int): (n: Norm)
    ensures n.a1 <= n.a2
    ensures n.a2 - n.a1 == Max(Abs(x2 - x1), Abs(y2 - y1)) && Abs(n.b2 - n.b1) == Min(Abs(x2 - x1), Abs(y2 - y1))
  {
    var steep := Abs(y2 - y1) > Abs(x2 - x1);
    var (a1, b1, a2, b2) := if steep then (y1, x1, y2, x2) else (x1, y1, x2, y2);
    if a1 > a2 then Norm(steep, a2, b2, a1, b1) else Norm(steep, a1, b1, a2, b2)
  }

  /** How far the minor coordinate has moved after `k` steps: the number of times an exact
      `error` reached one half, `floor(k * dB / dA + 1/2)`. */
  function Minor(dA: int, dB: int, k: int): int
    requires dA > 0
  {
    (2 * k * dB + dA) / (2 * dA)
  }

  /** The cell visited at step `k` of a slanted line. */
  function NPoint(n: Norm, k: int): (int, int)
    requires n.a1 < n.a2
  {
    var m := Minor(n.a2 - n.a1, Abs(n.b2 - n.b1), k);
    var a, b := n.a1 + k, if n.b1 < n.b2 then n.b1 + m else n.b1 - m;
    if n.steep then (b, a) else (a, b)
  }

  /** The cells `DrawLine` visits from `(x1, y1)` to `(x2, y2)`, in order. */
  function LinePoints(x1: int, y1: int, x2: int, y2: int): (pts: seq<(int, int)>)
    ensures |pts| == Max(Abs(x2 - x1), Abs(y2 - y1)) + 1
  {
    if y1 == y2 then seq(Abs(x2 - x1) + 1, i => (Min(x1, x2) + i, y1))
    else if x1 == x2 then seq(Abs(y2 - y1) + 1, i => (x1, Min(y1, y2) + i))
    else Slanted(Normalize(x1, y1, x2, y2))
  }

  /** The cells of a normalised slanted line, one per step along the major axis. */
  function Slanted(n: Norm): (pts: seq<(int, int)>)
    requires n.a1 < n.a2
    ensures |pts| == n.a2 - n.a1 + 1
  {
    seq(n.a2 - n.a1 + 1, k requires 0 <= k <= n.a2 - n.a1 => NPoint(n, k))
  }

  lemma MinorEnds(dA: int, dB: int)
    requires dA > 0 && dB >= 0
    ensures Minor(dA, dB, 0) == 0 && Minor(dA, dB, dA) == dB
  {
    DivModUnique(dA, 2 * dA, 0, dA);
    assert 2 * dA * dB + dA == dB * (2 * dA) + dA;
    DivModUnique(2 * dA * dB + dA, 2 * dA, dB, dA);
  }

  /** With a slope of at most one the minor coordinate moves by zero or one per step. */
  lemma MinorStep(dA: int, dB: int, k: int)
    requires 0 <= dB <= dA && dA > 0
    ensures Minor(dA, dB, k) <= Minor(dA, dB, k + 1) <= Minor(dA, dB, k) + 1
  {
    var q, r := Minor(dA, dB, k), (2 * k * dB + dA) % (2 * dA);
    assert 2 * k * dB + dA == q * (2 * dA) + r;
    assert 2 * (k + 1) * dB + dA == q * (2 * dA) + (r + 2 * dB);
    if r + 2 * dB < 2 * dA {
      DivModUnique(2 * (k + 1) * dB + dA, 2 * dA, q, r + 2 * dB);
    } else {
      assert 2 * (k + 1) * dB + dA == (q + 1) * (2 * dA) + (r + 2 * dB - 2 * dA);
      DivModUnique(2 * (k + 1) * dB + dA, 2 * dA, q + 1, r + 2 * dB - 2 * dA);
    }
  }

  /** The minor coordinate never drops below its start: it only grows from step 0. */
  lemma {:induction false} MinorLow(dA: int, dB: int, k: int)
    requires 0 <= dB <= dA && 0 <= k && dA > 0
    ensures 0 <= Minor(dA, dB, k)
    decreases k
  {
    if k == 0 {
      MinorEnds(dA, dB);
    } else {
      MinorLow(dA, dB, k - 1);
      MinorStep(dA, dB, k - 1);
    }
  }

  /** The minor coordinate stays between its two ends. */
  lemma {:induction false} MinorRange(dA: int, dB: int, k: int)
    requires 0 <= dB <= dA && 0 <= k <= dA && dA > 0
    ensures 0 <= Minor(dA, dB, k) <= dB
    decreases dA - k
  {
    MinorLow(dA, dB, k);
    if k == dA {
      MinorEnds(dA, dB);
    } else {
      MinorRange(dA, dB, k + 1);
      MinorStep(dA, dB, k);
    }
  }

  /** The line starts at one endpoint and ends at the other. */
  lemma LineEnds(x1: int, y1: int, x2: int, y2: int)
    ensures var pts := LinePoints(x1, y1, x2, y2);
      {pts[0], pts[|pts| - 1]} == {(x1, y1), (x2, y2)}
  {
    if y1 != y2 && x1 != x2 {
      var n := Normalize(x1, y1, x2, y2);
      MinorEnds(n.a2 - n.a1, Abs(n.b2 - n.b1));
    }
  }

  /** Cell `k` lies `k` steps along the major axis from its lower end: every value between
      the endpoints is visited exactly once, in increasing order. */
  lemma LineMajor(x1: int, y1: int, x2: int, y2: int)
    ensures var pts := LinePoints(x1, y1, x2, y2);
      forall k :: 0 <= k < |pts| ==>
        if Abs(y2 - y1) > Abs(x2 - x1) then pts[k].1 == Min(y1, y2) + k else pts[k].0 == Min(x1, x2) + k
  {
  }

  /** Consecutive cells touch: the minor coordinate moves by at most one per step. */
  lemma LineSteps(x1: int, y1: int, x2: int, y2: int)
    ensures var pts := LinePoints(x1, y1, x2, y2);
      forall k :: 0 <= k < |pts| - 1 ==>
        Abs(pts[k + 1].0 - pts[k].0) <= 1 && Abs(pts[k + 1].1 - pts[k].1) <= 1 && pts[k + 1] != pts[k]
  {
    var pts := LinePoints(x1, y1, x2, y2);
    if y1 != y2 && x1 != x2 {
      var n := Normalize(x1, y1, x2, y2);
      forall k | 0 <= k < |pts| - 1
        ensures Abs(pts[k + 1].0 - pts[k].0) <= 1 && Abs(pts[k + 1].1 - pts[k].1) <= 1 && pts[k + 1] != pts[k]
      {
        SlantedStep(n, k);
      }
    }
  }

  /** One step of a slanted line: one along the major axis, at most one along the other. */
  lemma SlantedStep(n: Norm, k: int)
    requires n.a1 < n.a2 && Abs(n.b2 - n.b1) <= n.a2 - n.a1 && 0 <= k < n.a2 - n.a1
    ensures var p, q := NPoint(n, k), NPoint(n, k + 1);
      Abs(q.0 - p.0) <= 1 && Abs(q.1 - p.1) <= 1 && q != p
  {
    MinorStep(n.a2 - n.a1, Abs(n.b2 - n.b1), k);
  }

  /** A cell of a slanted line lies between the endpoints on the minor axis. */
  lemma SlantedRange(n: Norm, k: int)
    requires n.a1 < n.a2 && Abs(n.b2 - n.b1) <= n.a2 - n.a1 && 0 <= k <= n.a2 - n.a1
    ensures var b := if n.steep then NPoint(n, k).0 else NPoint(n, k).1;
      Min(n.b1, n.b2) <= b <= Max(n.b1, n.b2)
  {
    MinorRange(n.a2 - n.a1, Abs(n.b2 - n.b1), k);
  }

  /** Every cell lies in the rectangle spanned by the endpoints. */
  lemma LineBounds(x1: int, y1: int, x2: int, y2: int)
    ensures var pts := LinePoints(x1, y1, x2, y2);
      forall k :: 0 <= k < |pts| ==>
        Min(x1, x2) <= pts[k].0 <= Max(x1, x2) && Min(y1, y2) <= pts[k].1 <= Max(y1, y2)
  {
    var pts := LinePoints(x1, y1, x2, y2);
    if y1 != y2 && x1 != x2 {
      var n := Normalize(x1, y1, x2, y2);
      forall k | 0 <= k < |pts|
        ensures Min(x1, x2) <= pts[k].0 <= Max(x1, x2) && Min(y1, y2) <= pts[k].1 <= Max(y1, y2)
      {
        SlantedRange(n, k);
      }
    }
  }

  /** Cell `k` of a slanted line, from the normalised endpoints and the minor moves so far. */
  lemma SlantedAt(n: Norm, k: int, s: int)
    requires 0 <= k <= n.a2 - n.a1 && n.a1 < n.a2 && s == Minor(n.a2 - n.a1, Abs(n.b2 - n.b1), k)
    ensures var b := if n.b1 < n.b2 then n.b1 + s else n.b1 - s;
      Slanted(n)[k] == if n.steep then (b, n.a1 + k) else (n.a1 + k, b)
  {
  }

  /** Comparing a scaled quantity with one half. */
  lemma ScaleCompare(r: real, d: real, v: real)
    requires d > 0.0 && r * d == v
    ensures r >= 0.5 <==> 2.0 * v >= d
  {
    if r >= 0.5 {
      assert (r - 0.5) * d >= 0.0;
    } else {
      assert (0.5 - r) * d > 0.0;
    }
  }

  /** The accumulator is kept as `e2 = error * 2 * deltax`, an integer: adding
      `deltaerr = deltay / deltax` to `error` adds `2 * deltay` to `e2`, subtracting one
      subtracts `2 * deltax`, and `error >= 0.5` is `e2 >= deltax`. */
  lemma ScaledError(error: real, e2: int, dA: int, dB: int)
    requires dA > 0 && error * (2 * dA) as real == e2 as real
    ensures var d, e := (2 * dA) as real, error + dB as real / dA as real;
      e * d == (e2 + 2 * dB) as real && (e - 1.0) * d == (e2 + 2 * dB - 2 * dA) as real &&
      (e >= 0.5 <==> e2 + 2 * dB >= dA)
  {
    var d, e := (2 * dA) as real, error + dB as real / dA as real;
    assert (dB as real / dA as real) * d == (2 * dB) as real;
    assert e * d == error * d + (dB as real / dA as real) * d;
    assert (e - 1.0) * d == e * d - d;
    ScaleCompare(e, d, (e2 + 2 * dB) as real);
  }

  /** The scaled accumulator after `k` steps with `s` minor moves: `2 * (k * dB - s * dA)`,
      in `[-dA, dA)`. */
  ghost predicate ErrorIs(e2: int, dA: int, dB: int, k: int, s: int)
  {
    dA > 0 && e2 == 2 * k * dB - 2 * s * dA && -dA <= e2 < dA
  }

  /** An accumulator in range pins down the number of minor moves. */
  lemma ErrorMinor(e2: int, dA: int, dB: int, k: int, s: int)
    requires ErrorIs(e2, dA, dB, k, s)
    ensures s == Minor(dA, dB, k)
  {
    assert 2 * k * dB + dA == s * (2 * dA) + (e2 + dA);
    DivModUnique(2 * k * dB + dA, 2 * dA, s, e2 + dA);
  }

  /** One iteration's `error += deltaerr; if (error >= 0.5) { y += ystep; error -= 1.0; }`. */
  lemma ErrorStep(e2: int, dA: int, dB: int, k: int, s: int)
    requires ErrorIs(e2, dA, dB, k, s) && 0 <= dB <= dA
    ensures e2 + 2 * dB >= dA ==> ErrorIs(e2 + 2 * dB - 2 * dA, dA, dB, k + 1, s + 1)
    ensures e2 + 2 * dB < dA ==> ErrorIs(e2 + 2 * dB, dA, dB, k + 1, s)
  {
    assert 2 * (k + 1) * dB - 2 * (s + 1) * dA == e2 + 2 * dB - 2 * dA;
    assert 2 * (k + 1) * dB - 2 * s * dA == e2 + 2 * dB;
  }

  /** `error += deltaerr; if (error >= 0.5) { y += ystep; error -= 1.0; }` on the scaled
      accumulator, with `deltaerr` scaled alike to `2 * deltay`. */
  method Advance(error: int, deltaerr: int, deltax: int, b: int, ystep: int, ghost dB: int, ghost k: int, ghost s: int)
    returns (error': int, b': int, ghost s': int)
    requires ErrorIs(error, deltax, dB, k, s) && 0 <= dB <= deltax && deltaerr == 2 * dB
    ensures ErrorIs(error', deltax, dB, k + 1, s')
    ensures (s' == s && b' == b) || (s' == s + 1 && b' == b + ystep)
  {
    ErrorStep(error, deltax, dB, k, s);
    error', b', s' := error + deltaerr, b, s;
    if error' >= deltax {
      b' := b' + ystep;
      error' := error' - 2 * deltax;
      s' := s' + 1;
    }
  }

  /** Cell `k` of an axis-parallel line. */
  lemma AxisAt(x1: int, y1: int, x2: int, y2: int, k: int)
    requires 0 <= k < |LinePoints(x1, y1, x2, y2)|
    ensures y1 == y2 ==> LinePoints(x1, y1, x2, y2)[k] == (Min(x1, x2) + k, y1)
    ensures y1 != y2 && x1 == x2 ==> LinePoints(x1, y1, x2, y2)[k] == (x1, Min(y1, y2) + k)
  {
  }

  /** The list cell for a visited point, wrapped onto a `w` by `h` grid. */
  function Locs(w: int, h: int, sphere: SphereType, pts: seq<(int, int)>): (r: seq<SphereLoc>)
    requires w > 0 && h > 0
    ensures |r| == |pts|
  {
    seq(|pts|, i requires 0 <= i < |pts| => SphereLoc(sphere, Wrap(pts[i].0, w), Wrap(pts[i].1, h)))
  }

  /** Every listed cell is wrapped onto the grid, whatever the points. */
  lemma LocsInGrid(w: int, h: int, sphere: SphereType, pts: seq<(int, int)>)
    requires w > 0 && h > 0
    ensures AllInGrid(Locs(w, h, sphere, pts), w, h)
  {
  }

  lemma LocAt(w: int, h: int, sphere: SphereType, pts: seq<(int, int)>, k: int, x: int, y: int)
    requires w > 0 && h > 0 && 0 <= k < |pts| && pts[k] == (x, y)
    ensures Locs(w, h, sphere, pts)[k] == SphereLoc(sphere, Wrap(x, w), Wrap(y, h))
  {
  }

  /** `if (!drawlist.Contains(s)) drawlist.Add(s);` */
  function AddNew(list: seq<SphereLoc>, s: SphereLoc): seq<SphereLoc>
  {
    if Contains(list, s) then list else list + [s]
  }

  /** `List.Contains`: a front-to-back scan with `Equals`, which compares all three fields. */
  function Contains(list: seq<SphereLoc>, s: SphereLoc): (b: bool)
    ensures b <==> s in list
  {
    if list == [] then false else list[0] == s || Contains(list[1..], s)
  }

  /** `AddNew` for each entry of `ss`, in order. */
  function AddAll(list: seq<SphereLoc>, ss: seq<SphereLoc>): seq<SphereLoc>
    decreases |ss|
  {
    if ss == [] then list else AddNew(AddAll(list, ss[..|ss| - 1]), ss[|ss| - 1])
  }

  /** Appending through `AddNew` keeps what the list had, adds exactly the new entries,
      and never creates a duplicate. */
  lemma {:induction false} AddAllSpec(list: seq<SphereLoc>, ss: seq<SphereLoc>)
    ensures var r := AddAll(list, ss);
      |r| >= |list| && r[..|list|] == list &&
      (forall e :: e in r <==> e in list || e in ss) &&
      (NoDup(list) ==> NoDup(r))
    decreases |ss|
  {
    if ss != [] {
      var init := ss[..|ss| - 1];
      AddAllSpec(list, init);
      assert ss == init + [ss[|ss| - 1]];
      var p := AddAll(list, init);
      assert AddAll(list, ss) == AddNew(p, ss[|ss| - 1]);
      if ss[|ss| - 1] !in p {
        assert (p + [ss[|ss| - 1]])[..|list|] == p[..|list|];
      }
    }
  }

  /** The prefix step `AddAll(l, ss[..k + 1]) == AddNew(AddAll(l, ss[..k]), ss[k])`. */
  lemma AddAllPrefix(list: seq<SphereLoc>, ss: seq<SphereLoc>, k: int)
    requires 0 <= k < |ss|
    ensures AddAll(list, ss[..k + 1]) == AddNew(AddAll(list, ss[..k]), ss[k])
  {
    assert ss[..k + 1][..k] == ss[..k];
  }

  /** `if (!drawlist.Contains(s)) drawlist.Add(s);` for cell `k` of the line, at `(x, y)`:
      the list then holds the next prefix of the line's additions. */
  method AddCell(w: int, h: int, sphere: SphereType, ghost drawlist: seq<SphereLoc>, ghost pts: seq<(int, int)>,
                 ghost k: int, x: int, y: int, list: seq<SphereLoc>) returns (r: seq<SphereLoc>)
    requires w > 0 && h > 0 && 0 <= k < |pts| && pts[k] == (x, y)
    requires list == AddAll(drawlist, Locs(w, h, sphere, pts)[..k])
    ensures r == AddAll(drawlist, Locs(w, h, sphere, pts)[..k + 1])
  {
    LocAt(w, h, sphere, pts, k, x, y);
    AddAllPrefix(drawlist, Locs(w, h, sphere, pts), k);
    var s := SphereLoc(sphere, Wrap(x, w), Wrap(y, h));
    r := list;
    if s !in r {
      r := r + [s];
    }
  }

  /** `DrawLine(sphere, x1, y1, x2, y2)`: the wrapped cells of the line, each added to
      `drawlist` unless an equal entry is there already. */
  method DrawLineList(layout: LayoutData, drawlist: seq<SphereLoc>, sphere: SphereType, x1: int, y1: int, x2: int, y2: int)
    returns (r: seq<SphereLoc>)
    requires layout.Valid()
    ensures r == AddAll(drawlist, Locs(layout.Width, layout.Height, sphere, LinePoints(x1, y1, x2, y2)))
  {
    if y1 == y2 || x1 == x2 {
      r := DrawAxisList(layout.Width, layout.Height, drawlist, sphere, x1, y1, x2, y2);
    } else {
      var n := Normalize(x1, y1, x2, y2);
      r := DrawSlantedList(layout.Width, layout.Height, drawlist, sphere, n);
    }
  }

  /** The first two branches of `DrawLine(sphere, ...)`: a row or a column. */
  method DrawAxisList(w: int, h: int, drawlist: seq<SphereLoc>, sphere: SphereType, x1: int, y1: int, x2: int, y2: int)
    returns (r: seq<SphereLoc>)
    requires w > 0 && h > 0 && (y1 == y2 || x1 == x2)
    ensures r == AddAll(drawlist, Locs(w, h, sphere, LinePoints(x1, y1, x2, y2)))
  {
    ghost var pts := LinePoints(x1, y1, x2, y2);
    var horizontal := y1 == y2;
    var lo, hi := if horizontal then Min(x1, x2) else Min(y1, y2), if horizontal then Max(x1, x2) else Max(y1, y2);
    r := drawlist;
    ghost var k := 0;
    for i := lo to hi + 1
      invariant k == i - lo && r == AddAll(drawlist, Locs(w, h, sphere, pts)[..k])
    {
      AxisAt(x1, y1, x2, y2, k);
      var x, y := if horizontal then i else x1, if horizontal then y1 else i;
      r := AddCell(w, h, sphere, drawlist, pts, k, x, y, r);
      k := k + 1;
    }
    assert Locs(w, h, sphere, pts)[..k] == Locs(w, h, sphere, pts);
  }

  /** The last branch of `DrawLine(sphere, ...)`: the normalised line walked along its major
      axis, with `error` deciding when the minor coordinate moves. */
  method DrawSlantedList(w: int, h: int, drawlist: seq<SphereLoc>, sphere: SphereType, n: Norm)
    returns (r: seq<SphereLoc>)
    requires w > 0 && h > 0 && n.a1 < n.a2 && Abs(n.b2 - n.b1) <= n.a2 - n.a1
    ensures r == AddAll(drawlist, Locs(w, h, sphere, Slanted(n)))
  {
    ghost var pts := Slanted(n);
    var steep, a1, b1, a2, b2 := n.steep, n.a1, n.b1, n.a2, n.b2;
    var deltax := a2 - a1;
    var deltay := Abs(b2 - b1);
    var error := 0;
    var deltaerr := 2 * deltay;
    var ystep := if b1 < b2 then 1 else -1;
    var b := b1;
    ghost var s, k := 0, 0;
    r := drawlist;
    for a := a1 to a2 + 1
      invariant k == a - a1 && ErrorIs(error, deltax, deltay, k, s)
      invariant b == if b1 < b2 then b1 + s else b1 - s
      invariant r == AddAll(drawlist, Locs(w, h, sphere, pts)[..k])
    {
      ErrorMinor(error, deltax, deltay, k, s);
      SlantedAt(n, k, s);
      var x, y := if steep then b else a, if steep then a else b;
      r := AddCell(w, h, sphere, drawlist, pts, k, x, y, r);
      error, b, s := Advance(error, deltaerr, deltax, b, ystep, deltay, k, s);
      k := k + 1;
    }
    assert Locs(w, h, sphere, pts)[..k] == Locs(w, h, sphere, pts);
  }

  /** Every listed point lies inside a `w` by `h` array. */
  predicate AllInside(pts: seq<(int, int)>, w: int, h: int)
  {
    forall k :: 0 <= k < |pts| ==> 0 <= pts[k].0 < w && 0 <= pts[k].1 < h
  }

  /** The grid `g` with value `v` written at every listed cell inside it, in order. */
  function Paint<T>(g: seq<seq<T>>, w: int, h: int, pts: seq<(int, int)>, v: T): (r: seq<seq<T>>)
    requires IsGrid(g, w, h)
    ensures IsGrid(r, w, h)
    decreases |pts|
  {
    if pts == [] then g
    else
      var p := pts[|pts| - 1];
      var r := Paint(g, w, h, pts[..|pts| - 1], v);
      if 0 <= p.0 < w && 0 <= p.1 < h then Set(r, p.0, p.1, v) else r
  }

  /** A painted cell holds `v` exactly when it is listed; every other cell keeps its value. */
  lemma {:induction false} PaintCells<T>(g: seq<seq<T>>, w: int, h: int, pts: seq<(int, int)>, v: T)
    requires IsGrid(g, w, h)
    ensures forall cx, cy :: 0 <= cx < w && 0 <= cy < h ==>
      Paint(g, w, h, pts, v)[cx][cy] == if (cx, cy) in pts then v else g[cx][cy]
    decreases |pts|
  {
    if pts != [] {
      var init := pts[..|pts| - 1];
      assert pts == init + [pts[|pts| - 1]];
      PaintCells(g, w, h, init, v);
    }
  }

  /** `DrawLine(rect, sphere, x1, y1, x2, y2)` indexes `rect` without wrap-around, so the
      whole line must lie inside it. */
  predicate LineInside(x1: int, y1: int, x2: int, y2: int, w: int, h: int)
  {
    AllInside(LinePoints(x1, y1, x2, y2), w, h)
  }

  /** `DrawLine(rect, sphere, x1, y1, x2, y2)`: every cell of the line gets `sphere`. */
  method DrawLineRect(rect: array2<Option<SphereType>>, sphere: SphereType, x1: int, y1: int, x2: int, y2: int)
    requires LineInside(x1, y1, x2, y2, rect.Length0, rect.Length1)
    modifies rect
    ensures Holds(rect, Paint(old(Snapshot(rect)), rect.Length0, rect.Length1, LinePoints(x1, y1, x2, y2), Some(sphere)))
  {
    if y1 == y2 || x1 == x2 {
      DrawAxisRect(rect, sphere, x1, y1, x2, y2);
    } else {
      var n := Normalize(x1, y1, x2, y2);
      DrawSlantedRect(rect, sphere, n);
    }
  }

  /** `rect[x, y] = v` for cell `k` of the line: the array then holds the next prefix of the
      painted grid. */
  method PaintCell<T>(rect: array2<T>, ghost g: seq<seq<T>>, ghost pts: seq<(int, int)>, ghost k: int, x: int, y: int, v: T)
    requires IsGrid(g, rect.Length0, rect.Length1) && 0 <= k < |pts| && pts[k] == (x, y)
    requires 0 <= x < rect.Length0 && 0 <= y < rect.Length1
    requires Holds(rect, Paint(g, rect.Length0, rect.Length1, pts[..k], v))
    modifies rect
    ensures Holds(rect, Paint(g, rect.Length0, rect.Length1, pts[..k + 1], v))
  {
    assert pts[..k + 1][..k] == pts[..k];
    HoldsUnique(rect, Paint(g, rect.Length0, rect.Length1, pts[..k], v));
    rect[x, y] := v;
  }

  /** The first two branches of `DrawLine(rect, ...)`. */
  method DrawAxisRect(rect: array2<Option<SphereType>>, sphere: SphereType, x1: int, y1: int, x2: int, y2: int)
    requires y1 == y2 || x1 == x2
    requires LineInside(x1, y1, x2, y2, rect.Length0, rect.Length1)
    modifies rect
    ensures Holds(rect, Paint(old(Snapshot(rect)), rect.Length0, rect.Length1, LinePoints(x1, y1, x2, y2), Some(sphere)))
  {
    ghost var g := Snapshot(rect);
    ghost var pts := LinePoints(x1, y1, x2, y2);
    var horizontal := y1 == y2;
    var lo, hi := if horizontal then Min(x1, x2) else Min(y1, y2), if horizontal then Max(x1, x2) else Max(y1, y2);
    assert pts[..0] == [];
    ghost var k := 0;
    for i := lo to hi + 1
      invariant k == i - lo && Holds(rect, Paint(g, rect.Length0, rect.Length1, pts[..k], Some(sphere)))
    {
      AxisAt(x1, y1, x2, y2, k);
      var x, y := if horizontal then i else x1, if horizontal then y1 else i;
      PaintCell(rect, g, pts, k, x, y, Some(sphere));
      k := k + 1;
    }
    assert pts[..k] == pts;
  }

  /** The last branch of `DrawLine(rect, ...)`. */
  method DrawSlantedRect(rect: array2<Option<SphereType>>, sphere: SphereType, n: Norm)
    requires n.a1 < n.a2 && Abs(n.b2 - n.b1) <= n.a2 - n.a1
    requires AllInside(Slanted(n), rect.Length0, rect.Length1)
    modifies rect
    ensures Holds(rect, Paint(old(Snapshot(rect)), rect.Length0, rect.Length1, Slanted(n), Some(sphere)))
  {
    ghost var g := Snapshot(rect);
    ghost var pts := Slanted(n);
    var steep, a1, b1, a2, b2 := n.steep, n.a1, n.b1, n.a2, n.b2;
    var deltax := a2 - a1;
    var deltay := Abs(b2 - b1);
    var error := 0;
    var deltaerr := 2 * deltay;
    var ystep := if b1 < b2 then 1 else -1;
    var b := b1;
    ghost var s, k := 0, 0;
    assert pts[..0] == [];
    for a := a1 to a2 + 1
      invariant k == a - a1 && ErrorIs(error, deltax, deltay, k, s)
      invariant b == if b1 < b2 then b1 + s else b1 - s
      invariant Holds(rect, Paint(g, rect.Length0, rect.Length1, pts[..k], Some(sphere)))
    {
      ErrorMinor(error, deltax, deltay, k, s);
      SlantedAt(n, k, s);
      var x, y := if steep then b else a, if steep then a else b;
      PaintCell(rect, g, pts, k, x, y, Some(sphere));
      error, b, s := Advance(error, deltaerr, deltax, b, ystep, deltay, k, s);
      k := k + 1;
    }
    assert pts[..k] == pts;
  }
}
