/**
 The toroidal grid as a value: `g[x][y]` is the cell in column `x`, row `y`,
 as in `SphereType[Width, Height]`. Coordinate wrap-around and the link
 between a 2-D array and its value live here.
 */
module Grids {
  import opened SphereTypes

  type Grid = seq<seq<SphereType>>

  /** A `w` by `h` rectangle of values, indexed `[x][y]`. */
  predicate IsGrid<T>(g: seq<seq<T>>, w: int, h: int)
  {
    |g| == w && forall x :: 0 <= x < w ==> |g[x]| == h
  }

  /** A grid with at least one cell, as every layout has. */
  predicate WfGrid<T>(g: seq<seq<T>>)
  {
    |g| > 0 && |g[0]| > 0 && IsGrid(g, |g|, |g[0]|)
  }

  function Width<T>(g: seq<seq<T>>): nat
  {
    |g|
  }

  function Height<T>(g: seq<seq<T>>): nat
  {
    if |g| == 0 then 0 else |g[0]|
  }

  /** A product of a positive size and a nonzero integer is at least the size away from zero. */
  lemma MulBound(k: int, n: int)
    requires n > 0
    ensures k >= 1 ==> k * n >= n
    ensures k <= -1 ==> k * n <= -n
  {
  }

  /** Euclidean division is determined by its defining equation. */
  lemma DivModUnique(x: int, n: int, q: int, r: int)
    requires n > 0 && 0 <= r < n && x == q * n + r
    ensures x / n == q && x % n == r
  {
    var q', r' := x / n, x % n;
    assert x == q' * n + r';
    assert (q' - q) * n == r - r';
    MulBound(q' - q, n);
  }

  /** C#'s `%` on `int`: the remainder takes the sign of the dividend. */
  function TruncRem(a: int, b: int): (r: int)
    requires b > 0
    ensures -b < r < b
    ensures a >= 0 ==> r >= 0
    ensures a < 0 ==> r <= 0
  {
    if a >= 0 then a % b else -((-a) % b)
  }

  /** The cell index `x` lands on in a ring of `n` cells (Dafny's `%` is Euclidean). */
  function Wrap(x: int, n: int): (r: int)
    requires n > 0
    ensures 0 <= r < n
  {
    x % n
  }

  /** `LayoutData.WrapH`/`WrapV` compute `x %= n; if (x < 0) x += n;` with C#'s truncating
      remainder; that is `Wrap`. */
  lemma WrapIsFloorMod(x: int, n: int)
    requires n > 0
    ensures var t := TruncRem(x, n); (if t < 0 then t + n else t) == Wrap(x, n)
  {
    if x < 0 {
      var m := -x;
      var q, rem := m / n, m % n;
      assert m == q * n + rem;
      if rem == 0 {
        DivModUnique(x, n, -q, 0);
      } else {
        assert x == (-q - 1) * n + (n - rem);
        DivModUnique(x, n, -q - 1, n - rem);
      }
    }
  }

  /** Wrapping is periodic: shifting by any multiple of the size changes nothing. */
  lemma WrapPeriodic(x: int, k: int, n: int)
    requires n > 0
    ensures Wrap(x + k * n, n) == Wrap(x, n)
  {
    var q, r := x / n, x % n;
    assert x == q * n + r;
    assert x + k * n == (q + k) * n + r;
    DivModUnique(x + k * n, n, q + k, r);
  }

  /** Wrapping is the identity on `[0, n)`. */
  lemma WrapIdentity(x: int, n: int)
    requires 0 <= x < n
    ensures Wrap(x, n) == x
  {
    DivModUnique(x, n, 0, x);
  }

  /** Wrapping `c - o` lands inside `[0, m)` exactly when `c` lies in `[o, o + m)`, provided
      the window fits in the period. */
  lemma WrapWindow(c: int, o: int, m: int, n: int)
    requires 0 <= c < n && 0 <= o && 0 <= m && o + m <= n
    ensures Wrap(c - o, n) < m <==> o <= c < o + m
    ensures o <= c ==> Wrap(c - o, n) == c - o
  {
    if o <= c {
      WrapIdentity(c - o, n);
    } else {
      WrapPeriodic(c - o, 1, n);
      WrapIdentity(c - o + n, n);
    }
  }

  /** Two coordinates less than a period apart that wrap to the same cell are equal. */
  lemma WrapInjective(a: int, b: int, n: int)
    requires n > 0 && -n < a - b < n
    requires Wrap(a, n) == Wrap(b, n)
    ensures a == b
  {
    ModInjective(a, b, n);
  }

  /** Two integers less than `n` apart with the same remainder modulo `n` are equal. */
  lemma ModInjective(a: int, b: int, n: int)
    requires n > 0 && -n < a - b < n && a % n == b % n
    ensures a == b
  {
    var qa, qb := a / n, b / n;
    assert a == qa * n + a % n;
    assert b == qb * n + b % n;
    assert a - b == (qa - qb) * n;
    MulBound(qa - qb, n);
  }


  /** Wrapping the first summand first gives the same cell. */
  lemma WrapAdd(a: int, b: int, n: int)
    requires n > 0
    ensures Wrap(Wrap(a, n) + b, n) == Wrap(a + b, n)
  {
    var q := a / n;
    assert a == q * n + Wrap(a, n);
    WrapPeriodic(Wrap(a, n) + b, q, n);
    assert Wrap(a, n) + b + q * n == a + b;
  }

  /** The cell `(x, y)` replaced by `v`. */
  function Set<T>(g: seq<seq<T>>, x: int, y: int, v: T): (r: seq<seq<T>>)
    requires 0 <= x < |g| && 0 <= y < |g[x]|
    ensures |r| == |g| && forall i :: 0 <= i < |g| ==> |r[i]| == |g[i]|
  {
    var row := g[x][y := v];
    g[x := row]
  }

  /** Two grids of one shape with the same cells are the same grid. */
  lemma GridExt<T>(g: seq<seq<T>>, h: seq<seq<T>>, w: int, ht: int)
    requires IsGrid(g, w, ht) && IsGrid(h, w, ht)
    requires forall x, y :: 0 <= x < w && 0 <= y < ht ==> g[x][y] == h[x][y]
    ensures g == h
  {
    assert forall x :: 0 <= x < w ==> g[x] == h[x];
  }

  /** The array holds exactly the cells of `g`. */
  ghost predicate Holds<T>(a: array2<T>, g: seq<seq<T>>)
    reads a
  {
    IsGrid(g, a.Length0, a.Length1) &&
    forall x, y :: 0 <= x < a.Length0 && 0 <= y < a.Length1 ==> a[x, y] == g[x][y]
  }

  /** The contents of a 2-D array as a value (a copy, like `Array.Clone`). */
  function Snapshot<T>(a: array2<T>): (g: seq<seq<T>>)
    reads a
    ensures Holds(a, g)
  {
    seq(a.Length0, x requires 0 <= x < a.Length0 reads a =>
      seq(a.Length1, y requires 0 <= y < a.Length1 reads a => a[x, y]))
  }

  /** Only one value is held by an array. */
  lemma HoldsUnique<T>(a: array2<T>, g: seq<seq<T>>)
    requires Holds(a, g)
    ensures g == Snapshot(a)
  {
    GridExt(g, Snapshot(a), a.Length0, a.Length1);
  }

  /** `(SphereType[,])Layout.Clone()`: a fresh array with the same cells. */
  method CloneArray<T>(a: array2<T>) returns (c: array2<T>)
    ensures fresh(c) && c.Length0 == a.Length0 && c.Length1 == a.Length1
    ensures Holds(c, Snapshot(a))
  {
    c := new T[a.Length0, a.Length1]((x, y) requires 0 <= x < a.Length0 && 0 <= y < a.Length1 reads a => a[x, y]);
  }
}
