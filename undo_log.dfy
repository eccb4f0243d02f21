/**
 The editor's undo and redo stacks (`MainForm.undoList`, `redoList`,
 `lastSaveUndoCount`). Each stack holds action objects; undoing pops an
 action, runs its `Do` (which reverts it) and pushes it on the other stack.
 The ghost `history` is the line of layouts the stacks can reach: the layout
 is `history[|undoList|]`, the undo stack leads back to `history[0]` and the
 redo stack forward to the last entry.
 */
module UndoLog {
  import opened Seqs
  import opened Grids
  import opened LayoutModel
  import opened Actions

  /** Running `Do` on `d` takes the layout `from` to `to`, and the kept payload is again undoable. */
  ghost predicate Leads(d: ActionData, from: Stage, to: Stage)
  {
    WfGrid(from.grid) && ValidAction(d, Width(from.grid), Height(from.grid)) && Reversible(d) &&
    Apply(from, d).0 == to
  }

  /** After a `Do`, the kept payload leads back. */
  lemma LeadsBack(d: ActionData, from: Stage, to: Stage)
    requires Leads(d, from, to)
    ensures Leads(Apply(from, d).1, to, from)
  {
    ApplyTwice(from, d);
  }

  /** A sequence whose entries are entries of a distinct sequence, taken from different places. */
  lemma DistinctMap(s: seq<Action>, t: seq<Action>, f: int -> int)
    requires NoDup(s)
    requires forall k :: 0 <= k < |t| ==> 0 <= f(k) < |s| && t[k] == s[f(k)]
    requires forall i, j :: 0 <= i < j < |t| ==> f(i) != f(j)
    ensures NoDup(t)
  {
  }

  /** A stack popped once more is a shorter prefix of the stack it started from. */
  lemma PrefixOfPrefix<T>(s: seq<T>, a: int, b: int)
    requires 0 <= b <= a <= |s|
    ensures s[..a][..b] == s[..b]
  {
  }

  /** The payloads of a stack of action objects. */
  function DataOf(s: seq<Action>): (r: seq<ActionData>)
    reads s
    ensures |r| == |s| && forall i :: 0 <= i < |s| ==> r[i] == s[i].data
  {
    seq(|s|, i requires 0 <= i < |s| reads s => s[i].data)
  }

  /** Undo entry `i` leads from `h[i + 1]` back to `h[i]`. */
  ghost predicate UndoEntry(h: seq<Stage>, u: seq<ActionData>, i: int)
  {
    0 <= i < |u| && i + 1 < |h| && Leads(u[i], h[i + 1], h[i])
  }

  /** Redo entry `j`, counted from the bottom of the stack, leads forward from
      `h[|h| - 2 - j]` to `h[|h| - 1 - j]`. */
  ghost predicate RedoEntry(h: seq<Stage>, r: seq<ActionData>, j: int)
  {
    0 <= j < |r| && 0 <= |h| - 2 - j && Leads(r[j], h[|h| - 2 - j], h[|h| - 1 - j])
  }

  /** The stacks against the history: the undo stack leads back from the current layout
      `h[|u|]` to `h[0]`, and the redo stack, top last, leads forward from it to the last entry. */
  ghost predicate Log(h: seq<Stage>, u: seq<ActionData>, r: seq<ActionData>)
  {
    |h| == |u| + |r| + 1 &&
    (forall i :: 0 <= i < |u| ==> UndoEntry(h, u, i)) &&
    (forall j :: 0 <= j < |r| ==> RedoEntry(h, r, j))
  }

  /** Without the redo stack, the history ends at the current layout. */
  lemma LogTruncate(h: seq<Stage>, u: seq<ActionData>, r: seq<ActionData>)
    requires Log(h, u, r)
    ensures Log(h[..|u| + 1], u, [])
  {
    var h' := h[..|u| + 1];
    forall i | 0 <= i < |u| ensures UndoEntry(h', u, i) {
      assert UndoEntry(h, u, i);
      assert h'[i] == h[i] && h'[i + 1] == h[i + 1];
    }
  }

  /** A new action, run on the current layout, ends the history there and extends it by one. */
  lemma LogPush(h: seq<Stage>, u: seq<ActionData>, r: seq<ActionData>, d: ActionData, to: Stage)
    requires Log(h, u, []) && Leads(d, h[|u|], to)
    ensures Log(h + [to], u + [Apply(h[|u|], d).1], [])
  {
    LeadsBack(d, h[|u|], to);
    var h', u' := h + [to], u + [Apply(h[|u|], d).1];
    forall i | 0 <= i < |u'| ensures UndoEntry(h', u', i) {
      if i < |u| {
        assert UndoEntry(h, u, i);
        assert u'[i] == u[i] && h'[i] == h[i] && h'[i + 1] == h[i + 1];
      } else {
        assert h'[i + 1] == to && h'[i] == h[|u|];
      }
    }
  }

  /** Undoing the top action moves it, with its new payload, to the redo stack. */
  lemma LogUndo(h: seq<Stage>, u: seq<ActionData>, r: seq<ActionData>)
    requires Log(h, u, r) && |u| > 0
    ensures var n := |u|; UndoEntry(h, u, n - 1) && Log(h, u[..n - 1], r + [Apply(h[n], u[n - 1]).1])
  {
    var n := |u|;
    assert UndoEntry(h, u, n - 1);
    LeadsBack(u[n - 1], h[n], h[n - 1]);
    UndoPrefix(h, u, n - 1);
    RedoExtend(h, n - 1, r, Apply(h[n], u[n - 1]).1);
  }

  /** Redoing the top action moves it, with its new payload, back to the undo stack. */
  lemma LogRedo(h: seq<Stage>, u: seq<ActionData>, r: seq<ActionData>)
    requires Log(h, u, r) && |r| > 0
    ensures var m := |r|; RedoEntry(h, r, m - 1) && Log(h, u + [Apply(h[|u|], r[m - 1]).1], r[..m - 1])
  {
    var n, m := |u|, |r|;
    assert RedoEntry(h, r, m - 1);
    LeadsBack(r[m - 1], h[n], h[n + 1]);
    UndoExtend(h, u, Apply(h[n], r[m - 1]).1);
    RedoPrefix(h, r, m - 1);
  }

  /** The undo entries below the top keep leading back. */
  lemma UndoPrefix(h: seq<Stage>, u: seq<ActionData>, k: int)
    requires forall i :: 0 <= i < |u| ==> UndoEntry(h, u, i)
    requires 0 <= k <= |u|
    ensures forall i :: 0 <= i < k ==> UndoEntry(h, u[..k], i)
  {
    forall i | 0 <= i < k ensures UndoEntry(h, u[..k], i) {
      assert UndoEntry(h, u, i);
      assert u[..k][i] == u[i];
    }
  }

  /** An entry that leads from `h[|u| + 1]` back to `h[|u|]` extends the undo stack. */
  lemma UndoExtend(h: seq<Stage>, u: seq<ActionData>, d: ActionData)
    requires |h| > |u| + 1 && forall i :: 0 <= i < |u| ==> UndoEntry(h, u, i)
    requires Leads(d, h[|u| + 1], h[|u|])
    ensures forall i :: 0 <= i < |u| + 1 ==> UndoEntry(h, u + [d], i)
  {
    forall i | 0 <= i < |u| + 1 ensures UndoEntry(h, u + [d], i) {
      if i < |u| {
        assert UndoEntry(h, u, i);
        assert (u + [d])[i] == u[i];
      }
    }
  }

  /** The redo entries below the top keep leading forward. */
  lemma RedoPrefix(h: seq<Stage>, r: seq<ActionData>, k: int)
    requires forall j :: 0 <= j < |r| ==> RedoEntry(h, r, j)
    requires 0 <= k <= |r|
    ensures forall j :: 0 <= j < k ==> RedoEntry(h, r[..k], j)
  {
    forall j | 0 <= j < k ensures RedoEntry(h, r[..k], j) {
      assert RedoEntry(h, r, j);
      assert r[..k][j] == r[j];
    }
  }

  /** An entry that leads from `h[n]` to `h[n + 1]` extends the redo stack. */
  lemma RedoExtend(h: seq<Stage>, n: int, r: seq<ActionData>, d: ActionData)
    requires |h| == n + |r| + 2 && 0 <= n
    requires forall j :: 0 <= j < |r| ==> RedoEntry(h, r, j)
    requires Leads(d, h[n], h[n + 1])
    ensures forall j :: 0 <= j < |r| + 1 ==> RedoEntry(h, r + [d], j)
  {
    forall j | 0 <= j < |r| + 1 ensures RedoEntry(h, r + [d], j) {
      if j < |r| {
        assert RedoEntry(h, r, j);
        assert (r + [d])[j] == r[j];
      }
    }
  }

  lemma DistinctTruncate(u: seq<Action>, r: seq<Action>)
    requires NoDup(u + r)
    ensures NoDup(u + [])
  {
    assert u + [] == u;
    assert forall i :: 0 <= i < |u| ==> u[i] == (u + r)[i];
  }

  lemma DistinctPush(u: seq<Action>, r: seq<Action>, a: Action)
    requires NoDup(u + r) && a !in u
    ensures NoDup(u + [a])
  {
    var s := u + r;
    var t := u + [a];
    forall i, j | 0 <= i < j < |t| ensures t[i] != t[j] {
      if j < |u| {
        assert t[i] == s[i] && t[j] == s[j];
      }
    }
  }

  /** The top of the undo stack occurs nowhere else, and moving it keeps the stacks distinct. */
  lemma DistinctPopUndo(u: seq<Action>, r: seq<Action>)
    requires NoDup(u + r) && |u| > 0
    ensures var n := |u|; u[n - 1] !in u[..n - 1] + r && NoDup(u[..n - 1] + (r + [u[n - 1]]))
  {
    var n, s := |u|, u + r;
    var rest := u[..n - 1] + r;
    var f := (k: int) => if k < n - 1 then k else if k < n - 1 + |r| then k + 1 else n - 1;
    forall k | 0 <= k < |rest| ensures rest[k] != s[n - 1] {
      assert rest[k] == s[f(k)];
      if f(k) < n - 1 { assert s[f(k)] != s[n - 1]; } else { assert s[n - 1] != s[f(k)]; }
    }
    DistinctMap(s, u[..n - 1] + (r + [u[n - 1]]), f);
  }

  lemma DistinctPopRedo(u: seq<Action>, r: seq<Action>)
    requires NoDup(u + r) && |r| > 0
    ensures var m := |r|; r[m - 1] !in u + r[..m - 1] && NoDup((u + [r[m - 1]]) + r[..m - 1])
  {
    var n, m, s := |u|, |r|, u + r;
    var rest := u + r[..m - 1];
    var f := (k: int) => if k < n then k else if k == n then n + m - 1 else k - 1;
    forall k | 0 <= k < |rest| ensures rest[k] != s[n + m - 1] {
      assert rest[k] == s[k];
    }
    DistinctMap(s, (u + [r[m - 1]]) + r[..m - 1], f);
  }

  /** The keys `MainForm_KeyDown` reacts to. */
  datatype Key = KeyY | KeyZ | OtherKey

  class Editor {
    var layout: LayoutData
    /** Bottom of the stack first: the top, the next action to undo, is the last element. */
    var undoList: seq<Action>
    var redoList: seq<Action>
    var lastSaveUndoCount: int
    var drawing: bool
    ghost var history: seq<Stage>
    /** The layout as it was last loaded or saved. */
    ghost var saved: Stage

    ghost predicate Valid()
      reads this, layout, layout.Layout, undoList, redoList
    {
      layout.Valid() && NoDup(undoList + redoList) &&
      Log(history, DataOf(undoList), DataOf(redoList)) &&
      layout.Value() == history[|undoList|] &&
      (lastSaveUndoCount == -1 || (0 <= lastSaveUndoCount < |history| && history[lastSaveUndoCount] == saved))
    }

    /** The objects the editor's state lives in: itself, the layout, its grid and the
        actions on both stacks. */
    ghost function Repr(): set<object>
      reads this
    {
      {this, layout, layout.Layout} + (set a | a in undoList + redoList :: a as object)
    }

    /** The fields an undo or redo step leaves as they were. */
    ghost predicate Kept(l: LayoutData, h: seq<Stage>, s: Stage, c: int, d: bool)
      reads this
    {
      layout == l && history == h && saved == s && lastSaveUndoCount == c && drawing == d
    }

    /** `LoadStage`: a freshly loaded layout with empty stacks, counted as saved. */
    constructor LoadStage(l: LayoutData)
      requires l.Valid()
      ensures Valid() && layout == l && undoList == [] && redoList == [] && !drawing
      ensures !IsDirty() && saved == l.Value()
    {
      layout := l;
      undoList, redoList := [], [];
      lastSaveUndoCount := 0;
      drawing := false;
      history := [l.Value()];
      saved := l.Value();
    }

    /** The `*` in the title bar and the save prompt: the undo stack is not where it was at
        the last save. A layout that is not dirty is the saved layout. */
    function IsDirty(): (r: bool)
      reads this, layout, layout.Layout, undoList, redoList
      requires Valid()
      ensures !r ==> layout.Value() == saved
    {
      |undoList| != lastSaveUndoCount
    }

    /** `SaveLayout`: write the layout's tile layers and mark the present position as saved. */
    method SaveLayout(layer: array2<Tile>, rings: array2<Tile>)
      requires Valid() && layer != rings && layer !in Repr() && rings !in Repr()
      requires layer.Length0 == layout.Height && layer.Length1 == layout.Width
      requires layout.StartX < layout.Width && layout.StartY < layout.Height
      modifies this, layer, rings
      ensures Valid() && !IsDirty() && saved == layout.Value()
      ensures Snapshot(layer) == EncodePlayfield(layout.Value())
      ensures Snapshot(rings) == EncodeRings(old(Snapshot(rings)), layout.Value().grid)
      ensures layout == old(layout) && undoList == old(undoList) && redoList == old(redoList)
      ensures history == old(history) && drawing == old(drawing)
    {
      layout.Save(layer, rings);
      MarkSaved();
    }

    /** The last line of `SaveLayout`: the current position of the undo stack is the saved one. */
    method MarkSaved()
      requires Valid()
      modifies this
      ensures Valid() && !IsDirty() && saved == layout.Value() && lastSaveUndoCount == |undoList|
      ensures layout == old(layout) && undoList == old(undoList) && redoList == old(redoList)
      ensures history == old(history) && drawing == old(drawing)
    {
      lastSaveUndoCount := |undoList|;
      saved := layout.Value();
    }

    /** `DoAction`: drop the redo stack (forgetting the save point if it was in it), push the
        action and run it. */
    method DoAction(action: Action)
      requires Valid() && action !in undoList && action !in redoList
      requires ValidAction(action.data, layout.Width, layout.Height) && Reversible(action.data)
      modifies this, layout, layout.Layout, action
      ensures Valid()
      ensures layout == old(layout) && drawing == old(drawing) && saved == old(saved)
      ensures undoList == old(undoList) + [action] && redoList == []
      ensures layout.Value() == Apply(old(layout.Value()), old(action.data)).0
      ensures history == old(history)[..|undoList|] + [layout.Value()]
      ensures lastSaveUndoCount ==
        if old(|redoList|) > 0 && old(lastSaveUndoCount) > old(|undoList|) then -1 else old(lastSaveUndoCount)
    {
      if |redoList| > 0 {
        DropRedo();
      }
      PushAction(action);
    }

    /** The rest of `DoAction`, once the redo stack is empty: push the action and run it. */
    method PushAction(action: Action)
      requires Valid() && redoList == [] && action !in undoList
      requires ValidAction(action.data, layout.Width, layout.Height) && Reversible(action.data)
      modifies this, layout, layout.Layout, action
      ensures Valid()
      ensures layout == old(layout) && drawing == old(drawing) && saved == old(saved)
      ensures undoList == old(undoList) + [action] && redoList == []
      ensures layout.Value() == Apply(old(layout.Value()), old(action.data)).0
      ensures history == old(history) + [layout.Value()]
      ensures lastSaveUndoCount == old(lastSaveUndoCount)
    {
      ghost var st, d := layout.Value(), action.data;
      ghost var du := DataOf(undoList);
      LogPush(history, du, [], d, Apply(st, d).0);
      DistinctPush(undoList, [], action);
      undoList := undoList + [action];
      action.Do(layout);
      history := history + [layout.Value()];
      assert DataOf(undoList) == du + [Apply(st, d).1];
    }

    /** The `redoList.Count > 0` branch of `DoAction`: the redo stack is cleared, and a save
        point among the dropped layouts can no longer be reached. */
    method DropRedo()
      requires Valid() && |redoList| > 0
      modifies this
      ensures Valid() && redoList == [] && undoList == old(undoList) && layout == old(layout)
      ensures history == old(history)[..|undoList| + 1] && saved == old(saved) && drawing == old(drawing)
      ensures lastSaveUndoCount == if old(lastSaveUndoCount) > |undoList| then -1 else old(lastSaveUndoCount)
    {
      LogTruncate(history, DataOf(undoList), DataOf(redoList));
      DistinctTruncate(undoList, redoList);
      history := history[..|undoList| + 1];
      redoList := [];
      if lastSaveUndoCount > |undoList| {
        lastSaveUndoCount := -1;
      }
    }

    /** `DoUndo(count)`: unless a drawing gesture is under way, revert the last `count` actions;
        the layout is then the one from before them. */
    method DoUndo(count: nat)
      requires Valid() && (!drawing ==> count <= |undoList|)
      modifies this, layout, layout.Layout, undoList
      ensures Valid()
      ensures layout == old(layout) && history == old(history) && saved == old(saved)
      ensures lastSaveUndoCount == old(lastSaveUndoCount) && drawing == old(drawing)
      ensures old(drawing) ==> undoList == old(undoList) && redoList == old(redoList) && unchanged(layout, layout.Layout)
      ensures !old(drawing) ==> |undoList| == old(|undoList|) - count && |redoList| == old(|redoList|) + count
      ensures !old(drawing) ==> layout.Value() == history[old(|undoList|) - count]
    {
      if !drawing {
        UndoSteps(count);
      }
    }

    /** The loop of `DoUndo`: `count` times, pop an action, `Do` it and push it on the redo stack. */
    method UndoSteps(count: nat)
      requires Valid() && !drawing && count <= |undoList|
      modifies this, layout, layout.Layout, undoList
      ensures Valid()
      ensures layout == old(layout) && history == old(history) && saved == old(saved)
      ensures lastSaveUndoCount == old(lastSaveUndoCount) && drawing == old(drawing)
      ensures |undoList| == old(|undoList|) - count && |redoList| == old(|redoList|) + count
      ensures layout.Value() == history[old(|undoList|) - count]
    {
      ghost var u0, m0 := undoList, |redoList|;
      var i := 0;
      while i < count
        invariant 0 <= i <= count && Valid()
        invariant Kept(old(layout), old(history), old(saved), old(lastSaveUndoCount), old(drawing))
        invariant undoList == u0[..|u0| - i] && |redoList| == m0 + i
      {
        UndoOne();
        PrefixOfPrefix(u0, |u0| - i, |u0| - (i + 1));
        i := i + 1;
      }
    }

    /** One pass of `DoUndo`'s loop: pop, `Do`, push on the redo stack. */
    method UndoOne()
      requires Valid() && |undoList| > 0
      modifies this, layout, layout.Layout, undoList[|undoList| - 1]
      ensures Valid()
      ensures layout == old(layout) && history == old(history) && saved == old(saved)
      ensures lastSaveUndoCount == old(lastSaveUndoCount) && drawing == old(drawing)
      ensures undoList == old(undoList)[..|old(undoList)| - 1] && redoList == old(redoList) + [old(undoList)[|old(undoList)| - 1]]
    {
      var n := |undoList|;
      var act := undoList[n - 1];
      ghost var du, dr := DataOf(undoList), DataOf(redoList);
      var u0 := undoList[..n - 1];
      ghost var st, d := layout.Value(), act.data;
      LogUndo(history, du, dr);
      DistinctPopUndo(undoList, redoList);
      undoList := u0;
      act.Do(layout);
      redoList := redoList + [act];
      assert DataOf(redoList) == dr + [Apply(st, d).1];
      assert DataOf(undoList) == du[..n - 1];
    }

    /** `DoRedo(count)`: unless a drawing gesture is under way, repeat the last `count`
        undone actions; the layout is then the one after them. */
    method DoRedo(count: nat)
      requires Valid() && (!drawing ==> count <= |redoList|)
      modifies this, layout, layout.Layout, redoList
      ensures Valid()
      ensures layout == old(layout) && history == old(history) && saved == old(saved)
      ensures lastSaveUndoCount == old(lastSaveUndoCount) && drawing == old(drawing)
      ensures old(drawing) ==> undoList == old(undoList) && redoList == old(redoList) && unchanged(layout, layout.Layout)
      ensures !old(drawing) ==> |undoList| == old(|undoList|) + count && |redoList| == old(|redoList|) - count
      ensures !old(drawing) ==> layout.Value() == history[old(|undoList|) + count]
    {
      if !drawing {
        RedoSteps(count);
      }
    }

    /** The loop of `DoRedo`: `count` times, pop an action, `Do` it and push it on the undo stack. */
    method RedoSteps(count: nat)
      requires Valid() && !drawing && count <= |redoList|
      modifies this, layout, layout.Layout, redoList
      ensures Valid()
      ensures layout == old(layout) && history == old(history) && saved == old(saved)
      ensures lastSaveUndoCount == old(lastSaveUndoCount) && drawing == old(drawing)
      ensures |undoList| == old(|undoList|) + count && |redoList| == old(|redoList|) - count
      ensures layout.Value() == history[old(|undoList|) + count]
    {
      ghost var r0, n0 := redoList, |undoList|;
      var i := 0;
      while i < count
        invariant 0 <= i <= count && Valid()
        invariant Kept(old(layout), old(history), old(saved), old(lastSaveUndoCount), old(drawing))
        invariant redoList == r0[..|r0| - i] && |undoList| == n0 + i
      {
        RedoOne();
        PrefixOfPrefix(r0, |r0| - i, |r0| - (i + 1));
        i := i + 1;
      }
    }

    /** One pass of `DoRedo`'s loop: pop, `Do`, push on the undo stack. */
    method RedoOne()
      requires Valid() && |redoList| > 0
      modifies this, layout, layout.Layout, redoList[|redoList| - 1]
      ensures Valid()
      ensures layout == old(layout) && history == old(history) && saved == old(saved)
      ensures lastSaveUndoCount == old(lastSaveUndoCount) && drawing == old(drawing)
      ensures redoList == old(redoList)[..|old(redoList)| - 1] && undoList == old(undoList) + [old(redoList)[|old(redoList)| - 1]]
    {
      var m := |redoList|;
      var act := redoList[m - 1];
      ghost var du, dr := DataOf(undoList), DataOf(redoList);
      var r0 := redoList[..m - 1];
      ghost var st, d := layout.Value(), act.data;
      LogRedo(history, du, dr);
      DistinctPopRedo(undoList, redoList);
      redoList := r0;
      act.Do(layout);
      undoList := undoList + [act];
      assert DataOf(undoList) == du + [Apply(st, d).1];
      assert DataOf(redoList) == dr[..m - 1];
    }

    /** `MainForm_KeyDown`: Ctrl+Y redoes and Ctrl+Z undoes one action, when there is one
        and no drawing gesture is under way; the key press is then swallowed. */
    method KeyDown(key: Key, control: bool) returns (suppress: bool)
      requires Valid()
      modifies this, layout, layout.Layout, undoList, redoList
      ensures Valid() && history == old(history)
      ensures layout == old(layout)
      ensures suppress <==> (control && !drawing &&
        ((key == KeyY && old(|redoList|) > 0) || (key == KeyZ && old(|undoList|) > 0)))
      ensures !suppress ==> undoList == old(undoList) && redoList == old(redoList) && unchanged(layout, layout.Layout)
      ensures suppress && key == KeyZ ==> layout.Value() == history[old(|undoList|) - 1]
      ensures suppress && key == KeyY ==> layout.Value() == history[old(|undoList|) + 1]
    {
      suppress := false;
      match key {
        case KeyY =>
          if control && !drawing && |redoList| > 0 {
            DoRedo(1);
            suppress := true;
          }
        case KeyZ =>
          if control && !drawing && |undoList| > 0 {
            DoUndo(1);
            suppress := true;
          }
        case OtherKey =>
      }
    }
  }
}
