/**
 The recent-files list kept in the editor's settings: opening a file moves its
 name to the front (or adds it there) and the list is cut back to ten names.
 The menu items mirrored beside the list are not modelled.
 */
module RecentFiles {
  import opened Seqs

  /** The most names the list keeps. */
  const MaxRecent := 10

  /** `List.Remove`: drops the first name equal to `f`, if there is one. */
  function RemoveFirst(files: seq<string>, f: string): (r: seq<string>)
    ensures f !in files ==> r == files
    ensures f in files ==> |r| == |files| - 1
    ensures forall e :: e in r ==> e in files
  {
    if files == [] then []
    else if files[0] == f then files[1..]
    else [files[0]] + RemoveFirst(files[1..], f)
  }

  /** The list after opening `f`: `f` at the front, every other name in its old order,
      cut to `MaxRecent` names. */
  function Added(files: seq<string>, f: string): seq<string>
  {
    var l := [f] + RemoveFirst(files, f);
    if |l| > MaxRecent then l[..MaxRecent] else l
  }

  /** Without duplicates, removing `f` leaves no `f` and no duplicate. */
  lemma {:induction false} RemoveFirstNoDup(files: seq<string>, f: string)
    requires NoDup(files)
    ensures f !in RemoveFirst(files, f) && NoDup(RemoveFirst(files, f))
  {
    if files != [] {
      var tail := files[1..];
      assert NoDup(tail) by {
        forall i, j | 0 <= i < j < |tail| ensures tail[i] != tail[j] {
          assert tail[i] == files[i + 1] && tail[j] == files[j + 1];
        }
      }
      RemoveFirstNoDup(tail, f);
      if files[0] != f {
        var r := RemoveFirst(tail, f);
        assert files[0] !in tail by {
          forall i | 0 <= i < |tail| ensures tail[i] != files[0] {
            assert tail[i] == files[i + 1];
          }
        }
        assert files[0] !in r;
        assert RemoveFirst(files, f) == [files[0]] + r;
      } else {
        assert f !in tail by {
          forall i | 0 <= i < |tail| ensures tail[i] != f {
            assert tail[i] == files[i + 1];
          }
        }
      }
    }
  }

  /** A name other than `f` at index `i` survives the removal within the first `i + 1`
      places: it stays where it was or moves up by one. */
  lemma {:induction false} RemoveFirstKeeps(files: seq<string>, f: string, i: int)
    requires 0 <= i < |files| && files[i] != f
    ensures |RemoveFirst(files, f)| > i - 1 >= -1
    ensures files[i] in RemoveFirst(files, f)[..Min(i + 1, |RemoveFirst(files, f)|)]
  {
    var r := RemoveFirst(files, f);
    if files[0] == f {
      assert r == files[1..];
      assert r[i - 1] == files[i];
    } else if i == 0 {
      assert r[0] == files[0];
    } else {
      var tail := files[1..];
      RemoveFirstKeeps(tail, f, i - 1);
      var rt := RemoveFirst(tail, f);
      assert r == [files[0]] + rt;
      var k :| 0 <= k < Min(i, |rt|) && rt[k] == tail[i - 1];
      assert r[k + 1] == files[i];
    }
  }

  /** The opened name heads the list, the list never exceeds `MaxRecent` names, and it
      holds nothing but `f` and names it held before. */
  lemma AddedFront(files: seq<string>, f: string)
    ensures var r := Added(files, f);
      1 <= |r| <= MaxRecent && r[0] == f && forall e :: e in r ==> e == f || e in files
  {
    var l := [f] + RemoveFirst(files, f);
    forall e | e in Added(files, f) ensures e == f || e in files {
      assert e in l;
    }
  }

  /** A list without duplicates stays without duplicates, so the opened name is listed
      exactly once. */
  lemma AddedNoDup(files: seq<string>, f: string)
    requires NoDup(files)
    ensures NoDup(Added(files, f))
  {
    RemoveFirstNoDup(files, f);
    var rf := RemoveFirst(files, f);
    var l := [f] + rf;
    assert NoDup(l) by {
      forall i, j | 0 <= i < j < |l| ensures l[i] != l[j] {
        assert l[j] == rf[j - 1];
        if i > 0 { assert l[i] == rf[i - 1]; }
      }
    }
  }

  /** Every other name among the first nine keeps its place on the list (moved down by one,
      or not at all when `f` was listed above it). */
  lemma AddedKeepsRecent(files: seq<string>, f: string, i: int)
    requires 0 <= i < MaxRecent - 1 && i < |files| && files[i] != f
    ensures files[i] in Added(files, f)
  {
    RemoveFirstKeeps(files, f, i);
    var rf := RemoveFirst(files, f);
    var l := [f] + rf;
    var k :| 0 <= k < Min(i + 1, |rf|) && rf[k] == files[i];
    assert l[k + 1] == files[i];
    assert Added(files, f)[k + 1] == files[i];
  }

  /** Reopening a file only moves it, so the length stays put when the list is not over
      full; a new name grows the list by one up to `MaxRecent`. */
  lemma AddedLength(files: seq<string>, f: string)
    requires |files| <= MaxRecent
    ensures f in files ==> |Added(files, f)| == |files|
    ensures f !in files ==> |Added(files, f)| == Min(|files| + 1, MaxRecent)
  {
  }

  /** Opening the same file twice in a row leaves the list as after the first time. */
  lemma AddedIdempotent(files: seq<string>, f: string)
    ensures Added(Added(files, f), f) == Added(files, f)
  {
    var a := Added(files, f);
    assert a[0] == f;
    assert RemoveFirst(a, f) == a[1..];
    assert [f] + a[1..] == a;
  }

  /** `settings.RecentFiles`. */
  class RecentList {
    var files: seq<string>

    constructor ()
      ensures files == []
    {
      files := [];
    }

    /** `AddRecentFile`: remove the name if listed, insert it at index 0, then remove the
        entry at index 10 while more than ten names remain. */
    method AddRecentFile(filename: string)
      modifies this
      ensures files == Added(old(files), filename)
    {
      if filename in files {
        files := RemoveFirst(files, filename);
      }
      files := [filename] + files;
      ghost var l := files;
      while |files| > MaxRecent
        invariant |files| <= |l|
        invariant |l| <= MaxRecent ==> files == l
        invariant |l| > MaxRecent ==> |files| >= MaxRecent && files[..MaxRecent] == l[..MaxRecent]
        decreases |files|
      {
        files := files[..MaxRecent] + files[MaxRecent + 1..];
      }
      assert |l| > MaxRecent ==> files == files[..MaxRecent];
    }
  }
}
