/**
 The directory walk (`WalkDir::new(root).sort_by_key(path)`) and the loop
 body shared by `remove_and_yank_dir` and `put_dir`: every walked path after
 the root is re-created under a new root, a directory by `create_dir`, any
 other node by `copy`.
 */
module Walks {
  import opened Base
  import opened Paths
  import opened FileSystems

  /** Every existing path at or beneath `root`. */
  function Subtree(fs: FileSystem, root: Path): (r: set<Path>)
    ensures forall q :: q in r <==> q in fs && Under(q, root)
  {
    set q | q in fs && Under(q, root)
  }

  lemma {:induction false} MinimumExists(s: set<Path>)
    requires s != {}
    ensures exists m :: m in s && forall q :: q in s ==> PathLe(m, q)
    decreases |s|
  {
    var x :| x in s;
    if s != {x} {
      MinimumExists(s - {x});
      var m :| m in s - {x} && forall q :: q in s - {x} ==> PathLe(m, q);
      PathLtTotal(x, m);
      if PathLt(x, m) {
        forall q | q in s ensures PathLe(x, q) {
          if q != x {
            assert q in s - {x};
            if m != q {
              PathLtTransitive(x, m, q);
            }
          }
        }
      } else {
        forall q | q in s ensures PathLe(m, q) {
          if q != x {
            assert q in s - {x};
          }
        }
      }
    } else {
      assert forall q :: q in s ==> q == x;
    }
  }

  /** The path of `s` that sorts first. */
  function MinPath(s: set<Path>): (m: Path)
    requires s != {}
    ensures m in s && forall q :: q in s ==> PathLe(m, q)
  {
    MinimumExists(s);
    PathLtIsStrictTotal();
    var m :| m in s && forall q :: q in s ==> PathLe(m, q);
    m
  }

  /** The elements of `s` in increasing `PathBuf` order. */
  function SortPaths(s: set<Path>): (r: seq<Path>)
    ensures |r| == |s|
    ensures forall q :: q in r <==> q in s
    ensures forall i, j :: 0 <= i < j < |r| ==> PathLt(r[i], r[j])
    decreases |s|
  {
    if s == {} then []
    else
      var m := MinPath(s);
      var rest := SortPaths(s - {m});
      assert forall j :: 0 <= j < |rest| ==> PathLt(m, rest[j]) by {
        forall j | 0 <= j < |rest| ensures PathLt(m, rest[j]) {
          assert rest[j] in s - {m};
        }
      }
      [m] + rest
  }

  /** walkdir's sorted traversal: the root first, each directory before its contents. */
  function Walk(fs: FileSystem, root: Path): seq<Path> {
    SortPaths(Subtree(fs, root))
  }

  /** The walk starts at the root and visits each path of the subtree once. */
  lemma WalkCovers(fs: FileSystem, root: Path)
    requires root in fs
    ensures var w := Walk(fs, root);
      && |w| > 0 && w[0] == root
      && (forall q :: q in w <==> q in fs && Under(q, root))
      && (forall i, j :: 0 <= i < j < |w| ==> w[i] != w[j])
  {
    var w := Walk(fs, root);
    assert root in w;
    var k :| 0 <= k < |w| && w[k] == root;
    if k != 0 {
      assert w[0] in w;
      if w[0] == root {
        PathLtIrreflexive(root);
      } else {
        UnderStrictly(w[0], root);
        AncestorSortsFirst(root, w[0]);
        PathLtAsymmetric(w[0], w[k]);
      }
      assert false;
    }
    forall i, j | 0 <= i < j < |w| ensures w[i] != w[j] {
      PathLtIrreflexive(w[i]);
    }
  }

  /** Every path the walk visits after the root lies in the tree. */
  lemma WalkTailInTree(fs: FileSystem, root: Path)
    requires root in fs
    ensures |Walk(fs, root)| > 0
    ensures var ws := Walk(fs, root)[1..];
      forall i :: 0 <= i < |ws| ==> ws[i] in fs && Under(ws[i], root)
  {
    WalkCovers(fs, root);
    var w := Walk(fs, root);
    forall i | 0 <= i < |w| - 1 ensures w[1..][i] in fs && Under(w[1..][i], root) {
      assert w[1..][i] == w[i + 1] && w[i + 1] in w;
    }
  }

  /** Each later walked path comes after the directory holding it. */
  lemma WalkParentFirst(fs: FileSystem, root: Path, i: nat)
    requires WellFormed(fs) && root in fs
    requires 0 < i < |Walk(fs, root)|
    ensures var w := Walk(fs, root);
      |w[i]| > |root| && DirOf(w[i]) in w[..i]
  {
    var w := Walk(fs, root);
    WalkCovers(fs, root);
    assert w[i] in w;
    assert w[i] != root;
    var d := DirOf(w[i]);
    assert Under(d, root);
    AncestorIsDir(fs, w[i], d);
    assert d in w;
    var j :| 0 <= j < |w| && w[j] == d;
    AncestorSortsFirst(d, w[i]);
    if j >= i {
      assert j != i;
      PathLtAsymmetric(w[i], w[j]);
      assert false;
    }
    assert w[..i][j] == d;
  }

  /** The node a copy loop leaves at the image of `q`: a directory, or the bytes `q` reads as. */
  function Image(fs: FileSystem, q: Path): Node
    requires q in fs
  {
    if fs[q].Dir? then Dir
    else match Resolve(fs, q)
      case Some(File(c)) => File(c)
      case _ => fs[q]
  }

  /** `q` is a directory or reads as a regular file, so the loop can re-create it. */
  ghost predicate Copyable(fs: FileSystem, q: Path) {
    q in fs && (fs[q].Dir? || (Resolve(fs, q).Some? && Resolve(fs, q).value.File?))
  }

  /**
   One iteration: a walked directory gets `create_dir` at its image, and
   when its children cannot be read, the error walkdir reports right after
   it ends the loop with the image already made; anything else gets `copy`.
   */
  function CopyStep(snap: FileSystem, cur: FileSystem, p: Path, base: nat, target: Path, o: Oracle): (r: Run)
    requires p in snap && base <= |p|
    ensures r.status == Done ==> Reroot(p, base, target) in r.fs
    ensures forall q :: q != Reroot(p, base, target) ==> Agrees(cur, r.fs, q)
    ensures snap[p].Dir? && p in o.unreadable ==> r.status.Failed?
  {
    var dest := Reroot(p, base, target);
    if snap[p].Dir? then
      match CreateDir(cur, dest, o)
      case Err(e) => Run(cur, Failed(e))
      case Ok(next) => Run(next, if p in o.unreadable then Failed(Io(Injected)) else Done)
    else Copy(cur, p, dest, o)
  }

  /** The loop over the walked entries after the root; the first failure ends it. */
  function CopyEntries(snap: FileSystem, cur: FileSystem, ws: seq<Path>, base: nat, target: Path, o: Oracle): (r: Run)
    requires forall i :: 0 <= i < |ws| ==> ws[i] in snap && base <= |ws[i]|
    ensures SameOutside(cur, r.fs, target)
    decreases |ws|
  {
    if |ws| == 0 then Run(cur, Done)
    else
      var step := CopyStep(snap, cur, ws[0], base, target, o);
      if step.status.Failed? then step
      else CopyEntries(snap, step.fs, ws[1..], base, target, o)
  }

  /**
   The whole copy loop: the root entry creates `target` (and a root whose
   children cannot be read fails right after that), then every later walked
   entry is re-created beneath it. Only paths beneath `target` change.
   */
  function CopyTree(snap: FileSystem, root: Path, target: Path, o: Oracle): (r: Run)
    requires root in snap
    ensures SameOutside(snap, r.fs, target)
    ensures r.status == Done ==> CreateDir(snap, target, o).Ok?
    ensures snap[root].Dir? && root in o.unreadable ==> r.status.Failed?
  {
    WalkTailInTree(snap, root);
    var ws := Walk(snap, root)[1..];
    match CreateDir(snap, target, o)
    case Err(e) => Run(snap, Failed(e))
    case Ok(fs1) =>
      if snap[root].Dir? && root in o.unreadable then Run(fs1, Failed(Io(Injected)))
      else
        var run := CopyEntries(snap, fs1, ws, |root|, target, o);
        assert SameOutside(snap, run.fs, target) by {
          forall q | !Under(q, target) ensures Agrees(snap, run.fs, q) {
            assert q != target;
            assert Agrees(snap, fs1, q) && Agrees(fs1, run.fs, q);
          }
        }
        run
  }

  /** The set of a sequence's elements, built front to back. */
  function Elems(ws: seq<Path>): (r: set<Path>)
    ensures forall q :: q in r <==> q in ws
  {
    if |ws| == 0 then {} else {ws[0]} + Elems(ws[1..])
  }

  /** The path beneath `root` whose image under `target` is `d`. */
  function Unroot(d: Path, target: Path, root: Path): Path
    requires Under(d, target)
  {
    root + d[|target|..]
  }

  lemma UnrootReroot(q: Path, root: Path, target: Path)
    requires Under(q, root)
    ensures Unroot(Reroot(q, |root|, target), target, root) == q
  {
    assert q == root + q[|root|..];
  }

  /**
   The copy of the tree at `root` so far: outside `target` nothing changed,
   `target` is a directory, each path of `done` has its image, and every
   path beneath `target` is the image of a path in `done`.
   */
  ghost predicate Mirrors(snap: FileSystem, cur: FileSystem, root: Path, target: Path, done: set<Path>) {
    && SameOutside(snap, cur, target)
    && target in cur && cur[target].Dir?
    && (forall q :: q in done ==> q in snap && Under(q, root))
    && (forall q :: q in done ==> Reroot(q, |root|, target) in cur && cur[Reroot(q, |root|, target)] == Image(snap, q))
    && (forall d :: d in cur && Under(d, target) && d != target ==> Unroot(d, target, root) in done)
  }

  /** Preconditions under which the tree at `root` can be mirrored at `target`. */
  ghost predicate Disjoint(snap: FileSystem, root: Path, target: Path) {
    WellFormed(snap) && root in snap && target !in snap && !Under(target, root)
  }

  /** Under `Disjoint`, nothing lies beneath both the tree and the copy's root. */
  lemma DisjointApart(snap: FileSystem, root: Path, target: Path)
    requires Disjoint(snap, root, target)
    ensures !Under(root, target)
    ensures forall x :: Under(x, target) ==> !Under(x, root)
  {
    NothingBelowAbsent(snap, target);
    forall x | Under(x, target) && Under(x, root) ensures false {
      PrefixesComparable(target, root, x);
    }
  }

  lemma SourceUntouched(snap: FileSystem, cur: FileSystem, root: Path, target: Path, p: Path)
    requires Disjoint(snap, root, target) && SameOutside(snap, cur, target)
    requires p in snap && Under(p, root) && Copyable(snap, p)
    ensures !Under(p, target) && Resolve(cur, p) == Resolve(snap, p)
  {
    NothingBelowAbsent(snap, target);
    assert !Under(p, target);
    assert Agrees(snap, cur, p);
    if snap[p].Link? {
      var t := snap[p].target;
      assert t in snap;
      assert !Under(t, target);
      assert Agrees(snap, cur, t);
    }
  }

  /** One step keeps the mirror invariant and succeeds when nothing is injected. */
  lemma CopyStepMirrors(snap: FileSystem, cur: FileSystem, p: Path, root: Path, target: Path, done: set<Path>)
    requires Disjoint(snap, root, target) && Mirrors(snap, cur, root, target, done)
    requires p in snap && Under(p, root) && p != root && p !in done && Copyable(snap, p)
    requires DirOf(p) == root || DirOf(p) in done
    ensures CopyStep(snap, cur, p, |root|, target, NoFaults).status == Done
    ensures Mirrors(snap, CopyStep(snap, cur, p, |root|, target, NoFaults).fs, root, target, done + {p})
  {
    var dest := Reroot(p, |root|, target);
    assert |p| > |root|;
    UnrootReroot(p, root, target);
    assert dest !in cur;
    RerootParent(p, |root|, target);
    var d := DirOf(p);
    assert root <= d;
    AncestorIsDir(snap, p, d);
    if d == root {
      assert Reroot(d, |root|, target) == target;
    } else {
      assert cur[Reroot(d, |root|, target)] == Image(snap, d) == Dir;
    }
    assert InDirectory(cur, dest);
    SourceUntouched(snap, cur, root, target, p);
    var next := CopyStep(snap, cur, p, |root|, target, NoFaults);
    assert next.status == Done;
    var nx := next.fs;
    assert nx[dest] == Image(snap, p);
    forall q | q in done ensures Reroot(q, |root|, target) in nx && nx[Reroot(q, |root|, target)] == Image(snap, q) {
      if Reroot(q, |root|, target) == dest {
        RerootInjective(q, p, root, target);
      }
      assert Agrees(cur, nx, Reroot(q, |root|, target));
    }
    forall x | x in nx && Under(x, target) && x != target ensures Unroot(x, target, root) in done + {p} {
      if x != dest {
        assert Agrees(cur, nx, x);
      }
    }
    assert Agrees(cur, nx, target);
    forall q | !Under(q, target) ensures Agrees(snap, nx, q) {
      assert Agrees(snap, cur, q);
      assert Agrees(cur, nx, q);
    }
  }

  /**
   The copy loop mirrors the whole walked tree: with no injected faults,
   distinct walked paths beneath `root` whose directories come first, it
   succeeds and every walked path gets its image beneath `target`.
   */
  /**
   The walked paths still to copy: distinct, strictly beneath `root`, not yet
   copied, copyable, and each one's directory is the root, already copied or
   earlier in `ws`.
   */
  ghost predicate Pending(snap: FileSystem, ws: seq<Path>, root: Path, done: set<Path>) {
    && (forall i :: 0 <= i < |ws| ==> ws[i] in snap && Under(ws[i], root) && ws[i] != root && ws[i] !in done && Copyable(snap, ws[i]))
    && (forall i, j :: 0 <= i < j < |ws| ==> ws[i] != ws[j])
    && (forall i :: 0 <= i < |ws| ==> DirOf(ws[i]) == root || DirOf(ws[i]) in done || DirOf(ws[i]) in ws[..i])
  }

  /** The first pending path can be copied now: its directory is the root or already copied. */
  lemma PendingHead(snap: FileSystem, ws: seq<Path>, root: Path, done: set<Path>)
    requires |ws| > 0 && Pending(snap, ws, root, done)
    ensures ws[0] in snap && Under(ws[0], root) && ws[0] != root && ws[0] !in done && Copyable(snap, ws[0])
    ensures DirOf(ws[0]) == root || DirOf(ws[0]) in done
  {
    assert ws[..0] == [];
  }

  lemma PendingRest(snap: FileSystem, ws: seq<Path>, root: Path, done: set<Path>)
    requires |ws| > 0 && Pending(snap, ws, root, done)
    ensures Pending(snap, ws[1..], root, done + {ws[0]})
  {
    var p := ws[0];
    var rest := ws[1..];
    forall i | 0 <= i < |rest| ensures DirOf(rest[i]) == root || DirOf(rest[i]) in done + {p} || DirOf(rest[i]) in rest[..i] {
      assert ws[i + 1] == rest[i];
      assert ws[..i + 1] == [p] + rest[..i];
    }
    forall i | 0 <= i < |rest| ensures rest[i] !in done + {p} {
      assert ws[i + 1] == rest[i];
    }
  }

  /**
   The copy loop mirrors the whole walked tree: with no injected faults and
   the walked paths pending as above, it succeeds and every walked path gets
   its image beneath `target`.
   */
  lemma {:induction false} CopyEntriesMirrors(snap: FileSystem, cur: FileSystem, ws: seq<Path>, root: Path, target: Path, done: set<Path>)
    requires Disjoint(snap, root, target) && Mirrors(snap, cur, root, target, done)
    requires Pending(snap, ws, root, done)
    ensures forall i :: 0 <= i < |ws| ==> ws[i] in snap && |root| <= |ws[i]|
    ensures CopyEntries(snap, cur, ws, |root|, target, NoFaults).status == Done
    ensures Mirrors(snap, CopyEntries(snap, cur, ws, |root|, target, NoFaults).fs, root, target, done + Elems(ws))
    decreases |ws|
  {
    if |ws| > 0 {
      var p := ws[0];
      PendingHead(snap, ws, root, done);
      CopyStepMirrors(snap, cur, p, root, target, done);
      var next := CopyStep(snap, cur, p, |root|, target, NoFaults).fs;
      CopyEntriesUnfold(snap, cur, ws, |root|, target, NoFaults);
      PendingRest(snap, ws, root, done);
      CopyEntriesMirrors(snap, next, ws[1..], root, target, done + {p});
      var run := CopyEntries(snap, cur, ws, |root|, target, NoFaults);
      assert done + Elems(ws) == (done + {p}) + Elems(ws[1..]);
      MirrorsSameDone(snap, run.fs, root, target, (done + {p}) + Elems(ws[1..]), done + Elems(ws));
    }
  }

  /** A successful first step hands the rest of the walk to the loop. */
  lemma CopyEntriesUnfold(snap: FileSystem, cur: FileSystem, ws: seq<Path>, base: nat, target: Path, o: Oracle)
    requires forall i :: 0 <= i < |ws| ==> ws[i] in snap && base <= |ws[i]|
    requires |ws| > 0 && CopyStep(snap, cur, ws[0], base, target, o).status == Done
    ensures CopyEntries(snap, cur, ws, base, target, o) ==
      CopyEntries(snap, CopyStep(snap, cur, ws[0], base, target, o).fs, ws[1..], base, target, o)
  {
  }

  /** The mirror invariant right after the new root directory has been created. */
  lemma FreshRootMirrors(snap: FileSystem, root: Path, target: Path, o: Oracle)
    requires Disjoint(snap, root, target) && CreateDir(snap, target, o).Ok?
    ensures Mirrors(snap, CreateDir(snap, target, o).value, root, target, {})
  {
    NothingBelowAbsent(snap, target);
    var fs1 := CreateDir(snap, target, o).value;
    forall q | !Under(q, target) ensures Agrees(snap, fs1, q) {
      assert q != target;
    }
    forall d | d in fs1 && d != target ensures d in snap {
      assert Agrees(snap, fs1, d);
    }
  }

  /** The directory of the `k`-th walked path after the root is the root or an earlier one of them. */
  lemma WalkTailParent(snap: FileSystem, root: Path, k: nat)
    requires WellFormed(snap) && root in snap
    requires k < |Walk(snap, root)| - 1
    ensures var ws := Walk(snap, root)[1..];
      |ws[k]| > 0 && (DirOf(ws[k]) == root || DirOf(ws[k]) in ws[..k])
  {
    var w := Walk(snap, root);
    var ws := w[1..];
    WalkCovers(snap, root);
    WalkParentFirst(snap, root, k + 1);
    var d := DirOf(w[k + 1]);
    var j :| 0 <= j < k + 1 && w[j] == d;
    if j > 0 {
      assert ws[..k][j - 1] == d;
    }
  }

  lemma WalkTailParents(snap: FileSystem, root: Path)
    requires WellFormed(snap) && root in snap
    ensures |Walk(snap, root)| > 0
    ensures var ws := Walk(snap, root)[1..];
      forall i :: 0 <= i < |ws| ==> |ws[i]| > 0 && (DirOf(ws[i]) == root || DirOf(ws[i]) in ws[..i])
  {
    WalkTailInTree(snap, root);
    var ws := Walk(snap, root)[1..];
    forall i | 0 <= i < |ws| ensures |ws[i]| > 0 && (DirOf(ws[i]) == root || DirOf(ws[i]) in ws[..i]) {
      WalkTailParent(snap, root, i);
    }
  }

  lemma WalkTailBelow(snap: FileSystem, root: Path)
    requires root in snap
    ensures |Walk(snap, root)| > 0
    ensures var ws := Walk(snap, root)[1..];
      && (forall i :: 0 <= i < |ws| ==> ws[i] in snap && Under(ws[i], root) && ws[i] != root)
      && (forall i, j :: 0 <= i < j < |ws| ==> ws[i] != ws[j])
      && Elems(ws) == Subtree(snap, root) - {root}
  {
    WalkCovers(snap, root);
    var w := Walk(snap, root);
    var ws := w[1..];
    forall i | 0 <= i < |ws| ensures ws[i] in snap && Under(ws[i], root) && ws[i] != root {
      assert w[i + 1] in w;
    }
    forall q | q in Subtree(snap, root) - {root} ensures q in ws {
      assert q in w;
      var k :| 0 <= k < |w| && w[k] == q;
      assert ws[k - 1] == q;
    }
  }

  /** The walk after its root is pending, and covers the subtree except the root. */
  lemma WalkPending(snap: FileSystem, root: Path)
    requires WellFormed(snap) && root in snap
    requires forall q :: q in snap && Under(q, root) ==> Copyable(snap, q)
    ensures |Walk(snap, root)| > 0
    ensures Pending(snap, Walk(snap, root)[1..], root, {})
    ensures Elems(Walk(snap, root)[1..]) == Subtree(snap, root) - {root}
  {
    WalkTailParents(snap, root);
    WalkTailBelow(snap, root);
  }

  /** Two names for the same set of copied paths. */
  lemma MirrorsSameDone(snap: FileSystem, cur: FileSystem, root: Path, target: Path, a: set<Path>, b: set<Path>)
    requires Mirrors(snap, cur, root, target, a) && a == b
    ensures Mirrors(snap, cur, root, target, b)
  {
  }

  /**
   The loop over the walk after its root, started right after `target` was
   created, succeeds when nothing is injected and mirrors the whole tree.
   */
  lemma WalkCopyMirrors(snap: FileSystem, root: Path, target: Path, ws: seq<Path>)
    requires Disjoint(snap, root, target) && CreateDir(snap, target, NoFaults).Ok?
    requires Pending(snap, ws, root, {}) && Elems(ws) == Subtree(snap, root) - {root}
    ensures forall i :: 0 <= i < |ws| ==> ws[i] in snap && |root| <= |ws[i]|
    ensures var run := CopyEntries(snap, CreateDir(snap, target, NoFaults).value, ws, |root|, target, NoFaults);
      && run.status == Done
      && Mirrors(snap, run.fs, root, target, Subtree(snap, root) - {root})
  {
    var fs1 := CreateDir(snap, target, NoFaults).value;
    FreshRootMirrors(snap, root, target, NoFaults);
    CopyEntriesMirrors(snap, fs1, ws, root, target, {});
    var run := CopyEntries(snap, fs1, ws, |root|, target, NoFaults);
    MirrorsSameDone(snap, run.fs, root, target, {} + Elems(ws), Subtree(snap, root) - {root});
  }

  /**
   Copying a whole walked tree: the root directory is created at `target`,
   the loop over the rest of the walk succeeds when nothing is injected, and
   beneath `target` there is exactly one image per path of the tree, holding
   what that path held.
   */
  lemma TreeCopyMirrors(snap: FileSystem, root: Path, target: Path)
    requires Disjoint(snap, root, target) && CreateDir(snap, target, NoFaults).Ok?
    requires forall q :: q in snap && Under(q, root) ==> Copyable(snap, q)
    ensures var run := CopyTree(snap, root, target, NoFaults);
      && run.status == Done
      && Mirrors(snap, run.fs, root, target, Subtree(snap, root) - {root})
  {
    WalkPending(snap, root);
    WalkCopyMirrors(snap, root, target, Walk(snap, root)[1..]);
  }
}
