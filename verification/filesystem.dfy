/**
 The filesystem the browser acts on, as a map from paths to nodes, and the
 `std::fs` calls the core makes on it (`create_dir`, `copy`, `remove_file`,
 `remove_dir_all`, the `rm` command, `Path::exists`). Which calls fail for
 reasons outside the program (permissions, a full disk, a racing process) is
 decided by an `Oracle`, so the I/O failures the core handles can be injected.
 */
module FileSystems {
  import opened Base
  import opened Paths

  newtype byte = x: int | 0 <= x < 256

  type Bytes = seq<byte>

  datatype Node = Dir | File(content: Bytes) | Link(target: Path)

  type FileSystem = map<Path, Node>

  /**
   Which calls fail. Creating or opening a path of `badWrites` for writing
   fails; removing a path of `badRemoves` fails; opening a path of
   `unreadable` for reading (a file's bytes or a directory's children)
   fails. A write to a path of `shortWrites` stops with an error after that
   many bytes. When `remove_dir_all` meets a failure, the paths of
   `removedFirst` whose whole subtree it could remove are already gone.
   */
  datatype Oracle = Oracle(
    badWrites: set<Path>,
    badRemoves: set<Path>,
    unreadable: set<Path>,
    shortWrites: map<Path, nat>,
    removedFirst: set<Path>)

  const NoFaults := Oracle({}, {}, {}, map[], {})

  /** A filesystem and the status of the call that produced it. */
  datatype Run = Run(fs: FileSystem, status: Status)

  /** The root is a directory and every other path sits in an existing directory. */
  ghost predicate WellFormed(fs: FileSystem) {
    && [] in fs && fs[[]].Dir?
    && forall p :: p in fs && |p| > 0 ==> InDirectory(fs, p)
  }

  ghost predicate InDirectory(fs: FileSystem, p: Path)
    requires |p| > 0
  {
    DirOf(p) in fs && fs[DirOf(p)].Dir?
  }

  /** `a` and `b` hold the same thing at `q`. */
  ghost predicate Agrees(a: FileSystem, b: FileSystem, q: Path) {
    (q in a <==> q in b) && (q in a ==> a[q] == b[q])
  }

  /** `a` and `b` differ at most beneath `t`. */
  ghost predicate SameOutside(a: FileSystem, b: FileSystem, t: Path) {
    forall q :: !Under(q, t) ==> Agrees(a, b, q)
  }

  /** What a path opened for reading yields, following one symbolic link. */
  function Resolve(fs: FileSystem, p: Path): (r: Option<Node>)
    ensures r.Some? ==> p in fs && !r.value.Link?
    ensures p in fs && !fs[p].Link? ==> r == Some(fs[p])
  {
    if p !in fs then None
    else match fs[p]
      case Link(t) => if t in fs && !fs[t].Link? then Some(fs[t]) else None
      case n => Some(n)
  }

  /** `Path::exists`: false for a missing path and for a dangling link. */
  predicate Exists(fs: FileSystem, p: Path) {
    Resolve(fs, p).Some?
  }

  /** `fs::create_dir`. */
  function CreateDir(fs: FileSystem, p: Path, o: Oracle): (r: Result<FileSystem>)
    ensures r.Ok? <==> p !in o.badWrites && p !in fs && |p| > 0 && InDirectory(fs, p)
    ensures r.Ok? ==> r.value.Keys == fs.Keys + {p} && r.value[p] == Dir
    ensures r.Ok? ==> forall q :: q != p ==> Agrees(fs, r.value, q)
  {
    if p in o.badWrites then Err(Io(Injected))
    else if p in fs || |p| == 0 then Err(Io(AlreadyExists))
    else if DirOf(p) !in fs then Err(Io(NotFound))
    else if !fs[DirOf(p)].Dir? then Err(Io(NotADirectory))
    else Ok(fs[p := Dir])
  }

  /** Everything `fs::copy` checks before it creates or truncates `to`. */
  ghost predicate CopyOpens(fs: FileSystem, from: Path, to: Path, o: Oracle) {
    && Resolve(fs, from).Some? && Resolve(fs, from).value.File? && from !in o.unreadable
    && to !in o.badWrites && |to| > 0 && InDirectory(fs, to)
    && !(to in fs && fs[to].Dir?)
  }

  /** The bytes of `c` that a write to `to` gets through. */
  function Written(o: Oracle, to: Path, c: Bytes): (r: Bytes)
    ensures r <= c
    ensures r == c <==> !(to in o.shortWrites && o.shortWrites[to] < |c|)
  {
    if to in o.shortWrites && o.shortWrites[to] < |c| then c[..o.shortWrites[to]] else c
  }

  /**
   `fs::copy`: opens `from` for reading through a link, then creates or
   truncates `to` and writes the bytes. A failure before `to` is opened
   leaves everything as it was; a write that stops early leaves `to`
   holding a prefix of the bytes.
   */
  function Copy(fs: FileSystem, from: Path, to: Path, o: Oracle): (r: Run)
    ensures r.status == Done <==>
      CopyOpens(fs, from, to, o) && Written(o, to, Resolve(fs, from).value.content) == Resolve(fs, from).value.content
    ensures !CopyOpens(fs, from, to, o) ==> r.fs == fs
    ensures CopyOpens(fs, from, to, o) ==>
      && r.fs.Keys == fs.Keys + {to} && r.fs[to].File?
      && r.fs[to].content <= Resolve(fs, from).value.content
    ensures r.status == Done ==> r.fs[to] == Resolve(fs, from).value
    ensures forall q :: q != to ==> Agrees(fs, r.fs, q)
  {
    match Resolve(fs, from)
    case None => Run(fs, Failed(Io(NotFound)))
    case Some(n) =>
      if !n.File? then Run(fs, Failed(Io(NotAFile)))
      else if from in o.unreadable || to in o.badWrites then Run(fs, Failed(Io(Injected)))
      else if |to| == 0 || DirOf(to) !in fs then Run(fs, Failed(Io(NotFound)))
      else if !fs[DirOf(to)].Dir? then Run(fs, Failed(Io(NotADirectory)))
      else if to in fs && fs[to].Dir? then Run(fs, Failed(Io(IsADirectory)))
      else
        var w := Written(o, to, n.content);
        Run(fs[to := File(w)], if w == n.content then Done else Failed(Io(Injected)))
  }

  /**
   At `to`, `after` holds what `before` held there, or a file holding a
   prefix of the bytes `from` reads as: what a failed `fs::copy` leaves.
   */
  ghost predicate CopyRemnant(before: FileSystem, after: FileSystem, from: Path, to: Path) {
    || Agrees(before, after, to)
    || (&& to in after && after[to].File?
        && Resolve(before, from).Some? && Resolve(before, from).value.File?
        && after[to].content <= Resolve(before, from).value.content)
  }

  /** `fs::remove_file`: unlinks a file or a link (not its target). */
  function RemoveFile(fs: FileSystem, p: Path, o: Oracle): (r: Result<FileSystem>)
    ensures r.Ok? <==> p !in o.badRemoves && p in fs && !fs[p].Dir?
    ensures r.Ok? ==> r.value.Keys == fs.Keys - {p}
    ensures r.Ok? ==> forall q :: q != p ==> Agrees(fs, r.value, q)
  {
    if p in o.badRemoves then Err(Io(Injected))
    else if p !in fs then Err(Io(NotFound))
    else if fs[p].Dir? then Err(Io(IsADirectory))
    else Ok(fs - {p})
  }

  /**
   `q` lies beneath `p` and `remove_dir_all` got to remove it before it
   stopped: every path beneath `q` is among the early removals and none of
   them refuses removal.
   */
  predicate RemovedEarly(fs: FileSystem, p: Path, q: Path, o: Oracle) {
    Under(q, p) && forall x :: x in fs && Under(x, q) ==> x in o.removedFirst && x !in o.badRemoves
  }

  /**
   `fs::remove_dir_all`: looks at `p` without following a link. A link is
   unlinked (in a well-formed filesystem nothing lies beneath it); a
   directory loses everything beneath it, then itself, and the removal stops
   at the first one that fails; a file is refused.
   */
  function RemoveDirAll(fs: FileSystem, p: Path, o: Oracle): (r: Run)
    ensures r.status == Done <==>
      p in fs && !fs[p].File? && forall q :: q in fs && Under(q, p) ==> q !in o.badRemoves
    ensures forall q :: !Under(q, p) ==> Agrees(fs, r.fs, q)
    ensures r.status == Done ==> forall q :: Under(q, p) ==> q !in r.fs
    ensures r.status.Failed? ==> forall q :: q in r.fs ==> q in fs && r.fs[q] == fs[q]
    ensures r.status.Failed? && p in fs ==> p in r.fs
    ensures forall q :: q in fs && q in o.badRemoves ==> q in r.fs
  {
    if p !in fs then Run(fs, Failed(Io(NotFound)))
    else if fs[p].File? then Run(fs, Failed(Io(NotADirectory)))
    else if forall q :: q in fs && Under(q, p) ==> q !in o.badRemoves then
      Run(map q | q in fs && !Under(q, p) :: fs[q], Done)
    else if fs[p].Link? then Run(fs, Failed(Io(Injected)))
    else
      Run(map q | q in fs && !RemovedEarly(fs, p, q, o) :: fs[q], Failed(Io(Injected)))
  }

  /** The external `rm` command, whose exit status the program ignores. */
  function Rm(fs: FileSystem, p: Path, o: Oracle): (r: FileSystem)
    ensures forall q :: q != p ==> Agrees(fs, r, q)
    ensures p in fs && !fs[p].Dir? && p !in o.badRemoves ==> p !in r
  {
    if p in fs && !fs[p].Dir? && p !in o.badRemoves then fs - {p} else fs
  }

  // ---------------------------------------------------------------------------
  // Facts about well-formed filesystems
  // ---------------------------------------------------------------------------

  /** Every ancestor of an existing path is an existing directory. */
  lemma {:induction false} AncestorIsDir(fs: FileSystem, q: Path, a: Path)
    requires WellFormed(fs)
    requires q in fs && a < q
    ensures a in fs && fs[a].Dir?
    decreases |q|
  {
    assert InDirectory(fs, q);
    var d := DirOf(q);
    if d != a {
      assert a < d;
      AncestorIsDir(fs, d, a);
    }
  }

  /** Nothing lies beneath a path that does not exist. */
  lemma NothingBelowAbsent(fs: FileSystem, t: Path)
    requires WellFormed(fs) && t !in fs
    ensures forall q :: q in fs ==> !Under(q, t)
  {
    forall q | q in fs && Under(q, t) ensures false {
      assert q != t;
      AncestorIsDir(fs, q, t);
    }
  }

  lemma CreateDirKeepsWellFormed(fs: FileSystem, p: Path, o: Oracle)
    requires WellFormed(fs) && CreateDir(fs, p, o).Ok?
    ensures WellFormed(CreateDir(fs, p, o).value)
  {
  }

  /** Even a failed copy leaves a well-formed filesystem. */
  lemma CopyKeepsWellFormed(fs: FileSystem, from: Path, to: Path, o: Oracle)
    requires WellFormed(fs)
    ensures WellFormed(Copy(fs, from, to, o).fs)
  {
  }

  /** Removal, whole or stopped early, never leaves a path without its directory. */
  lemma RemoveDirAllKeepsWellFormed(fs: FileSystem, p: Path, o: Oracle)
    requires WellFormed(fs) && |p| > 0
    ensures WellFormed(RemoveDirAll(fs, p, o).fs)
  {
    if p in fs && !fs[p].File? {
      if forall q :: q in fs && Under(q, p) ==> q !in o.badRemoves {
        var r := map q | q in fs && !Under(q, p) :: fs[q];
        assert RemoveDirAll(fs, p, o).fs == r;
        forall q | q in r && |q| > 0 ensures InDirectory(r, q) {
          assert !Under(DirOf(q), p);
        }
      } else if fs[p].Dir? {
        var r := map q | q in fs && !RemovedEarly(fs, p, q, o) :: fs[q];
        assert RemoveDirAll(fs, p, o).fs == r;
        forall q | q in r && |q| > 0 ensures InDirectory(r, q) {
          if DirOf(q) !in r {
            RemovedEarlyBelow(fs, p, DirOf(q), q, o);
          }
        }
      }
    }
  }

  /** A symbolic link given to `remove_dir_all` is unlinked; the directory it points to stays. */
  lemma RemoveDirAllUnlinks()
    ensures var fs := map[[] := Dir, ["d"] := Dir, ["l"] := Link(["d"])];
      var r := RemoveDirAll(fs, ["l"], NoFaults);
      r.status == Done && r.fs == map[[] := Dir, ["d"] := Dir]
  {
    var fs := map[[] := Dir, ["d"] := Dir, ["l"] := Link(["d"])];
    assert "d" != "l" by { assert "d"[0] != "l"[0]; }
    assert ["d"][..1] == ["d"] && ["l"][..1] == ["l"];
    assert !Under([], ["l"]) && !Under(["d"], ["l"]) && Under(["l"], ["l"]);
    assert (map q | q in fs && !Under(q, ["l"]) :: fs[q]) == map[[] := Dir, ["d"] := Dir];
  }

  /** What `remove_dir_all` removed early, it removed with everything beneath it. */
  lemma RemovedEarlyBelow(fs: FileSystem, p: Path, d: Path, q: Path, o: Oracle)
    requires RemovedEarly(fs, p, d, o) && Under(q, d)
    ensures RemovedEarly(fs, p, q, o)
  {
  }
}
