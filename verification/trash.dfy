/**
 Soft delete (`remove_and_yank_file`, `remove_and_yank_dir`): the item is
 copied into the trash directory under the name "<timestamp>_<name>", a
 clipboard record of the copy is pushed, and only then is the original
 removed. The timestamp is `Local::now().timestamp()`, passed in.
 */
module Trash {
  import opened Base
  import opened Paths
  import opened FileSystems
  import opened Walks
  import opened Items
  import opened States

  // ---------------------------------------------------------------------------
  // `i64::to_string` and the trash name
  // ---------------------------------------------------------------------------

  const DIGITS := "0123456789"

  function Pow10(k: nat): (r: nat)
    ensures r >= 1
  {
    if k == 0 then 1 else 10 * Pow10(k - 1)
  }

  /** Decimal digits of `n`, most significant first, without leading zeros. */
  function Digits(n: nat): (r: string)
    ensures |r| >= 1
    ensures forall k :: 0 <= k < |r| ==> r[k] in DIGITS
    decreases n
  {
    if n < 10 then [DIGITS[n]] else Digits(n / 10) + [DIGITS[n % 10]]
  }

  function DigitValue(c: char): nat {
    if '0' <= c <= '9' then (c as int - '0' as int) as nat else 0
  }

  /** Reads a string of decimal digits back as a number. */
  function ParseDigits(s: string): nat {
    if |s| == 0 then 0 else 10 * ParseDigits(s[..|s| - 1]) + DigitValue(s[|s| - 1])
  }

  /** `to_string` of a signed timestamp. */
  function TimestampText(ts: int): string {
    if ts < 0 then "-" + Digits(-ts) else Digits(ts)
  }

  /** The name an item gets in the trash: the timestamp, '_', then the original name. */
  function TrashName(ts: int, name: string): (r: string)
    ensures |r| == |TimestampText(ts)| + 1 + |name|
    ensures r[..|TimestampText(ts)|] == TimestampText(ts)
    ensures r[|TimestampText(ts)|] == '_' && r[|TimestampText(ts)| + 1..] == name
  {
    TimestampText(ts) + "_" + name
  }

  /** Paste's `chars().skip(11)`: the name with a ten-digit timestamp and '_' cut off. */
  function StripStamp(name: string): (r: string)
    ensures |name| >= 11 ==> name == name[..11] + r
    ensures |name| < 11 ==> r == ""
  {
    if |name| >= 11 then name[11..] else ""
  }

  /** Reading the digits back gives the number: `to_string` loses nothing. */
  lemma {:induction false} DigitsRoundTrip(n: nat)
    ensures ParseDigits(Digits(n)) == n
    decreases n
  {
    if n >= 10 {
      DigitsRoundTrip(n / 10);
      var d := Digits(n / 10) + [DIGITS[n % 10]];
      assert d[..|d| - 1] == Digits(n / 10);
    }
  }

  /** A number with `k` digits is written with `k` characters. */
  lemma {:induction false} DigitsLength(n: nat, k: nat)
    requires k >= 1 && Pow10(k - 1) <= n < Pow10(k)
    ensures |Digits(n)| == k
    decreases k
  {
    if k > 1 {
      assert Pow10(k - 1) == 10 * Pow10(k - 2);
      assert n >= 10;
      DigitsLength(n / 10, k - 1);
    } else {
      assert n < 10;
    }
  }

  /**
   For every timestamp from 2001-09-09 to 2286-11-20 (ten decimal digits),
   stripping eleven characters from the trash name recovers the name.
   */
  lemma TrashNameRoundTrip(ts: int, name: string)
    requires Pow10(9) <= ts < Pow10(10)
    ensures StripStamp(TrashName(ts, name)) == name
  {
    DigitsLength(ts, 10);
  }

  /**
   Outside that range the strip is off: a nine-digit timestamp costs the name
   its first character, an eleven-digit one leaves the '_' on it.
   */
  lemma StripNeedsTenDigits()
    ensures StripStamp(TrashName(999999999, "ab")) == "b"
    ensures StripStamp(TrashName(10000000000, "ab")) == "_ab"
  {
    assert Pow10(9) == 1000000000;
    DigitsLength(999999999, 9);
    DigitsLength(10000000000, 11);
  }

  // ---------------------------------------------------------------------------
  // Moving an item to the trash
  // ---------------------------------------------------------------------------

  /** The state, the filesystem and the status after a soft delete. */
  datatype Outcome = Outcome(state: State, fs: FileSystem, status: Status)

  /** Where an item named `name` lands in the trash. */
  function TrashPath(trashDir: Path, ts: int, name: string): (r: Path)
    ensures |r| == |trashDir| + 1 && Parent(r) == Some(trashDir)
  {
    trashDir + [TrashName(ts, name)]
  }

  /** `from.exists()` is false on a symbolic link: it dangles. */
  predicate Dangling(fs: FileSystem, item: Item) {
    item.fileType == Symlink && !Exists(fs, item.filePath)
  }

  /** The one record a successful soft delete of a file pushes. */
  function FileRecord(s: State, item: Item, ts: int): Item {
    ToRegistered(item, TrashPath(s.trashDir, ts, item.fileName), TrashName(ts, item.fileName))
  }

  /**
   `remove_and_yank_file`: a dangling link is handed to `rm` and nothing is
   recorded; otherwise copy into the trash, record the copy, remove the
   original, each step ending the call when it fails.
   */
  function RemoveAndYankFile(s: State, fs: FileSystem, item: Item, ts: int, o: Oracle): (r: Outcome)
    ensures r.state == s.(registered := r.state.registered)
    ensures r.state.registered == s.registered || r.state.registered == s.registered + [FileRecord(s, item, ts)]
    ensures r.state.registered != s.registered <==>
      !Dangling(fs, item) && Copy(fs, item.filePath, TrashPath(s.trashDir, ts, item.fileName), o).status == Done
    ensures Dangling(fs, item) ==> r.status == Done && r.fs == Rm(fs, item.filePath, o)
    ensures !Dangling(fs, item) && r.state.registered == s.registered ==>
      var to := TrashPath(s.trashDir, ts, item.fileName);
      && r.status.Failed?
      && (forall q :: q != to ==> Agrees(fs, r.fs, q))
      && CopyRemnant(fs, r.fs, item.filePath, to)
    ensures r.state.registered != s.registered ==>
      var to := TrashPath(s.trashDir, ts, item.fileName);
      forall q :: q != item.filePath && q != to ==> Agrees(fs, r.fs, q)
    ensures r.state.registered != s.registered && item.filePath != TrashPath(s.trashDir, ts, item.fileName) ==>
      var to := TrashPath(s.trashDir, ts, item.fileName);
      to in r.fs && r.fs[to] == Resolve(fs, item.filePath).value
    ensures r.state.registered != s.registered && r.status.Failed? ==>
      var to := TrashPath(s.trashDir, ts, item.fileName);
      && item.filePath in r.fs
      && (forall q :: q != to ==> Agrees(fs, r.fs, q))
    ensures r.status == Done && !Dangling(fs, item) ==> item.filePath !in r.fs && r.state.registered != s.registered
  {
    var from := item.filePath;
    if Dangling(fs, item) then Outcome(s, Rm(fs, from, o), Done)
    else
      var to := TrashPath(s.trashDir, ts, item.fileName);
      var copied := Copy(fs, from, to, o);
      if copied.status.Failed? then Outcome(s, copied.fs, copied.status)
      else
        var s1 := s.(registered := s.registered + [FileRecord(s, item, ts)]);
        assert s1.registered != s.registered by {
          assert |s1.registered| == |s.registered| + 1;
        }
        match RemoveFile(copied.fs, from, o)
        case Err(e) => Outcome(s1, copied.fs, Failed(e))
        case Ok(fs2) => Outcome(s1, fs2, Done)
  }

  /**
   With nothing injected, a file that reads as a regular file moves to a fresh
   trash path in an existing trash directory: the call succeeds, the original
   is gone and the trash copy holds its bytes.
   */
  lemma RemoveAndYankFileMoves(s: State, fs: FileSystem, item: Item, ts: int)
    requires item.filePath in fs && Resolve(fs, item.filePath).Some? && Resolve(fs, item.filePath).value.File?
    requires s.trashDir in fs && fs[s.trashDir].Dir?
    requires TrashPath(s.trashDir, ts, item.fileName) !in fs
    ensures var r := RemoveAndYankFile(s, fs, item, ts, NoFaults);
      var to := TrashPath(s.trashDir, ts, item.fileName);
      && r.status == Done
      && r.state.registered == s.registered + [FileRecord(s, item, ts)]
      && item.filePath !in r.fs
      && to in r.fs && r.fs[to] == Resolve(fs, item.filePath).value
  {
    assert !Dangling(fs, item);
    var to := TrashPath(s.trashDir, ts, item.fileName);
    assert DirOf(to) == s.trashDir;
  }

  /** The record a successful soft delete of a directory pushes: named after the walk's root. */
  function DirRecord(s: State, item: Item, ts: int): Item {
    ToRegistered(item, TrashPath(s.trashDir, ts, FileName(item.filePath)), TrashName(ts, FileName(item.filePath)))
  }

  /**
   `remove_and_yank_dir`: walk the tree in path order; the root entry fixes
   the trash path and creates it, every later entry is re-created beneath it;
   after the whole walk, record the copy and remove the original tree. A root
   that does not exist fails the walk's first entry.
   */
  function RemoveAndYankDir(s: State, fs: FileSystem, item: Item, ts: int, o: Oracle): (r: Outcome)
    ensures r.state == s.(registered := r.state.registered)
    ensures r.state.registered == s.registered || r.state.registered == s.registered + [DirRecord(s, item, ts)]
    ensures r.state.registered == s.registered ==>
      r.status.Failed? && SameOutside(fs, r.fs, TrashPath(s.trashDir, ts, FileName(item.filePath)))
    ensures r.state.registered != s.registered ==>
      item.filePath in fs && CopyTree(fs, item.filePath, TrashPath(s.trashDir, ts, FileName(item.filePath)), o).status == Done
    ensures item.filePath in fs && fs[item.filePath].Dir? && item.filePath in o.unreadable ==>
      r.state.registered == s.registered
    ensures forall q :: !Under(q, item.filePath) && !Under(q, TrashPath(s.trashDir, ts, FileName(item.filePath))) ==>
      Agrees(fs, r.fs, q)
    ensures r.status == Done ==>
      && r.state.registered != s.registered
      && forall q :: Under(q, item.filePath) ==> q !in r.fs
  {
    var root := item.filePath;
    if root !in fs then Outcome(s, fs, Failed(Io(NotFound)))
    else
      var target := TrashPath(s.trashDir, ts, FileName(root));
      var run := CopyTree(fs, root, target, o);
      if run.status.Failed? then Outcome(s, run.fs, run.status)
      else
        var s1 := s.(registered := s.registered + [DirRecord(s, item, ts)]);
        assert s1.registered != s.registered by {
          assert |s1.registered| == |s.registered| + 1;
        }
        var removed := RemoveDirAll(run.fs, root, o);
        assert forall q :: !Under(q, root) && !Under(q, target) ==> Agrees(fs, removed.fs, q) by {
          forall q | !Under(q, root) && !Under(q, target) ensures Agrees(fs, removed.fs, q) {
            assert Agrees(fs, run.fs, q) && Agrees(run.fs, removed.fs, q);
          }
        }
        Outcome(s1, removed.fs, removed.status)
  }

  /**
   A directory whose children cannot be read is not moved: its copy in the
   trash stops after the trash path is created, nothing is recorded and the
   original stays.
   */
  lemma UnreadableDirStays(s: State, item: Item, ts: int)
    requires s.trashDir == ["t"] && item.filePath == ["d"]
    ensures var fs := map[[] := Dir, ["d"] := Dir, ["t"] := Dir];
      var r := RemoveAndYankDir(s, fs, item, ts, Oracle({}, {}, {["d"]}, map[], {}));
      && r.status.Failed? && r.state == s
      && ["d"] in r.fs && r.fs[["d"]] == Dir
      && TrashPath(s.trashDir, ts, "d") in r.fs
  {
  }

  /**
   Removing the source tree from a filesystem that mirrors it leaves the
   mirror intact: every path of the tree still has its image beneath
   `target`, and everything beneath `target` is the image of such a path.
   */
  lemma MirrorSurvivesRemoval(snap: FileSystem, cur: FileSystem, root: Path, target: Path, after: FileSystem)
    requires Disjoint(snap, root, target) && snap[root].Dir?
    requires Mirrors(snap, cur, root, target, Subtree(snap, root) - {root})
    requires forall q :: !Under(q, root) ==> Agrees(cur, after, q)
    ensures forall q :: q in snap && Under(q, root) ==>
      Reroot(q, |root|, target) in after && after[Reroot(q, |root|, target)] == Image(snap, q)
    ensures forall d :: d in after && Under(d, target) ==> Unroot(d, target, root) in snap && Under(Unroot(d, target, root), root)
  {
    DisjointApart(snap, root, target);
    forall q | q in snap && Under(q, root)
      ensures Reroot(q, |root|, target) in after && after[Reroot(q, |root|, target)] == Image(snap, q)
    {
      var x := Reroot(q, |root|, target);
      if q == root {
        assert x == target;
      } else {
        assert q in Subtree(snap, root) - {root};
      }
      assert !Under(x, root);
      assert Agrees(cur, after, x);
    }
    forall d | d in after && Under(d, target)
      ensures Unroot(d, target, root) in snap && Under(Unroot(d, target, root), root)
    {
      assert Agrees(cur, after, d);
      if d != target {
        assert Unroot(d, target, root) in Subtree(snap, root) - {root};
      } else {
        assert Unroot(d, target, root) == root;
      }
    }
  }

  /**
   With nothing injected, soft-deleting a directory whose trash path is fresh
   moves the tree: the call succeeds, one record is pushed, nothing remains
   at or beneath the original root, every path of the tree has its image
   beneath the trash path holding what it held, nothing else lies beneath the
   trash path, and everything outside the two trees is unchanged.
   */
  lemma RemoveAndYankDirMoves(s: State, fs: FileSystem, item: Item, ts: int, target: Path)
    requires target == TrashPath(s.trashDir, ts, FileName(item.filePath))
    requires Disjoint(fs, item.filePath, target) && fs[item.filePath].Dir?
    requires s.trashDir in fs && fs[s.trashDir].Dir?
    requires forall q :: q in fs && Under(q, item.filePath) ==> Copyable(fs, q)
    ensures var r := RemoveAndYankDir(s, fs, item, ts, NoFaults);
      var root := item.filePath;
      && r.status == Done
      && r.state.registered == s.registered + [DirRecord(s, item, ts)]
      && (forall q :: Under(q, root) ==> q !in r.fs)
      && (forall q :: q in fs && Under(q, root) ==>
            Reroot(q, |root|, target) in r.fs && r.fs[Reroot(q, |root|, target)] == Image(fs, q))
      && (forall d :: d in r.fs && Under(d, target) ==> Unroot(d, target, root) in fs && Under(Unroot(d, target, root), root))
      && (forall q :: !Under(q, root) && !Under(q, target) ==> Agrees(fs, r.fs, q))
  {
    var root := item.filePath;
    assert DirOf(target) == s.trashDir;
    TreeCopyMirrors(fs, root, target);
    DisjointApart(fs, root, target);
    var run := CopyTree(fs, root, target, NoFaults);
    assert Agrees(fs, run.fs, root);
    var removed := RemoveDirAll(run.fs, root, NoFaults);
    RemovalWithoutFaults(run.fs, root);
    RemoveAndYankDirAfterCopy(s, fs, item, ts, NoFaults, target);
    MirrorSurvivesRemoval(fs, run.fs, root, target, removed.fs);
  }

  /** Once the copy loop has succeeded, the outcome is the record plus what the removal left. */
  lemma RemoveAndYankDirAfterCopy(s: State, fs: FileSystem, item: Item, ts: int, o: Oracle, target: Path)
    requires target == TrashPath(s.trashDir, ts, FileName(item.filePath))
    requires item.filePath in fs && CopyTree(fs, item.filePath, target, o).status == Done
    ensures var removed := RemoveDirAll(CopyTree(fs, item.filePath, target, o).fs, item.filePath, o);
      RemoveAndYankDir(s, fs, item, ts, o) ==
        Outcome(s.(registered := s.registered + [DirRecord(s, item, ts)]), removed.fs, removed.status)
  {
  }

  /** With nothing injected, removing an existing directory succeeds. */
  lemma RemovalWithoutFaults(fs: FileSystem, p: Path)
    requires p in fs && fs[p].Dir?
    ensures RemoveDirAll(fs, p, NoFaults).status == Done
  {
  }
}
