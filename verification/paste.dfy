/**
 Paste (`put_items`, `put_file`, `put_dir`): every clipboard record is copied
 into the current directory under a name chosen by `rename_file` or
 `rename_dir` from the set of names already taken, which starts as the
 listing's names and grows with each name chosen. A record that sits in the
 trash directory is offered to the renamer without its timestamp prefix.
 */
module Paste {
  import opened Base
  import opened Paths
  import opened FileSystems
  import opened Walks
  import opened Items
  import opened States
  import opened Trash

  /**
   `rename_file` / `rename_dir`, whose definitions are not part of this
   model: a name for the item, given the names taken.
   */
  type Renamer = (Item, set<string>) -> string

  /** The filesystem, the names taken, and the status after pasting. */
  datatype Pasted = Pasted(fs: FileSystem, names: set<string>, status: Status)

  /** The item as offered to the renamer: a trash resident loses the first 11 characters of its name. */
  function Unstamp(trashDir: Path, item: Item): (r: Item)
    ensures Parent(item.filePath) == Some(trashDir) ==> r == item.(fileName := StripStamp(item.fileName))
    ensures Parent(item.filePath) != Some(trashDir) ==> r == item
  {
    if Parent(item.filePath) == Some(trashDir) then item.(fileName := StripStamp(item.fileName)) else item
  }

  /** The path a pasted item gets in the current directory. */
  function PastePath(s: State, item: Item, names: set<string>, rename: Renamer): (r: Path)
    ensures Parent(r) == Some(s.currentDir)
  {
    s.currentDir + [rename(Unstamp(s.trashDir, item), names)]
  }

  /**
   `put_file`: copy, then take the chosen name; a failed copy takes nothing
   and leaves at most a partial file at the chosen path.
   */
  function PutFile(s: State, fs: FileSystem, item: Item, names: set<string>, renameFile: Renamer, o: Oracle): (r: Pasted)
    ensures var to := PastePath(s, item, names, renameFile);
      r.status == Done <==> Copy(fs, item.filePath, to, o).status == Done
    ensures r.status == Done ==>
      var to := PastePath(s, item, names, renameFile);
      && r.names == names + {to[|to| - 1]}
      && to in r.fs && r.fs[to] == Resolve(fs, item.filePath).value
      && forall q :: q != to ==> Agrees(fs, r.fs, q)
    ensures r.status.Failed? ==>
      var to := PastePath(s, item, names, renameFile);
      && r.names == names
      && (forall q :: q != to ==> Agrees(fs, r.fs, q))
      && CopyRemnant(fs, r.fs, item.filePath, to)
  {
    var name := renameFile(Unstamp(s.trashDir, item), names);
    var to := s.currentDir + [name];
    var copied := Copy(fs, item.filePath, to, o);
    Pasted(copied.fs, if copied.status == Done then names + {name} else names, copied.status)
  }

  /**
   `put_dir`: the walk's first entry must exist, and the root's parent is
   unwrapped (a panic for "/"); then the chosen name is taken before the
   copy of the tree starts, so it stays taken even when the copy fails.
   */
  function PutDir(s: State, fs: FileSystem, item: Item, names: set<string>, renameDir: Renamer, o: Oracle): (r: Pasted)
    ensures item.filePath !in fs ==> r == Pasted(fs, names, Failed(Io(NotFound)))
    ensures item.filePath in fs && |item.filePath| == 0 ==> r == Pasted(fs, names, Failed(Panic(UnwrapNone)))
    ensures item.filePath in fs && |item.filePath| > 0 ==>
      var to := PastePath(s, item, names, renameDir);
      && r.names == names + {to[|to| - 1]}
      && SameOutside(fs, r.fs, to)
      && r.status == CopyTree(fs, item.filePath, to, o).status
    ensures item.filePath in fs && |item.filePath| > 0 && fs[item.filePath].Dir? && item.filePath in o.unreadable ==>
      r.status.Failed?
  {
    var root := item.filePath;
    if root !in fs then Pasted(fs, names, Failed(Io(NotFound)))
    else if |root| == 0 then Pasted(fs, names, Failed(Panic(UnwrapNone)))
    else
      var name := renameDir(Unstamp(s.trashDir, item), names);
      var run := CopyTree(fs, root, s.currentDir + [name], o);
      Pasted(run.fs, names + {name}, run.status)
  }

  /** One record: directories by `put_dir`, files and links by `put_file`; it takes at most one name. */
  function PutOne(s: State, fs: FileSystem, item: Item, names: set<string>, renameFile: Renamer, renameDir: Renamer, o: Oracle): (r: Pasted)
    ensures names <= r.names && |r.names - names| <= 1
  {
    if item.fileType == Directory then
      var r := PutDir(s, fs, item, names, renameDir, o);
      AddsAtMostOne(names, r.names, PastePath(s, item, names, renameDir));
      r
    else
      var r := PutFile(s, fs, item, names, renameFile, o);
      AddsAtMostOne(names, r.names, PastePath(s, item, names, renameFile));
      r
  }

  lemma AddsAtMostOne(names: set<string>, after: set<string>, to: Path)
    requires |to| > 0 && (after == names || after == names + {to[|to| - 1]})
    ensures names <= after && |after - names| <= 1
  {
    if after != names {
      assert after - names <= {to[|to| - 1]};
    }
  }

  /** The loop over the clipboard: the first failing record ends it; each record takes at most one name. */
  function PutAll(s: State, fs: FileSystem, regs: seq<Item>, names: set<string>, renameFile: Renamer, renameDir: Renamer, o: Oracle): (r: Pasted)
    ensures names <= r.names && |r.names - names| <= |regs|
    ensures |regs| == 0 ==> r == Pasted(fs, names, Done)
    decreases |regs|
  {
    if |regs| == 0 then Pasted(fs, names, Done)
    else
      var p := PutOne(s, fs, regs[0], names, renameFile, renameDir, o);
      if p.status.Failed? then p
      else
        var r := PutAll(s, p.fs, regs[1..], p.names, renameFile, renameDir, o);
        GrowthAdds(names, p.names, r.names);
        r
  }

  /** Names taken over two stages are those taken in the first plus those taken in the second. */
  lemma GrowthAdds(a: set<string>, b: set<string>, c: set<string>)
    requires a <= b <= c
    ensures |c - a| == |b - a| + |c - b|
  {
    assert c - a == (b - a) + (c - b);
    assert (b - a) * (c - b) == {};
  }

  /** The names of the listing, which paste starts from. */
  function ListNames(list: seq<Item>): (r: set<string>)
    ensures forall n :: n in r <==> exists i :: 0 <= i < |list| && list[i].fileName == n
  {
    set i | 0 <= i < |list| :: list[i].fileName
  }

  /**
   `put_items`: paste every record; the first record is offered the
   listing's names, and the loop goes on from what it left.
   */
  function PutItems(s: State, fs: FileSystem, renameFile: Renamer, renameDir: Renamer, o: Oracle): (r: Pasted)
    ensures forall i :: 0 <= i < |s.list| ==> s.list[i].fileName in r.names
    ensures |r.names - ListNames(s.list)| <= |s.registered|
    ensures |s.registered| == 0 ==> r == Pasted(fs, ListNames(s.list), Done)
    ensures |s.registered| > 0 ==>
      var p := PutOne(s, fs, s.registered[0], ListNames(s.list), renameFile, renameDir, o);
      r == if p.status.Failed? then p else PutAll(s, p.fs, s.registered[1..], p.names, renameFile, renameDir, o)
  {
    PutAll(s, fs, s.registered, ListNames(s.list), renameFile, renameDir, o)
  }

  // ---------------------------------------------------------------------------
  // Properties of paste
  // ---------------------------------------------------------------------------

  /**
   Pasting `a + b` is pasting `a` and, unless that failed, then pasting `b`
   from where it left off: an error aborts every later record.
   */
  lemma {:induction false} PutAllSplits(s: State, fs: FileSystem, a: seq<Item>, b: seq<Item>, names: set<string>,
                                        renameFile: Renamer, renameDir: Renamer, o: Oracle)
    ensures var p := PutAll(s, fs, a, names, renameFile, renameDir, o);
      PutAll(s, fs, a + b, names, renameFile, renameDir, o) ==
        if p.status.Failed? then p else PutAll(s, p.fs, b, p.names, renameFile, renameDir, o)
    decreases |a|
  {
    if |a| == 0 {
      assert a + b == b;
    } else {
      assert (a + b)[0] == a[0] && (a + b)[1..] == a[1..] + b;
      var p := PutOne(s, fs, a[0], names, renameFile, renameDir, o);
      if p.status.Done? {
        PutAllSplits(s, p.fs, a[1..], b, p.names, renameFile, renameDir, o);
      }
    }
  }

  /** A failing record stops the paste: nothing after it runs, whatever follows. */
  lemma PutAllStopsAtFailure(s: State, fs: FileSystem, a: seq<Item>, b: seq<Item>, names: set<string>,
                             renameFile: Renamer, renameDir: Renamer, o: Oracle)
    requires PutAll(s, fs, a, names, renameFile, renameDir, o).status.Failed?
    ensures PutAll(s, fs, a + b, names, renameFile, renameDir, o) == PutAll(s, fs, a, names, renameFile, renameDir, o)
  {
    PutAllSplits(s, fs, a, b, names, renameFile, renameDir, o);
  }

  /**
   Record `k` of the clipboard is offered the listing's names plus the names
   the records before it took, at most one each: pasting runs the first `k`
   records from the listing's names and, unless one of them failed, the rest
   from the names and filesystem they left.
   */
  lemma PutItemsOffers(s: State, fs: FileSystem, renameFile: Renamer, renameDir: Renamer, o: Oracle, k: nat)
    requires k <= |s.registered|
    ensures var p := PutAll(s, fs, s.registered[..k], ListNames(s.list), renameFile, renameDir, o);
      && ListNames(s.list) <= p.names && |p.names - ListNames(s.list)| <= k
      && PutItems(s, fs, renameFile, renameDir, o) ==
           if p.status.Failed? then p
           else PutAll(s, p.fs, s.registered[k..], p.names, renameFile, renameDir, o)
  {
    PutAllSplits(s, fs, s.registered[..k], s.registered[k..], ListNames(s.list), renameFile, renameDir, o);
    assert s.registered[..k] + s.registered[k..] == s.registered;
  }

  /**
   A file soft-deleted at a ten-digit timestamp is offered to `rename_file`
   under its original name, so paste restores it as it was called.
   */
  lemma TrashedFileKeepsName(s: State, item: Item, ts: int)
    requires Pow10(9) <= ts < Pow10(10)
    ensures Unstamp(s.trashDir, FileRecord(s, item, ts)).fileName == item.fileName
  {
    TrashNameRoundTrip(ts, item.fileName);
  }

  /** Likewise for a directory: it is offered under its root's name. */
  lemma TrashedDirKeepsName(s: State, item: Item, ts: int)
    requires Pow10(9) <= ts < Pow10(10)
    ensures Unstamp(s.trashDir, DirRecord(s, item, ts)).fileName == FileName(item.filePath)
  {
    TrashNameRoundTrip(ts, FileName(item.filePath));
  }

  /**
   With nothing injected, pasting a directory tree under a fresh name in an
   existing current directory re-creates the tree there: every path keeps
   its place relative to the root and its contents.
   */
  lemma PutDirMirrors(s: State, fs: FileSystem, item: Item, names: set<string>, renameDir: Renamer)
    requires |item.filePath| > 0
    requires var to := PastePath(s, item, names, renameDir);
      && Disjoint(fs, item.filePath, to)
      && s.currentDir in fs && fs[s.currentDir].Dir?
      && forall q :: q in fs && Under(q, item.filePath) ==> Copyable(fs, q)
    ensures var r := PutDir(s, fs, item, names, renameDir, NoFaults);
      var to := PastePath(s, item, names, renameDir);
      && r.status == Done
      && Mirrors(fs, r.fs, item.filePath, to, Subtree(fs, item.filePath) - {item.filePath})
  {
    var to := PastePath(s, item, names, renameDir);
    assert DirOf(to) == s.currentDir;
    TreeCopyMirrors(fs, item.filePath, to);
  }
}
