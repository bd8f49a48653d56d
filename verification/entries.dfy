/**
 The older listing of `entry.rs`: `EntryInfo` records ordered by their
 derived `Ord`, a "../" entry for the parent directory, directories before
 files, and its own `list_up` pager.
 */
module Entries {
  import opened Base
  import opened Paths
  import opened Sequences
  import Items
  import opened Screen

  /** Declared in this order, so a directory sorts before a file. */
  datatype EntryType = Dir | File

  datatype EntryInfo = EntryInfo(fileName: string, filePath: Path, fileType: EntryType, modified: Option<string>)

  // ---------------------------------------------------------------------------
  // The derived `Ord`: name, then path, then type, then time
  // ---------------------------------------------------------------------------

  predicate TypeLt(a: EntryType, b: EntryType) {
    a == Dir && b == File
  }

  /** `Option<String>`'s strict order: `None` first. */
  predicate OptLt(a: Option<string>, b: Option<string>) {
    (a.None? && b.Some?) || (a.Some? && b.Some? && StrLt(a.value, b.value))
  }

  predicate EntryLt(a: EntryInfo, b: EntryInfo) {
    || StrLt(a.fileName, b.fileName)
    || (a.fileName == b.fileName && PathLt(a.filePath, b.filePath))
    || (a.fileName == b.fileName && a.filePath == b.filePath && TypeLt(a.fileType, b.fileType))
    || (a.fileName == b.fileName && a.filePath == b.filePath && a.fileType == b.fileType && OptLt(a.modified, b.modified))
  }

  predicate EntryLe(a: EntryInfo, b: EntryInfo) {
    a == b || EntryLt(a, b)
  }

  lemma EntryLtIrreflexive(a: EntryInfo)
    ensures !EntryLt(a, a)
  {
    StrLtIsStrictTotal();
    PathLtIrreflexive(a.filePath);
  }

  lemma EntryLtAsymmetric(a: EntryInfo, b: EntryInfo)
    requires EntryLt(a, b)
    ensures !EntryLt(b, a)
  {
    StrLtIsStrictTotal();
    if a.fileName == b.fileName && PathLt(a.filePath, b.filePath) {
      PathLtAsymmetric(a.filePath, b.filePath);
    } else if a.fileName == b.fileName && a.filePath == b.filePath {
      PathLtIrreflexive(a.filePath);
    }
  }

  lemma EntryLtTransitive(a: EntryInfo, b: EntryInfo, c: EntryInfo)
    requires EntryLt(a, b) && EntryLt(b, c)
    ensures EntryLt(a, c)
  {
    StrLtIsStrictTotal();
    PathLtIsStrictTotal();
  }

  lemma EntryLtTotal(a: EntryInfo, b: EntryInfo)
    ensures a == b || EntryLt(a, b) || EntryLt(b, a)
  {
    StrLtIsStrictTotal();
    PathLtIsStrictTotal();
  }

  /** The derived order is total, transitive and antisymmetric, so `sort` has one answer. */
  lemma EntryLeIsTotalOrder()
    ensures TotalPreorder(EntryLe)
    ensures forall a, b :: EntryLe(a, b) && EntryLe(b, a) ==> a == b
  {
    forall a, b ensures EntryLe(a, b) || EntryLe(b, a) {
      EntryLtTotal(a, b);
    }
    forall a, b, c | EntryLe(a, b) && EntryLe(b, c) ensures EntryLe(a, c) {
      if a != b && b != c {
        EntryLtTransitive(a, b, c);
      }
    }
    forall a, b | EntryLe(a, b) && EntryLe(b, a) ensures a == b {
      if a != b {
        EntryLtAsymmetric(a, b);
      }
    }
  }

  // ---------------------------------------------------------------------------
  // Building the listing
  // ---------------------------------------------------------------------------

  /** `make_parent_dir`: the "../" entry, a directory with no time, pointing at `p`. */
  function MakeParentDir(p: Path): (r: EntryInfo)
    ensures r.fileName == "../" && r.filePath == p && r.fileType == Dir && r.modified.None?
  {
    EntryInfo("../", p, Dir, None)
  }

  /**
   `make_entry`: `fs::metadata` follows links and is unwrapped (a panic for a
   dangling link); only something that reads as a regular file is a file,
   anything else a directory; a missing time is left out.
   */
  function MakeEntry(e: Items.RawEntry): (r: Result<EntryInfo>)
    ensures r.Err? <==> e.meta.None?
    ensures r.Err? ==> r.error == Panic(UnwrapNone)
    ensures r.Ok? ==> && r.value.fileName == FileName(e.path) && r.value.filePath == e.path
                      && (r.value.fileType == File <==> e.meta.value.kind == Items.IsFile)
                      && r.value.modified == e.meta.value.modified
  {
    match e.meta
    case None => Err(Panic(UnwrapNone))
    case Some(m) => Ok(EntryInfo(FileName(e.path), e.path, if m.kind == Items.IsFile then File else Dir, m.modified))
  }

  /** The `read_dir` loop of `push_entries`: the first failing entry ends it. */
  function MakeEntries(es: seq<Result<Items.RawEntry>>): (r: Result<seq<EntryInfo>>)
    ensures r.Ok? <==> forall i :: 0 <= i < |es| ==> es[i].Ok? && es[i].value.meta.Some?
    ensures r.Ok? ==> |r.value| == |es| && forall i :: 0 <= i < |es| ==> MakeEntry(es[i].value) == Ok(r.value[i])
  {
    if |es| == 0 then Ok([])
    else if es[0].Err? then Err(es[0].error)
    else match MakeEntry(es[0].value)
      case Err(e) => Err(e)
      case Ok(x) =>
        match MakeEntries(es[1..])
        case Err(e) => Err(e)
        case Ok(rest) =>
          assert forall i :: 1 <= i < |es| ==> es[i] == es[1..][i - 1];
          Ok([x] + rest)
  }

  predicate IsDirEntry(x: EntryInfo) {
    x.fileType == Dir
  }

  /** The parent entry, for every directory but "/". */
  function ParentEntries(p: Path): seq<EntryInfo> {
    match Parent(p)
    case None => []
    case Some(q) => [MakeParentDir(q)]
  }

  /** The listing: the parent entry and the directories sorted, then the files sorted. */
  function ArrangeEntries(p: Path, children: seq<EntryInfo>): seq<EntryInfo> {
    Sort(ParentEntries(p) + Filter(children, IsDirEntry), EntryLe)
      + Sort(Filter(children, Negate(IsDirEntry)), EntryLe)
  }

  /** `push_entries`. */
  function PushEntries(p: Path, listing: Result<seq<Result<Items.RawEntry>>>): (r: Result<seq<EntryInfo>>)
    ensures r.Ok? <==> listing.Ok? && MakeEntries(listing.value).Ok?
    ensures r.Ok? ==> r.value == ArrangeEntries(p, MakeEntries(listing.value).value)
  {
    if listing.Err? then Err(listing.error)
    else match MakeEntries(listing.value)
      case Err(e) => Err(e)
      case Ok(children) => Ok(ArrangeEntries(p, children))
  }

  // ---------------------------------------------------------------------------
  // What the listing holds
  // ---------------------------------------------------------------------------

  /**
   The listing holds the children read and, for any directory but "/", the
   parent entry: nothing lost, nothing invented.
   */
  lemma ArrangeEntriesContents(p: Path, children: seq<EntryInfo>)
    ensures multiset(ArrangeEntries(p, children)) == multiset(ParentEntries(p)) + multiset(children)
    ensures |ArrangeEntries(p, children)| == |children| + (if |p| > 0 then 1 else 0)
  {
    FilterPartition(children, IsDirEntry);
    var ps := ParentEntries(p);
    assert multiset(ps + Filter(children, IsDirEntry)) == multiset(ps) + multiset(Filter(children, IsDirEntry));
    assert |multiset(ArrangeEntries(p, children))| == |ArrangeEntries(p, children)|;
  }

  /** The number of directories in the listing: the parent entry and the child directories. */
  function DirCount(p: Path, children: seq<EntryInfo>): nat {
    |ParentEntries(p)| + |Filter(children, IsDirEntry)|
  }

  /** The first group of the listing, the parent entry and the sorted directories, holds only directories. */
  lemma DirGroupIsDirs(p: Path, children: seq<EntryInfo>)
    ensures var sd := Sort(ParentEntries(p) + Filter(children, IsDirEntry), EntryLe);
      |sd| == DirCount(p, children) && forall i :: 0 <= i < |sd| ==> IsDirEntry(sd[i])
  {
    var dirs := ParentEntries(p) + Filter(children, IsDirEntry);
    FilterAccepts(children, IsDirEntry);
    forall y | y in dirs ensures IsDirEntry(y) {
      if y !in Filter(children, IsDirEntry) {
        assert y in ParentEntries(p);
      }
    }
    SortKeepsAll(dirs, IsDirEntry, EntryLe);
  }

  /** The first `DirCount` entries of the listing are exactly its directories. */
  lemma ArrangeEntriesTypes(p: Path, children: seq<EntryInfo>)
    ensures var r := ArrangeEntries(p, children);
      && DirCount(p, children) <= |r|
      && (forall i :: 0 <= i < |r| ==> (r[i].fileType == Dir <==> i < DirCount(p, children)))
  {
    var sd := Sort(ParentEntries(p) + Filter(children, IsDirEntry), EntryLe);
    var sf := Sort(Filter(children, Negate(IsDirEntry)), EntryLe);
    var r := sd + sf;
    DirGroupIsDirs(p, children);
    SortedFilterRejects(children, IsDirEntry, EntryLe);
    forall i | 0 <= i < |sd| ensures r[i].fileType == Dir {
      assert r[i] == sd[i] && IsDirEntry(sd[i]);
    }
    forall i | |sd| <= i < |r| ensures r[i].fileType != Dir {
      assert r[i] == sf[i - |sd|] && !IsDirEntry(sf[i - |sd|]);
    }
  }

  /** Each of the two groups of the listing is in `Ord` order. */
  lemma ArrangeEntriesSorted(p: Path, children: seq<EntryInfo>)
    ensures var r := ArrangeEntries(p, children);
      && DirCount(p, children) <= |r|
      && Sorted(r[..DirCount(p, children)], EntryLe) && Sorted(r[DirCount(p, children)..], EntryLe)
  {
    var dirs := ParentEntries(p) + Filter(children, IsDirEntry);
    var sd := Sort(dirs, EntryLe);
    var sf := Sort(Filter(children, Negate(IsDirEntry)), EntryLe);
    var r := sd + sf;
    assert |sd| == DirCount(p, children);
    EntryLeIsTotalOrder();
    SortSorts(dirs, EntryLe);
    SortSorts(Filter(children, Negate(IsDirEntry)), EntryLe);
    assert r[..|sd|] == sd && r[|sd|..] == sf;
  }

  /** The first `DirCount` entries are exactly the directories, and each group is in `Ord` order. */
  lemma ArrangeEntriesGroups(p: Path, children: seq<EntryInfo>)
    ensures var r := ArrangeEntries(p, children);
      && DirCount(p, children) <= |r|
      && (forall i :: 0 <= i < |r| ==> (r[i].fileType == Dir <==> i < DirCount(p, children)))
      && Sorted(r[..DirCount(p, children)], EntryLe) && Sorted(r[DirCount(p, children)..], EntryLe)
  {
    ArrangeEntriesTypes(p, children);
    ArrangeEntriesSorted(p, children);
  }

  /**
   "../" heads the listing exactly when no directory sorts below it, which
   fails for a directory whose name sorts before "../", such as "-x".
   */
  lemma ParentFirstIffLeast(p: Path, children: seq<EntryInfo>)
    requires |p| > 0
    ensures var r := ArrangeEntries(p, children);
      var up := MakeParentDir(DirOf(p));
      |r| > 0 && (r[0] == up <==> forall i :: 0 <= i < DirCount(p, children) ==> EntryLe(up, r[i]))
  {
    var r := ArrangeEntries(p, children);
    var up := MakeParentDir(DirOf(p));
    var k := DirCount(p, children);
    ArrangeEntriesGroups(p, children);
    EntryLeIsTotalOrder();
    var dirs := ParentEntries(p) + Filter(children, IsDirEntry);
    var sd := Sort(dirs, EntryLe);
    assert dirs[0] == up && up in multiset(dirs);
    assert up in sd;
    var j :| 0 <= j < |sd| && sd[j] == up;
    assert |sd| == k && r[..k] == sd;
    if r[0] == up {
      forall i | 0 <= i < k ensures EntryLe(up, r[i]) {
        if i > 0 {
          assert sd[0] == r[0];
        }
      }
    }
    if forall i :: 0 <= i < k ==> EntryLe(up, r[i]) {
      assert EntryLe(up, r[0]);
      if j > 0 {
        assert EntryLe(r[0], r[j]);
      }
    }
  }

  /** An example for `ParentFirstIffLeast`, one name: "-x" sorts before "../", since '-' precedes '.'. */
  lemma DashSortsBeforeParent(q: Path, x: EntryInfo)
    requires x.fileName == "-x"
    ensures EntryLt(x, MakeParentDir(q)) && !EntryLe(MakeParentDir(q), x)
  {
    assert StrLt("-x", "../");
    EntryLtAsymmetric(x, MakeParentDir(q));
  }

  /** An example for `ParentFirstIffLeast`, one name: a child directory named "-x" keeps "../" from heading the listing. */
  lemma DashDirectoryPrecedesParent(p: Path, children: seq<EntryInfo>, j: nat)
    requires |p| > 0 && j < |children| && children[j].fileName == "-x" && children[j].fileType == Dir
    ensures ArrangeEntries(p, children)[0] != MakeParentDir(DirOf(p))
  {
    var r := ArrangeEntries(p, children);
    var up := MakeParentDir(DirOf(p));
    var x := children[j];
    ArrangeEntriesContents(p, children);
    ArrangeEntriesGroups(p, children);
    ParentFirstIffLeast(p, children);
    assert x in multiset(children);
    assert x in multiset(r);
    var i :| 0 <= i < |r| && r[i] == x;
    assert i < DirCount(p, children);
    DashSortsBeforeParent(DirOf(p), x);
  }

  // ---------------------------------------------------------------------------
  // `list_up` of entry.rs
  // ---------------------------------------------------------------------------

  /**
   The screen entry.rs's `list_up` draws when nothing wraps: the page of
   `Screen.Window`, but with a footer whose first number is `skip` itself.
   */
  function EntryWindow(len: nat, row: nat, skip: nat): seq<Line>
    requires row > STARTING_POINT
  {
    var cap := row - STARTING_POINT;
    if len >= cap then
      Entries(Min(skip, len), Min(len, skip + cap), STARTING_POINT)
        + (if len > skip + cap then [Footer(skip, skip + cap, len, row)] else [])
    else
      Entries(0, len, STARTING_POINT)
  }

  /**
   entry.rs's `list_up` as written. Its guard `row > 2` lets a 3-row terminal
   reach `(row - 3) as usize - 1`, which underflows; below 3 rows the listing
   is printed whole; otherwise it pages like `State::list_up`, comparing the
   wrapped `i as u16` with `skip`.
   */
  method ListUpAsWritten(len: nat, row: nat, skip: nat) returns (r: Result<seq<Line>>)
    requires row <= U16_MAX && skip <= U16_MAX
    ensures row == STARTING_POINT ==> r == Err(Panic(UsizeUnderflow))
    ensures row < STARTING_POINT && len + STARTING_POINT <= U16_MAX + 1 ==> r == Ok(Entries(0, len, STARTING_POINT))
    ensures row > STARTING_POINT && len + STARTING_POINT <= U16_MAX + 1 ==> r == Ok(EntryWindow(len, row, skip))
  {
    if row > STARTING_POINT - 1 {
      var cap := row - STARTING_POINT;
      if cap == 0 {
        return Err(Panic(UsizeUnderflow));
      }
      if len > cap - 1 {
        var lines: seq<Line> := [];
        var rowCount := 0;
        var i := 0;
        while i < len
          invariant i <= len && rowCount <= cap
          invariant len + STARTING_POINT <= U16_MAX + 1 ==>
            rowCount == (if i <= skip then 0 else i - skip) && lines == Entries(Min(skip, i), i, STARTING_POINT)
        {
          var iu := i % (U16_MAX + 1);
          if iu < skip {
            i := i + 1;
            continue;
          }
          if iu + STARTING_POINT > U16_MAX {
            return Err(Panic(U16Overflow));
          }
          var y := iu + STARTING_POINT - skip;
          if rowCount == cap {
            if cap + skip > U16_MAX {
              return Err(Panic(U16Overflow));
            }
            return Ok(lines + [Footer(skip, cap + skip, len, y)]);
          }
          lines := lines + [Entry(i, y)];
          rowCount := rowCount + 1;
          i := i + 1;
        }
        assert len + STARTING_POINT <= U16_MAX + 1 ==> len <= skip + cap && lines == EntryWindow(len, row, skip);
        return Ok(lines);
      }
    }
    r := ListAll(len);
  }

  /**
   A paged screen of entry.rs: its footer starts one below the first entry
   shown, so it claims one line more than the page holds; e.g. 25 entries on
   10 rows scrolled by 5 show entries 6 to 12 and say "lines 5-12(25)".
   */
  lemma EntryFooterMisnumbered(len: nat, row: nat, skip: nat)
    requires row > STARTING_POINT && len > skip + row - STARTING_POINT
    ensures var w := EntryWindow(len, row, skip);
      var f := w[|w| - 1];
      && |w| >= 2 && f.Footer? && w[0].Entry?
      && f.first == w[0].index
      && f.last - f.first + 1 == |w|
    ensures EntryWindow(25, 10, 5)[7] == Footer(5, 12, 25, 10) && EntryWindow(25, 10, 5)[0] == Entry(5, 3)
  {
    var cap := row - STARTING_POINT;
    var e := Entries(Min(skip, len), Min(len, skip + cap), STARTING_POINT);
    assert EntryWindow(len, row, skip) == e + [Footer(skip, skip + cap, len, row)];
    assert EntryWindow(25, 10, 5) == Entries(5, 12, 3) + [Footer(5, 12, 25, 10)];
  }

  /**
   entry.rs's `list_up` with the guard and the footer corrected: a terminal
   of 3 rows or fewer gets the whole listing instead of a panic, and a taller
   one gets `Screen.Window`, whose footer numbers the page from 1.
   */
  method ListUpCorrected(len: nat, row: nat, skip: nat) returns (r: Result<seq<Line>>)
    requires row <= U16_MAX && skip <= U16_MAX
    ensures len + STARTING_POINT <= U16_MAX + 1 ==> r.Ok?
    ensures row <= STARTING_POINT && len + STARTING_POINT <= U16_MAX + 1 ==> r == Ok(Entries(0, len, STARTING_POINT))
    ensures row > STARTING_POINT && len + STARTING_POINT <= U16_MAX + 1 ==> r == Ok(Window(len, row, skip))
  {
    if row > STARTING_POINT {
      r := ListUp(len, row, skip);
    } else {
      r := ListAll(len);
    }
  }
}
