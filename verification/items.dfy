/**
 The browser's entries (`ItemInfo`), how one directory entry becomes an
 item (`make_item`), and the listing order (`push_items`): directories
 first, then files and links, each group sorted by name or by modification
 time, newest first.
 */
module Items {
  import opened Base
  import opened Paths
  import opened Sequences

  datatype FileType = Directory | File | Symlink

  datatype Item = Item(
    fileType: FileType,
    fileName: string,
    filePath: Path,
    fileSize: nat,
    fileExt: Option<string>,
    modified: Option<string>,   // RFC 3339 text, absent when the metadata could not be read
    selected: bool)

  /** The type a metadata call reports for a path. */
  datatype RawKind = IsDir | IsFile | IsSymlink | IsOther

  /** `fs::Metadata`; `modified` is absent on platforms that cannot report it. */
  datatype Metadata = Metadata(kind: RawKind, len: nat, modified: Option<string>)

  /**
   One `read_dir` entry and its metadata, absent when that call failed. The
   state listing reads `symlink_metadata`, which reports a link as a link;
   the entry listing reads `fs::metadata`, which follows the link.
   */
  datatype RawEntry = RawEntry(path: Path, meta: Option<Metadata>)

  datatype SortKey = Name | Time

  /** The type a listing shows; anything that is neither a directory nor a link counts as a file. */
  function Classify(kind: RawKind): (t: FileType)
    ensures t == Directory <==> kind == IsDir
    ensures t == Symlink <==> kind == IsSymlink
  {
    match kind
    case IsDir => Directory
    case IsFile => File
    case IsSymlink => Symlink
    case IsOther => File
  }

  /**
   `make_item`: an unselected item named after the entry. Without metadata it
   is a file of size 0 with no time; with metadata but no modification time
   the program panics on `unwrap`.
   */
  function MakeItem(e: RawEntry): (r: Result<Item>)
    ensures r.Err? <==> e.meta.Some? && e.meta.value.modified.None?
    ensures r.Ok? ==> var it := r.value;
      && !it.selected && it.filePath == e.path && it.fileName == FileName(e.path)
      && it.fileExt == Extension(FileName(e.path))
    ensures r.Ok? && e.meta.None? ==> r.value.fileType == File && r.value.fileSize == 0 && r.value.modified.None?
    ensures r.Ok? && e.meta.Some? ==>
      && r.value.fileSize == e.meta.value.len
      && r.value.modified == e.meta.value.modified
      && (r.value.fileType == Directory <==> e.meta.value.kind == IsDir)
      && (r.value.fileType == Symlink <==> e.meta.value.kind == IsSymlink)
  {
    var name := FileName(e.path);
    var ext := Extension(name);
    match e.meta
    case None => Ok(Item(File, name, e.path, 0, ext, None, false))
    case Some(m) =>
      if m.modified.None? then Err(Panic(UnwrapNone))
      else Ok(Item(Classify(m.kind), name, e.path, m.len, ext, m.modified, false))
  }

  /** The `for entry in read_dir(p)?` loop: the first failing entry ends the scan. */
  function MakeAll(es: seq<Result<RawEntry>>): (r: Result<seq<Item>>)
    ensures r.Ok? ==> |r.value| == |es|
    ensures r.Ok? ==> forall i :: 0 <= i < |es| ==> es[i].Ok? && MakeItem(es[i].value) == Ok(r.value[i])
    ensures r.Err? ==> exists i :: 0 <= i < |es| && (es[i].Err? || MakeItem(es[i].value).Err?)
  {
    if |es| == 0 then Ok([])
    else if es[0].Err? then Err(es[0].error)
    else match MakeItem(es[0].value)
      case Err(e) => Err(e)
      case Ok(it) =>
        match MakeAll(es[1..])
        case Err(e) => Err(e)
        case Ok(rest) => Ok([it] + rest)
  }

  /** `Option<String>`'s order: `None` first, then by text. */
  predicate OptLe(x: Option<string>, y: Option<string>) {
    x.None? || (y.Some? && (x.value == y.value || StrLt(x.value, y.value)))
  }

  /**
   The comparator a group is sorted by: `natord::compare` on names (passed in
   as `nameLe`), or the reversed order of modification times.
   */
  function KeyLe(key: SortKey, nameLe: (string, string) -> bool): (Item, Item) -> bool {
    match key
    case Name => (a: Item, b: Item) => nameLe(a.fileName, b.fileName)
    case Time => (a: Item, b: Item) => OptLe(b.modified, a.modified)
  }

  predicate IsDirectory(it: Item) {
    it.fileType == Directory
  }

  /** Every directory precedes every file and link. */
  predicate DirsFirst(s: seq<Item>) {
    forall i, j :: 0 <= i < j < |s| && s[j].fileType == Directory ==> s[i].fileType == Directory
  }

  /** `push_items` after the scan: directories sorted, then the rest sorted. */
  function Arrange(items: seq<Item>, key: SortKey, nameLe: (string, string) -> bool): (r: seq<Item>) {
    Sort(Filter(items, IsDirectory), KeyLe(key, nameLe)) + Sort(Filter(items, Negate(IsDirectory)), KeyLe(key, nameLe))
  }

  /** `push_items`: a failed `read_dir` or a failed entry fails the listing. */
  function PushItems(listing: Result<seq<Result<RawEntry>>>, key: SortKey, nameLe: (string, string) -> bool): (r: Result<seq<Item>>)
    ensures r.Ok? <==> listing.Ok? && MakeAll(listing.value).Ok?
    ensures r.Ok? ==> r.value == Arrange(MakeAll(listing.value).value, key, nameLe)
  {
    if listing.Err? then Err(listing.error)
    else match MakeAll(listing.value)
      case Err(e) => Err(e)
      case Ok(items) => Ok(Arrange(items, key, nameLe))
  }

  // ---------------------------------------------------------------------------
  // The listing order
  // ---------------------------------------------------------------------------

  lemma TimeOrderIsTotalPreorder(nameLe: (string, string) -> bool)
    ensures TotalPreorder(KeyLe(Time, nameLe))
  {
    StrLtIsStrictTotal();
    var le := KeyLe(Time, nameLe);
    forall a: Item, b: Item, c: Item | le(a, b) && le(b, c) ensures le(a, c) {
      assert OptLe(b.modified, a.modified) && OptLe(c.modified, b.modified);
    }
    forall a: Item, b: Item ensures le(a, b) || le(b, a) {
      assert OptLe(b.modified, a.modified) || OptLe(a.modified, b.modified);
    }
  }

  lemma NameOrderIsTotalPreorder(nameLe: (string, string) -> bool)
    requires TotalPreorder(nameLe)
    ensures TotalPreorder(KeyLe(Name, nameLe))
  {
    var le := KeyLe(Name, nameLe);
    forall a: Item, b: Item, c: Item | le(a, b) && le(b, c) ensures le(a, c) {
      assert nameLe(a.fileName, b.fileName) && nameLe(b.fileName, c.fileName);
    }
    forall a: Item, b: Item ensures le(a, b) || le(b, a) {
      assert nameLe(a.fileName, b.fileName) || nameLe(b.fileName, a.fileName);
    }
  }

  /** The arranged listing is a permutation of the scanned items. */
  lemma ArrangePermutes(items: seq<Item>, key: SortKey, nameLe: (string, string) -> bool)
    ensures multiset(Arrange(items, key, nameLe)) == multiset(items)
  {
    FilterPartition(items, IsDirectory);
  }

  /**
   The first `k` entries of the listing, `k` the number of directories
   scanned, are exactly its directories; so every directory comes first.
   */
  lemma ArrangeGroups(items: seq<Item>, key: SortKey, nameLe: (string, string) -> bool)
    ensures var r := Arrange(items, key, nameLe);
      forall i :: 0 <= i < |r| ==> (r[i].fileType == Directory <==> i < |Filter(items, IsDirectory)|)
    ensures DirsFirst(Arrange(items, key, nameLe))
  {
    var le := KeyLe(key, nameLe);
    var sd := Sort(Filter(items, IsDirectory), le);
    var sr := Sort(Filter(items, Negate(IsDirectory)), le);
    SortedFilterAccepts(items, IsDirectory, le);
    SortedFilterRejects(items, IsDirectory, le);
    var r := sd + sr;
    forall i | 0 <= i < |sd| ensures r[i].fileType == Directory {
      assert r[i] == sd[i] && IsDirectory(sd[i]);
    }
    forall i | |sd| <= i < |r| ensures r[i].fileType != Directory {
      assert r[i] == sr[i - |sd|] && !IsDirectory(sr[i - |sd|]);
    }
  }

  /**
   Each group of the listing is sorted by the key: always by time, and by
   name when `natord` behaves as a total preorder.
   */
  lemma ArrangeSorted(items: seq<Item>, key: SortKey, nameLe: (string, string) -> bool)
    requires key == Time || TotalPreorder(nameLe)
    ensures var r := Arrange(items, key, nameLe);
      var k := |Filter(items, IsDirectory)|;
      k <= |r| && Sorted(r[..k], KeyLe(key, nameLe)) && Sorted(r[k..], KeyLe(key, nameLe))
  {
    var le := KeyLe(key, nameLe);
    var dirs := Filter(items, IsDirectory);
    var rest := Filter(items, Negate(IsDirectory));
    if key == Time {
      TimeOrderIsTotalPreorder(nameLe);
    } else {
      NameOrderIsTotalPreorder(nameLe);
    }
    SortSorts(dirs, le);
    SortSorts(rest, le);
    var r := Sort(dirs, le) + Sort(rest, le);
    assert r[..|dirs|] == Sort(dirs, le) && r[|dirs|..] == Sort(rest, le);
  }

  /**
   Under the time key a group is newest first, and items without a time
   come after every item that has one.
   */
  lemma TimeGroupNewestFirst(g: seq<Item>, nameLe: (string, string) -> bool)
    requires Sorted(g, KeyLe(Time, nameLe))
    ensures forall i, j :: 0 <= i < j < |g| && g[j].modified.Some? ==>
      g[i].modified.Some? && (g[i].modified == g[j].modified || StrLt(g[j].modified.value, g[i].modified.value))
    ensures forall i, j :: 0 <= i < j < |g| && g[i].modified.None? ==> g[j].modified.None?
  {
    forall i, j | 0 <= i < j < |g| ensures OptLe(g[j].modified, g[i].modified) {
      assert KeyLe(Time, nameLe)(g[i], g[j]);
    }
  }
}
