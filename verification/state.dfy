/**
 The browser's `State`: the listing shown, the clipboard of yanked items
 (`registered`), the directories it works in, and the terminal layout; with
 the operations that only touch the listing's selection flags and the
 clipboard.
 */
module States {
  import opened Base
  import opened Paths
  import opened Sequences
  import opened Items

  /** The terminal geometry `list_up` and `print` use (row count, name width). */
  datatype Layout = Layout(terminalRow: nat, terminalColumn: nat, nameMaxLen: nat, timeStartPos: nat)

  datatype State = State(
    list: seq<Item>,
    registered: seq<Item>,
    currentDir: Path,
    trashDir: Path,
    sortBy: SortKey,
    layout: Layout)

  /** `get_item`: the entry at `index`, or a NotFound error past the end. */
  function GetItem(list: seq<Item>, index: nat): (r: Result<Item>)
    ensures r.Ok? <==> index < |list|
    ensures r.Ok? ==> r.value == list[index]
    ensures r.Err? ==> r.error == Io(NotFound)
  {
    if index < |list| then Ok(list[index]) else Err(Io(NotFound))
  }

  /** `a` is `b` with possibly another selection flag. */
  predicate SameButSelection(a: Item, b: Item) {
    a.(selected := b.selected) == b
  }

  /** `list` and `r` hold the same entries in the same order, up to selection flags. */
  predicate Reflagged(list: seq<Item>, r: seq<Item>) {
    |r| == |list| && forall i :: 0 <= i < |r| ==> SameButSelection(r[i], list[i])
  }

  function SetSelected(list: seq<Item>, pick: nat -> bool): seq<Item> {
    seq(|list|, i requires 0 <= i < |list| => list[i].(selected := pick(i)))
  }

  /** `reset_selection`: every flag cleared. */
  function ResetSelection(s: State): (r: State)
    ensures r == s.(list := r.list)
    ensures Reflagged(s.list, r.list)
    ensures forall i :: 0 <= i < |r.list| ==> !r.list[i].selected
  {
    s.(list := SetSelected(s.list, i => false))
  }

  /** `select_from_top`: exactly the entries at or above `start` selected. */
  function SelectFromTop(s: State, start: nat): (r: State)
    ensures r == s.(list := r.list)
    ensures Reflagged(s.list, r.list)
    ensures forall i :: 0 <= i < |r.list| ==> (r.list[i].selected <==> i <= start)
  {
    s.(list := SetSelected(s.list, i => i <= start))
  }

  /** `select_to_bottom`: exactly the entries at or below `start` selected. */
  function SelectToBottom(s: State, start: nat): (r: State)
    ensures r == s.(list := r.list)
    ensures Reflagged(s.list, r.list)
    ensures forall i :: 0 <= i < |r.list| ==> (r.list[i].selected <==> start <= i)
  {
    s.(list := SetSelected(s.list, i => start <= i))
  }

  predicate IsSelected(it: Item) {
    it.selected
  }

  /**
   `yank_item`: the clipboard is emptied, then holds the selected entries in
   listing order, or the one entry at `index`; an `index` past the end panics
   on `unwrap`.
   */
  function YankItem(s: State, index: nat, selected: bool): (r: Result<State>)
    ensures r.Ok? <==> selected || index < |s.list|
    ensures r.Err? ==> r.error == Panic(UnwrapNone)
    ensures r.Ok? ==> r.value == s.(registered := r.value.registered)
    ensures r.Ok? && !selected ==> r.value.registered == [s.list[index]]
    ensures r.Ok? && selected ==> forall x :: x in r.value.registered <==> x in s.list && x.selected
  {
    if selected then
      FilterAccepts(s.list, IsSelected);
      FilterIsKept(s.list, IsSelected);
      var picked := Filter(s.list, IsSelected);
      assert forall x :: x in s.list && x.selected ==> x in picked by {
        forall x | x in s.list && x.selected ensures x in picked {
          var i :| 0 <= i < |s.list| && s.list[i] == x;
          var k :| 0 <= k < |KeptIndices(s.list, IsSelected)| && KeptIndices(s.list, IsSelected)[k] == i;
          assert picked[k] == x;
        }
      }
      Ok(s.(registered := picked))
    else match GetItem(s.list, index)
      case Err(_) => Err(Panic(UnwrapNone))
      case Ok(it) => Ok(s.(registered := [it]))
  }

  /**
   `to_registered_mut`: the clipboard record of an item moved to `path` under
   the name `name`, unselected; every other field is the item's.
   */
  function ToRegistered(item: Item, path: Path, name: string): (r: Item)
    ensures r.filePath == path && r.fileName == name && !r.selected
    ensures r.fileType == item.fileType && r.fileSize == item.fileSize
    ensures r.fileExt == item.fileExt && r.modified == item.modified
  {
    item.(filePath := path, fileName := name, selected := false)
  }

  // ---------------------------------------------------------------------------
  // Selection and yank together
  // ---------------------------------------------------------------------------

  /** The selected entries are yanked in listing order: at the increasing positions of the selected flags. */
  lemma YankSelectedInOrder(s: State, index: nat)
    ensures var reg := YankItem(s, index, true).value.registered;
      var ks := KeptIndices(s.list, IsSelected);
      |reg| == |ks| && forall k :: 0 <= k < |reg| ==> reg[k] == s.list[ks[k]]
  {
    FilterIsKept(s.list, IsSelected);
  }

  /** After a reset nothing is yanked in selection mode. */
  lemma YankAfterReset(s: State, index: nat)
    ensures YankItem(ResetSelection(s), index, true).value.registered == []
  {
    var l := ResetSelection(s).list;
    FilterNone(l, IsSelected);
  }

  /** Yanking in selection mode takes the selected entries, in order. */
  lemma YankSelection(s: State, index: nat)
    ensures YankItem(s, index, true).value.registered == Filter(s.list, IsSelected)
  {
  }

  /** A listing whose first `n` entries are exactly the selected ones yanks that prefix. */
  lemma {:induction false} SelectedPrefix(l: seq<Item>, n: nat)
    requires n <= |l|
    requires forall i :: 0 <= i < |l| ==> (l[i].selected <==> i < n)
    ensures Filter(l, IsSelected) == l[..n]
  {
    var a, b := l[..n], l[n..];
    assert l == a + b;
    FilterAppend(a, b, IsSelected);
    forall i | 0 <= i < |a| ensures IsSelected(a[i]) {
      assert a[i] == l[i];
    }
    FilterAll(a, IsSelected);
    forall i | 0 <= i < |b| ensures !IsSelected(b[i]) {
      assert b[i] == l[n + i];
    }
    FilterNone(b, IsSelected);
  }

  /** A listing whose entries from `n` on are exactly the selected ones yanks that suffix. */
  lemma {:induction false} SelectedSuffix(l: seq<Item>, n: nat)
    requires n <= |l|
    requires forall i :: 0 <= i < |l| ==> (l[i].selected <==> n <= i)
    ensures Filter(l, IsSelected) == l[n..]
  {
    var a, b := l[..n], l[n..];
    assert l == a + b;
    FilterAppend(a, b, IsSelected);
    forall i | 0 <= i < |a| ensures !IsSelected(a[i]) {
      assert a[i] == l[i];
    }
    FilterNone(a, IsSelected);
    forall i | 0 <= i < |b| ensures IsSelected(b[i]) {
      assert b[i] == l[n + i];
    }
    FilterAll(b, IsSelected);
  }

  /** Selecting from the top then yanking takes the first `start + 1` entries, flags set. */
  lemma YankAfterSelectFromTop(s: State, start: nat, index: nat)
    ensures var l := SelectFromTop(s, start).list;
      var n := if start < |l| then start + 1 else |l|;
      YankItem(SelectFromTop(s, start), index, true).value.registered == l[..n]
  {
    var s1 := SelectFromTop(s, start);
    var n := if start < |s1.list| then start + 1 else |s1.list|;
    YankSelection(s1, index);
    SelectedPrefix(s1.list, n);
  }

  /** Selecting to the bottom then yanking takes the entries from `start` on, flags set. */
  lemma YankAfterSelectToBottom(s: State, start: nat, index: nat)
    ensures var l := SelectToBottom(s, start).list;
      var n := if start < |l| then start else |l|;
      YankItem(SelectToBottom(s, start), index, true).value.registered == l[n..]
  {
    var s1 := SelectToBottom(s, start);
    var n := if start < |s1.list| then start else |s1.list|;
    YankSelection(s1, index);
    SelectedSuffix(s1.list, n);
  }
}
