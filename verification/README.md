# felix core in Dafny

A model of the bookkeeping core of felix, a terminal file browser written in
Rust. It covers `src/state.rs` (the browser `State`) and the older listing of
`src/entry.rs`:

- **Scanning a directory** (`make_item`, `push_items`). Directories come first,
  then files and links. Each group is sorted by name or by modification time.
- **Selection** (`reset_selection`, `select_from_top`, `select_to_bottom`).
  These rewrite only the `selected` flags of the listing.
- **The clipboard of yanked items** (`yank_item`, `to_registered_mut`).
- **Soft delete** (`remove_and_yank_file`, `remove_and_yank_dir`). The item is
  copied into the trash directory under `"<timestamp>_<name>"`. A record of the
  copy is pushed to the clipboard, and only then is the original removed.
- **Paste** (`put_items`, `put_file`, `put_dir`). Every clipboard record is
  copied into the current directory under a name chosen from the names already
  taken. A trash resident loses its 11-character timestamp prefix first.
- **The pager of `list_up`**. It decides which entries are printed, on which
  terminal row, and when the `lines a-b(n)` footer appears. The name
  truncation of `print` is included.
- **The `entry.rs` listing**: the `"../"` entry, the derived `Ord` of
  `EntryInfo`, and its own pager.

The filesystem is a map from paths to nodes. A path is a sequence of
components, and a node is a directory, a file's bytes, or a symbolic link.
`create_dir`, `copy`, `remove_file`, `remove_dir_all` and `rm` are functions
on that map. Failures caused by the environment are chosen by an `Oracle`.
It holds the paths whose writes, removals or reads fail, the paths where a
write stops after some bytes, and the paths `remove_dir_all` gets to remove
before it stops. A failed `copy` can leave a truncated file, and a failed
`remove_dir_all` can leave part of the tree.

walkdir's `sort_by_key(path)` walk is the set of paths beneath the root, in
component-wise order. A directory sorts before everything beneath it, so the
copy loops create parents first. When a directory's children cannot be read,
walkdir yields the directory and then the error. The copy loops therefore
create the directory's image and then stop. This holds for the root too.

A Rust panic is an `Err(Panic(site))` outcome, not a precondition. Panics
come from `unwrap` on `None`, and from a `u16`/`usize` subtraction or addition
outside the type's range. The second kind happens in a debug build, which
checks integer overflow.

Files:

| file | module | contents |
|---|---|---|
| base.dfy | `Base` | `Option`, `Result`, `Status`, error kinds, panic sites |
| paths.dfy | `Paths` | paths, re-rooting, lexicographic orders, `Path::extension` |
| sequences.dfy | `Sequences` | insertion sort, order-preserving filter |
| filesystem.dfy | `FileSystems` | the filesystem map and the `std::fs` calls |
| walk.dfy | `Walks` | the sorted walk, the copy loop, the mirror theorem |
| items.dfy | `Items` | `ItemInfo`, `make_item`, `push_items` |
| state.dfy | `States` | `State`, `get_item`, selection, `yank_item`, `to_registered_mut` |
| trash.dfy | `Trash` | the trash name, `remove_and_yank_file`, `remove_and_yank_dir` |
| paste.dfy | `Paste` | `put_items`, `put_file`, `put_dir` |
| screen.dfy | `Screen` | `State::list_up` and the name truncation of `print` |
| entries.dfy | `Entries` | `EntryInfo`, `push_entries`, entry.rs `list_up` |

## Model

| member | source | states |
|---|---|---|
| Items.MakeItem | src/state.rs:649-699 | fails exactly when the metadata was read but has no modification time (the `unwrap` panic); otherwise an unselected item with the entry's path, last component and extension; without metadata a file of size 0 and no time; with metadata a directory iff the entry is one, a link iff it is one, with the metadata's length and time |
| Items.MakeAll | src/state.rs:706-713 | on success one item per entry, item i made from entry i; a failure means some entry failed or could not be made |
| Items.PushItems | src/state.rs:701-729 | succeeds iff `read_dir` and every entry succeed; the result is the scanned items arranged |
| Items.ArrangePermutes | src/state.rs:701-728 | the listing is a permutation of the scanned items |
| Items.ArrangeGroups | src/state.rs:706-713 | position i holds a directory iff i is below the number of directories scanned; every directory precedes every file and link |
| Items.ArrangeSorted | src/state.rs:715-724 | each group is sorted by the key: always by time, by name whenever the name comparison is a total preorder |
| Items.TimeOrderIsTotalPreorder | src/state.rs:720-723 | the reversed `Option<String>` order on times is total and transitive |
| Items.NameOrderIsTotalPreorder | src/state.rs:716-718 | comparing items by name inherits totality and transitivity from the name comparison |
| Items.TimeGroupNewestFirst | src/state.rs:720-723 | in a time-sorted group times never increase, and items without a time come after all items with one |
| States.GetItem | src/state.rs:125-129 | the entry at the index iff it exists, NotFound past the end |
| States.ResetSelection | src/state.rs:588-592 | every flag cleared; same entries otherwise, same length, rest of the state unchanged |
| States.SelectFromTop | src/state.rs:594-602 | exactly the indices at or above the start selected; nothing but flags changes |
| States.SelectToBottom | src/state.rs:604-612 | exactly the indices at or below the start selected; nothing but flags changes |
| States.YankItem | src/state.rs:241-251 | panics iff single mode and the index is past the end; only the clipboard changes; single mode yields exactly that entry; selection mode yields exactly the selected entries |
| States.YankSelectedInOrder | src/state.rs:243-246 | selection mode yields the selected entries in listing order |
| States.YankAfterReset | src/state.rs:588-592 | after a reset, selection mode yanks nothing |
| States.SelectedPrefix | src/state.rs:243-246 | when exactly the first n entries are selected, selection mode yanks exactly those n entries |
| States.SelectedSuffix | src/state.rs:243-246 | when exactly the entries from n on are selected, selection mode yanks exactly those entries |
| States.YankAfterSelectFromTop | src/state.rs:594-602 | after selecting from the top, selection mode yanks exactly the listing's first start+1 entries |
| States.YankAfterSelectToBottom | src/state.rs:604-612 | after selecting to the bottom, selection mode yanks exactly the entries from start on |
| States.ToRegistered | src/state.rs:233-239 | the record carries the new path and name, is unselected, and keeps every other field of the item |
| Trash.TrashName | src/state.rs:168-170 | the trash name starts with the timestamp text, has '_' right after it, then the original name |
| Trash.DigitsRoundTrip | src/state.rs:168 | the decimal text of the timestamp reads back as the timestamp |
| Trash.DigitsLength | src/state.rs:168 | a number with k decimal digits is written with k characters |
| Trash.TrashNameRoundTrip | src/state.rs:274-277 | for every ten-digit timestamp, dropping 11 characters from the trash name gives back the name |
| Trash.StripNeedsTenDigits | src/state.rs:276 | with a nine-digit timestamp the strip eats the name's first character; with an eleven-digit one it leaves the '_' |
| Trash.RemoveAndYankFile | src/state.rs:159-184 | a dangling link goes to `rm` and nothing is recorded; a record is pushed iff the copy succeeded; with no record the call failed, only the trash path may have changed, and it holds its old node or a prefix of the original's bytes; with a record only the original and the trash path may have changed, the trash copy holds the original's bytes, and a failed removal leaves the original in place; success removes the original |
| Trash.RemoveAndYankFileMoves | src/state.rs:159-184 | with nothing injected, a readable file moves to a fresh trash path: success, one record, original gone, copy holds its bytes |
| Trash.RemoveAndYankDir | src/state.rs:186-231 | the clipboard gains the root's record or nothing; with no record the call failed and only paths beneath the trash path changed; a record only after the whole copy loop succeeded, so never for a directory whose children cannot be read; nothing outside the two trees ever changes; success removes the whole original tree |
| Trash.RemoveAndYankDirMoves | src/state.rs:186-231 | with nothing injected, a directory moves to a fresh trash path: success, one record, nothing left beneath the root, each path's image beneath the trash path holding what it held, nothing else there, everything else unchanged |
| Trash.UnreadableDirStays | src/state.rs:193-203 | example: a directory "d" whose children cannot be read, with trash directory "t", is not moved: the trash path is created, the call fails, nothing is recorded and "d" stays |
| Trash.MirrorSurvivesRemoval | src/state.rs:228 | removing the source tree leaves its copy intact: each path still has its image beneath the target, and nothing else is beneath it |
| Walks.WalkCovers | src/state.rs:193 | the walk starts at the root and visits every path of the tree exactly once |
| Walks.WalkParentFirst | src/state.rs:193-212 | in the walk a path's directory comes before it |
| Walks.CopyTree | src/state.rs:193-222 | the copy loop changes nothing outside the target; success means the target was created; a root directory whose children cannot be read makes it fail |
| Walks.CopyStep | src/state.rs:195-222 | one walked entry changes at most its image; success leaves the image in place; a directory whose children cannot be read fails the step |
| Walks.TreeCopyMirrors | src/state.rs:193-222 | with nothing injected and a fresh target, the loop succeeds and the target holds exactly one image of each path of the tree, with the same contents and relative place |
| Walks.WalkTailParents | src/state.rs:193-212 | after the root, each walked path's directory is the root or was walked earlier |
| Walks.WalkCopyMirrors | src/state.rs:205-222 | the loop over a walk that covers the tree, started on a fresh target directory, succeeds when nothing is injected and mirrors the whole tree |
| Walks.CopyEntriesMirrors | src/state.rs:205-222 | each walked entry whose directory already has its image is re-created; the mirror invariant is kept to the end of the walk |
| Paths.Reroot | src/state.rs:208-209 | a walked path moved under the target keeps its components after the root |
| Paths.RerootParent | src/state.rs:208-212 | the image of a path's directory is the directory of its image |
| Paths.RerootInjective | src/state.rs:208-209 | two paths of the tree never land on the same image |
| Paths.AncestorSortsFirst | src/state.rs:193 | a directory sorts before every path beneath it |
| Paths.Extension | src/state.rs:688 | the extension is the text after the last '.', with none for "..", for names without a '.', or whose only '.' leads |
| Paste.Unstamp | src/state.rs:274-277 | an item whose parent is the trash directory is offered with its first 11 characters dropped; any other item unchanged |
| Paste.PutFile | src/state.rs:273-287 | succeeds iff the copy does; success takes exactly the chosen name and the new path holds the source's bytes; failure takes no name and changes at most the new path, which keeps its old node or holds a prefix of the source's bytes |
| Paste.PutDir | src/state.rs:289-334 | a missing root fails first; "/" panics on the parent `unwrap`; otherwise the chosen name is taken whatever the copy's outcome, only paths beneath the new root change, and a root directory whose children cannot be read fails |
| Paste.PutOne | src/state.rs:260-266 | a record keeps every taken name and takes at most one more |
| Paste.PutAll | src/state.rs:260-268 | the taken names only grow, by at most one per record |
| Paste.PutItems | src/state.rs:253-270 | every listing name counts as taken; the first record is offered exactly the listing's names and the loop goes on from what it left; at most one new name per record |
| Paste.PutItemsOffers | src/state.rs:253-270 | record k is offered the listing's names plus at most k names taken by the records before it, after which the rest runs from what they left |
| Paste.PutAllSplits | src/state.rs:260-268 | pasting a+b is pasting a, then, unless that failed, b from where a stopped |
| Paste.PutAllStopsAtFailure | src/state.rs:260-268 | once a record fails nothing later is pasted |
| Paste.TrashedFileKeepsName | src/state.rs:168-177 | a file trashed at a ten-digit timestamp is offered to the renamer under its original name |
| Paste.TrashedDirKeepsName | src/state.rs:199-225 | a directory trashed at a ten-digit timestamp is offered under its root's name |
| Paste.PutDirMirrors | src/state.rs:295-331 | with nothing injected and a fresh name, pasting a directory re-creates the tree beneath the new root |
| Screen.ListUp | src/state.rs:540-582 | rows below 3 panic on `u16`, row 3 on `usize`; for up to 65533 entries the result is exactly `Window` |
| Screen.ListAll | src/state.rs:576-581 | entry i on row i+3; panics iff the listing has more than 65533 entries |
| Screen.WindowPagedEntries | src/state.rs:546-575 | a paged listing shows exactly the entries from skip to below skip+row-3 that exist, entry i on row i+3-skip, between the header and the last row |
| Screen.WindowWholeEntries | src/state.rs:576-581 | a short listing shows every entry i on row i+3, with no footer |
| Screen.WindowFooter | src/state.rs:558-570 | a footer appears iff the listing is paged and entries follow the page; it is last, on the terminal's last row, reading skip+1 to skip+row-3 of len |
| Screen.WindowFooterCountsPage | src/state.rs:558-570 | the footer's numbers are the 1-based positions of the first and last entries shown |
| Screen.WindowExample | src/state.rs:540-582 | 25 entries, 10 rows, skip 5: entries 5 to 11 on rows 3 to 9, footer "lines 6-12(25)" on row 10 |
| Screen.TruncateName | src/state.rs:338-348 | a name that fits is kept; a longer one becomes its first maxLen-3 characters and "..", maxLen-1 in all; panics iff the name is longer and maxLen is below 3 |
| Entries.EntryLeIsTotalOrder | src/entry.rs:22-28 | the derived order (name, path, type, time) is total, transitive and antisymmetric |
| Entries.DashSortsBeforeParent | src/entry.rs:22-28 | example (one name) for Entries.ParentFirstIffLeast: an entry named "-x" sorts strictly before "../" |
| Entries.MakeParentDir | src/entry.rs:371-378 | "../", a directory, no time, the given path |
| Entries.MakeEntry | src/entry.rs:380-406 | for a valid UTF-8 name, panics iff the followed metadata is missing; otherwise named after the path's last component, a file iff the path reads as a regular file, with its time |
| Entries.MakeEntries | src/entry.rs:419-426 | succeeds iff every entry was read and has metadata; entry i made from raw entry i |
| Entries.PushEntries | src/entry.rs:408-431 | succeeds iff the directory and every entry could be read; the result is the arranged listing |
| Entries.ArrangeEntriesContents | src/entry.rs:408-431 | the listing is the children plus, unless the directory is "/", the parent entry; its length follows |
| Entries.ArrangeEntriesTypes | src/entry.rs:422-430 | an entry of the listing is a directory exactly when it sits among the first DirCount entries |
| Entries.ArrangeEntriesSorted | src/entry.rs:422-430 | the directory group and the file group are each sorted by the derived order |
| Entries.ArrangeEntriesGroups | src/entry.rs:422-430 | the first entries are exactly the directories, parent entry included; each group is sorted by the derived order |
| Entries.ParentFirstIffLeast | src/entry.rs:412-428 | "../" heads the listing iff it is below or equal to every directory |
| Entries.DashDirectoryPrecedesParent | src/entry.rs:412-428 | example (one name) for Entries.ParentFirstIffLeast: a child directory named "-x" keeps "../" from heading the listing |
| Entries.ListUpAsWritten | src/entry.rs:445-501 | row 3 panics on `usize`; below 3 rows the whole listing; above, for up to 65533 entries, the paged screen with footer starting at skip |
| Entries.EntryFooterMisnumbered | src/entry.rs:476-488 | the footer's first number is the 0-based index of the first entry shown, so it spans one line more than the page; 25/10/5 reads "lines 5-12(25)" |
| Entries.ListUpCorrected | src/entry.rs:465-501 | with the guard and the footer corrected: never panics for up to 65533 entries; whole listing for 3 rows or fewer, `Window` above |
| FileSystems.CreateDir | src/state.rs:203 | succeeds iff the path is new, not "/", its directory exists and the write is not refused; adds exactly that directory |
| FileSystems.Copy | src/state.rs:175 | succeeds iff the source reads as a regular file, the destination can be opened for writing and is not a directory, and the write does not stop early; a failure before the destination is opened changes nothing; after it, only the destination changed and holds a prefix of the bytes; success writes exactly those bytes there |
| FileSystems.RemoveFile | src/state.rs:180 | succeeds iff the path exists, is not a directory, and the removal is not refused; removes exactly that path |
| FileSystems.RemoveDirAll | src/state.rs:228 | succeeds iff the path exists, is not a file (a directory, or a link, which is unlinked without following it), and no removal in its tree is refused; never touches anything outside the tree; success removes exactly the tree; failure only removes paths, keeps the root and every path whose removal was refused |
| FileSystems.RemoveDirAllUnlinks | src/state.rs:228 | example: `remove_dir_all` on a link to a directory succeeds, removes the link and leaves the directory it points to |
| FileSystems.Rm | src/state.rs:163-165 | removes a file or link unless refused; never touches anything else |

## Left out

- Terminal output is not modelled: `print`, the `print_item!` macro, `EntryInfo::print` and the colour dispatch. Only the name truncation of `print` is modelled (`Screen.TruncateName`). `Screen.ListUp` does not call it, so its panic for `name_max_len` below 3 is not part of `ListUp`'s outcome.
- `open_file` in both files is left out because it runs external programs. `move_cursor` and `to_proper_size` are left out because they print, and `functions.rs` is not part of this model.
- Configuration is left out: `State::default`, `read_config`, `to_extension_map`, `make_config` and `update_list`'s `unwrap`.
- `EntryInfo::remove` is left out; it is a wrapper over `fs_extra::move_items`, which is not part of this model.
- The copy loops create the walked entry's parent when it is missing (src/state.rs:215-219, 324-327). This is not modelled. The parent is a directory of the tree being walked, so it exists when the walk is read as a snapshot.
- Clock and formatting: the timestamp is an integer parameter, and modification times are the RFC 3339 strings `chrono` would produce.
- `natord::compare` is a parameter `nameLe`. Sorting by name is proved only for a comparison that is a total preorder.
- `rename_file` and `rename_dir` are in `functions.rs`, which is not part of this model. They are uninterpreted parameters, and nothing is claimed about how unique the names they choose are.
- Items.ArrangeSorted: states each group sorted and a permutation, but not the stability of `sort_by`, by which items that compare equal keep their `read_dir` order.
- Walks.Walk: the walk is read from the filesystem as it stood before the copy started. walkdir reads directories lazily, so a copy placed inside the tree being walked is not modelled; every theorem requires the target outside the tree.
- Walks.Walk: a symbolic link given as the walk's root is listed as itself; walkdir would follow it.
- Symbolic links resolve one hop; a chain of links counts as dangling.
- FileSystems.Copy: copying onto an existing link replaces the link; `fs::copy` would write through it to the link's target.
- A path whose ancestor is a symbolic link to a directory is not modelled: every path sits in a real directory, so a link among a path's directories is never followed. An example is a trash directory beneath a symlinked configuration directory.
- FileSystems.Copy: copying a file onto itself keeps its bytes; `fs::copy` would truncate it first. Paste's renamer and the trash's timestamped name make the two paths differ in practice.
- The model follows a debug build, in which `u16` and `usize` overflow panics. A release build wraps around instead. For example, with 3 rows the subtraction at src/entry.rs:465 wraps and the whole listing prints. Those wrapped outcomes are not modelled.
- Screen.ListUp: the exact output is characterised for listings of up to 65533 entries. Longer listings are modelled step by step with their `u16` wrap-around and panics, but not characterised in closed form. The same holds for `Entries.ListUpAsWritten` and `Entries.ListUpCorrected`.
- The state a panic leaves behind is not modelled: a panic ends the model's run with `Err`.
- Trash.RemoveAndYankFileMoves: proved only when no fault is injected. The same holds for `Trash.RemoveAndYankDirMoves`, `Paste.PutDirMirrors` and `Walks.TreeCopyMirrors`. Under faults, only the "what changed" contracts of the operations apply.
- File names that are not UTF-8 make the program panic in three places: `make_item`, `Trash.RemoveAndYankDir` (the trash name's `to_str().unwrap()`, src/state.rs:201) and `Entries.MakeEntry` (`into_string().unwrap()`, src/entry.rs:392-397). Strings in the model are always valid, so these panics cannot occur, and `Entries.MakeEntry` panics only on missing metadata.
- `partial_cmp(..).unwrap()` on two `Option<String>` values never panics, so the time comparator is modelled as total.
- The `terminal_column` and `time_start_pos` layout fields only position printed text and are carried unused.

## Findings

| source | as written | input that shows it | evidently intended | confidence | as-written member | corrected member |
|---|---|---|---|---|---|---|
| src/entry.rs:465 | the guard `row > STARTING_POINT - 1` admits `row == 3`, and then `(row - STARTING_POINT) as usize - 1` computes `0 - 1`, which panics in a debug build (a release build wraps and prints the whole listing) | a terminal 3 rows high, any listing | a terminal of 3 rows or fewer prints the listing unpaged, as it does below 3 rows | not executed | Entries.ListUpAsWritten | Entries.ListUpCorrected |
| src/entry.rs:482 | the footer's first number is `skip_number`, the 0-based index of the first entry shown | 25 entries, 10 rows, scroll 5: entries 6 to 12 shown, footer reads "lines 5-12(25)" | `skip_number + 1`, as src/state.rs:564 prints | not executed | Entries.EntryFooterMisnumbered | Screen.WindowFooterCountsPage |
