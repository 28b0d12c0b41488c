/** The list screen of one directory (`ItemsFragment`): which entries of a
    directory become list items, how a refresh decides whether anything
    changed, the staged-deletion list and the recursive delete, and the
    generic MIME type used when no app opens a file's exact type.

    The file system is a snapshot: each entry knows its path, its kind, its
    length and what `listFiles()` returns for it (`Null` for `null`). */
module Fragments {
  import opened Text
  import opened Paths
  import opened Models

  datatype FsEntry = FsEntry(path: string, isDirectory: bool, length: int, listing: Listing)

  /** What `listFiles()` returns: `null`, or the entries in listing order. */
  datatype Listing = Null | Files(entries: seq<FsEntry>)

  // ---------------------------------------------------------------------------
  // Names and hidden entries

  predicate StartsWithDot(name: string) {
    |name| > 0 && name[0] == '.'
  }

  /** `File.isHidden` on a Unix file system: the name starts with '.'. */
  predicate IsHidden(e: FsEntry) {
    StartsWithDot(FilenameFromPath(e.path))
  }

  /** `listFiles { !it.isHidden }`: the entries that are not hidden, in order. */
  function VisibleEntries(es: seq<FsEntry>): (r: seq<FsEntry>)
    ensures |r| <= |es|
    ensures forall k :: 0 <= k < |r| ==> !IsHidden(r[k])
  {
    if |es| == 0 then []
    else (if IsHidden(es[0]) then [] else [es[0]]) + VisibleEntries(es[1..])
  }

  /** The hidden entries, in order: what the filter drops. */
  function HiddenEntries(es: seq<FsEntry>): seq<FsEntry> {
    if |es| == 0 then []
    else if IsHidden(es[0]) then [es[0]] + HiddenEntries(es[1..])
    else HiddenEntries(es[1..])
  }

  /** The filter works entry by entry: filtering two lists one after the
      other is filtering their concatenation. */
  lemma {:induction false} VisibleEntriesAppend(a: seq<FsEntry>, b: seq<FsEntry>)
    ensures VisibleEntries(a + b) == VisibleEntries(a) + VisibleEntries(b)
  {
    if |a| > 0 {
      assert (a + b)[1..] == a[1..] + b;
      VisibleEntriesAppend(a[1..], b);
      AppendAssoc(if IsHidden(a[0]) then [] else [a[0]], VisibleEntries(a[1..]), VisibleEntries(b));
    } else {
      assert a + b == b;
    }
  }

  /** The filter splits the listing into the visible and the hidden entries:
      together they are the listing's entries. */
  lemma {:induction false} VisibleHiddenPartition(es: seq<FsEntry>)
    ensures multiset(VisibleEntries(es)) + multiset(HiddenEntries(es)) == multiset(es)
  {
    if |es| > 0 {
      var h, t := es[0], es[1..];
      VisibleHiddenPartition(t);
      assert es == [h] + t;
      if IsHidden(h) {
        assert VisibleEntries(es) == [] + VisibleEntries(t);
      } else {
        assert HiddenEntries(es) == HiddenEntries(t);
      }
    }
  }

  /** So the visible count is the listing's size less the hidden entries. */
  lemma {:induction false} VisibleHiddenCount(es: seq<FsEntry>)
    ensures |VisibleEntries(es)| == |es| - |HiddenEntries(es)|
  {
    if |es| > 0 {
      VisibleHiddenCount(es[1..]);
    }
  }

  /** The visible entries are exactly the listed entries that are not hidden. */
  lemma {:induction false} VisibleEntriesMembers(es: seq<FsEntry>, e: FsEntry)
    ensures e in VisibleEntries(es) <==> e in es && !IsHidden(e)
  {
    if |es| > 0 {
      VisibleEntriesMembers(es[1..], e);
      assert e in es <==> e == es[0] || e in es[1..];
    }
  }

  /** Nothing is dropped exactly when no entry is hidden. */
  lemma {:induction false} VisibleEntriesAll(es: seq<FsEntry>)
    ensures |VisibleEntries(es)| == |es| <==> forall e :: e in es ==> !IsHidden(e)
  {
    if |es| > 0 {
      VisibleEntriesAll(es[1..]);
      assert forall e :: e in es <==> e == es[0] || e in es[1..];
    }
  }

  /** `getChildren`: 0 for a file or an unreadable directory; otherwise the
      directory's entries, all of them or only the visible ones. */
  function GetChildren(e: FsEntry, showHidden: bool): (n: int)
    ensures 0 <= n
    ensures !e.isDirectory || e.listing.Null? ==> n == 0
    ensures e.isDirectory && e.listing.Files? ==> n <= |e.listing.entries|
    ensures e.isDirectory && e.listing.Files? && showHidden ==> n == |e.listing.entries|
  {
    match e.listing
    case Null => 0
    case Files(children) =>
      if e.isDirectory then
        if showHidden then |children| else |VisibleEntries(children)|
      else 0
  }

  /** With hidden entries off, a readable directory counts its visible
      entries: its entries less the hidden ones. */
  lemma ChildrenCountHidden(e: FsEntry)
    requires e.isDirectory && e.listing.Files?
    ensures GetChildren(e, false) == |VisibleEntries(e.listing.entries)|
    ensures GetChildren(e, false) == |e.listing.entries| - |HiddenEntries(e.listing.entries)|
  {
    VisibleHiddenCount(e.listing.entries);
  }

  /** With hidden entries off, a readable directory's count is its number of
      entries exactly when none of them is hidden. */
  lemma ChildrenCountAll(e: FsEntry)
    requires e.isDirectory && e.listing.Files?
    ensures GetChildren(e, false) == |e.listing.entries| <==> forall c :: c in e.listing.entries ==> !IsHidden(c)
  {
    VisibleEntriesAll(e.listing.entries);
  }

  // ---------------------------------------------------------------------------
  // getItems

  /** An entry survives the two filters of `getItems`. */
  predicate Kept(e: FsEntry, showHidden: bool, toBeDeleted: seq<string>) {
    (showHidden || !StartsWithDot(FilenameFromPath(e.path))) && e.path !in toBeDeleted
  }

  /** The item `getItems` builds for a kept entry. */
  function ItemOf(e: FsEntry, showHidden: bool): (it: FileDirItem)
    ensures it.path == e.path && it.name == FilenameFromPath(e.path) && it.isDirectory == e.isDirectory
    ensures it.children == GetChildren(e, showHidden) && it.size == e.length
  {
    FileDirItem(e.path, FilenameFromPath(e.path), e.isDirectory, GetChildren(e, showHidden), e.length)
  }

  /** The items for a listing: one per kept entry, in listing order. */
  function Listed(es: seq<FsEntry>, showHidden: bool, toBeDeleted: seq<string>): (r: seq<FileDirItem>)
    ensures |r| <= |es|
  {
    if |es| == 0 then []
    else
      var last := es[|es| - 1];
      Listed(es[..|es| - 1], showHidden, toBeDeleted)
      + (if Kept(last, showHidden, toBeDeleted) then [ItemOf(last, showHidden)] else [])
  }

  /** `getItems` on a directory: a `null` listing gives no items. */
  function ItemsOf(dir: FsEntry, showHidden: bool, toBeDeleted: seq<string>): (r: seq<FileDirItem>)
    ensures dir.listing.Null? ==> r == []
  {
    match dir.listing
    case Null => []
    case Files(es) => Listed(es, showHidden, toBeDeleted)
  }

  /** Listing two runs of entries lists each run in turn: the items keep the
      listing's order. */
  lemma {:induction false} ListedAppend(a: seq<FsEntry>, b: seq<FsEntry>, showHidden: bool, toBeDeleted: seq<string>)
    ensures Listed(a + b, showHidden, toBeDeleted) == Listed(a, showHidden, toBeDeleted) + Listed(b, showHidden, toBeDeleted)
    decreases |b|
  {
    if |b| > 0 {
      assert (a + b)[..|a + b| - 1] == a + b[..|b| - 1];
      ListedAppend(a, b[..|b| - 1], showHidden, toBeDeleted);
    } else {
      assert a + b == a;
    }
  }

  /** No item has a staged path, and none has a hidden name when hidden
      entries are off. */
  lemma {:induction false} ListedFiltered(es: seq<FsEntry>, showHidden: bool, toBeDeleted: seq<string>, k: int)
    requires 0 <= k < |Listed(es, showHidden, toBeDeleted)|
    ensures Listed(es, showHidden, toBeDeleted)[k].path !in toBeDeleted
    ensures !showHidden ==> !StartsWithDot(Listed(es, showHidden, toBeDeleted)[k].name)
  {
    var init := es[..|es| - 1];
    if k < |Listed(init, showHidden, toBeDeleted)| {
      ListedFiltered(init, showHidden, toBeDeleted, k);
    }
  }

  /** Every entry that passes both filters yields its item, at position `k`. */
  lemma {:induction false} ListedKeepsOthers(es: seq<FsEntry>, showHidden: bool, toBeDeleted: seq<string>, j: int) returns (k: int)
    requires 0 <= j < |es| && Kept(es[j], showHidden, toBeDeleted)
    ensures 0 <= k < |Listed(es, showHidden, toBeDeleted)| && Listed(es, showHidden, toBeDeleted)[k] == ItemOf(es[j], showHidden)
  {
    var init := es[..|es| - 1];
    var r0 := Listed(init, showHidden, toBeDeleted);
    if j < |es| - 1 {
      assert init[j] == es[j];
      k := ListedKeepsOthers(init, showHidden, toBeDeleted, j);
      assert Listed(es, showHidden, toBeDeleted)[k] == r0[k];
    } else {
      k := |r0|;
    }
  }

  /** One more entry adds its item exactly when it passes both filters. */
  lemma ListedSnoc(es: seq<FsEntry>, i: int, showHidden: bool, toBeDeleted: seq<string>)
    requires 0 <= i < |es|
    ensures Listed(es[..i + 1], showHidden, toBeDeleted)
         == Listed(es[..i], showHidden, toBeDeleted) + (if Kept(es[i], showHidden, toBeDeleted) then [ItemOf(es[i], showHidden)] else [])
  {
    assert es[..i + 1][..i] == es[..i];
  }

  /** The items of a listing begin with the items of all but its last
      entry. */
  lemma ListedKeepsEarlier(es: seq<FsEntry>, showHidden: bool, toBeDeleted: seq<string>, k: int)
    requires 0 < |es| && 0 <= k < |Listed(es[..|es| - 1], showHidden, toBeDeleted)|
    ensures Listed(es, showHidden, toBeDeleted)[k] == Listed(es[..|es| - 1], showHidden, toBeDeleted)[k]
  {
  }

  /** An item past those of all but the last entry is the last entry's. */
  lemma ListedLastItem(es: seq<FsEntry>, showHidden: bool, toBeDeleted: seq<string>, k: int)
    requires 0 < |es| && |Listed(es[..|es| - 1], showHidden, toBeDeleted)| <= k < |Listed(es, showHidden, toBeDeleted)|
    ensures Kept(es[|es| - 1], showHidden, toBeDeleted)
    ensures Listed(es, showHidden, toBeDeleted)[k] == ItemOf(es[|es| - 1], showHidden)
  {
  }

  /** Every item comes from a listed entry, at position `j`, that passes
      both filters. */
  lemma {:induction false} ListedFromKept(es: seq<FsEntry>, showHidden: bool, toBeDeleted: seq<string>, k: int) returns (j: int)
    requires 0 <= k < |Listed(es, showHidden, toBeDeleted)|
    ensures 0 <= j < |es| && Kept(es[j], showHidden, toBeDeleted)
    ensures Listed(es, showHidden, toBeDeleted)[k] == ItemOf(es[j], showHidden)
  {
    var init := es[..|es| - 1];
    if k < |Listed(init, showHidden, toBeDeleted)| {
      j := ListedFromKept(init, showHidden, toBeDeleted, k);
      assert es[j] == init[j];
      ListedKeepsEarlier(es, showHidden, toBeDeleted, k);
    } else {
      j := |es| - 1;
      ListedLastItem(es, showHidden, toBeDeleted, k);
    }
  }

  /** When nothing is filtered out, every entry yields one item. */
  lemma {:induction false} ListedAllKeptLength(es: seq<FsEntry>, showHidden: bool, toBeDeleted: seq<string>)
    requires forall j :: 0 <= j < |es| ==> Kept(es[j], showHidden, toBeDeleted)
    ensures |Listed(es, showHidden, toBeDeleted)| == |es|
  {
    if |es| > 0 {
      var init := es[..|es| - 1];
      assert forall j :: 0 <= j < |init| ==> init[j] == es[j];
      ListedAllKeptLength(init, showHidden, toBeDeleted);
      assert Kept(es[|es| - 1], showHidden, toBeDeleted);
    }
  }

  /** When nothing is filtered out, item `j` is entry `j`'s. */
  lemma {:induction false} ListedAllKeptAt(es: seq<FsEntry>, showHidden: bool, toBeDeleted: seq<string>, j: int)
    requires forall j :: 0 <= j < |es| ==> Kept(es[j], showHidden, toBeDeleted)
    requires 0 <= j < |es|
    ensures j < |Listed(es, showHidden, toBeDeleted)| && Listed(es, showHidden, toBeDeleted)[j] == ItemOf(es[j], showHidden)
  {
    var init := es[..|es| - 1];
    assert forall j :: 0 <= j < |init| ==> init[j] == es[j];
    ListedAllKeptLength(init, showHidden, toBeDeleted);
    ListedAllKeptLength(es, showHidden, toBeDeleted);
    if j < |init| {
      ListedAllKeptAt(init, showHidden, toBeDeleted, j);
      ListedKeepsEarlier(es, showHidden, toBeDeleted, j);
      var x := init[j];
      assert x == es[j];
      assert Listed(es, showHidden, toBeDeleted)[j] == ItemOf(x, showHidden);
    } else {
      assert j == |es| - 1;
      ListedLastItem(es, showHidden, toBeDeleted, j);
    }
  }

  /** When nothing is filtered out, every entry yields one item, in order. */
  lemma ListedAllKept(es: seq<FsEntry>, showHidden: bool, toBeDeleted: seq<string>)
    requires forall j :: 0 <= j < |es| ==> Kept(es[j], showHidden, toBeDeleted)
    ensures |Listed(es, showHidden, toBeDeleted)| == |es|
    ensures forall j :: 0 <= j < |es| ==> Listed(es, showHidden, toBeDeleted)[j] == ItemOf(es[j], showHidden)
  {
    ListedAllKeptLength(es, showHidden, toBeDeleted);
    forall j | 0 <= j < |es|
      ensures Listed(es, showHidden, toBeDeleted)[j] == ItemOf(es[j], showHidden)
    {
      ListedAllKeptAt(es, showHidden, toBeDeleted, j);
    }
  }

  /** `getItems`: walk the listing, skip hidden names (when they are off) and
      staged paths, and append one item per remaining entry. */
  method GetItems(dir: FsEntry, showHidden: bool, toBeDeleted: seq<string>) returns (items: seq<FileDirItem>)
    ensures items == ItemsOf(dir, showHidden, toBeDeleted)
  {
    items := [];
    if dir.listing.Null? {
      return;
    }
    var files := dir.listing.entries;
    var i := 0;
    while i < |files|
      invariant 0 <= i <= |files|
      invariant items == Listed(files[..i], showHidden, toBeDeleted)
    {
      ListedSnoc(files, i, showHidden, toBeDeleted);
      var file := files[i];
      var curName := FilenameFromPath(file.path);
      if (showHidden || !StartsWithDot(curName)) && file.path !in toBeDeleted {
        var children := GetChildren(file, showHidden);
        items := items + [FileDirItem(file.path, curName, file.isDirectory, children, file.length)];
      }
      i := i + 1;
    }
    assert files[..i] == files;
  }

  // ---------------------------------------------------------------------------
  // The refresh rule of fillItems

  /** The list kept after a refresh: the current one when the latest list has
      the same string form, else the latest one. Either way what is kept
      renders exactly as the latest list. */
  function Refresh(current: seq<FileDirItem>, latest: seq<FileDirItem>): (r: seq<FileDirItem>)
    ensures ListToString(r) == ListToString(latest)
    ensures r == current || r == latest
    ensures ListToString(current) != ListToString(latest) ==> r == latest
    ensures ListToString(current) == ListToString(latest) ==> r == current
  {
    if ListToString(latest) == ListToString(current) then current else latest
  }

  /** A refresh keeps the list sorted: the latest list is sorted, the current
      one is sorted by assumption. */
  lemma RefreshSorted(current: seq<FileDirItem>, raw: seq<FileDirItem>)
    requires Sorted(current)
    ensures Sorted(Refresh(current, SortItems(raw)))
  {
    SortItemsSorted(raw);
  }

  // ---------------------------------------------------------------------------
  // getGenericMimeType

  // `getGenericMimeType`: a type without '/' is returned as it is; otherwise
  // the part before the first '/', then '/' and the wildcard subtype '*'.
  function GetGenericMimeType(mimeType: string): (r: string)
    ensures '/' !in mimeType ==> r == mimeType
    ensures '/' in mimeType ==>
              && |r| >= 2 && r[|r| - 2..] == "/*"
              && |r| - 2 < |mimeType| && mimeType[..|r| - 2] == r[..|r| - 2]
              && mimeType[|r| - 2] == '/' && '/' !in r[..|r| - 2]
  {
    if '/' !in mimeType then mimeType
    else mimeType[..IndexOf(mimeType, '/')] + "/*"
  }

  /** The generic type of a generic type is itself. */
  lemma GenericMimeTypeIdempotent(mimeType: string)
    ensures GetGenericMimeType(GetGenericMimeType(mimeType)) == GetGenericMimeType(mimeType)
  {
    var r := GetGenericMimeType(mimeType);
    if '/' in mimeType {
      var t := r[..|r| - 2];
      assert r == t + "/*";
      assert IndexOf(r, '/') == |t| by {
        assert '/' !in r[..|t|];
      }
    }
  }

  lemma GenericMimeTypeExample(m: string)
    requires m == "image/png"
    ensures GetGenericMimeType(m) == "image/*"
  {
    assert IndexOf(m, '/') == 5 by {
      assert m[5] == '/' && m[..5] == "image";
    }
  }

  // ---------------------------------------------------------------------------
  // deleteItem

  /** One deletion: through the storage-access document for paths that need
      it, otherwise through `File.delete`. */
  datatype Deletion = ByDocument(path: string) | ByFile(path: string)

  function DeletionOf(path: string, needsDocument: string -> bool): (d: Deletion)
    ensures d.path == path && (d.ByDocument? <==> needsDocument(path))
  {
    if needsDocument(path) then ByDocument(path) else ByFile(path)
  }

  /** A directory somewhere in the tree whose `listFiles()` is `null`. */
  predicate HasUnreadableDirectory(e: FsEntry)
    decreases e, 1
  {
    e.isDirectory && (e.listing.Null? || SomeUnreadable(e, 0))
  }

  predicate SomeUnreadable(e: FsEntry, i: nat)
    requires e.listing.Files?
    decreases e, 0, |e.listing.entries| - i
  {
    i < |e.listing.entries| && (HasUnreadableDirectory(e.listing.entries[i]) || SomeUnreadable(e, i + 1))
  }

  /** `done` followed by the deletions `rest` yields, or a crash. */
  function Prefixed(done: seq<Deletion>, rest: Option<seq<Deletion>>): (r: Option<seq<Deletion>>)
    ensures r.Some? <==> rest.Some?
    ensures r.Some? ==> |r.value| == |done| + |rest.value| && r.value[..|done|] == done && r.value[|done|..] == rest.value
  {
    match rest
    case None => None
    case Some(tail) => Some(done + tail)
  }

  lemma PrefixedNothing(rest: Option<seq<Deletion>>)
    ensures Prefixed([], rest) == rest
  {
    if rest.Some? {
      assert [] + rest.value == rest.value;
    }
  }

  lemma PrefixedTwice(a: seq<Deletion>, b: seq<Deletion>, rest: Option<seq<Deletion>>)
    ensures Prefixed(a, Prefixed(b, rest)) == Prefixed(a + b, rest)
  {
    if rest.Some? {
      assert a + (b + rest.value) == (a + b) + rest.value;
    }
  }

  /** `deleteItem`: the deletions in the order they happen, or `None` when a
      directory's `listFiles()` is `null` and the loop over it crashes. The
      entry itself is always deleted last. */
  function DeleteOrder(e: FsEntry, needsDocument: string -> bool): (r: Option<seq<Deletion>>)
    ensures r.Some? ==> |r.value| > 0 && r.value[|r.value| - 1] == DeletionOf(e.path, needsDocument)
    decreases e, 1
  {
    if !e.isDirectory then Some([DeletionOf(e.path, needsDocument)])
    else if e.listing.Null? then None
    else
      match DeleteChildren(e, 0, needsDocument)
      case None => None
      case Some(log) => Some(log + [DeletionOf(e.path, needsDocument)])
  }

  /** The deletions for `e`'s children from the `i`-th on. */
  function DeleteChildren(e: FsEntry, i: nat, needsDocument: string -> bool): Option<seq<Deletion>>
    requires e.listing.Files?
    decreases e, 0, |e.listing.entries| - i
  {
    if i >= |e.listing.entries| then Some([])
    else
      match DeleteOrder(e.listing.entries[i], needsDocument)
      case None => None
      case Some(first) => Prefixed(first, DeleteChildren(e, i + 1, needsDocument))
  }

  /** The delete crashes exactly when some directory in the tree is unreadable. */
  lemma {:induction false} DeleteCrashesIffUnreadable(e: FsEntry, needsDocument: string -> bool)
    ensures DeleteOrder(e, needsDocument).None? <==> HasUnreadableDirectory(e)
    decreases e, 1
  {
    if e.isDirectory && e.listing.Files? {
      ChildrenCrashIffUnreadable(e, 0, needsDocument);
    }
  }

  lemma {:induction false} ChildrenCrashIffUnreadable(e: FsEntry, i: nat, needsDocument: string -> bool)
    requires e.listing.Files?
    ensures DeleteChildren(e, i, needsDocument).None? <==> SomeUnreadable(e, i)
    decreases e, 0, |e.listing.entries| - i
  {
    if i < |e.listing.entries| {
      DeleteCrashesIffUnreadable(e.listing.entries[i], needsDocument);
      ChildrenCrashIffUnreadable(e, i + 1, needsDocument);
    }
  }

  /** `sub` stands at position `k` of `s`. */
  predicate OccursWithin(sub: seq<Deletion>, s: seq<Deletion>, k: int) {
    0 <= k && k + |sub| <= |s| && s[k..k + |sub|] == sub
  }

  /** Post-order: each child's whole run of deletions stands, at position
      `k`, among the deletions that come before the parent's own. */
  lemma ChildDeletedBeforeParent(e: FsEntry, needsDocument: string -> bool, i: int) returns (k: int)
    requires DeleteOrder(e, needsDocument).Some?
    requires e.isDirectory && e.listing.Files? && 0 <= i < |e.listing.entries|
    ensures DeleteOrder(e.listing.entries[i], needsDocument).Some?
    ensures var log := DeleteOrder(e, needsDocument).value;
      OccursWithin(DeleteOrder(e.listing.entries[i], needsDocument).value, log[..|log| - 1], k)
  {
    var log := DeleteOrder(e, needsDocument).value;
    var children := DeleteChildren(e, 0, needsDocument).value;
    assert log[..|log| - 1] == children;
    k := ChildRunAt(e, 0, needsDocument, i);
  }

  /** Where child `j`'s run starts in the runs of the children from `i` on. */
  lemma {:induction false} ChildRunAt(e: FsEntry, i: nat, needsDocument: string -> bool, j: int) returns (k: int)
    requires e.listing.Files? && i <= j < |e.listing.entries|
    requires DeleteChildren(e, i, needsDocument).Some?
    ensures DeleteOrder(e.listing.entries[j], needsDocument).Some?
    ensures OccursWithin(DeleteOrder(e.listing.entries[j], needsDocument).value, DeleteChildren(e, i, needsDocument).value, k)
    decreases |e.listing.entries| - i
  {
    var first := DeleteOrder(e.listing.entries[i], needsDocument).value;
    var all := DeleteChildren(e, i, needsDocument).value;
    if j == i {
      k := 0;
      assert all[..|first|] == first;
    } else {
      var rest := DeleteChildren(e, i + 1, needsDocument).value;
      assert all == first + rest;
      var k0 := ChildRunAt(e, i + 1, needsDocument, j);
      k := |first| + k0;
      var sub := DeleteOrder(e.listing.entries[j], needsDocument).value;
      SliceAfterPrefix(first, rest, k0, k0 + |sub|);
    }
  }

  /** `deleteItem`, recursively on the snapshot: a directory's children
      first, then the entry itself. */
  method DeleteItem(e: FsEntry, needsDocument: string -> bool) returns (log: Option<seq<Deletion>>)
    ensures log == DeleteOrder(e, needsDocument)
    decreases e, 1
  {
    if e.isDirectory {
      if e.listing.Null? {
        return None;
      }
      var children := DeleteEachChild(e, needsDocument);
      if children.None? {
        return None;
      }
      log := Some(children.value + [DeletionOf(e.path, needsDocument)]);
    } else {
      log := Some([DeletionOf(e.path, needsDocument)]);
    }
  }

  /** The loop of `deleteItem` over a directory's children. */
  method DeleteEachChild(e: FsEntry, needsDocument: string -> bool) returns (log: Option<seq<Deletion>>)
    requires e.listing.Files?
    ensures log == DeleteChildren(e, 0, needsDocument)
    decreases e, 0
  {
    var children := e.listing.entries;
    var done: seq<Deletion> := [];
    var i := 0;
    PrefixedNothing(DeleteChildren(e, 0, needsDocument));
    while i < |children|
      invariant 0 <= i <= |children|
      invariant DeleteChildren(e, 0, needsDocument) == Prefixed(done, DeleteChildren(e, i, needsDocument))
    {
      var sub := DeleteItem(children[i], needsDocument);
      if sub.None? {
        assert DeleteChildren(e, i, needsDocument).None?;
        return None;
      }
      assert DeleteChildren(e, i, needsDocument) == Prefixed(sub.value, DeleteChildren(e, i + 1, needsDocument));
      PrefixedTwice(done, sub.value, DeleteChildren(e, i + 1, needsDocument));
      done := done + sub.value;
      i := i + 1;
    }
    assert done + [] == done;
    log := Some(done);
  }

  /** The deletions for the staged paths: those that exist, looked up
      before any deletion, are deleted in staging order. */
  function DeleteStaged(paths: seq<string>, lookup: string -> Option<FsEntry>, needsDocument: string -> bool): Option<seq<Deletion>>
    decreases |paths|
  {
    if |paths| == 0 then Some([])
    else
      match lookup(paths[0])
      case None => DeleteStaged(paths[1..], lookup, needsDocument)
      case Some(e) =>
        match DeleteOrder(e, needsDocument)
        case None => None
        case Some(first) => Prefixed(first, DeleteStaged(paths[1..], lookup, needsDocument))
  }

  /** When every staged path exists and no delete crashes, every staged
      path is deleted, each after everything below it. */
  lemma {:induction false} StagedPathsDeleted(paths: seq<string>, lookup: string -> Option<FsEntry>, needsDocument: string -> bool, i: int)
    requires DeleteStaged(paths, lookup, needsDocument).Some?
    requires 0 <= i < |paths| && lookup(paths[i]).Some? && lookup(paths[i]).value.path == paths[i]
    ensures DeletionOf(paths[i], needsDocument) in DeleteStaged(paths, lookup, needsDocument).value
    decreases |paths|
  {
    var all := DeleteStaged(paths, lookup, needsDocument).value;
    if i == 0 {
      var first := DeleteOrder(lookup(paths[0]).value, needsDocument).value;
      assert all[..|first|] == first;
      assert all[|first| - 1] == first[|first| - 1];
    } else {
      assert paths[1..][i - 1] == paths[i];
      StagedPathsDeleted(paths[1..], lookup, needsDocument, i - 1);
      var rest := DeleteStaged(paths[1..], lookup, needsDocument).value;
      var x := DeletionOf(paths[i], needsDocument);
      var k :| 0 <= k < |rest| && rest[k] == x;
      match lookup(paths[0])
      case None =>
      case Some(e) =>
        var first := DeleteOrder(e, needsDocument).value;
        assert all[|first|..] == rest;
        assert all[|first| + k] == x;
    }
  }

  /** `deleteItems`' loop over the staged paths. */
  method DeleteStagedPaths(paths: seq<string>, lookup: string -> Option<FsEntry>, needsDocument: string -> bool)
    returns (log: Option<seq<Deletion>>)
    ensures log == DeleteStaged(paths, lookup, needsDocument)
  {
    var done: seq<Deletion> := [];
    var i := 0;
    PrefixedNothing(DeleteStaged(paths, lookup, needsDocument));
    while i < |paths|
      invariant 0 <= i <= |paths|
      invariant DeleteStaged(paths, lookup, needsDocument) == Prefixed(done, DeleteStaged(paths[i..], lookup, needsDocument))
    {
      assert paths[i..][1..] == paths[i + 1..];
      var found := lookup(paths[i]);
      if found.Some? {
        var sub := DeleteItem(found.value, needsDocument);
        if sub.None? {
          return None;
        }
        PrefixedTwice(done, sub.value, DeleteStaged(paths[i + 1..], lookup, needsDocument));
        done := done + sub.value;
      }
      i := i + 1;
    }
    assert done + [] == done;
    log := Some(done);
  }

  // ---------------------------------------------------------------------------
  // The fragment's state

  class ItemsFragment {
    /** `mItems`: the items on screen. */
    var items: seq<FileDirItem>
    /** `mShowHidden`: whether hidden entries are listed. */
    var showHidden: bool
    /** `mToBeDeleted`: paths staged for deletion. */
    var toBeDeleted: seq<string>
    /** `mPath`: the directory shown. */
    var path: string

    /** What is on screen is always sorted. */
    predicate Valid()
      reads this
    {
      Sorted(items)
    }

    /** `onViewCreated`: take the configured flag, start with no items and
        nothing staged, and fill the list. */
    constructor (configShowHidden: bool, dir: FsEntry)
      ensures Valid()
      ensures showHidden == configShowHidden && toBeDeleted == [] && path == dir.path
      ensures items == Refresh([], SortItems(ItemsOf(dir, configShowHidden, [])))
    {
      showHidden := configShowHidden;
      items := [];
      toBeDeleted := [];
      path := dir.path;
      new;
      var _ := FillItems(dir);
    }

    /** `fillItems`: list the directory, sort, and replace the items unless
        the sorted list has the same string form as the current one. */
    method FillItems(dir: FsEntry) returns (replaced: bool)
      requires Valid()
      modifies this
      ensures Valid()
      ensures path == dir.path && showHidden == old(showHidden) && toBeDeleted == old(toBeDeleted)
      ensures var latest := SortItems(ItemsOf(dir, showHidden, toBeDeleted));
        && items == Refresh(old(items), latest)
        && (replaced <==> ListToString(latest) != ListToString(old(items)))
      ensures !replaced ==> items == old(items)
      ensures replaced ==> multiset(items) == multiset(ItemsOf(dir, showHidden, toBeDeleted))
    {
      path := dir.path;
      var newItems := GetItems(dir, showHidden, toBeDeleted);
      SortItemsSorted(newItems);
      newItems := SortItems(newItems);
      if ListToString(newItems) == ListToString(items) {
        replaced := false;
        return;
      }
      items := newItems;
      replaced := true;
    }

    /** `onResume`: follow a changed hidden-entries setting and refill. */
    method OnResume(configShowHidden: bool, dir: FsEntry) returns (refilled: bool)
      requires Valid()
      modifies this
      ensures Valid()
      ensures showHidden == configShowHidden && toBeDeleted == old(toBeDeleted)
      ensures refilled <==> old(showHidden) != configShowHidden
      ensures !refilled ==> items == old(items) && path == old(path)
      ensures refilled ==> items == Refresh(old(items), SortItems(ItemsOf(dir, configShowHidden, toBeDeleted)))
    {
      refilled := false;
      if showHidden != configShowHidden {
        showHidden := !showHidden;
        var _ := FillItems(dir);
        refilled := true;
      }
    }

    /** `prepareForDeleting`: the staging list is cleared. */
    method PrepareForDeleting()
      modifies this
      ensures toBeDeleted == [] && items == old(items) && showHidden == old(showHidden) && path == old(path)
    {
      toBeDeleted := [];
    }

    /** `undoDeletion`: drop what was staged and refill. */
    method UndoDeletion(dir: FsEntry)
      requires Valid()
      modifies this
      ensures Valid()
      ensures toBeDeleted == [] && showHidden == old(showHidden)
      ensures items == Refresh(old(items), SortItems(ItemsOf(dir, showHidden, [])))
    {
      toBeDeleted := [];
      var _ := FillItems(dir);
    }

    /** `deleteItems` (also run by `onPause`): nothing happens when nothing
        is staged; otherwise the staged paths are deleted and the list is
        cleared, unless a delete crashed first. */
    method DeleteItems(lookup: string -> Option<FsEntry>, needsDocument: string -> bool) returns (log: Option<seq<Deletion>>)
      modifies this
      ensures items == old(items) && showHidden == old(showHidden) && path == old(path)
      ensures |old(toBeDeleted)| == 0 ==> log == Some([]) && toBeDeleted == old(toBeDeleted)
      ensures |old(toBeDeleted)| > 0 ==> log == DeleteStaged(old(toBeDeleted), lookup, needsDocument)
      ensures |old(toBeDeleted)| > 0 && log.Some? ==> toBeDeleted == []
      ensures log.None? ==> toBeDeleted == old(toBeDeleted)
    {
      if |toBeDeleted| == 0 {
        return Some([]);
      }
      log := DeleteStagedPaths(toBeDeleted, lookup, needsDocument);
      if log.Some? {
        toBeDeleted := [];
      }
    }
  }
}
