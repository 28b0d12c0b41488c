/** `Context.isPathOnRoot`: a path is on the root file system when it lies
    on none of the user-visible storages. */
module Extensions {

  /** Where a path lies, checked in the order of `isPathOnRoot`. */
  datatype Storage = Internal | Otg | SdCard | RootFileSystem

  /** The storage settings `isPathOnRoot` consults. */
  datatype Storages = Storages(internalStoragePath: string, isPathOnOTG: string -> bool, hasExternalSDCard: bool, sdCardPath: string)

  /** `startsWith`: every string, the empty one included, is a prefix check. */
  predicate StartsWith(s: string, prefix: string) {
    prefix <= s
  }

  /** `isPathOnRoot`. */
  predicate IsPathOnRoot(path: string, st: Storages) {
    !(StartsWith(path, st.internalStoragePath) || st.isPathOnOTG(path)
      || (st.hasExternalSDCard && StartsWith(path, st.sdCardPath)))
  }

  /** The storage a path belongs to: the first that claims it. */
  function StorageOf(path: string, st: Storages): (s: Storage)
    ensures s == Internal <==> StartsWith(path, st.internalStoragePath)
    ensures s == Otg <==> !StartsWith(path, st.internalStoragePath) && st.isPathOnOTG(path)
    ensures s == SdCard <==>
              !StartsWith(path, st.internalStoragePath) && !st.isPathOnOTG(path)
              && st.hasExternalSDCard && StartsWith(path, st.sdCardPath)
  {
    if StartsWith(path, st.internalStoragePath) then Internal
    else if st.isPathOnOTG(path) then Otg
    else if st.hasExternalSDCard && StartsWith(path, st.sdCardPath) then SdCard
    else RootFileSystem
  }

  /** On root exactly when no storage claims the path. */
  lemma OnRootIffUnclaimed(path: string, st: Storages)
    ensures IsPathOnRoot(path, st) <==> StorageOf(path, st) == RootFileSystem
  {
  }

  /** A path under the SD card path is excluded from root only while an
      external SD card is present. */
  lemma SdCardPathOnRootIffNoCard(path: string, st: Storages)
    requires StartsWith(path, st.sdCardPath)
    requires !StartsWith(path, st.internalStoragePath) && !st.isPathOnOTG(path)
    ensures IsPathOnRoot(path, st) <==> !st.hasExternalSDCard
  {
  }

  /** An empty internal storage path claims every path. */
  lemma EmptyInternalPathClaimsAll(path: string, st: Storages)
    requires st.internalStoragePath == ""
    ensures !IsPathOnRoot(path, st) && StorageOf(path, st) == Internal
  {
  }
}
