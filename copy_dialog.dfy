/** The copy/move dialog (`CopyDialog`): what pressing OK does with the
    chosen destination. The checks run in a fixed order and the first that
    fails stops the press; otherwise a copy-move task is started, or, for a
    move that touches no SD card, the files are renamed in place.

    File-system queries, the permission dialog and renames are oracles. */
module Dialogs {
  import opened Text
  import opened Paths

  /** What the dialog asks of the device. */
  datatype Device = Device(
    selectDestination: string,             // the "select destination" placeholder text
    fileExists: string -> bool,            // `File(p).exists()`
    showingPermDialog: string -> bool,     // `isShowingPermDialog(File(p))`
    isPathOnSD: string -> bool,            // `isPathOnSD(p)`
    renameTo: (string, string) -> bool)    // `File(a).renameTo(File(b))`

  /** Why a press of OK stopped. */
  datatype Rejection =
    | PleaseSelectDestination
    | SourceAndDestinationSame
    | InvalidDestination
    | NameTaken
    | PermissionDialogShown

  /** The outcome of the checks. */
  datatype Verdict =
    | Rejected(why: Rejection)
    | StartTask(move: bool)   // `CopyMoveTask(…, move, …)` over all files
    | RenameLocally           // the in-place move loop

  /** The dialog's source directory: the first file's parent without a
      trailing '/'; `None` when the first file has no parent, where building
      the dialog fails. */
  function SourcePath(files: seq<string>): (r: Option<string>)
    requires |files| > 0
    ensures r.Some? <==> ParentOf(files[0]).Some?
  {
    match ParentOf(files[0])
    case None => None
    case Some(parent) => Some(TrimEnd(parent, '/'))
  }

  /** The checks the OK button runs, in source order. */
  function Check(files: seq<string>, sourcePath: string, destinationPath: string, copySelected: bool, dev: Device): Verdict
    requires |files| > 0
  {
    if destinationPath == dev.selectDestination || destinationPath == "" then Rejected(PleaseSelectDestination)
    else if sourcePath == TrimEnd(destinationPath, '/') then Rejected(SourceAndDestinationSame)
    else if !dev.fileExists(destinationPath) then Rejected(InvalidDestination)
    else if |files| == 1 && dev.fileExists(ChildPath(destinationPath, FilenameFromPath(files[0]))) then Rejected(NameTaken)
    else if dev.showingPermDialog(destinationPath) then Rejected(PermissionDialogShown)
    else if copySelected then StartTask(false)
    else if dev.isPathOnSD(sourcePath) || dev.isPathOnSD(destinationPath) then
      if dev.showingPermDialog(files[0]) then Rejected(PermissionDialogShown) else StartTask(true)
    else RenameLocally
  }

  /** The checks that must all pass before anything is copied or moved. */
  predicate ChecksPass(files: seq<string>, sourcePath: string, destinationPath: string, dev: Device)
    requires |files| > 0
  {
    && destinationPath != dev.selectDestination && destinationPath != ""
    && sourcePath != TrimEnd(destinationPath, '/')
    && dev.fileExists(destinationPath)
    && !(|files| == 1 && dev.fileExists(ChildPath(destinationPath, FilenameFromPath(files[0]))))
    && !dev.showingPermDialog(destinationPath)
  }

  /** An empty destination, or the placeholder, is rejected before anything
      else is looked at. */
  lemma NoDestinationRejectedFirst(files: seq<string>, sourcePath: string, destinationPath: string, copySelected: bool, dev: Device)
    requires |files| > 0 && (destinationPath == "" || destinationPath == dev.selectDestination)
    ensures Check(files, sourcePath, destinationPath, copySelected, dev) == Rejected(PleaseSelectDestination)
  {
  }

  /** The destination is rejected as the source exactly when, with a
      destination chosen, it names the source directory up to trailing '/'. */
  lemma SameDirectoryRejected(files: seq<string>, sourcePath: string, destinationPath: string, copySelected: bool, dev: Device)
    requires |files| > 0 && destinationPath != "" && destinationPath != dev.selectDestination
    ensures Check(files, sourcePath, destinationPath, copySelected, dev) == Rejected(SourceAndDestinationSame)
            <==> sourcePath == TrimEnd(destinationPath, '/')
  {
  }

  /** A name collision is only ever reported for a single selected file. */
  lemma NameTakenOnlyForOneFile(files: seq<string>, sourcePath: string, destinationPath: string, copySelected: bool, dev: Device)
    requires |files| > 0
    ensures Check(files, sourcePath, destinationPath, copySelected, dev) == Rejected(NameTaken) ==>
              |files| == 1 && dev.fileExists(ChildPath(destinationPath, FilenameFromPath(files[0])))
  {
  }

  /** The checks run in a fixed order and the first that fails decides:
      each rejection is reported exactly when every earlier check passed and
      its own check failed. The permission dialog is checked twice: for the
      destination as the fifth check, and for the first file on a move
      through the SD card. */
  lemma RejectedIff(files: seq<string>, sourcePath: string, destinationPath: string, copySelected: bool, dev: Device)
    requires |files| > 0
    ensures var v := Check(files, sourcePath, destinationPath, copySelected, dev);
      var chosen := destinationPath != dev.selectDestination && destinationPath != "";
      var distinct := sourcePath != TrimEnd(destinationPath, '/');
      var valid := dev.fileExists(destinationPath);
      var collides := |files| == 1 && dev.fileExists(ChildPath(destinationPath, FilenameFromPath(files[0])));
      var onSD := dev.isPathOnSD(sourcePath) || dev.isPathOnSD(destinationPath);
      && (v == Rejected(PleaseSelectDestination) <==> !chosen)
      && (v == Rejected(SourceAndDestinationSame) <==> chosen && !distinct)
      && (v == Rejected(InvalidDestination) <==> chosen && distinct && !valid)
      && (v == Rejected(NameTaken) <==> chosen && distinct && valid && collides)
      && (v == Rejected(PermissionDialogShown) <==>
            chosen && distinct && valid && !collides
            && (dev.showingPermDialog(destinationPath) || (!copySelected && onSD && dev.showingPermDialog(files[0]))))
  {
  }

  /** A copy or move starts only when every check passes; once they pass, a
      copy always starts a copying task, a move through the SD card starts a
      moving task unless a permission dialog is shown for the first file,
      and any other move is done in place. */
  lemma ProceedsIffChecksPass(files: seq<string>, sourcePath: string, destinationPath: string, copySelected: bool, dev: Device)
    requires |files| > 0
    ensures !Check(files, sourcePath, destinationPath, copySelected, dev).Rejected? ==> ChecksPass(files, sourcePath, destinationPath, dev)
    ensures ChecksPass(files, sourcePath, destinationPath, dev) ==>
              var v := Check(files, sourcePath, destinationPath, copySelected, dev);
              var onSD := dev.isPathOnSD(sourcePath) || dev.isPathOnSD(destinationPath);
              && (copySelected ==> v == StartTask(false))
              && (!copySelected && onSD && dev.showingPermDialog(files[0]) ==> v == Rejected(PermissionDialogShown))
              && (!copySelected && onSD && !dev.showingPermDialog(files[0]) ==> v == StartTask(true))
              && (!copySelected && !onSD ==> v == RenameLocally)
  {
  }

  // ---------------------------------------------------------------------------
  // The in-place move

  /** Where a file goes: `File(destinationDir, file.name)`. */
  function Destination(destinationPath: string, file: string): string {
    ChildPath(destinationPath, FilenameFromPath(file))
  }

  /** The destinations of the files whose rename succeeded, in file order. */
  function Renamed(files: seq<string>, destinationPath: string, renameTo: (string, string) -> bool): (r: seq<string>)
    ensures |r| <= |files|
  {
    if |files| == 0 then []
    else
      var last := files[|files| - 1];
      var d := Destination(destinationPath, last);
      Renamed(files[..|files| - 1], destinationPath, renameTo) + (if renameTo(last, d) then [d] else [])
  }

  predicate AllRenamed(files: seq<string>, destinationPath: string, renameTo: (string, string) -> bool) {
    forall i :: 0 <= i < |files| ==> renameTo(files[i], Destination(destinationPath, files[i]))
  }

  /** Every rename succeeded exactly when each file contributed a
      destination. */
  lemma {:induction false} RenamedAllIff(files: seq<string>, destinationPath: string, renameTo: (string, string) -> bool)
    ensures |Renamed(files, destinationPath, renameTo)| == |files| <==> AllRenamed(files, destinationPath, renameTo)
  {
    if |files| > 0 {
      var init := files[..|files| - 1];
      RenamedAllIff(init, destinationPath, renameTo);
      if AllRenamed(files, destinationPath, renameTo) {
        assert AllRenamed(init, destinationPath, renameTo) by {
          forall i | 0 <= i < |init| ensures renameTo(init[i], Destination(destinationPath, init[i])) {
            assert init[i] == files[i];
          }
        }
      }
      if |Renamed(files, destinationPath, renameTo)| == |files| {
        forall i | 0 <= i < |files| ensures renameTo(files[i], Destination(destinationPath, files[i])) {
          if i < |files| - 1 {
            assert init[i] == files[i];
          }
        }
      }
    }
  }

  /** One more file extends `Renamed` by that file's destination, if its
      rename succeeds. */
  lemma RenamedStep(files: seq<string>, i: int, destinationPath: string, renameTo: (string, string) -> bool)
    requires 0 <= i < |files|
    ensures Renamed(files[..i + 1], destinationPath, renameTo)
            == Renamed(files[..i], destinationPath, renameTo)
               + (if renameTo(files[i], Destination(destinationPath, files[i])) then [Destination(destinationPath, files[i])] else [])
  {
    assert files[..i + 1][..i] == files[..i];
  }

  /** The size test on the grown list succeeds exactly when every rename
      did. */
  lemma CopiedAllIff(files: seq<string>, destinationPath: string, renameTo: (string, string) -> bool, updatedFiles: seq<string>)
    requires updatedFiles == files + Renamed(files, destinationPath, renameTo)
    ensures |files| * 2 == |updatedFiles| <==> AllRenamed(files, destinationPath, renameTo)
  {
    RenamedAllIff(files, destinationPath, renameTo);
  }

  /** The move loop: every file is renamed into the destination, and each
      success appends the new path to a list that starts as the files
      themselves. `copiedAll` compares the list's size with twice the file
      count. */
  method LocalMove(files: seq<string>, destinationPath: string, renameTo: (string, string) -> bool)
    returns (updatedFiles: seq<string>, copiedAll: bool)
    ensures updatedFiles == files + Renamed(files, destinationPath, renameTo)
    ensures copiedAll <==> AllRenamed(files, destinationPath, renameTo)
  {
    updatedFiles := files;
    var i := 0;
    while i < |files|
      invariant 0 <= i <= |files|
      invariant updatedFiles == files + Renamed(files[..i], destinationPath, renameTo)
    {
      var file := files[i];
      var destination := Destination(destinationPath, file);
      RenamedStep(files, i, destinationPath, renameTo);
      if renameTo(file, destination) {
        AppendAssoc(files, Renamed(files[..i], destinationPath, renameTo), [destination]);
        updatedFiles := updatedFiles + [destination];
      }
      i := i + 1;
    }
    assert files[..i] == files;
    copiedAll := |files| * 2 == |updatedFiles|;
    CopiedAllIff(files, destinationPath, renameTo, updatedFiles);
  }

  /** What one press of OK ends in. */
  datatype Action =
    | Stopped(why: Rejection)
    | CopyMoveTask(move: bool)
    | Moved(updatedFiles: seq<string>, copiedAll: bool)   // reported as `copySucceeded(true, copiedAll)`

  /** The OK button's handler, for the dialog's own source directory. */
  method OnPositiveButton(files: seq<string>, sourcePath: string, destinationPath: string, copySelected: bool, dev: Device)
    returns (action: Action)
    requires |files| > 0 && SourcePath(files) == Some(sourcePath)
    ensures match Check(files, sourcePath, destinationPath, copySelected, dev)
            case Rejected(why) => action == Stopped(why)
            case StartTask(move) => action == CopyMoveTask(move)
            case RenameLocally =>
              action == Moved(files + Renamed(files, destinationPath, dev.renameTo), AllRenamed(files, destinationPath, dev.renameTo))
  {
    match Check(files, sourcePath, destinationPath, copySelected, dev) {
      case Rejected(why) =>
        action := Stopped(why);
      case StartTask(move) =>
        action := CopyMoveTask(move);
      case RenameLocally =>
        var updatedFiles, copiedAll := LocalMove(files, destinationPath, dev.renameTo);
        action := Moved(updatedFiles, copiedAll);
    }
  }
}
