/** `RootHelpers` without its shell: every command goes into a log of issued
    commands, and what the shell prints back is given to each operation as
    one sequence of lines per command. A stage whose output is too short for
    its entries crashes (an index out of range), so its callback never runs. */
module RootHelpers {
  import opened Text
  import opened Paths
  import opened Models
  import opened RootCommands
  import opened Mounts

  // ---------------------------------------------------------------------------
  // The listing pipeline, stage by stage

  /** Stage 1, `commandOutput` of the listing: one record appended per line. */
  method ParseListing(path: string, lines: seq<string>, isDirectory: string -> bool) returns (files: seq<FileDirItem>)
    ensures files == ListedEntries(path, lines, isDirectory)
  {
    files := [];
    var i := 0;
    while i < |lines|
      invariant 0 <= i <= |lines|
      invariant files == ListedEntries(path, lines[..i], isDirectory)
    {
      files := files + [ListedEntry(path, lines[i], isDirectory)];
      i := i + 1;
    }
    assert lines[..i] == lines;
  }

  /** `getChildrenCount`: the command built segment by segment, then trimmed. */
  method BuildCountCommand(files: seq<FileDirItem>, showHidden: bool) returns (cmd: string)
    ensures cmd == CountCommand(files, showHidden)
  {
    cmd := "";
    var i := 0;
    while i < |files|
      invariant 0 <= i <= |files|
      invariant cmd == CountSegments(files[..i], showHidden)
    {
      CountSegmentsAppend(files[..i], files[i], showHidden);
      assert files[..i + 1] == files[..i] + [files[i]];
      cmd := cmd + (CountBody(files[i], showHidden) + ";");
      i := i + 1;
    }
    assert files[..i] == files;
    cmd := TrimEnd(cmd, ';') + " | cat";
  }

  lemma {:induction false} CountSegmentsAppend(items: seq<FileDirItem>, x: FileDirItem, showHidden: bool)
    ensures CountSegments(items + [x], showHidden) == CountSegments(items, showHidden) + (CountBody(x, showHidden) + ";")
  {
    if |items| > 0 {
      assert (items + [x])[1..] == items[1..] + [x];
      CountSegmentsAppend(items[1..], x, showHidden);
    } else {
      assert [x][1..] == [];
    }
  }

  /** `getFileSizes`: the command built segment by segment, untrimmed. */
  method BuildSizeCommand(files: seq<FileDirItem>) returns (cmd: string)
    ensures cmd == SizeCommand(files)
  {
    cmd := "";
    var i := 0;
    while i < |files|
      invariant 0 <= i <= |files|
      invariant cmd == SizeCommand(files[..i])
    {
      SizeCommandAppend(files[..i], files[i]);
      assert files[..i + 1] == files[..i] + [files[i]];
      cmd := cmd + (SizeBody(files[i]) + ";");
      i := i + 1;
    }
    assert files[..i] == files;
  }

  lemma {:induction false} SizeCommandAppend(items: seq<FileDirItem>, x: FileDirItem)
    ensures SizeCommand(items + [x]) == SizeCommand(items) + (SizeBody(x) + ";")
  {
    if |items| > 0 {
      assert (items + [x])[1..] == items[1..] + [x];
      SizeCommandAppend(items[1..], x);
    } else {
      assert [x][1..] == [];
    }
  }

  /** Stage 2, `commandCompleted`: entry `i` reads line `i`. With fewer lines
      than entries the loop stops at the first missing line (`completed` is
      false), having updated the entries before it. */
  method ApplyChildrenCounts(files: seq<FileDirItem>, lines: seq<string>) returns (updated: seq<FileDirItem>, completed: bool)
    ensures completed <==> |lines| >= |files|
    ensures |updated| == |files|
    ensures forall k :: 0 <= k < |files| ==>
              updated[k] == if k < |lines| then WithCount(files[k], lines[k]) else files[k]
  {
    updated := files;
    var i := 0;
    while i < |files|
      invariant 0 <= i <= |files| && i <= |lines|
      invariant |updated| == |files|
      invariant forall k :: 0 <= k < i ==> updated[k] == WithCount(files[k], lines[k])
      invariant forall k :: i <= k < |files| ==> updated[k] == files[k]
    {
      if i >= |lines| {
        completed := false;
        return;
      }
      updated := updated[i := WithCount(updated[i], lines[i])];
      i := i + 1;
    }
    completed := true;
  }

  /** Stage 3, `commandCompleted`: the same positional update for sizes. */
  method ApplyFileSizes(files: seq<FileDirItem>, lines: seq<string>) returns (updated: seq<FileDirItem>, completed: bool)
    ensures completed <==> |lines| >= |files|
    ensures |updated| == |files|
    ensures forall k :: 0 <= k < |files| ==>
              updated[k] == if k < |lines| then WithSize(files[k], lines[k]) else files[k]
  {
    updated := files;
    var i := 0;
    while i < |files|
      invariant 0 <= i <= |files| && i <= |lines|
      invariant |updated| == |files|
      invariant forall k :: 0 <= k < i ==> updated[k] == WithSize(files[k], lines[k])
      invariant forall k :: i <= k < |files| ==> updated[k] == files[k]
    {
      if i >= |lines| {
        completed := false;
        return;
      }
      updated := updated[i := WithSize(updated[i], lines[i])];
      i := i + 1;
    }
    completed := true;
  }

  // ---------------------------------------------------------------------------
  // What `getFiles` delivers and issues, as functions of the shell's output

  /** Entry `i` after both stages read their line `i`. */
  function CountedAndSized(files: seq<FileDirItem>, counts: seq<string>, stats: seq<string>): (r: seq<FileDirItem>)
    requires |counts| >= |files| && |stats| >= |files|
    ensures |r| == |files|
  {
    seq(|files|, i requires 0 <= i < |files| => WithSize(WithCount(files[i], counts[i]), stats[i]))
  }

  /** The list handed to the callback, or `None` when a stage crashed and the
      callback never ran. */
  function GetFilesResult(path: string, isDirectory: string -> bool, listing: seq<string>,
                          counts: seq<string>, stats: seq<string>): Option<seq<FileDirItem>>
  {
    if |listing| == 0 then Some([])
    else if |counts| < |listing| || |stats| < |listing| then None
    else Some(CountedAndSized(ListedEntries(path, listing, isDirectory), counts, stats))
  }

  /** The commands `getFiles` issues, in order. */
  function GetFilesCommands(path: string, showHidden: bool, isDirectory: string -> bool,
                            listing: seq<string>, counts: seq<string>): seq<string>
  {
    var files := ListedEntries(path, listing, isDirectory);
    [ListCommand(path, showHidden)]
    + (if |listing| == 0 then []
       else [CountCommand(files, showHidden)]
            + (if |counts| < |listing| then [] else [SizeCommand(files)]))
  }

  /** An empty listing is delivered as the empty list at once: no count or
      size command is issued. */
  lemma EmptyListingShortCircuits(path: string, showHidden: bool, isDirectory: string -> bool,
                                  counts: seq<string>, stats: seq<string>)
    ensures GetFilesResult(path, isDirectory, [], counts, stats) == Some([])
    ensures GetFilesCommands(path, showHidden, isDirectory, [], counts) == [ListCommand(path, showHidden)]
  {
  }

  /** A non-empty listing runs stage 2, and stage 3 when stage 2 had a line for
      every entry; the callback runs exactly when both stages had enough lines. */
  lemma NonEmptyListingRunsStages(path: string, showHidden: bool, isDirectory: string -> bool,
                                  listing: seq<string>, counts: seq<string>, stats: seq<string>)
    requires |listing| > 0
    ensures var cmds := GetFilesCommands(path, showHidden, isDirectory, listing, counts);
      && cmds[1] == CountCommand(ListedEntries(path, listing, isDirectory), showHidden)
      && (|cmds| == 3 <==> |counts| >= |listing|)
      && (|cmds| == 3 ==> cmds[2] == SizeCommand(ListedEntries(path, listing, isDirectory)))
    ensures GetFilesResult(path, isDirectory, listing, counts, stats).Some? <==>
              |counts| >= |listing| && |stats| >= |listing|
  {
  }

  /** Each delivered entry `i` is the listing's line `i` under the listed
      directory, with the probe's kind; its child count is count line `i` when
      that is all digits, else 0; its size is what stat line `i` yields, else 0. */
  lemma {:induction false} DeliveredEntries(path: string, isDirectory: string -> bool, listing: seq<string>,
                                            counts: seq<string>, stats: seq<string>, i: int)
    requires GetFilesResult(path, isDirectory, listing, counts, stats).Some?
    requires 0 <= i < |listing|
    ensures var items := GetFilesResult(path, isDirectory, listing, counts, stats).value;
      && |items| == |listing|
      && items[i].name == listing[i]
      && items[i].path == ChildPath(path, listing[i])
      && items[i].isDirectory == isDirectory(ChildPath(path, listing[i]))
      && items[i].children == (if AreDigitsOnly(counts[i]) then DigitsValue(counts[i]) else 0)
      && items[i].size == (match StatSize(ChildPath(path, listing[i]), stats[i]) case Some(n) => n case None => 0)
  {
    var files := ListedEntries(path, listing, isDirectory);
    var c := WithCount(files[i], counts[i]);
    assert c.path == ChildPath(path, listing[i]) && c.size == 0;
    var items := GetFilesResult(path, isDirectory, listing, counts, stats).value;
    assert items[i] == WithSize(c, stats[i]);
  }

  /** The example directory `/p`: a sub-directory `docs` with three visible
      entries and a 42-byte file `a.txt`. */
  predicate DocsInput(isDirectory: string -> bool, parent: string, listing: seq<string>, counts: seq<string>, stats: seq<string>) {
    && parent == "/p" && listing == ["docs", "a.txt"]
    && isDirectory("/p/docs") && !isDirectory("/p/a.txt")
    && counts == ["3", "0"] && stats == ["0", "/p/a.txt 42 8 81a4"]
  }

  lemma DocsExample(isDirectory: string -> bool, parent: string, listing: seq<string>, counts: seq<string>, stats: seq<string>)
    requires DocsInput(isDirectory, parent, listing, counts, stats)
    ensures GetFilesResult(parent, isDirectory, listing, counts, stats)
         == Some([FileDirItem("/p/docs", "docs", true, 3, 0), FileDirItem("/p/a.txt", "a.txt", false, 0, 42)])
  {
    var items := GetFilesResult(parent, isDirectory, listing, counts, stats).value;
    DocsExampleEntries(isDirectory, parent, listing, counts, stats);
    assert |items| == 2 && items == [items[0], items[1]];
  }

  lemma DocsExampleEntries(isDirectory: string -> bool, parent: string, listing: seq<string>, counts: seq<string>, stats: seq<string>)
    requires DocsInput(isDirectory, parent, listing, counts, stats)
    ensures var items := GetFilesResult(parent, isDirectory, listing, counts, stats).value;
      && items[0] == FileDirItem("/p/docs", "docs", true, 3, 0)
      && items[1] == FileDirItem("/p/a.txt", "a.txt", false, 0, 42)
  {
    assert TrimEnd(parent, '/') == parent;
    DocsEntry(isDirectory, parent, listing, counts, stats);
    FileEntry(isDirectory, parent, listing, counts, stats);
  }

  lemma DocsEntry(isDirectory: string -> bool, parent: string, listing: seq<string>, counts: seq<string>, stats: seq<string>)
    requires DocsInput(isDirectory, parent, listing, counts, stats) && TrimEnd(parent, '/') == parent
    ensures GetFilesResult(parent, isDirectory, listing, counts, stats).value[0] == FileDirItem("/p/docs", "docs", true, 3, 0)
  {
    var docs := ChildPath(parent, listing[0]);
    assert docs == "/p/docs";
    DeliveredEntries(parent, isDirectory, listing, counts, stats, 0);
    assert AreDigitsOnly(counts[0]) && DigitsValue(counts[0]) == 3;
    assert StatSize(docs, stats[0]) == None;
  }

  lemma FileEntry(isDirectory: string -> bool, parent: string, listing: seq<string>, counts: seq<string>, stats: seq<string>)
    requires DocsInput(isDirectory, parent, listing, counts, stats) && TrimEnd(parent, '/') == parent
    ensures GetFilesResult(parent, isDirectory, listing, counts, stats).value[1] == FileDirItem("/p/a.txt", "a.txt", false, 0, 42)
  {
    var file := ChildPath(parent, listing[1]);
    assert file == "/p/a.txt";
    assert StatSize(file, stats[1]) == Some(42) by {
      StatExample(file, stats[1], " 8 81a4");
    }
    assert AreDigitsOnly(counts[1]) && DigitsValue(counts[1]) == 0;
    DeliveredEntries(parent, isDirectory, listing, counts, stats, 1);
  }

  lemma StatExample(path: string, line: string, rest: string)
    requires line == path + " 42" + rest && (rest == "" || rest[0] == ' ')
    ensures StatSize(path, line) == Some(42)
  {
    assert NatToString(42) == "42" by {
      assert NatToString(4) == "4";
    }
    var d := NatToString(42);
    assert " " + d == " 42";
    AppendAssoc(path, " ", d);
    StatLineRoundTrip(path, 42, rest);
  }

  // ---------------------------------------------------------------------------
  // What `createFileFolder` issues and reports

  function Repeat(s: string, n: nat): (r: seq<string>)
    ensures |r| == n && forall i :: 0 <= i < n ==> r[i] == s
  {
    if n == 0 then [] else [s] + Repeat(s, n - 1)
  }

  /** `mountAsRO` for every value the remount callback passed on: each output
      line of the remount command, not the mount point. */
  function Unmounts(lines: seq<string>): (r: seq<string>)
    ensures |r| == |lines| && forall i :: 0 <= i < |lines| ==> r[i] == UnmountCommand(lines[i])
  {
    seq(|lines|, i requires 0 <= i < |lines| => UnmountCommand(lines[i]))
  }

  /** How many times the create command runs: once for a writable mount,
      once per remount output line for a read-only one, else never. */
  function CreateRuns(d: Decision, remountOutput: seq<string>): nat {
    match d
    case NoCallback => 0
    case AlreadyWritable => 1
    case Remount(_) => |remountOutput|
  }

  /** The commands `createFileFolder` issues, in the order the single shell
      runs them: the mount table, then per decision the create command
      directly, or the remount followed by one create per remount output line
      and then, as each create completes, one unmount of that line. */
  function CreateFileFolderCommands(path: string, isFile: bool, mountOutput: seq<string>, remountOutput: seq<string>): seq<string> {
    [MountCommand()] + DecisionCommands(Decide(ScanMounts(path, mountOutput)), CreateCommand(path, isFile), remountOutput)
  }

  /** What follows `mount` once the mount is resolved. */
  function DecisionCommands(d: Decision, create: string, remountOutput: seq<string>): seq<string> {
    match d
    case NoCallback => []
    case AlreadyWritable => [create]
    case Remount(cmd) => [cmd] + Repeat(create, |remountOutput|) + Unmounts(remountOutput)
  }

  /** A mount that is already writable gets no remount and no unmount. */
  lemma WritableMountIsNotRemounted(path: string, isFile: bool, mountOutput: seq<string>, remountOutput: seq<string>)
    requires Decide(ScanMounts(path, mountOutput)) == AlreadyWritable
    ensures CreateFileFolderCommands(path, isFile, mountOutput, remountOutput) == [MountCommand(), CreateCommand(path, isFile)]
  {
  }

  /** What follows `mount`: a remount is the first command, the unmounts of
      the remount output lines come last, after one create per line. */
  lemma {:induction false} DecisionCommandsShape(d: Decision, create: string, remountOutput: seq<string>)
    ensures var cmds := DecisionCommands(d, create, remountOutput);
      match d
      case Remount(rc) =>
        && |cmds| == 1 + 2 * |remountOutput| && cmds[0] == rc
        && cmds[1 + |remountOutput|..] == Unmounts(remountOutput)
      case _ => |cmds| <= 1
  {
    match d {
      case Remount(rc) =>
        var rep := Repeat(create, |remountOutput|);
        var un := Unmounts(remountOutput);
        assert DecisionCommands(d, create, remountOutput) == ([rc] + rep) + un;
        DropPrefix([rc] + rep, un);
      case _ =>
    }
  }

  /** The shape of `DecisionCommands` behind one leading command. */
  lemma AfterFirstCommand(first: string, d: Decision, create: string, remountOutput: seq<string>)
    ensures var cmds := [first] + DecisionCommands(d, create, remountOutput);
      match d
      case Remount(rc) =>
        && |cmds| == 2 + 2 * |remountOutput| && cmds[1] == rc
        && cmds[2 + |remountOutput|..] == Unmounts(remountOutput)
      case _ => |cmds| <= 2
  {
    var tail := DecisionCommands(d, create, remountOutput);
    DecisionCommandsShape(d, create, remountOutput);
    DropPrefix([first], tail);
    if d.Remount? {
      DropTwice([first] + tail, 1, 1 + |remountOutput|);
    }
  }

  /** An unmount is issued only after a remount, once per line the remount
      printed, and its argument is that line. */
  lemma UnmountsFollowRemount(path: string, isFile: bool, mountOutput: seq<string>, remountOutput: seq<string>)
    ensures var cmds := CreateFileFolderCommands(path, isFile, mountOutput, remountOutput);
      match Decide(ScanMounts(path, mountOutput))
      case Remount(rc) =>
        && |cmds| == 2 + 2 * |remountOutput| && cmds[1] == rc
        && cmds[2 + |remountOutput|..] == Unmounts(remountOutput)
      case _ => |cmds| <= 2
  {
    AfterFirstCommand(MountCommand(), Decide(ScanMounts(path, mountOutput)), CreateCommand(path, isFile), remountOutput);
  }

  // ---------------------------------------------------------------------------
  // The helper with its shell log

  class RootHelper {
    /** Every command handed to the root shell, oldest first. */
    var issued: seq<string>

    constructor ()
      ensures issued == []
    {
      issued := [];
    }

    /** `runCommand`: hand a command to the shell. */
    method RunCommand(cmd: string)
      modifies this
      ensures issued == old(issued) + [cmd]
    {
      issued := issued + [cmd];
    }

    /** `getFiles` with the shell's output for its three commands. */
    method GetFiles(path: string, showHidden: bool, isDirectory: string -> bool,
                    listing: seq<string>, counts: seq<string>, stats: seq<string>)
      returns (delivered: Option<seq<FileDirItem>>)
      modifies this
      ensures delivered == GetFilesResult(path, isDirectory, listing, counts, stats)
      ensures issued == old(issued) + GetFilesCommands(path, showHidden, isDirectory, listing, counts)
    {
      ghost var before := issued;
      var listCmd := ListCommand(path, showHidden);
      RunCommand(listCmd);
      var files := ParseListing(path, listing, isDirectory);
      if |files| == 0 {
        delivered := Some(files);
        assert [listCmd] + [] == [listCmd];
        return;
      }
      var countCmd := BuildCountCommand(files, showHidden);
      RunCommand(countCmd);
      AppendAssoc(before, [listCmd], [countCmd]);
      var counted, ok := ApplyChildrenCounts(files, counts);
      if !ok {
        delivered := None;
        assert [countCmd] + [] == [countCmd];
        return;
      }
      var sizeCmd := BuildSizeCommand(counted);
      SizeCommandSameKinds(counted, files);
      RunCommand(sizeCmd);
      AppendAssoc(before + [listCmd], [countCmd], [sizeCmd]);
      AppendAssoc(before, [listCmd], [countCmd] + [sizeCmd]);
      var sized, ok2 := ApplyFileSizes(counted, stats);
      if !ok2 {
        delivered := None;
        return;
      }
      delivered := Some(sized);
      StagesCompose(files, counts, stats, counted, sized);
    }

    /** `createFileFolder` with the shell's output for `mount` and for the
      remount command, and one exit code per run of the create command. The
      result lists the values passed to the callback, in order. */
    method CreateFileFolder(path: string, isFile: bool, mountOutput: seq<string>, remountOutput: seq<string>, exits: seq<int>)
      returns (reports: seq<bool>)
      requires |exits| == CreateRuns(Decide(ScanMounts(path, mountOutput)), remountOutput)
      modifies this
      ensures |reports| == |exits| && forall i :: 0 <= i < |exits| ==> reports[i] == (exits[i] == 0)
      ensures issued == old(issued) + CreateFileFolderCommands(path, isFile, mountOutput, remountOutput)
    {
      RunCommand(MountCommand());
      var mountPoint, types, crashed := ResolveMount(path, mountOutput);
      var scan := if crashed then Crashed else Scanning(mountPoint, types);
      assert scan == ScanMounts(path, mountOutput);
      var d := Decide(scan);
      reports := RunDecision(d, CreateCommand(path, isFile), remountOutput, exits);
      AppendAssoc(old(issued), [MountCommand()], DecisionCommands(d, CreateCommand(path, isFile), remountOutput));
    }

    /** What the mount decision leads to: nothing, the create command alone,
        or the remount with its creates and unmounts. */
    method RunDecision(d: Decision, create: string, remountOutput: seq<string>, exits: seq<int>)
      returns (reports: seq<bool>)
      requires |exits| == CreateRuns(d, remountOutput)
      modifies this
      ensures |reports| == |exits| && forall i :: 0 <= i < |exits| ==> reports[i] == (exits[i] == 0)
      ensures issued == old(issued) + DecisionCommands(d, create, remountOutput)
    {
      match d {
        case NoCallback =>
          reports := [];
          assert issued == issued + [];
        case AlreadyWritable =>
          RunCommand(create);
          reports := [exits[0] == 0];
        case Remount(remount) =>
          reports := RemountThenCreate(remount, create, remountOutput, exits);
      }
    }

    /** A read-only mount: run the remount command; its callback, once per
        output line, runs the create command; as each create completes its
        exit status is reported and that line is unmounted. */
    method RemountThenCreate(remount: string, create: string, remountOutput: seq<string>, exits: seq<int>) returns (reports: seq<bool>)
      requires |exits| == |remountOutput|
      modifies this
      ensures |reports| == |exits| && forall i :: 0 <= i < |exits| ==> reports[i] == (exits[i] == 0)
      ensures issued == old(issued) + ([remount] + Repeat(create, |remountOutput|) + Unmounts(remountOutput))
    {
      RunCommand(remount);
      ghost var remounted := issued;
      var i := 0;
      while i < |remountOutput|
        invariant 0 <= i <= |remountOutput|
        invariant issued == remounted + Repeat(create, i)
      {
        RunCommand(create);
        RepeatAppend(create, i);
        i := i + 1;
      }
      ghost var created := issued;
      reports := [];
      i := 0;
      while i < |remountOutput|
        invariant 0 <= i <= |remountOutput|
        invariant issued == created + Unmounts(remountOutput[..i])
        invariant |reports| == i && forall k :: 0 <= k < i ==> reports[k] == (exits[k] == 0)
      {
        reports := reports + [exits[i] == 0];
        RunCommand(UnmountCommand(remountOutput[i]));
        assert Unmounts(remountOutput[..i + 1]) == Unmounts(remountOutput[..i]) + [UnmountCommand(remountOutput[i])];
        i := i + 1;
      }
      assert remountOutput[..i] == remountOutput;
    }
  }

  /** Applying the counts and then the sizes, entry by entry, is
      `CountedAndSized`. */
  lemma StagesCompose(files: seq<FileDirItem>, counts: seq<string>, stats: seq<string>,
                      counted: seq<FileDirItem>, sized: seq<FileDirItem>)
    requires |counts| >= |files| && |stats| >= |files| && |counted| == |files| && |sized| == |files|
    requires forall k :: 0 <= k < |files| ==> counted[k] == WithCount(files[k], counts[k])
    requires forall k :: 0 <= k < |files| ==> sized[k] == WithSize(counted[k], stats[k])
    ensures sized == CountedAndSized(files, counts, stats)
  {
  }

  lemma RepeatAppend(s: string, n: nat)
    ensures Repeat(s, n) + [s] == Repeat(s, n + 1)
  {
  }

  /** The size command depends only on the paths and kinds, which stage 2 keeps. */
  lemma {:induction false} SizeCommandSameKinds(a: seq<FileDirItem>, b: seq<FileDirItem>)
    requires |a| == |b|
    requires forall k :: 0 <= k < |a| ==> a[k].path == b[k].path && a[k].isDirectory == b[k].isDirectory
    ensures SizeCommand(a) == SizeCommand(b)
  {
    if |a| > 0 {
      SizeCommandSameKinds(a[1..], b[1..]);
    }
  }
}
