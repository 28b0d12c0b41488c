/** Mount-table resolution of `tryMountAsRW` (`RootHelpers.kt`): scan the
    output of `mount` for the longest mount point contained in the target
    path, then decide from its options whether a remount is needed. Lines
    are read in the `<device> on <mount point> type <fs> (<options>)` layout,
    so word 2 is the mount point and word 5 the options. */
module Mounts {
  import opened Text
  import opened RootCommands

  /** State of the scan: the best mount point so far (initially empty) and
      its options (initially null), or a crash on an index out of range. */
  datatype Scan = Scanning(mountPoint: string, types: Option<string>) | Crashed

  /** The state before any line is read. */
  function Start(): Scan {
    Scanning("", None)
  }

  /** One iteration of the loop over the mount lines. Word 2 is read on every
      line; word 5 only when word 2 is contained in the path and strictly
      longer than the best so far. */
  function Step(path: string, s: Scan, line: string): Scan {
    match s
    case Crashed => Crashed
    case Scanning(mountPoint, _) =>
      var words := Words(line);
      if |words| < 3 then Crashed
      else if Contains(path, words[2]) && |words[2]| > |mountPoint| then
        if |words| < 6 then Crashed else Scanning(words[2], Some(words[5]))
      else s
  }

  /** The state after reading all of `lines`, in order. */
  function ScanMounts(path: string, lines: seq<string>): Scan {
    if |lines| == 0 then Start()
    else Step(path, ScanMounts(path, lines[..|lines| - 1]), lines[|lines| - 1])
  }

  /** Word 2 of `line` names a mount point inside `path`. */
  predicate Matches(path: string, line: string) {
    |Words(line)| >= 3 && Contains(path, Words(line)[2])
  }

  /** The loop of `tryMountAsRW` over the collected mount lines. */
  method ResolveMount(path: string, lines: seq<string>) returns (mountPoint: string, types: Option<string>, crashed: bool)
    ensures crashed <==> ScanMounts(path, lines) == Crashed
    ensures !crashed ==> ScanMounts(path, lines) == Scanning(mountPoint, types)
  {
    mountPoint, types, crashed := "", None, false;
    var i := 0;
    while i < |lines|
      invariant 0 <= i <= |lines|
      invariant ScanMounts(path, lines[..i]) == Scanning(mountPoint, types)
    {
      assert lines[..i + 1][..i] == lines[..i];
      var words := Words(lines[i]);
      if |words| < 3 {
        crashed := true;
        CrashPersists(path, lines, i + 1);
        return;
      }
      if Contains(path, words[2]) {
        if |words[2]| > |mountPoint| {
          if |words| < 6 {
            crashed := true;
            CrashPersists(path, lines, i + 1);
            return;
          }
          mountPoint := words[2];
          types := Some(words[5]);
        }
      }
      i := i + 1;
    }
    assert lines[..i] == lines;
  }

  /** Once the scan has crashed it stays crashed. */
  lemma {:induction false} CrashPersists(path: string, lines: seq<string>, k: nat)
    requires k <= |lines| && ScanMounts(path, lines[..k]) == Crashed
    ensures ScanMounts(path, lines) == Crashed
  {
    if k < |lines| {
      assert lines[..|lines| - 1][..k] == lines[..k];
      CrashPersists(path, lines[..|lines| - 1], k);
    } else {
      assert lines[..k] == lines;
    }
  }

  /** A finished scan kept the longest matching mount point: every line has a
      word 2, none contained in the path is longer than the result, the result
      is empty exactly when no line matches, and the options are set exactly
      when a mount point was found. */
  lemma {:induction false} ScanKeepsLongest(path: string, lines: seq<string>)
    requires ScanMounts(path, lines).Scanning?
    ensures var s := ScanMounts(path, lines);
      && (forall j :: 0 <= j < |lines| ==> |Words(lines[j])| >= 3)
      && (forall j :: 0 <= j < |lines| && Matches(path, lines[j]) ==> |Words(lines[j])[2]| <= |s.mountPoint|)
      && (s.mountPoint == "" <==> forall j :: 0 <= j < |lines| ==> !Matches(path, lines[j]))
      && (s.types.Some? <==> s.mountPoint != "")
  {
    if |lines| > 0 {
      var init := lines[..|lines| - 1];
      var s0 := ScanMounts(path, init);
      assert ScanMounts(path, lines) == Step(path, s0, lines[|lines| - 1]);
      ScanKeepsLongest(path, init);
      forall j | 0 <= j < |lines| - 1 ensures lines[j] == init[j] { }
    }
  }

  /** The mount point found is word 2 of some line `k`, the options are that
      line's word 5, and every earlier matching line had a strictly shorter
      word 2: the first of several equally long matches wins. */
  lemma {:induction false} ScanChoosesFirstLongest(path: string, lines: seq<string>)
    requires ScanMounts(path, lines).Scanning? && ScanMounts(path, lines).mountPoint != ""
    ensures var s := ScanMounts(path, lines);
      exists k :: 0 <= k < |lines| && ChosenAt(path, lines, k, s.mountPoint, s.types)
  {
    var init := lines[..|lines| - 1];
    var s0 := ScanMounts(path, init);
    var s := ScanMounts(path, lines);
    assert s == Step(path, s0, lines[|lines| - 1]);
    ScanKeepsLongest(path, init);
    if s == s0 {
      ScanChoosesFirstLongest(path, init);
      var k :| 0 <= k < |init| && ChosenAt(path, init, k, s0.mountPoint, s0.types);
      assert ChosenAt(path, lines, k, s.mountPoint, s.types);
    } else {
      var k := |lines| - 1;
      forall j | 0 <= j < k && Matches(path, lines[j]) ensures |Words(lines[j])[2]| < |s.mountPoint| {
        assert lines[j] == init[j];
      }
      assert ChosenAt(path, lines, k, s.mountPoint, s.types);
    }
  }

  /** Line `k` supplied the mount point and options, and no earlier line
      matched with a word 2 of the same or greater length. */
  predicate ChosenAt(path: string, lines: seq<string>, k: int, mountPoint: string, types: Option<string>)
    requires 0 <= k < |lines|
  {
    && |Words(lines[k])| >= 6
    && Words(lines[k])[2] == mountPoint
    && Contains(path, mountPoint)
    && types == Some(Words(lines[k])[5])
    && forall j :: 0 <= j < k && Matches(path, lines[j]) ==> |Words(lines[j])[2]| < |mountPoint|
  }

  /** A mount table whose lines all have at least six words never crashes the scan. */
  lemma {:induction false} FullLinesNeverCrash(path: string, lines: seq<string>)
    requires forall j :: 0 <= j < |lines| ==> |Words(lines[j])| >= 6
    ensures ScanMounts(path, lines).Scanning?
  {
    if |lines| > 0 {
      FullLinesNeverCrash(path, lines[..|lines| - 1]);
    }
  }

  // ---------------------------------------------------------------------------
  // The remount decision

  /** What `tryMountAsRW` does once the scan is over. */
  datatype Decision =
    | NoCallback              // no match, unreadable options, or a crash: the callback never runs
    | AlreadyWritable         // options contain "rw": `callback(null)`, no remount
    | Remount(command: string) // options contain "ro": run this remount command

  function Decide(s: Scan): (d: Decision)
    ensures d.Remount? ==> s.Scanning? && d.command == RemountCommand(s.mountPoint)
  {
    match s
    case Crashed => NoCallback
    case Scanning(mountPoint, types) =>
      if mountPoint != "" && types.Some? then
        if Contains(types.value, "rw") then AlreadyWritable
        else if Contains(types.value, "ro") then Remount(RemountCommand(mountPoint))
        else NoCallback
      else NoCallback
  }

  /** The decision in terms of the chosen line's options: writable when they
      contain "rw", a remount of that mount point when they contain "ro" but
      not "rw", and no callback otherwise. */
  lemma DecideByOptions(path: string, lines: seq<string>)
    requires ScanMounts(path, lines).Scanning?
    ensures var s := ScanMounts(path, lines);
      match Decide(s)
      case AlreadyWritable => s.mountPoint != "" && Contains(s.types.value, "rw")
      case Remount(cmd) =>
        s.mountPoint != "" && !Contains(s.types.value, "rw") && Contains(s.types.value, "ro")
        && cmd == RemountCommand(s.mountPoint)
      case NoCallback =>
        s.mountPoint == "" || (s.types.Some? && !Contains(s.types.value, "rw") && !Contains(s.types.value, "ro"))
  {
    ScanKeepsLongest(path, lines);
  }

  /** A mount-table line in the layout `mount` prints. */
  function MountLine(dev: string, mountPoint: string, fs: string, options: string): string {
    dev + " on " + mountPoint + " type " + fs + " " + options
  }

  lemma ScanTwoLines(path: string, l1: string, l2: string)
    ensures ScanMounts(path, [l1, l2]) == Step(path, Step(path, Start(), l1), l2)
  {
    assert [l1, l2][..1] == [l1];
    assert [l1][..0] == [];
    assert ScanMounts(path, [l1]) == Step(path, ScanMounts(path, []), l1);
    assert ScanMounts(path, [l1, l2]) == Step(path, ScanMounts(path, [l1]), l2);
  }

  /** A well-formed line whose mount point lies in the path and is longer
      than the best so far takes over, with its options. */
  lemma StepTakesLonger(path: string, s: Scan, dev: string, mp: string, fs: string, opts: string)
    requires dev != "" && mp != "" && fs != "" && opts != ""
    requires ' ' !in dev && ' ' !in mp && ' ' !in fs && ' ' !in opts
    requires s.Scanning? && Contains(path, mp) && |mp| > |s.mountPoint|
    ensures Step(path, s, MountLine(dev, mp, fs, opts)) == Scanning(mp, Some(opts))
  {
    WordsOfMountLine(dev, mp, fs, opts);
  }

  /** The most specific mount point wins: with `/` and `/storage/emulated` in
      the table, a file under `/storage/emulated` resolves to the latter. */
  lemma LongestMountPointWins()
    ensures ScanMounts("/storage/emulated/0/f",
                       [MountLine("rootfs", "/", "rootfs", "(ro)"), MountLine("fuse", "/storage/emulated", "fuse", "(rw)")])
         == Scanning("/storage/emulated", Some("(rw)"))
  {
    var path := "/storage/emulated/0/f";
    assert Contains(path, "/") by { ContainsWhole(path, "/"); }
    StepTakesLonger(path, Start(), "rootfs", "/", "rootfs", "(ro)");
    assert Contains(path, "/storage/emulated") by { ContainsWhole(path, "/storage/emulated"); }
    StepTakesLonger(path, Scanning("/", Some("(ro)")), "fuse", "/storage/emulated", "fuse", "(rw)");
    ScanTwoLines(path, MountLine("rootfs", "/", "rootfs", "(ro)"), MountLine("fuse", "/storage/emulated", "fuse", "(rw)"));
  }

  /** `contains` rather than a prefix test: `/system` is inside
      `/data/system/f` and longer than `/data`, so it is chosen. */
  lemma SubstringMountPointCanWin()
    ensures ScanMounts("/data/system/f",
                       [MountLine("d", "/data", "ext4", "(rw)"), MountLine("s", "/system", "ext4", "(ro)")])
         == Scanning("/system", Some("(ro)"))
  {
    var path := "/data/system/f";
    assert Contains(path, "/data") by { ContainsWhole(path, "/data"); }
    StepTakesLonger(path, Start(), "d", "/data", "ext4", "(rw)");
    assert Contains(path, "/system") by {
      assert path[5..] == "/system/f";
      ContainsWhole(path[5..], "/system");
      ContainsFrom(path, "/system", 5);
    }
    StepTakesLonger(path, Scanning("/data", Some("(rw)")), "s", "/system", "ext4", "(ro)");
    ScanTwoLines(path, MountLine("d", "/data", "ext4", "(rw)"), MountLine("s", "/system", "ext4", "(ro)"));
  }

  /** The six words of a mount line `<dev> on <mp> type <fs> <opts>`. */
  lemma WordsOfMountLine(dev: string, mp: string, fs: string, opts: string)
    requires dev != "" && mp != "" && fs != "" && opts != ""
    requires ' ' !in dev && ' ' !in mp && ' ' !in fs && ' ' !in opts
    ensures Words(MountLine(dev, mp, fs, opts)) == [dev, "on", mp, "type", fs, opts]
  {
    SplitMountLine(dev, "on", mp, "type", fs, opts);
    assert MountLine(dev, mp, fs, opts) == dev + [' '] + ("on" + [' '] + (mp + [' '] + ("type" + [' '] + (fs + [' '] + opts))));
    NonEmptyKeepsAll([dev, "on", mp, "type", fs, opts]);
  }

  /** Six space-free words joined by single spaces split back into them. */
  lemma SplitMountLine(a: string, b: string, c: string, d: string, e: string, f: string)
    requires ' ' !in a && ' ' !in b && ' ' !in c && ' ' !in d && ' ' !in e && ' ' !in f
    ensures SplitOn(a + [' '] + (b + [' '] + (c + [' '] + (d + [' '] + (e + [' '] + f)))), ' ') == [a, b, c, d, e, f]
  {
    var t5 := e + [' '] + f;
    assert SplitOn(t5, ' ') == [e, f] by {
      SplitWithout(f, ' ');
      SplitAtFirst(e, f, ' ');
    }
    var t4 := d + [' '] + t5;
    assert SplitOn(t4, ' ') == [d, e, f] by {
      SplitAtFirst(d, t5, ' ');
    }
    var t3 := c + [' '] + t4;
    assert SplitOn(t3, ' ') == [c, d, e, f] by {
      SplitAtFirst(c, t4, ' ');
    }
    var t2 := b + [' '] + t3;
    assert SplitOn(t2, ' ') == [b, c, d, e, f] by {
      SplitAtFirst(b, t3, ' ');
    }
    SplitAtFirst(a, t2, ' ');
  }

  lemma {:induction false} ContainsFrom(s: string, t: string, k: nat)
    requires k <= |s| && Contains(s[k..], t)
    ensures Contains(s, t)
  {
    if k > 0 {
      assert s[1..][k - 1..] == s[k..];
      ContainsFrom(s[1..], t, k - 1);
    } else {
      assert s[k..] == s;
    }
  }
}
