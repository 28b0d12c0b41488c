/** The command strings the root helper hands to the privileged shell, and the
    per-line parsing of what the shell prints back (`RootHelpers.kt`). */
module RootCommands {
  import opened Text
  import opened Paths
  import opened Models

  // ---------------------------------------------------------------------------
  // Listing (stage 1 of `getFiles`)

  /** `-A ` when hidden entries are shown, otherwise nothing. */
  function HiddenArgument(showHidden: bool): string {
    if showHidden then "-A " else ""
  }

  /** `ls [-A ]<path>`. */
  function ListCommand(path: string, showHidden: bool): string {
    "ls " + HiddenArgument(showHidden) + path
  }

  /** A space-free path reaches the shell as one argument, after the `-A`
      flag exactly when hidden entries are shown. */
  lemma ListCommandWords(path: string, showHidden: bool)
    requires path != "" && ' ' !in path
    ensures Words(ListCommand(path, showHidden)) == if showHidden then ["ls", "-A", path] else ["ls", path]
  {
    SplitWithout(path, ' ');
    var pieces: seq<string>;
    if showHidden {
      assert ListCommand(path, showHidden) == "ls" + [' '] + ("-A" + [' '] + path);
      SplitAtFirst("ls", "-A" + [' '] + path, ' ');
      SplitAtFirst("-A", path, ' ');
      pieces := ["ls", "-A", path];
    } else {
      assert ListCommand(path, showHidden) == "ls" + [' '] + path;
      SplitAtFirst("ls", path, ' ');
      pieces := ["ls", path];
    }
    assert SplitOn(ListCommand(path, showHidden), ' ') == pieces;
    NonEmptyKeepsAll(pieces);
  }

  lemma {:induction false} NonEmptyKeepsAll(ss: seq<string>)
    requires forall i :: 0 <= i < |ss| ==> ss[i] != ""
    ensures NonEmpty(ss) == ss
  {
    if |ss| > 0 {
      NonEmptyKeepsAll(ss[1..]);
    }
  }

  /** The record built from one output line of the listing: the line is the
      name, the kind comes from the file-system probe, both counters are 0. */
  function ListedEntry(parent: string, line: string, isDirectory: string -> bool): (it: FileDirItem)
    ensures it.name == line && it.path == ChildPath(parent, line)
    ensures it.isDirectory == isDirectory(it.path)
    ensures it.children == 0 && it.size == 0
  {
    var p := ChildPath(parent, line);
    FileDirItem(p, line, isDirectory(p), 0, 0)
  }

  /** Stage 1 as a function of the listing's output: one entry per line, in order. */
  function ListedEntries(parent: string, lines: seq<string>, isDirectory: string -> bool): (r: seq<FileDirItem>)
    ensures |r| == |lines|
    ensures forall i :: 0 <= i < |lines| ==> r[i] == ListedEntry(parent, lines[i], isDirectory)
  {
    seq(|lines|, i requires 0 <= i < |lines| => ListedEntry(parent, lines[i], isDirectory))
  }

  // ---------------------------------------------------------------------------
  // Child counts (stage 2)

  /** The per-entry count command, before its `;`: `ls [-A ]<p> |wc -l` for a
      directory, the placeholder `echo 0` for a file. */
  function CountBody(it: FileDirItem, showHidden: bool): string {
    if it.isDirectory then "ls " + HiddenArgument(showHidden) + it.path + " |wc -l" else "echo 0"
  }

  function CountBodies(items: seq<FileDirItem>, showHidden: bool): (r: seq<string>)
    ensures |r| == |items|
    ensures forall i :: 0 <= i < |items| ==> r[i] == CountBody(items[i], showHidden)
  {
    seq(|items|, i requires 0 <= i < |items| => CountBody(items[i], showHidden))
  }

  /** The `;`-terminated segments, concatenated in entry order. */
  function CountSegments(items: seq<FileDirItem>, showHidden: bool): string {
    if |items| == 0 then "" else CountBody(items[0], showHidden) + ";" + CountSegments(items[1..], showHidden)
  }

  /** The stage-2 command: the segments with the trailing `;` trimmed, piped into `cat`. */
  function CountCommand(items: seq<FileDirItem>, showHidden: bool): string {
    TrimEnd(CountSegments(items, showHidden), ';') + " | cat"
  }

  lemma {:induction false} CountSegmentsTerminated(items: seq<FileDirItem>, showHidden: bool)
    requires |items| >= 1
    ensures CountSegments(items, showHidden) == JoinWith(CountBodies(items, showHidden), ';') + ";"
  {
    var bs := CountBodies(items, showHidden);
    if |items| > 1 {
      CountSegmentsTerminated(items[1..], showHidden);
      assert CountBodies(items[1..], showHidden) == bs[1..];
    }
  }

  /** Positional alignment of stage 2: the command is the per-entry commands
      joined by `;` then `| cat`, and when no path holds a `;` cutting it at the
      `;`s gives back exactly one command per entry, in entry order. */
  lemma CountCommandSegments(items: seq<FileDirItem>, showHidden: bool)
    requires |items| >= 1
    requires forall i :: 0 <= i < |items| ==> ';' !in items[i].path
    ensures CountCommand(items, showHidden) == JoinWith(CountBodies(items, showHidden), ';') + " | cat"
    ensures SplitOn(JoinWith(CountBodies(items, showHidden), ';'), ';') == CountBodies(items, showHidden)
  {
    var bs := CountBodies(items, showHidden);
    CountSegmentsTerminated(items, showHidden);
    CountBodyLast(items[|items| - 1], showHidden);
    JoinEndsWith(bs, ';');
    TrimEndOne(JoinWith(bs, ';'), ';');
    forall i | 0 <= i < |bs| ensures ';' !in bs[i] {
      CountBodyFree(items[i], showHidden);
    }
    SplitJoin(bs, ';');
  }

  lemma CountBodyLast(it: FileDirItem, showHidden: bool)
    ensures var b := CountBody(it, showHidden); |b| > 0 && b[|b| - 1] != ';'
  {
  }

  lemma CountBodyFree(it: FileDirItem, showHidden: bool)
    requires ';' !in it.path
    ensures ';' !in CountBody(it, showHidden)
  {
    if it.isDirectory {
      var b := CountBody(it, showHidden);
      assert b == ("ls " + HiddenArgument(showHidden)) + it.path + " |wc -l";
    }
  }

  /** Every count body ends in `l` or `0`, so the joined bodies never end in `;`. */
  lemma {:induction false} JoinEndsWith(bs: seq<string>, c: char)
    requires |bs| >= 1 && |bs[|bs| - 1]| > 0 && bs[|bs| - 1][|bs[|bs| - 1]| - 1] != c
    ensures |JoinWith(bs, c)| > 0 && JoinWith(bs, c)[|JoinWith(bs, c)| - 1] != c
  {
    if |bs| > 1 {
      JoinEndsWith(bs[1..], c);
    }
  }

  /** `childrenCount.areDigitsOnly()` then `children = toInt()`: entry `it`
      after reading its line of stage-2 output. Only the child count can
      change, and only for an all-digits line. */
  function WithCount(it: FileDirItem, line: string): (r: FileDirItem)
    ensures r.path == it.path && r.name == it.name && r.isDirectory == it.isDirectory && r.size == it.size
    ensures r.children == if AreDigitsOnly(line) then DigitsValue(line) else it.children
  {
    if AreDigitsOnly(line) then it.(children := DigitsValue(line)) else it
  }

  /** The `wc -l` line for `n` entries sets the child count to `n`. */
  lemma CountLineRoundTrip(it: FileDirItem, n: nat)
    ensures WithCount(it, NatToString(n)) == it.(children := n)
  {
    DigitsValueOfNatToString(n);
  }

  // ---------------------------------------------------------------------------
  // Sizes (stage 3)

  /** The per-entry size command, before its `;`: the placeholder `echo 0` for
      a directory, `stat -t <p>` for a file. */
  function SizeBody(it: FileDirItem): string {
    if it.isDirectory then "echo 0" else "stat -t " + it.path
  }

  function SizeBodies(items: seq<FileDirItem>): (r: seq<string>)
    ensures |r| == |items|
    ensures forall i :: 0 <= i < |items| ==> r[i] == SizeBody(items[i])
  {
    seq(|items|, i requires 0 <= i < |items| => SizeBody(items[i]))
  }

  /** The stage-3 command: every segment `;`-terminated, nothing trimmed. */
  function SizeCommand(items: seq<FileDirItem>): string {
    if |items| == 0 then "" else SizeBody(items[0]) + ";" + SizeCommand(items[1..])
  }

  /** Positional alignment of stage 3: the command is the per-entry commands
      joined by `;` plus a final `;`, one per entry in entry order. */
  lemma {:induction false} SizeCommandSegments(items: seq<FileDirItem>)
    requires |items| >= 1
    requires forall i :: 0 <= i < |items| ==> ';' !in items[i].path
    ensures SizeCommand(items) == JoinWith(SizeBodies(items), ';') + ";"
    ensures SplitOn(JoinWith(SizeBodies(items), ';'), ';') == SizeBodies(items)
  {
    var bs := SizeBodies(items);
    if |items| > 1 {
      SizeCommandSegments(items[1..]);
      assert SizeBodies(items[1..]) == bs[1..];
    }
    SplitJoin(bs, ';');
  }

  /** The byte count a `stat -t` line yields for `path`, if any: nothing for an
      empty line, the line `0`, or a line shorter than the path; otherwise the
      first space-separated token after the path, trimmed, when it is all digits. */
  function StatSize(path: string, line: string): Option<nat> {
    if line != "" && line != "0" && |line| >= |path| then
      var token := FirstPiece(TrimWhitespace(line[|path|..]), ' ');
      if AreDigitsOnly(token) then Some(DigitsValue(token)) else None
    else None
  }

  /** Entry `it` after reading its line of stage-3 output: only the size can
      change, and only when the line yields a byte count. */
  function WithSize(it: FileDirItem, line: string): (r: FileDirItem)
    ensures r.path == it.path && r.name == it.name && r.isDirectory == it.isDirectory && r.children == it.children
    ensures r.size == match StatSize(it.path, line) case Some(n) => n case None => it.size
    ensures line == "" || line == "0" || |line| < |it.path| ==> r == it
  {
    match StatSize(it.path, line)
    case Some(n) => it.(size := n)
    case None => it
  }

  /** `path size rest` with `rest` empty or starting with a space, as `stat -t`
      prints it, yields `size`. */
  lemma StatLineRoundTrip(path: string, n: nat, rest: string)
    requires rest == "" || rest[0] == ' '
    ensures StatSize(path, path + " " + NatToString(n) + rest) == Some(n)
  {
    var d := NatToString(n);
    var line := path + " " + d + rest;
    assert |line| > 1;
    assert line[|path|..] == " " + d + rest;
    assert IsDigit(d[0]) && IsDigit(d[|d| - 1]);
    StatTailTrimmed(d, rest);
    StatTokenIsDigits(d, TrimWhitespaceEnd(rest));
    DigitsValueOfNatToString(n);
  }

  /** Trimming what follows the path leaves the digits and the rest of the line. */
  lemma {:induction false} StatTailTrimmed(d: string, rest: string)
    requires |d| > 0 && !IsWhitespace(d[0]) && !IsWhitespace(d[|d| - 1])
    ensures TrimWhitespace(" " + d + rest) == d + TrimWhitespaceEnd(rest)
  {
    var a := " " + d;
    assert a[|a| - 1] == d[|d| - 1];
    TrimWhitespaceEndAfter(a, rest);
    var t := d + TrimWhitespaceEnd(rest);
    assert t[0] == d[0];
    assert a + TrimWhitespaceEnd(rest) == " " + t;
    TrimWhitespaceStartSpace(t);
  }

  /** The first space-separated token of the digits and what follows is the digits. */
  lemma StatTokenIsDigits(d: string, rest': string)
    requires AreDigitsOnly(d)
    requires rest' == "" || rest'[0] == ' '
    ensures FirstPiece(d + rest', ' ') == d
  {
    assert ' ' !in d;
    if rest' == "" {
      assert d + rest' == d;
      SplitWithout(d, ' ');
    } else {
      assert d + rest' == d + [' '] + rest'[1..];
      SplitAtFirst(d, rest'[1..], ' ');
    }
  }

  lemma {:induction false} TrimWhitespaceEndAfter(a: string, b: string)
    requires |a| > 0 && !IsWhitespace(a[|a| - 1])
    ensures TrimWhitespaceEnd(a + b) == a + TrimWhitespaceEnd(b)
  {
    if |b| > 0 {
      assert (a + b)[..|a + b| - 1] == a + b[..|b| - 1];
      TrimWhitespaceEndAfter(a, b[..|b| - 1]);
    } else {
      assert a + b == a;
    }
  }

  lemma TrimWhitespaceStartSpace(s: string)
    requires |s| > 0 && !IsWhitespace(s[0])
    ensures TrimWhitespaceStart(" " + s) == s
  {
    assert (" " + s)[1..] == s;
  }

  // ---------------------------------------------------------------------------
  // Creating, remounting and unmounting

  /** The command `createFileFolder` runs: `touch` or `mkdir` on the path with
      its `/`s trimmed at both ends, prefixed by one `/` and quoted. */
  function CreateCommand(path: string, isFile: bool): string {
    (if isFile then "touch" else "mkdir") + " \"/" + Trim(path, '/') + "\""
  }

  /** Leading and trailing slashes of the requested path make no difference. */
  lemma CreateCommandIgnoresOuterSlashes(path: string, isFile: bool)
    ensures CreateCommand("/" + path, isFile) == CreateCommand(path, isFile)
    ensures CreateCommand(path + "/", isFile) == CreateCommand(path, isFile)
  {
    TrimIgnoresLeading(path, '/');
    TrimIgnoresTrailing(path, '/');
  }

  lemma TrimIgnoresLeading(s: string, c: char)
    ensures Trim([c] + s, c) == Trim(s, c)
  {
    TrimEndPrepend(s, c);
    var t := TrimEnd(s, c);
    if t != "" {
      assert ([c] + t)[1..] == t;
    }
  }

  lemma TrimIgnoresTrailing(s: string, c: char)
    ensures Trim(s + [c], c) == Trim(s, c)
  {
    TrimEndAppended(s, c);
  }

  lemma TrimEndAppended(s: string, c: char)
    ensures TrimEnd(s + [c], c) == TrimEnd(s, c)
  {
    var sc := s + [c];
    assert sc[|sc| - 1] == c;
    assert sc[..|sc| - 1] == s;
  }

  lemma {:induction false} TrimEndPrepend(s: string, c: char)
    ensures TrimEnd([c] + s, c) == if TrimEnd(s, c) == "" then "" else [c] + TrimEnd(s, c)
  {
    if |s| > 0 && s[|s| - 1] == c {
      assert ([c] + s)[..|[c] + s| - 1] == [c] + s[..|s| - 1];
      TrimEndPrepend(s[..|s| - 1], c);
    } else if |s| == 0 {
    }
  }

  /** The first command of a privileged write: the mount table. */
  function MountCommand(): string {
    "mount"
  }

  /** `mount -o rw,remount <mp>`. */
  function RemountCommand(mountPoint: string): string {
    "mount -o rw,remount " + mountPoint
  }

  /** `umount -r "<mp>"`, issued by `mountAsRO`. */
  function UnmountCommand(mountPoint: string): string {
    "umount -r \"" + mountPoint + "\""
  }
}
