/** The `FileDirItem` record of the file-picker library: its natural order
    (directories first, then names compared ignoring case), its `toString`
    form, and the sort that `ItemsFragment.fillItems` applies with it. */
module Models {
  import opened Text

  /** One listed entry. `children` counts a directory's entries and `size` is a
      file's length in bytes; the root helper fills both in after listing. */
  datatype FileDirItem = FileDirItem(path: string, name: string, isDirectory: bool, children: int, size: int)

  // ---------------------------------------------------------------------------
  // compareTo

  /** `FileDirItem.compareTo`: a directory sorts before a file; two entries of
      the same kind compare by their lower-cased names. */
  function CompareTo(a: FileDirItem, b: FileDirItem): int {
    if a.isDirectory && !b.isDirectory then -1
    else if !a.isDirectory && b.isDirectory then 1
    else Compare(ToLower(a.name), ToLower(b.name))
  }

  /** A directory against a file gives -1, and the file against the directory 1. */
  lemma DirectoryBeforeFile(d: FileDirItem, f: FileDirItem)
    requires d.isDirectory && !f.isDirectory
    ensures CompareTo(d, f) == -1 && CompareTo(f, d) == 1
  {
  }

  /** Two entries of the same kind compare equal exactly when their names are
      equal ignoring case, and otherwise in the order of the lower-cased names. */
  lemma SameKindByName(a: FileDirItem, b: FileDirItem)
    requires a.isDirectory == b.isDirectory
    ensures CompareTo(a, b) == 0 <==> ToLower(a.name) == ToLower(b.name)
    ensures CompareTo(a, b) < 0 <==> Compare(ToLower(a.name), ToLower(b.name)) < 0
  {
    CompareZeroIffEqual(ToLower(a.name), ToLower(b.name));
  }

  /** Swapping the arguments negates the result. */
  lemma CompareToAntisymmetric(a: FileDirItem, b: FileDirItem)
    ensures CompareTo(a, b) == -CompareTo(b, a)
  {
    CompareAntisymmetric(ToLower(a.name), ToLower(b.name));
  }

  /** "Sorts strictly before" is transitive. */
  lemma CompareToTransitive(a: FileDirItem, b: FileDirItem, c: FileDirItem)
    requires CompareTo(a, b) < 0 && CompareTo(b, c) < 0
    ensures CompareTo(a, c) < 0
  {
    if a.isDirectory == b.isDirectory == c.isDirectory {
      CompareTransitive(ToLower(a.name), ToLower(b.name), ToLower(c.name));
    }
  }

  /** Entries that compare equal are interchangeable on either side. */
  lemma CompareToZeroSubstitutes(a: FileDirItem, b: FileDirItem, c: FileDirItem)
    requires CompareTo(a, b) == 0
    ensures CompareTo(a, c) == CompareTo(b, c) && CompareTo(c, a) == CompareTo(c, b)
  {
    CompareZeroIffEqual(ToLower(a.name), ToLower(b.name));
  }

  /** `a` may stand before `b` in a sorted list. */
  predicate NotAfter(a: FileDirItem, b: FileDirItem) {
    CompareTo(a, b) <= 0
  }

  /** Every two entries can be ordered one way or the other. */
  lemma NotAfterTotal(a: FileDirItem, b: FileDirItem)
    ensures NotAfter(a, b) || NotAfter(b, a)
  {
    CompareToAntisymmetric(a, b);
  }

  lemma NotAfterTransitive(a: FileDirItem, b: FileDirItem, c: FileDirItem)
    requires NotAfter(a, b) && NotAfter(b, c)
    ensures NotAfter(a, c)
  {
    if CompareTo(a, b) == 0 {
      CompareToZeroSubstitutes(a, b, c);
    } else if CompareTo(b, c) == 0 {
      CompareToZeroSubstitutes(b, c, a);
    } else {
      CompareToTransitive(a, b, c);
    }
  }

  // ---------------------------------------------------------------------------
  // Sorting (`Collections.sort` with the natural order)

  predicate Sorted(xs: seq<FileDirItem>) {
    forall i, j :: 0 <= i < j < |xs| ==> NotAfter(xs[i], xs[j])
  }

  /** Places `x` after every entry of `s` that is not after it. */
  function Insert(x: FileDirItem, s: seq<FileDirItem>): (r: seq<FileDirItem>)
    ensures multiset(r) == multiset(s) + multiset{x}
  {
    if |s| == 0 then [x]
    else if CompareTo(x, s[0]) < 0 then [x] + s
    else
      assert s == [s[0]] + s[1..];
      [s[0]] + Insert(x, s[1..])
  }

  /** A stable insertion sort: each entry, taken in list order, is placed
      after the entries already placed that are not after it. */
  function SortItems(xs: seq<FileDirItem>): (r: seq<FileDirItem>)
    ensures multiset(r) == multiset(xs)
  {
    if |xs| == 0 then []
    else
      assert xs == xs[..|xs| - 1] + [xs[|xs| - 1]];
      Insert(xs[|xs| - 1], SortItems(xs[..|xs| - 1]))
  }

  lemma {:induction false} InsertSorted(x: FileDirItem, s: seq<FileDirItem>)
    requires Sorted(s)
    ensures Sorted(Insert(x, s))
  {
    var r := Insert(x, s);
    if |s| == 0 {
    } else if CompareTo(x, s[0]) < 0 {
      forall j | 0 < j < |s| ensures NotAfter(x, s[j]) {
        NotAfterTransitive(x, s[0], s[j]);
      }
    } else {
      CompareToAntisymmetric(x, s[0]);
      InsertSorted(x, s[1..]);
      var t := Insert(x, s[1..]);
      assert r == [s[0]] + t;
      forall j | 0 <= j < |t| ensures NotAfter(s[0], t[j]) {
        assert t[j] in multiset(t);
        if t[j] != x {
          assert t[j] in multiset(s[1..]);
          var k :| 0 <= k < |s[1..]| && s[1..][k] == t[j];
          assert s[k + 1] == t[j];
        }
      }
    }
  }

  /** Sorting yields a sorted permutation of its input. */
  lemma {:induction false} SortItemsSorted(xs: seq<FileDirItem>)
    ensures Sorted(SortItems(xs))
    ensures multiset(SortItems(xs)) == multiset(xs)
  {
    if |xs| > 0 {
      SortItemsSorted(xs[..|xs| - 1]);
      InsertSorted(xs[|xs| - 1], SortItems(xs[..|xs| - 1]));
    }
  }

  // ---------------------------------------------------------------------------
  // Stability

  /** The entries of `s` that compare equal to `x`, in list order. */
  function EquivalentRun(s: seq<FileDirItem>, x: FileDirItem): seq<FileDirItem> {
    if |s| == 0 then []
    else (if CompareTo(s[0], x) == 0 then [s[0]] else []) + EquivalentRun(s[1..], x)
  }

  lemma {:induction false} EquivalentRunAppend(a: seq<FileDirItem>, b: seq<FileDirItem>, x: FileDirItem)
    ensures EquivalentRun(a + b, x) == EquivalentRun(a, x) + EquivalentRun(b, x)
  {
    if |a| > 0 {
      assert (a + b)[1..] == a[1..] + b;
      EquivalentRunAppend(a[1..], b, x);
      AppendAssoc(if CompareTo(a[0], x) == 0 then [a[0]] else [], EquivalentRun(a[1..], x), EquivalentRun(b, x));
    } else {
      assert a + b == b;
    }
  }

  /** An entry that sorts strictly before every entry of `s` has no
      equivalent in `s`, and neither has anything equivalent to it. */
  lemma {:induction false} EquivalentRunNone(s: seq<FileDirItem>, y: FileDirItem, x: FileDirItem)
    requires forall k :: 0 <= k < |s| ==> CompareTo(y, s[k]) < 0
    requires CompareTo(y, x) == 0
    ensures EquivalentRun(s, x) == []
  {
    if |s| > 0 {
      CompareToZeroSubstitutes(y, x, s[0]);
      CompareToAntisymmetric(x, s[0]);
      EquivalentRunNone(s[1..], y, x);
    }
  }

  /** An entry strictly before the head of a sorted list is strictly before
      all of it. */
  lemma BeforeHeadBeforeAll(y: FileDirItem, s: seq<FileDirItem>, k: int)
    requires Sorted(s) && 0 <= k < |s| && CompareTo(y, s[0]) < 0
    ensures CompareTo(y, s[k]) < 0
  {
    if k > 0 {
      assert NotAfter(s[0], s[k]);
      if CompareTo(s[0], s[k]) == 0 {
        CompareToZeroSubstitutes(s[0], s[k], y);
      } else {
        CompareToTransitive(y, s[0], s[k]);
      }
    }
  }

  /** Inserting at the front: an entry equivalent to `x` at the front means
      nothing in the list is equivalent to `x`. */
  lemma InsertFrontStable(y: FileDirItem, s: seq<FileDirItem>, x: FileDirItem)
    requires Sorted(s) && |s| > 0 && CompareTo(y, s[0]) < 0
    ensures EquivalentRun([y] + s, x) == EquivalentRun(s, x) + EquivalentRun([y], x)
  {
    EquivalentRunAppend([y], s, x);
    if CompareTo(y, x) == 0 {
      forall k | 0 <= k < |s| ensures CompareTo(y, s[k]) < 0 {
        BeforeHeadBeforeAll(y, s, k);
      }
      EquivalentRunNone(s, y, x);
    } else {
      assert EquivalentRun([y], x) == [];
    }
  }

  /** Inserting `y` into a sorted list puts it after every entry it compares
      equal to. */
  lemma {:induction false} InsertStable(y: FileDirItem, s: seq<FileDirItem>, x: FileDirItem)
    requires Sorted(s)
    ensures EquivalentRun(Insert(y, s), x) == EquivalentRun(s, x) + EquivalentRun([y], x)
  {
    if |s| == 0 {
      assert Insert(y, s) == [y];
    } else if CompareTo(y, s[0]) < 0 {
      assert Insert(y, s) == [y] + s;
      InsertFrontStable(y, s, x);
    } else {
      var t := s[1..];
      assert Insert(y, s) == [s[0]] + Insert(y, t);
      InsertStable(y, t, x);
      assert s == [s[0]] + t;
      EquivalentRunAppend([s[0]], t, x);
      EquivalentRunAppend([s[0]], Insert(y, t), x);
      AppendAssoc(EquivalentRun([s[0]], x), EquivalentRun(t, x), EquivalentRun([y], x));
    }
  }

  /** The sort is stable: for every entry `x`, the entries that compare equal
      to `x` come out in the order they went in. */
  lemma {:induction false} SortItemsStable(xs: seq<FileDirItem>, x: FileDirItem)
    ensures EquivalentRun(SortItems(xs), x) == EquivalentRun(xs, x)
  {
    if |xs| > 0 {
      var init, last := xs[..|xs| - 1], xs[|xs| - 1];
      assert SortItems(xs) == Insert(last, SortItems(init));
      SortItemsStable(init, x);
      SortItemsSorted(init);
      InsertStable(last, SortItems(init), x);
      InitLast(xs);
      EquivalentRunAppend(init, [last], x);
    }
  }

  /** In a sorted list every directory comes before every file, and entries of
      the same kind are in case-insensitive name order. */
  lemma SortedGroups(xs: seq<FileDirItem>, i: int, j: int)
    requires Sorted(xs) && 0 <= i < j < |xs|
    ensures xs[j].isDirectory ==> xs[i].isDirectory
    ensures xs[i].isDirectory == xs[j].isDirectory ==>
              Compare(ToLower(xs[i].name), ToLower(xs[j].name)) <= 0
  {
    assert NotAfter(xs[i], xs[j]);
  }

  // ---------------------------------------------------------------------------
  // toString

  /** `FileDirItem.toString`: the fixed template over all five fields. */
  function ToString(it: FileDirItem): string {
    IdentityPart(it) + CountersPart(it.children, it.size)
  }

  /** The template up to and including `children=`. */
  function IdentityPart(it: FileDirItem): string {
    "FileDirItem{name=" + it.name + ", isDirectory=" + BoolToString(it.isDirectory)
    + ", path=" + it.path + ", children="
  }

  /** The rest of the template, from the child count on. */
  function CountersPart(children: int, size: int): string {
    IntToString(children) + ", size=" + IntToString(size) + "}"
  }

  /** `List.toString`: the elements' strings between brackets, separated by ", ". */
  function ListToString(xs: seq<FileDirItem>): string {
    "[" + JoinItems(xs) + "]"
  }

  function JoinItems(xs: seq<FileDirItem>): string {
    if |xs| == 0 then ""
    else if |xs| == 1 then ToString(xs[0])
    else ToString(xs[0]) + ", " + JoinItems(xs[1..])
  }

  /** The text after `children=` determines both counters. */
  lemma CountersPartInjective(c1: int, s1: int, c2: int, s2: int)
    requires CountersPart(c1, s1) == CountersPart(c2, s2)
    ensures c1 == c2 && s1 == s2
  {
    var x1, x2 := IntToString(c1), IntToString(c2);
    var y1, y2 := IntToString(s1), IntToString(s2);
    var sep, close := ", size=", "}";
    var r1, r2 := sep + y1 + close, sep + y2 + close;
    AppendAssoc(x1 + sep, y1, close);
    AppendAssoc(x1, sep, y1 + close);
    AppendAssoc(sep, y1, close);
    AppendAssoc(x2 + sep, y2, close);
    AppendAssoc(x2, sep, y2 + close);
    AppendAssoc(sep, y2, close);
    assert x1 + r1 == x2 + r2;
    if |x1| < |x2| {
      assert (x1 + r1)[|x1|] == ',';
      IntToStringChars(c2, |x1|);
      assert false;
    } else if |x2| < |x1| {
      assert (x2 + r2)[|x2|] == ',';
      IntToStringChars(c1, |x2|);
      assert false;
    }
    SameSplit(x1, r1, x2, r2);
    IntToStringInjective(c1, c2);
    SameSplit(sep, y1 + close, sep, y2 + close);
    SameSplit(y1, close, y2, close);
    IntToStringInjective(s1, s2);
  }

  /** Two entries with the same path, name and kind have the same string form
      exactly when their child counts and sizes agree too; so a refresh that
      only changes a count or a size is never taken for "no change". */
  lemma ToStringDistinguishesCounters(a: FileDirItem, b: FileDirItem)
    requires a.path == b.path && a.name == b.name && a.isDirectory == b.isDirectory
    ensures ToString(a) == ToString(b) <==> a == b
  {
    if ToString(a) == ToString(b) {
      var p := IdentityPart(a);
      assert p == IdentityPart(b);
      var ta, tb := CountersPart(a.children, a.size), CountersPart(b.children, b.size);
      assert ta == (p + ta)[|p|..] && tb == (p + tb)[|p|..];
      CountersPartInjective(a.children, a.size, b.children, b.size);
    }
  }
}
