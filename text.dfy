/** String helpers shared by the model: the Kotlin/Java string operations the
    file manager relies on (`areDigitsOnly`, `toInt`, `compareTo`, `trim`,
    `trimEnd`, `split`, `contains`, `lowercase`), written out over `seq<char>`. */
module Text {

  datatype Option<+T> = None | Some(value: T)

  // ---------------------------------------------------------------------------
  // Digits and numbers

  predicate IsDigit(c: char) {
    '0' <= c <= '9'
  }

  /** `areDigitsOnly` of the commons library: a non-empty run of ASCII digits. */
  predicate AreDigitsOnly(s: string) {
    |s| > 0 && forall i :: 0 <= i < |s| ==> IsDigit(s[i])
  }

  /** The value of a string of decimal digits (`toInt` / `toLong`, unbounded). */
  function DigitsValue(s: string): nat
    requires forall i :: 0 <= i < |s| ==> IsDigit(s[i])
  {
    if |s| == 0 then 0
    else
      assert IsDigit(s[|s| - 1]);
      10 * DigitsValue(s[..|s| - 1]) + (s[|s| - 1] as int - '0' as int)
  }

  function DigitChar(d: nat): (c: char)
    requires d < 10
    ensures IsDigit(c) && c as int - '0' as int == d
  {
    ('0' as int + d) as char
  }

  /** Decimal rendering of a natural number, without leading zeros. */
  function NatToString(n: nat): (s: string)
    ensures AreDigitsOnly(s)
    ensures (n < 10) == (|s| == 1)
  {
    if n < 10 then [DigitChar(n)] else NatToString(n / 10) + [DigitChar(n % 10)]
  }

  /** `Int.toString()` / `Long.toString()`: a minus sign for negative values. */
  function IntToString(i: int): string {
    if i < 0 then "-" + NatToString(-i) else NatToString(i)
  }

  function BoolToString(b: bool): string {
    if b then "true" else "false"
  }

  /** Parsing a rendered number gives the number back. */
  lemma {:induction false} DigitsValueOfNatToString(n: nat)
    ensures DigitsValue(NatToString(n)) == n
  {
    if n >= 10 {
      var s := NatToString(n);
      assert s[..|s| - 1] == NatToString(n / 10);
      DigitsValueOfNatToString(n / 10);
    }
  }

  /** Different numbers render differently. */
  lemma NatToStringInjective(m: nat, n: nat)
    requires NatToString(m) == NatToString(n)
    ensures m == n
  {
    DigitsValueOfNatToString(m);
    DigitsValueOfNatToString(n);
  }

  lemma IntToStringInjective(i: int, j: int)
    requires IntToString(i) == IntToString(j)
    ensures i == j
  {
    var si, sj := IntToString(i), IntToString(j);
    assert (i < 0) == (si[0] == '-') && (j < 0) == (sj[0] == '-') by {
      assert AreDigitsOnly(NatToString(if i < 0 then -i else i));
      assert AreDigitsOnly(NatToString(if j < 0 then -j else j));
    }
    if i < 0 {
      assert si[1..] == NatToString(-i) && sj[1..] == NatToString(-j);
      NatToStringInjective(-i, -j);
    } else {
      NatToStringInjective(i, j);
    }
  }

  /** No rendered integer contains a comma, a brace or a space. */
  lemma IntToStringChars(i: int, k: nat)
    requires k < |IntToString(i)|
    ensures IntToString(i)[k] == '-' || IsDigit(IntToString(i)[k])
  {
    if i < 0 {
      assert AreDigitsOnly(NatToString(-i));
      if k > 0 { assert IntToString(i)[k] == NatToString(-i)[k - 1]; }
    }
  }

  // ---------------------------------------------------------------------------
  // Case and comparison

  /** ASCII lower-casing of one character. */
  function ToLowerChar(c: char): char {
    if 'A' <= c <= 'Z' then (c as int + 32) as char else c
  }

  /** `toLowerCase()`, restricted to ASCII letters. */
  function ToLower(s: string): (r: string)
    ensures |r| == |s|
    ensures forall i :: 0 <= i < |s| ==> r[i] == ToLowerChar(s[i])
  {
    if |s| == 0 then "" else [ToLowerChar(s[0])] + ToLower(s[1..])
  }

  /** `String.compareTo` of the JVM: the difference of the first differing
      characters, or the difference of the lengths when one is a prefix. */
  function Compare(a: string, b: string): int {
    if |a| == 0 || |b| == 0 then |a| - |b|
    else if a[0] != b[0] then a[0] as int - b[0] as int
    else Compare(a[1..], b[1..])
  }

  lemma {:induction false} CompareAntisymmetric(a: string, b: string)
    ensures Compare(a, b) == -Compare(b, a)
  {
    if |a| > 0 && |b| > 0 && a[0] == b[0] {
      CompareAntisymmetric(a[1..], b[1..]);
    }
  }

  lemma {:induction false} CompareZeroIffEqual(a: string, b: string)
    ensures Compare(a, b) == 0 <==> a == b
  {
    if |a| > 0 && |b| > 0 && a[0] == b[0] {
      CompareZeroIffEqual(a[1..], b[1..]);
      assert a == [a[0]] + a[1..] && b == [b[0]] + b[1..];
    }
  }

  lemma {:induction false} CompareTransitive(a: string, b: string, c: string)
    requires Compare(a, b) < 0 && Compare(b, c) < 0
    ensures Compare(a, c) < 0
  {
    if |a| > 0 && |b| > 0 && |c| > 0 && a[0] == b[0] && b[0] == c[0] {
      CompareTransitive(a[1..], b[1..], c[1..]);
    }
  }

  // ---------------------------------------------------------------------------
  // Searching

  /** `String.contains`: `t` occurs somewhere inside `s`. */
  predicate Contains(s: string, t: string)
    decreases |s|
  {
    t <= s || (|s| > 0 && Contains(s[1..], t))
  }

  /** `t` occurs in `s` starting at index `i`. */
  predicate OccursAt(s: string, t: string, i: int) {
    0 <= i <= |s| - |t| && s[i..i + |t|] == t
  }

  /** `Contains` agrees with the direct definition by an occurrence index. */
  lemma {:induction false} ContainsIff(s: string, t: string)
    ensures Contains(s, t) <==> exists i :: OccursAt(s, t, i)
  {
    if t <= s {
      assert OccursAt(s, t, 0);
    } else if |s| == 0 {
    } else {
      ContainsIff(s[1..], t);
      if Contains(s[1..], t) {
        var i :| OccursAt(s[1..], t, i);
        assert OccursAt(s, t, i + 1);
      }
      if exists i :: OccursAt(s, t, i) {
        var i :| OccursAt(s, t, i);
        assert i != 0;
        assert OccursAt(s[1..], t, i - 1);
      }
    }
  }

  /** A string contains each of its prefixes. */
  lemma ContainsWhole(s: string, t: string)
    requires t <= s
    ensures Contains(s, t)
  {
  }

  /** Index of the first occurrence of `c`, or -1 as `indexOf` returns. */
  function IndexOf(s: string, c: char): (r: int)
    ensures -1 <= r < |s|
    ensures r == -1 <==> c !in s
    ensures r >= 0 ==> s[r] == c && c !in s[..r]
  {
    if |s| == 0 then -1
    else if s[0] == c then 0
    else var k := IndexOf(s[1..], c); if k == -1 then -1 else k + 1
  }

  /** Index of the last occurrence of `c`, or -1. */
  function LastIndexOf(s: string, c: char): (r: int)
    ensures -1 <= r < |s|
    ensures r == -1 <==> c !in s
    ensures r >= 0 ==> s[r] == c && c !in s[r + 1..]
  {
    if |s| == 0 then -1
    else if s[|s| - 1] == c then |s| - 1
    else LastIndexOf(s[..|s| - 1], c)
  }

  // ---------------------------------------------------------------------------
  // Trimming

  /** `trimEnd(c)`: drop every trailing `c`. */
  function TrimEnd(s: string, c: char): (r: string)
    ensures r <= s
    ensures |r| == 0 || r[|r| - 1] != c
    ensures forall i :: |r| <= i < |s| ==> s[i] == c
  {
    if |s| > 0 && s[|s| - 1] == c then TrimEnd(s[..|s| - 1], c) else s
  }

  /** `trimStart(c)`: drop every leading `c`. */
  function TrimStart(s: string, c: char): (r: string)
    ensures |r| <= |s| && r == s[|s| - |r|..]
    ensures |r| == 0 || r[0] != c
    ensures forall i :: 0 <= i < |s| - |r| ==> s[i] == c
  {
    if |s| > 0 && s[0] == c then TrimStart(s[1..], c) else s
  }

  /** `trim(c)`: drop `c` at both ends. */
  function Trim(s: string, c: char): string {
    TrimStart(TrimEnd(s, c), c)
  }

  /** `Char.isWhitespace`, restricted to the ASCII whitespace characters. */
  predicate IsWhitespace(c: char) {
    c == ' ' || c == '\t' || c == '\n' || c == '\r' || c == '\U{B}' || c == '\U{C}'
  }

  function TrimWhitespaceEnd(s: string): (r: string)
    ensures r <= s
    ensures |r| == 0 || !IsWhitespace(r[|r| - 1])
  {
    if |s| > 0 && IsWhitespace(s[|s| - 1]) then TrimWhitespaceEnd(s[..|s| - 1]) else s
  }

  function TrimWhitespaceStart(s: string): (r: string)
    ensures |r| <= |s| && r == s[|s| - |r|..]
    ensures |r| == 0 || !IsWhitespace(r[0])
  {
    if |s| > 0 && IsWhitespace(s[0]) then TrimWhitespaceStart(s[1..]) else s
  }

  /** `trim()`: drop whitespace at both ends. */
  function TrimWhitespace(s: string): string {
    TrimWhitespaceStart(TrimWhitespaceEnd(s))
  }

  // ---------------------------------------------------------------------------
  // Splitting and joining

  /** `split(c)`: the pieces between occurrences of `c`; `n` separators give
      `n + 1` pieces, empty ones included. */
  function SplitOn(s: string, c: char): (r: seq<string>)
    ensures |r| >= 1
    decreases |s|
  {
    if |s| == 0 then [""]
    else
      var rest := SplitOn(s[1..], c);
      if s[0] == c then [""] + rest else [[s[0]] + rest[0]] + rest[1..]
  }

  /** The text before the first `c` (piece 0 of `split(c)`). */
  function FirstPiece(s: string, c: char): string {
    SplitOn(s, c)[0]
  }

  /** The pieces of `split(" ")` that are not empty. */
  function Words(s: string): (r: seq<string>)
    ensures forall i :: 0 <= i < |r| ==> r[i] != ""
  {
    NonEmpty(SplitOn(s, ' '))
  }

  function NonEmpty(ss: seq<string>): (r: seq<string>)
    ensures forall i :: 0 <= i < |r| ==> r[i] != ""
  {
    if |ss| == 0 then []
    else if ss[0] == "" then NonEmpty(ss[1..])
    else [ss[0]] + NonEmpty(ss[1..])
  }

  /** Plain concatenation of the pieces. */
  function Concat(ss: seq<string>): string {
    if |ss| == 0 then "" else ss[0] + Concat(ss[1..])
  }

  /** The pieces with `c` between consecutive ones. */
  function JoinWith(ss: seq<string>, c: char): string
    requires |ss| >= 1
  {
    if |ss| == 1 then ss[0] else ss[0] + [c] + JoinWith(ss[1..], c)
  }

  lemma {:induction false} SplitWithout(a: string, c: char)
    requires c !in a
    ensures SplitOn(a, c) == [a]
  {
    if |a| > 0 {
      SplitWithout(a[1..], c);
      assert a == [a[0]] + a[1..];
    }
  }

  lemma {:induction false} SplitAtFirst(a: string, b: string, c: char)
    requires c !in a
    ensures SplitOn(a + [c] + b, c) == [a] + SplitOn(b, c)
  {
    var s := a + [c] + b;
    if |a| == 0 {
      assert s[1..] == b;
    } else {
      assert s[1..] == a[1..] + [c] + b;
      SplitAtFirst(a[1..], b, c);
      assert [s[0]] + a[1..] == a;
    }
  }

  /** Splitting undoes joining when no piece holds the separator. */
  lemma {:induction false} SplitJoin(ss: seq<string>, c: char)
    requires |ss| >= 1
    requires forall i :: 0 <= i < |ss| ==> c !in ss[i]
    ensures SplitOn(JoinWith(ss, c), c) == ss
  {
    if |ss| == 1 {
      SplitWithout(ss[0], c);
    } else {
      SplitJoin(ss[1..], c);
      SplitAtFirst(ss[0], JoinWith(ss[1..], c), c);
      assert [ss[0]] + ss[1..] == ss;
    }
  }

  /** Concatenating pieces that each end in `c` is joining them with `c`,
      followed by one `c`. */
  lemma {:induction false} ConcatTerminated(ss: seq<string>, c: char)
    requires |ss| >= 1
    ensures Concat(seq(|ss|, i requires 0 <= i < |ss| => ss[i] + [c])) == JoinWith(ss, c) + [c]
  {
    var ts := seq(|ss|, i requires 0 <= i < |ss| => ss[i] + [c]);
    if |ss| > 1 {
      ConcatTerminated(ss[1..], c);
      assert ts[1..] == seq(|ss[1..]|, i requires 0 <= i < |ss[1..]| => ss[1..][i] + [c]);
    }
  }

  /** `trimEnd(c)` on a string ending in one `c` after a character that is not
      `c` removes exactly that one. */
  lemma TrimEndOne(s: string, c: char)
    requires |s| > 0 && s[|s| - 1] != c
    ensures TrimEnd(s + [c], c) == s
  {
    assert (s + [c])[..|s|] == s;
  }

  /** Concatenation regroups; stated once over any element type, so that
      callers with sequences of strings are spared element-wise reasoning. */
  lemma AppendAssoc<X>(a: seq<X>, b: seq<X>, c: seq<X>)
    ensures (a + b) + c == a + (b + c)
  {
  }

  /** Dropping a prefix's length leaves what followed it. */
  lemma DropPrefix<X>(a: seq<X>, b: seq<X>)
    ensures (a + b)[|a|..] == b
  {
  }

  /** Dropping in two steps drops the sum. */
  lemma DropTwice<X>(s: seq<X>, m: nat, n: nat)
    requires m + n <= |s|
    ensures s[m..][n..] == s[m + n..]
  {
  }

  /** Two concatenations that agree, with first parts of the same length,
      agree part by part. */
  lemma SameSplit<X>(a: seq<X>, b: seq<X>, c: seq<X>, d: seq<X>)
    requires a + b == c + d && |a| == |c|
    ensures a == c && b == d
  {
    assert a == (a + b)[..|a|] && c == (c + d)[..|c|];
    assert b == (a + b)[|a|..] && d == (c + d)[|c|..];
  }

  /** A slice of the second part, seen through the concatenation. */
  lemma SliceAfterPrefix<X>(a: seq<X>, b: seq<X>, lo: nat, hi: nat)
    requires lo <= hi <= |b|
    ensures (a + b)[|a| + lo..|a| + hi] == b[lo..hi]
  {
  }

  lemma InitLast<X>(s: seq<X>)
    requires |s| > 0
    ensures s == s[..|s| - 1] + [s[|s| - 1]]
  {
  }
}
