/**
  The pieces of Python 2's `str` that the deployment helpers rely on, over
  `seq<char>`: whitespace and character stripping, `in`, `startswith`,
  `count`, `split`, `join` and an ASCII `lower`. Scans walk an index over
  the string, one character at a time.
*/
module PyStr {

  /** Python 2 `str.isspace` for one character: space, tab, LF, VT, FF, CR. */
  predicate IsSpace(c: char) {
    c == ' ' || c == '\t' || c == '\n' || c == '\r' || c == '\U{B}' || c == '\U{C}'
  }

  /** No whitespace at either end: what `strip()` leaves. */
  predicate Trimmed(s: string) {
    s == [] || (!IsSpace(s[0]) && !IsSpace(s[|s| - 1]))
  }

  /** The end of the run of whitespace that starts at `i`. */
  function SpaceEnd(s: string, i: nat): (j: nat)
    requires i <= |s|
    ensures i <= j <= |s|
    ensures j == |s| || !IsSpace(s[j])
    decreases |s| - i
  {
    if i < |s| && IsSpace(s[i]) then SpaceEnd(s, i + 1) else i
  }

  /** The start of the run of whitespace that ends at `j`. */
  function SpaceStart(s: string, j: nat): (i: nat)
    requires j <= |s|
    ensures i <= j
    ensures i == 0 || !IsSpace(s[i - 1])
  {
    if j > 0 && IsSpace(s[j - 1]) then SpaceStart(s, j - 1) else j
  }

  /** The end of the run of `c` that starts at `i`. */
  function CharEnd(s: string, c: char, i: nat): (j: nat)
    requires i <= |s|
    ensures i <= j <= |s|
    ensures j == |s| || s[j] != c
    decreases |s| - i
  {
    if i < |s| && s[i] == c then CharEnd(s, c, i + 1) else i
  }

  /** The start of the run of `c` that ends at `j`. */
  function CharStart(s: string, c: char, j: nat): (i: nat)
    requires j <= |s|
    ensures i <= j
    ensures i == 0 || s[i - 1] != c
  {
    if j > 0 && s[j - 1] == c then CharStart(s, c, j - 1) else j
  }

  /** `s.lstrip()`. */
  function LStrip(s: string): (r: string)
    ensures |r| <= |s|
    ensures r == [] || !IsSpace(r[0])
  {
    s[SpaceEnd(s, 0)..]
  }

  /** `s.rstrip()`. */
  function RStrip(s: string): (r: string)
    ensures |r| <= |s|
    ensures r == [] || !IsSpace(r[|r| - 1])
  {
    s[..SpaceStart(s, |s|)]
  }

  /** `s.strip()`. */
  function Strip(s: string): (r: string)
    ensures |r| <= |s|
    ensures Trimmed(r)
  {
    var t := RStrip(s);
    var r := LStrip(t);
    assert r != [] ==> r[|r| - 1] == t[|t| - 1];
    r
  }

  /** `s.lstrip(c)` for a single character `c`. */
  function LStripChar(s: string, c: char): (r: string)
    ensures |r| <= |s|
    ensures r == [] || r[0] != c
  {
    s[CharEnd(s, c, 0)..]
  }

  /** `s.rstrip(c)` for a single character `c`. */
  function RStripChar(s: string, c: char): (r: string)
    ensures |r| <= |s|
    ensures r == [] || r[|r| - 1] != c
  {
    s[..CharStart(s, c, |s|)]
  }

  /** `s.strip(c)` for a single character `c`. */
  function StripChar(s: string, c: char): (r: string)
    ensures |r| <= |s|
    ensures r == [] || (r[0] != c && r[|r| - 1] != c)
  {
    var t := RStripChar(s, c);
    var r := LStripChar(t, c);
    assert r != [] ==> r[|r| - 1] == t[|t| - 1];
    r
  }

  /** `t` occurs in `s` starting at position `i`. */
  predicate OccursAt(t: string, s: string, i: nat) {
    i + |t| <= |s| && s[i..i + |t|] == t
  }

  /** Python's `t in s` for strings. */
  predicate IsSubstring(t: string, s: string) {
    exists i: nat | i <= |s| :: OccursAt(t, s, i)
  }

  /** `s.startswith(p)`. */
  predicate StartsWith(s: string, p: string) {
    |p| <= |s| && s[..|p|] == p
  }

  /** `s.endswith(p)`. */
  predicate EndsWith(s: string, p: string) {
    |p| <= |s| && s[|s| - |p|..] == p
  }

  /** The number of `c` in `s[i..]`. */
  function CountFrom(s: string, c: char, i: nat): (n: nat)
    requires i <= |s|
    ensures n <= |s| - i
    decreases |s| - i
  {
    if i == |s| then 0 else (if s[i] == c then 1 else 0) + CountFrom(s, c, i + 1)
  }

  /** `s.count(c)` for a single character `c`. */
  function Count(s: string, c: char): (n: nat)
    ensures n <= |s|
  {
    CountFrom(s, c, 0)
  }

  /** The position of the first `c` at or after `i`, or `|s|` when there is none. */
  function FindFrom(s: string, c: char, i: nat): (j: nat)
    requires i <= |s|
    ensures i <= j <= |s|
    ensures j < |s| ==> s[j] == c
    decreases |s| - i
  {
    if i == |s| || s[i] == c then i else FindFrom(s, c, i + 1)
  }

  /** `s.find(c)`, except that a missing `c` gives `|s|` rather than -1. */
  function FirstIndex(s: string, c: char): (i: nat)
    ensures i <= |s|
    ensures i < |s| ==> s[i] == c
  {
    FindFrom(s, c, 0)
  }

  /** Python's `c in s` for a one-character `c`, by search. */
  predicate HasChar(s: string, c: char) {
    FirstIndex(s, c) < |s|
  }

  /** `s.split(c, 1)`: the text before and after the first `c`, or `s` alone. */
  function SplitOnce(s: string, c: char): (parts: seq<string>)
    ensures |parts| == if HasChar(s, c) then 2 else 1
  {
    var i := FirstIndex(s, c);
    if i == |s| then [s] else [s[..i], s[i + 1..]]
  }

  /** `s.split(c)` for a single-character separator `c`. */
  function Split(s: string, c: char): (parts: seq<string>)
    ensures |parts| >= 1
    decreases |s|
  {
    var i := FirstIndex(s, c);
    if i == |s| then [s] else [s[..i]] + Split(s[i + 1..], c)
  }

  /** `c.join(parts)`. */
  function Join(c: char, parts: seq<string>): string {
    if |parts| == 0 then []
    else if |parts| == 1 then parts[0]
    else parts[0] + [c] + Join(c, parts[1..])
  }

  /** `str(n)` of a non-negative integer: its decimal digits, most significant first. */
  function Decimal(n: nat): string {
    if n < 10 then ["0123456789"[n]] else Decimal(n / 10) + ["0123456789"[n % 10]]
  }

  /** `s.lower()` on ASCII: only 'A'..'Z' change. */
  function LowerChar(c: char): char {
    if 'A' <= c <= 'Z' then (c as int + 32) as char else c
  }

  function Lower(s: string): (r: string)
    ensures |r| == |s|
    ensures forall i :: 0 <= i < |s| ==> r[i] == LowerChar(s[i])
  {
    seq(|s|, i requires 0 <= i < |s| => LowerChar(s[i]))
  }

  // Searching and counting.

  /** Nothing before the position `FindFrom` returns is `c`. */
  lemma {:induction false} FindFromSkips(s: string, c: char, i: nat, k: nat)
    requires i <= k <= |s|
    requires k < FindFrom(s, c, i)
    ensures s[k] != c
    decreases |s| - i
  {
    if k > i {
      FindFromSkips(s, c, i + 1, k);
    }
  }

  /** `FirstIndex` finds the first `c`, and finds one exactly when `c` occurs. */
  lemma FirstIndexFirst(s: string, c: char)
    ensures c !in s[..FirstIndex(s, c)]
    ensures FirstIndex(s, c) < |s| <==> c in s
  {
    var i := FirstIndex(s, c);
    forall k | 0 <= k < i ensures s[k] != c {
      FindFromSkips(s, c, 0, k);
    }
    assert forall k :: 0 <= k < i ==> s[..i][k] == s[k];
  }

  /** The first `c` in `a + [c] + b`, where `a` has none, is right after `a`. */
  lemma FirstIndexAfter(a: string, c: char, b: string)
    requires c !in a
    ensures FirstIndex(a + [c] + b, c) == |a|
  {
    var s := a + [c] + b;
    FirstIndexFirst(s, c);
    var i := FirstIndex(s, c);
    assert s[|a|] == c;
  }

  /** A `c` at `k` bounds the search from `i`. */
  lemma {:induction false} FindFromBefore(s: string, c: char, i: nat, k: nat)
    requires i <= k < |s| && s[k] == c
    ensures FindFrom(s, c, i) <= k
    decreases |s| - i
  {
    if i < k && s[i] != c {
      FindFromBefore(s, c, i + 1, k);
    }
  }

  /** Past the end of `s`, searching `s + t` searches `t`. */
  lemma {:induction false} FindFromShift(s: string, t: string, c: char, j: nat)
    requires j <= |t|
    ensures FindFrom(s + t, c, |s| + j) == |s| + FindFrom(t, c, j)
    decreases |t| - j
  {
    if j < |t| {
      assert (s + t)[|s| + j] == t[j];
      FindFromShift(s, t, c, j + 1);
    }
  }

  /** Searching `s + t` from inside `s` finds the first `c` of `s`, or goes on into `t`. */
  lemma {:induction false} FindFromAppend(s: string, t: string, c: char, i: nat)
    requires i <= |s|
    ensures FindFrom(s + t, c, i) == if FindFrom(s, c, i) < |s| then FindFrom(s, c, i) else |s| + FindFrom(t, c, 0)
    decreases |s| - i
  {
    if i == |s| {
      FindFromShift(s, t, c, 0);
    } else {
      assert (s + t)[i] == s[i];
      if s[i] != c {
        FindFromAppend(s, t, c, i + 1);
      }
    }
  }

  /** The first `c` of `s + t`. */
  lemma FirstIndexAppend(s: string, t: string, c: char)
    ensures FirstIndex(s + t, c) == if FirstIndex(s, c) < |s| then FirstIndex(s, c) else |s| + FirstIndex(t, c)
  {
    FindFromAppend(s, t, c, 0);
  }

  /** Searching a prefix finds what the search of the whole finds inside the prefix. */
  lemma {:induction false} FindFromTake(s: string, c: char, i: nat, n: nat)
    requires i <= n <= |s|
    ensures FindFrom(s[..n], c, i) == if FindFrom(s, c, i) < n then FindFrom(s, c, i) else n
    decreases n - i
  {
    if i < n {
      assert s[..n][i] == s[i];
      if s[i] != c {
        FindFromTake(s, c, i + 1, n);
      }
    }
  }

  /** The first `c` of a prefix of `s`. */
  lemma FirstIndexTake(s: string, c: char, n: nat)
    requires n <= |s|
    ensures FirstIndex(s[..n], c) == if FirstIndex(s, c) < n then FirstIndex(s, c) else n
  {
    FindFromTake(s, c, 0, n);
  }

  /** `count` is zero exactly when the character does not occur from `i` on. */
  lemma {:induction false} CountFromZero(s: string, c: char, i: nat)
    requires i <= |s|
    ensures CountFrom(s, c, i) == 0 <==> c !in s[i..]
    decreases |s| - i
  {
    if i < |s| {
      CountFromZero(s, c, i + 1);
      assert s[i..] == [s[i]] + s[i + 1..];
    }
  }

  /** `HasChar` is Python's `in`. */
  lemma HasCharIn(s: string, c: char)
    ensures HasChar(s, c) <==> c in s
  {
    FirstIndexFirst(s, c);
  }

  /** Counting from a position counts the suffix that starts there. */
  lemma {:induction false} CountFromDrop(s: string, c: char, k: nat, j: nat)
    requires k + j <= |s|
    ensures CountFrom(s[k..], c, j) == CountFrom(s, c, k + j)
    decreases |s| - k - j
  {
    if k + j < |s| {
      assert s[k..][j] == s[k + j];
      CountFromDrop(s, c, k, j + 1);
    }
  }

  /** Up to the next `c`, nothing is counted. */
  lemma {:induction false} CountFromSkip(s: string, c: char, i: nat)
    requires i <= |s|
    ensures CountFrom(s, c, i) == CountFrom(s, c, FindFrom(s, c, i))
    decreases |s| - i
  {
    if i < |s| && s[i] != c {
      CountFromSkip(s, c, i + 1);
    }
  }

  // Split and join.

  /** `split` yields one part more than there are separators. */
  lemma {:induction false} SplitCount(s: string, c: char)
    ensures |Split(s, c)| == Count(s, c) + 1
    decreases |s|
  {
    var i := FirstIndex(s, c);
    CountFromSkip(s, c, 0);
    if i < |s| {
      SplitCount(s[i + 1..], c);
      CountFromDrop(s, c, i + 1, 0);
    }
  }

  /** `split` yields at least two parts exactly when the separator occurs. */
  lemma SplitLength(s: string, c: char)
    ensures |Split(s, c)| >= 2 <==> c in s
  {
    FirstIndexFirst(s, c);
  }

  /** No part that `split` yields holds the separator. */
  lemma {:induction false} SplitPartsFree(s: string, c: char)
    ensures forall k :: 0 <= k < |Split(s, c)| ==> c !in Split(s, c)[k]
    decreases |s|
  {
    var i := FirstIndex(s, c);
    FirstIndexFirst(s, c);
    if i < |s| {
      var rest := Split(s[i + 1..], c);
      SplitPartsFree(s[i + 1..], c);
      assert Split(s, c) == [s[..i]] + rest;
      forall k | 0 <= k < |Split(s, c)| ensures c !in Split(s, c)[k] {
        if k > 0 { assert Split(s, c)[k] == rest[k - 1]; }
      }
    } else {
      assert s[..i] == s;
    }
  }

  /** Joining what `split` produced gives the string back. */
  lemma {:induction false} JoinSplit(s: string, c: char)
    ensures Join(c, Split(s, c)) == s
    decreases |s|
  {
    var i := FirstIndex(s, c);
    if i < |s| {
      var rest := Split(s[i + 1..], c);
      JoinSplit(s[i + 1..], c);
      assert Split(s, c) == [s[..i]] + rest;
      calc {
        Join(c, Split(s, c));
        s[..i] + [c] + Join(c, rest);
        s[..i] + [c] + s[i + 1..];
        { assert s == s[..i] + [s[i]] + s[i + 1..]; }
        s;
      }
    }
  }

  /** Splitting a join of separator-free pieces gives the pieces back. */
  lemma {:induction false} SplitJoin(parts: seq<string>, c: char)
    requires |parts| >= 1
    requires forall i :: 0 <= i < |parts| ==> c !in parts[i]
    ensures Split(Join(c, parts), c) == parts
  {
    if |parts| > 1 {
      SplitJoin(parts[1..], c);
      SplitAt(parts[0], c, Join(c, parts[1..]));
      assert parts == [parts[0]] + parts[1..];
    } else {
      FirstIndexFirst(parts[0], c);
    }
  }

  /** Splitting at a first separator that follows the separator-free `a`. */
  lemma SplitAt(a: string, c: char, b: string)
    requires c !in a
    ensures Split(a + [c] + b, c) == [a] + Split(b, c)
  {
    var s := a + [c] + b;
    FirstIndexAfter(a, c, b);
    assert s[..|a|] == a;
    assert s[|a| + 1..] == b;
  }

  /** `SplitAt` with the separator-free prefix stated by search. */
  lemma SplitAfter(a: string, c: char, b: string)
    requires !HasChar(a, c)
    ensures Split(a + [c] + b, c) == [a] + Split(b, c)
  {
    HasCharIn(a, c);
    SplitAt(a, c, b);
  }

  /** Four separator-free fields joined by the separator split back into those fields. */
  lemma FourFields(a: string, b: string, c: string, d: string, sep: char)
    requires !HasChar(a, sep) && !HasChar(b, sep) && !HasChar(c, sep) && !HasChar(d, sep)
    ensures Split(a + [sep] + (b + [sep] + (c + [sep] + d)), sep) == [a, b, c, d]
  {
    SplitAfter(c, sep, d);
    SplitAfter(b, sep, c + [sep] + d);
    SplitAfter(a, sep, b + [sep] + (c + [sep] + d));
  }

  /**
    The head of `s.split(c)` is the text before the first `c`, and
    `c.join` of the tail is everything after it: `split` then `join`
    of `[1:]` splits at the first separator only.
  */
  lemma SplitFirst(s: string, c: char)
    requires FirstIndex(s, c) < |s|
    ensures Split(s, c)[0] == s[..FirstIndex(s, c)]
    ensures Join(c, Split(s, c)[1..]) == s[FirstIndex(s, c) + 1..]
  {
    var i := FirstIndex(s, c);
    var rest := Split(s[i + 1..], c);
    assert Split(s, c) == [s[..i]] + rest;
    assert Split(s, c)[1..] == rest;
    JoinSplit(s[i + 1..], c);
  }

  // Stripping.

  /** `strip()` leaves a string without surrounding whitespace as it is. */
  lemma StripTrimmed(s: string)
    requires Trimmed(s)
    ensures SpaceStart(s, |s|) == |s| && SpaceEnd(s, 0) == 0
    ensures Strip(s) == s
  {
    if s != [] {
      assert SpaceStart(s, |s|) == |s|;
      assert s[..|s|] == s;
      assert SpaceEnd(s, 0) == 0;
    }
  }

  /** `rstrip()` leaves a string that does not end in whitespace as it is. */
  lemma RStripNoTrailing(s: string)
    requires s == [] || !IsSpace(s[|s| - 1])
    ensures SpaceStart(s, |s|) == |s| && RStrip(s) == s
  {
    assert s[..|s|] == s;
  }

  /** `strip()` twice is `strip()` once. */
  lemma StripIdempotent(s: string)
    ensures Strip(Strip(s)) == Strip(s)
  {
    StripTrimmed(Strip(s));
  }

  /** A slice of a string without `c` has no `c`. */
  lemma SliceKeepsAbsent(s: string, c: char, i: nat, j: nat)
    requires i <= j <= |s| && !HasChar(s, c)
    ensures !HasChar(s[i..j], c)
  {
    HasCharIn(s, c);
    HasCharIn(s[i..j], c);
    assert forall k :: 0 <= k < j - i ==> s[i..j][k] == s[i + k];
  }

  /** The text before the first `c` has no `c`. */
  lemma BeforeFirstAbsent(s: string, c: char)
    ensures !HasChar(s[..FirstIndex(s, c)], c)
  {
    FirstIndexFirst(s, c);
    HasCharIn(s[..FirstIndex(s, c)], c);
  }

  /** `strip()` removes characters but adds none. */
  lemma StripKeepsAbsent(s: string, c: char)
    requires !HasChar(s, c)
    ensures !HasChar(Strip(s), c)
  {
    var t := RStrip(s);
    SliceKeepsAbsent(s, c, 0, SpaceStart(s, |s|));
    assert t == s[0..SpaceStart(s, |s|)];
    SliceKeepsAbsent(t, c, SpaceEnd(t, 0), |t|);
    assert Strip(s) == t[SpaceEnd(t, 0)..|t|];
  }

  /** Two trimmed strings joined by a non-space character are trimmed. */
  lemma TrimmedJoin(a: string, c: char, b: string)
    requires Trimmed(a) && Trimmed(b) && !IsSpace(c)
    ensures Trimmed(a + [c] + b)
  {
    var s := a + [c] + b;
    assert s[0] == if a == [] then c else a[0];
    assert s[|s| - 1] == if b == [] then c else b[|b| - 1];
  }

  /** `SpaceStart` stops above a leading non-space character. */
  lemma {:induction false} SpaceStartPositive(s: string, j: nat)
    requires 0 < j <= |s| && !IsSpace(s[0])
    ensures SpaceStart(s, j) > 0
  {
    if IsSpace(s[j - 1]) {
      SpaceStartPositive(s, j - 1);
    }
  }

  /** A string that starts with a non-space character keeps that character first after `strip()`. */
  lemma StripKeepsFirst(s: string)
    requires |s| > 0 && !IsSpace(s[0])
    ensures |Strip(s)| > 0 && Strip(s)[0] == s[0]
  {
    SpaceStartPositive(s, |s|);
    var t := RStrip(s);
    assert |t| > 0 && t[0] == s[0];
    assert SpaceEnd(t, 0) == 0;
  }

  /** Below `j`, the backwards scan sees only `s`. */
  lemma {:induction false} SpaceStartPrefix(s: string, t: string, j: nat)
    requires j <= |s|
    ensures SpaceStart(s + t, j) == SpaceStart(s, j)
  {
    if j > 0 {
      assert (s + t)[j - 1] == s[j - 1];
      SpaceStartPrefix(s, t, j - 1);
    }
  }

  /** A backwards scan over whitespace from `j` passes through `i` when `s[i..j]` is whitespace. */
  lemma {:induction false} SpaceStartAcross(s: string, i: nat, j: nat)
    requires i <= j <= |s|
    requires forall k :: i <= k < j ==> IsSpace(s[k])
    ensures SpaceStart(s, j) == SpaceStart(s, i)
    decreases j
  {
    if i < j {
      SpaceStartAcross(s, i, j - 1);
    }
  }

  /** Trailing whitespace does not change `strip()`. */
  lemma StripAppendSpace(s: string, c: char)
    requires IsSpace(c)
    ensures Strip(s + [c]) == Strip(s)
  {
    var sc := s + [c];
    SpaceStartPrefix(s, [c], |s|);
    assert SpaceStart(sc, |sc|) == SpaceStart(sc, |s|);
    var j := SpaceStart(s, |s|);
    assert sc[..j] == s[..j];
  }

  /** A run of `c` that ends at `j` is whitespace when `c` is. */
  lemma {:induction false} CharStartSpace(s: string, c: char, j: nat)
    requires j <= |s| && IsSpace(c)
    ensures forall k :: CharStart(s, c, j) <= k < j ==> IsSpace(s[k])
  {
    if j > 0 && s[j - 1] == c {
      CharStartSpace(s, c, j - 1);
    }
  }

  /** `rstrip(c)` for a whitespace `c`, followed by `strip()`, is `strip()`. */
  lemma StripAfterRStripChar(s: string, c: char)
    requires IsSpace(c)
    ensures Strip(RStripChar(s, c)) == Strip(s)
  {
    var j := CharStart(s, c, |s|);
    var p := s[..j];
    CharStartSpace(s, c, |s|);
    SpaceStartAcross(s, j, |s|);
    SpaceStartPrefix(p, s[j..], j);
    assert p + s[j..] == s;
    var m := SpaceStart(s, |s|);
    assert SpaceStart(p, |p|) == m;
    assert p[..m] == s[..m];
  }
}
