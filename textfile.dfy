/**
  A text file seen as its contents, and Python's line iteration over it
  (`for line in f`, `f.readlines()`): each line keeps its '\n'
  terminator, and only the last line may lack one.
*/
module TextFile {
  import opened PyStr

  /** `s` holds no '\n'. */
  predicate NoNewline(s: string) {
    FirstIndex(s, '\n') == |s|
  }

  /** The length of the first line of `s`: up to and including the first '\n', or all of `s`. */
  function LineEnd(s: string): (n: nat)
    ensures n <= |s|
    ensures s != [] ==> 1 <= n
  {
    var i := FirstIndex(s, '\n');
    if i < |s| then i + 1 else |s|
  }

  /** A single physical line: non-empty, with '\n' at most as its last character. */
  predicate IsLine(l: string) {
    |l| > 0 && FirstIndex(l, '\n') >= |l| - 1
  }

  predicate EndsWithNewline(l: string) {
    |l| > 0 && l[|l| - 1] == '\n'
  }

  /** What line iteration can produce: lines, every one but the last terminated. */
  predicate WellFormed(ls: seq<string>) {
    && (forall i :: 0 <= i < |ls| ==> IsLine(ls[i]))
    && (forall i :: 0 <= i < |ls| - 1 ==> EndsWithNewline(ls[i]))
  }

  /** Writing the lines one after another. */
  function Concat(ls: seq<string>): string {
    if ls == [] then [] else ls[0] + Concat(ls[1..])
  }

  /** The first line of non-empty text is a line, and a terminated one when text follows it. */
  lemma FirstLine(s: string)
    requires s != []
    ensures IsLine(s[..LineEnd(s)])
    ensures LineEnd(s) < |s| ==> EndsWithNewline(s[..LineEnd(s)])
  {
    FirstIndexTake(s, '\n', LineEnd(s));
  }

  /** The lines Python yields for a file holding `s`; they make up `s` exactly. */
  function Lines(s: string): (ls: seq<string>)
    ensures WellFormed(ls)
    ensures Concat(ls) == s
    decreases |s|
  {
    if s == [] then []
    else
      var n := LineEnd(s);
      var rest := Lines(s[n..]);
      FirstLine(s);
      assert s[..n] + s[n..] == s;
      [s[..n]] + rest
  }

  lemma {:induction false} ConcatAppend(a: seq<string>, b: seq<string>)
    ensures Concat(a + b) == Concat(a) + Concat(b)
  {
    if a != [] {
      ConcatAppend(a[1..], b);
      calc {
        Concat(a + b);
        (a + b)[0] + Concat((a + b)[1..]);
        { assert (a + b)[0] == a[0] && (a + b)[1..] == a[1..] + b; }
        a[0] + Concat(a[1..] + b);
        a[0] + (Concat(a[1..]) + Concat(b));
        (a[0] + Concat(a[1..])) + Concat(b);
      }
    } else {
      assert a + b == b;
    }
  }

  /** A terminated line has its only '\n' at the end. */
  lemma TerminatedLine(l: string)
    requires IsLine(l) && EndsWithNewline(l)
    ensures FirstIndex(l, '\n') == |l| - 1
  {
    FindFromBefore(l, '\n', 0, |l| - 1);
  }

  /** The first line of `l + t` is `l` when `l` is a terminated line, or when nothing follows it. */
  lemma LineEndOfLine(l: string, t: string)
    requires IsLine(l)
    requires EndsWithNewline(l) || t == []
    ensures LineEnd(l + t) == |l|
  {
    if t == [] {
      assert l + t == l;
    } else {
      TerminatedLine(l);
      FirstIndexAppend(l, t, '\n');
    }
  }

  /** Splitting the concatenation of well-formed lines gives those lines back. */
  lemma {:induction false} LinesOfConcat(ls: seq<string>)
    requires WellFormed(ls)
    ensures Lines(Concat(ls)) == ls
  {
    if ls != [] {
      var l := ls[0];
      var t := Concat(ls[1..]);
      if ls[1..] != [] {
        assert EndsWithNewline(ls[0]);
      }
      assert ls[1..] == [] ==> t == [];
      LineEndOfLine(l, t);
      assert (l + t)[..|l|] == l && (l + t)[|l|..] == t;
      assert WellFormed(ls[1..]) by {
        forall i | 0 <= i < |ls[1..]| ensures IsLine(ls[1..][i]) {
          assert ls[1..][i] == ls[i + 1];
        }
        forall i | 0 <= i < |ls[1..]| - 1 ensures EndsWithNewline(ls[1..][i]) {
          assert ls[1..][i] == ls[i + 1];
        }
      }
      LinesOfConcat(ls[1..]);
    }
  }

  /** A single line is read back as exactly that line. */
  lemma LinesOfLine(l: string)
    requires IsLine(l)
    ensures Lines(l) == [l]
  {
    assert Concat([l]) == l;
    LinesOfConcat([l]);
  }

  /** The text of non-empty lines is the text of all but the last, then the last. */
  lemma SplitLast(ls: seq<string>)
    requires ls != []
    ensures Concat(ls) == Concat(ls[..|ls| - 1]) + ls[|ls| - 1]
  {
    var k := |ls| - 1;
    assert ls == ls[..k] + [ls[k]];
    ConcatAppend(ls[..k], [ls[k]]);
    assert Concat([ls[k]]) == ls[k];
  }

  /** Text ending in '\n' ends in its last line's '\n'. */
  lemma LastLineEndsWithNewline(s: string)
    requires EndsWithNewline(s)
    ensures var ls := Lines(s); |ls| > 0 && EndsWithNewline(ls[|ls| - 1])
  {
    SplitLast(Lines(s));
  }

  /** Reading `a + b` line by line, where `a` is empty or ends in '\n', reads `a`'s lines then `b`'s. */
  lemma LinesAppend(a: string, b: string)
    requires a == [] || EndsWithNewline(a)
    ensures Lines(a + b) == Lines(a) + Lines(b)
  {
    var la, lb := Lines(a), Lines(b);
    if a != [] {
      LastLineEndsWithNewline(a);
    }
    WellFormedAppend(la, lb);
    ConcatAppend(la, lb);
    LinesOfConcat(la + lb);
  }

  /** Well-formed lines whose last line is terminated, then more well-formed lines, are well formed. */
  lemma WellFormedAppend(la: seq<string>, lb: seq<string>)
    requires WellFormed(la) && WellFormed(lb)
    requires la != [] ==> EndsWithNewline(la[|la| - 1])
    ensures WellFormed(la + lb)
  {
    var ms := la + lb;
    forall i | 0 <= i < |ms| ensures IsLine(ms[i]) {
      if i < |la| { assert ms[i] == la[i]; } else { assert ms[i] == lb[i - |la|]; }
    }
    forall i | 0 <= i < |ms| - 1 ensures EndsWithNewline(ms[i]) {
      if i < |la| { assert ms[i] == la[i]; } else { assert ms[i] == lb[i - |la|]; }
    }
  }

  /** The last line of text that does not end in '\n' holds no '\n' at all. */
  lemma LastLineOpen(s: string)
    requires s != [] && !EndsWithNewline(s)
    ensures var ls := Lines(s); |ls| > 0 && NoNewline(ls[|ls| - 1])
  {
    var ls := Lines(s);
    var k := |ls| - 1;
    var last := ls[k];
    SplitLast(ls);
    assert last[|last| - 1] == s[|s| - 1];
  }

  /** Terminated lines followed by one more line are well formed. */
  lemma WellFormedSnoc(ps: seq<string>, x: string)
    requires forall i :: 0 <= i < |ps| ==> IsLine(ps[i]) && EndsWithNewline(ps[i])
    requires IsLine(x)
    ensures WellFormed(ps + [x])
  {
    var ms := ps + [x];
    forall i | 0 <= i < |ps| ensures IsLine(ms[i]) && EndsWithNewline(ms[i]) {
      assert ms[i] == ps[i];
    }
  }

  /** A string without '\n', terminated, is a line. */
  lemma TerminatedIsLine(x: string)
    requires NoNewline(x)
    ensures IsLine(x + "\n") && EndsWithNewline(x + "\n")
  {
    FirstIndexAppend(x, "\n", '\n');
  }

  /** Terminating the last of well-formed lines, which holds no '\n', keeps them well formed. */
  lemma WellFormedTerminateLast(ls: seq<string>)
    requires WellFormed(ls) && ls != [] && NoNewline(ls[|ls| - 1])
    ensures var k := |ls| - 1; WellFormed(ls[..k] + [ls[k] + "\n"])
  {
    var k := |ls| - 1;
    TerminatedIsLine(ls[k]);
    forall i | 0 <= i < k ensures IsLine(ls[..k][i]) && EndsWithNewline(ls[..k][i]) {
      assert ls[..k][i] == ls[i];
    }
    WellFormedSnoc(ls[..k], ls[k] + "\n");
  }

  /** Terminating the last line adds '\n' to the text. */
  lemma ConcatTerminateLast(ls: seq<string>)
    requires ls != []
    ensures var k := |ls| - 1; Concat(ls[..k] + [ls[k] + "\n"]) == Concat(ls) + "\n"
  {
    var k := |ls| - 1;
    var x := ls[k] + "\n";
    var one: seq<string> := [x];
    ConcatAppend(ls[..k], one);
    assert Concat(one) == x by { assert one[1..] == []; }
    SplitLast(ls);
    assert Concat(ls[..k]) + (ls[k] + "\n") == (Concat(ls[..k]) + ls[k]) + "\n";
  }

  /**
    Appending '\n' to text that does not end in one terminates its last
    line and adds no line of its own.
  */
  lemma LinesAppendNewline(s: string)
    requires s != [] && !EndsWithNewline(s)
    ensures var ls := Lines(s); var k := |ls| - 1;
      k >= 0 && Lines(s + "\n") == ls[..k] + [ls[k] + "\n"]
  {
    var ls := Lines(s);
    LastLineOpen(s);
    WellFormedTerminateLast(ls);
    ConcatTerminateLast(ls);
    LinesOfConcat(ls[..|ls| - 1] + [ls[|ls| - 1] + "\n"]);
  }
}
