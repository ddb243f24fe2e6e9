/**
  The sysconfig patcher of the remote helpers: `sysconfig_read` finds the
  value a shell-style `KEY="VALUE"` file gives a key, and `sysconfig_write`
  sets it, appending a marked assignment or commenting out the old ones
  and adding the new one after each, while every other line is kept.
  A file is modelled by its contents; the file system is left out.
*/
module Sysconfig {
  import opened Wrappers
  import opened PyStr
  import opened TextFile

  /** The comment line that marks what the tool added. */
  const Marker := "#Added by ceph_deploy"

  /** The assignment line `key="value"` that the tool writes. */
  function AssignmentLine(key: string, value: string): string {
    key + "=\"" + value + "\"\n"
  }

  /** The text `sysconfig_write` adds: a line break, the marker line, the assignment line. */
  function Addition(key: string, value: string): string {
    "\n" + Marker + "\n" + AssignmentLine(key, value)
  }

  /**
    What `sysconfig_read` takes from one line: once the surrounding
    whitespace is gone, a blank line, a comment, a line without '=' and an
    assignment to another key give None; an assignment to `key` gives the
    text after its first '=' with every leading and trailing '"' removed.
    The source splits at every '=' and joins all parts but the first back
    with '=', which is the text after the first '=' (`PyStr.SplitFirst`);
    there is such a '=' exactly when the split gives two parts or more.
  */
  function LineValue(line: string, key: string): Option<string> {
    var stripped := Strip(line);
    if |stripped| == 0 then None
    else if stripped[0] == '#' then None
    else
      var i := FirstIndex(stripped, '=');
      if i == |stripped| then None
      else if Strip(stripped[..i]) != key then None
      else Some(StripChar(stripped[i + 1..], '"'))
  }

  /** `LineValue` for one key, as a function of the line. */
  function Judge(key: string): string -> Option<string> {
    line => LineValue(line, key)
  }

  /** Whether `sysconfig_write` comments a line out: it drops a trailing '\n' first, then judges it as the read does. */
  predicate Supersedes(line: string, key: string) {
    LineValue(RStripChar(line, '\n'), key).Some?
  }

  /** The first value that `judge` finds in `lines`, scanning in order. */
  function FirstValue(lines: seq<string>, judge: string -> Option<string>): Option<string> {
    if lines == [] then None
    else if judge(lines[0]).Some? then judge(lines[0])
    else FirstValue(lines[1..], judge)
  }

  /** `sysconfig_read(path, key, default_value)` for a file holding `content`. */
  function Read(content: string, key: string, default: Option<string>): Option<string> {
    var v := FirstValue(Lines(content), Judge(key));
    if v.Some? then v else default
  }

  /** One line as the rewriting pass writes it back. */
  function Rewritten(line: string, key: string, value: string): string {
    if Supersedes(line, key) then "#" + line + Addition(key, value) else line
  }

  /** `Rewritten` for one key and value, as a function of the line. */
  function Rewrite(key: string, value: string): string -> string {
    line => Rewritten(line, key, value)
  }

  /** Every line of `lines` written out as `f` turns it, in order. */
  function RewriteWith(lines: seq<string>, f: string -> string): string {
    if lines == [] then [] else f(lines[0]) + RewriteWith(lines[1..], f)
  }

  /** The rewriting pass over `lines`, in order. */
  function RewriteText(lines: seq<string>, key: string, value: string): string {
    RewriteWith(lines, Rewrite(key, value))
  }

  /**
    `sysconfig_write(path, key, value)` for a file holding `content`: append
    when the key has no assignment, leave the file alone when it already has
    the value, and otherwise rewrite it line by line.
  */
  function Write(content: string, key: string, value: string): string {
    match Read(content, key, None)
    case None => content + Addition(key, value)
    case Some(current) => if current == value then content else RewriteText(Lines(content), key, value)
  }

  /**
    The checks `sysconfig_read` makes on one line, in its order: skip a
    blank line, a comment, a line the split on '=' leaves whole and an
    assignment to another key; otherwise the value is the text after the
    first '=' with the surrounding '"' stripped.
  */
  method AssignedValue(line: string, key: string) returns (v: Option<string>)
    ensures v == LineValue(line, key)
  {
    var strippedLine := Strip(line);
    if |strippedLine| == 0 {
      return None;
    }
    if strippedLine[0] == '#' {
      return None;
    }
    var splitline := Split(strippedLine, '=');
    if |splitline| < 2 {
      return None;
    }
    SplitFirst(strippedLine, '=');
    if Strip(splitline[0]) != key {
      return None;
    }
    var value := Join('=', splitline[1..]);
    return Some(StripChar(value, '"'));
  }

  /** `sysconfig_read`: scan the lines in order and stop at the first assignment to `key`. */
  method SysconfigRead(content: string, key: string, default: Option<string>) returns (r: Option<string>)
    ensures r == Read(content, key, default)
  {
    var lines := Lines(content);
    for i := 0 to |lines|
      invariant FirstValue(lines, Judge(key)) == FirstValue(lines[i..], Judge(key))
    {
      assert lines[i..][0] == lines[i] && lines[i..][1..] == lines[i + 1..];
      var value := AssignedValue(lines[i], key);
      if value.Some? {
        return value;
      }
    }
    assert lines[|lines|..] == [];
    return default;
  }

  /** `sysconfig_write`: returns the file's new contents. */
  method SysconfigWrite(content: string, key: string, newValue: string) returns (r: string)
    ensures r == Write(content, key, newValue)
  {
    var oldValue := SysconfigRead(content, key, None);
    var newline := Addition(key, newValue);
    if oldValue == None {
      return content + newline;
    }
    if oldValue == Some(newValue) {
      return content;
    }
    var oldContent := Lines(content);
    r := WriteBack(oldContent, key, newValue);
  }

  /**
    The checks the rewriting loop of `sysconfig_write` makes on one line,
    once its '\n' is dropped: a blank line, a comment, a line the split on
    '=' leaves whole and another key's line are kept.
  */
  method IsSuperseded(line: string, key: string) returns (b: bool)
    ensures b == Supersedes(line, key)
  {
    var strippedLine := Strip(RStripChar(line, '\n'));
    if |strippedLine| == 0 {
      return false;
    }
    if strippedLine[0] == '#' {
      return false;
    }
    var splitline := Split(strippedLine, '=');
    if |splitline| < 2 {
      return false;
    }
    SplitFirst(strippedLine, '=');
    return Strip(splitline[0]) == key;
  }

  /**
    The rewriting loop of `sysconfig_write`: every line is written back in
    order, and an assignment to `key` is commented out and followed by the
    addition.
  */
  method WriteBack(oldContent: seq<string>, key: string, newValue: string) returns (r: string)
    ensures r == RewriteText(oldContent, key, newValue)
  {
    var newline := Addition(key, newValue);
    r := [];
    for i := 0 to |oldContent|
      invariant r == RewriteWith(oldContent[..i], Rewrite(key, newValue))
    {
      var line := oldContent[i];
      RewriteWithSnoc(oldContent, i, Rewrite(key, newValue));
      var superseded := IsSuperseded(line, key);
      if superseded {
        r := r + ("#" + line + newline);
      } else {
        r := r + line;
      }
    }
    assert oldContent[..|oldContent|] == oldContent;
  }

  /** Rewriting `a + b` writes `a`'s lines, then `b`'s. */
  lemma {:induction false} RewriteWithAppend(a: seq<string>, b: seq<string>, f: string -> string)
    ensures RewriteWith(a + b, f) == RewriteWith(a, f) + RewriteWith(b, f)
  {
    if a == [] {
      assert a + b == b;
    } else {
      assert (a + b)[0] == a[0] && (a + b)[1..] == a[1..] + b;
      RewriteWithAppend(a[1..], b, f);
    }
  }

  /** The rewriting pass takes one line at a time. */
  lemma RewriteWithSnoc(lines: seq<string>, i: nat, f: string -> string)
    requires i < |lines|
    ensures RewriteWith(lines[..i + 1], f) == RewriteWith(lines[..i], f) + f(lines[i])
  {
    assert lines[..i + 1] == lines[..i] + [lines[i]];
    RewriteWithAppend(lines[..i], [lines[i]], f);
    var one: seq<string> := [lines[i]];
    assert one[1..] == [];
  }

  /** Keys the round trip is stated for: no surrounding whitespace, no '=', no line break, not a comment. */
  predicate ValidKey(key: string) {
    Trimmed(key) && '=' !in key && '\n' !in key && (key == [] || key[0] != '#')
  }

  /** Values the round trip is stated for: no line break, no '"' at either end. */
  predicate ValidValue(value: string) {
    '\n' !in value && (value == [] || (value[0] != '"' && value[|value| - 1] != '"'))
  }

  // The scan, for any judge of a line.

  /** First match, stated without recursion: the first line the judge gives a value for decides. */
  lemma FirstValueIsFirstMatch(lines: seq<string>, judge: string -> Option<string>)
    ensures FirstValue(lines, judge).None? <==> forall i :: 0 <= i < |lines| ==> judge(lines[i]).None?
    ensures FirstValue(lines, judge).Some? ==>
      exists i :: 0 <= i < |lines| && judge(lines[i]) == FirstValue(lines, judge) &&
        forall j :: 0 <= j < i ==> judge(lines[j]).None?
  {
    FirstValueNone(lines, judge);
    if FirstValue(lines, judge).Some? {
      var i := FirstMatch(lines, judge);
    }
  }

  /** No value exactly when the judge gives none for any line. */
  lemma {:induction false} FirstValueNone(lines: seq<string>, judge: string -> Option<string>)
    ensures FirstValue(lines, judge).None? <==> forall i :: 0 <= i < |lines| ==> judge(lines[i]).None?
  {
    if lines != [] {
      FirstValueNone(lines[1..], judge);
      assert forall i :: 1 <= i < |lines| ==> lines[i] == lines[1..][i - 1];
    }
  }

  /** The position of the line that gives the value: the judge gives it there and nothing earlier. */
  lemma {:induction false} FirstMatch(lines: seq<string>, judge: string -> Option<string>) returns (i: nat)
    requires FirstValue(lines, judge).Some?
    ensures i < |lines| && judge(lines[i]) == FirstValue(lines, judge)
    ensures forall j :: 0 <= j < i ==> judge(lines[j]).None?
  {
    if judge(lines[0]).Some? {
      i := 0;
    } else {
      var k := FirstMatch(lines[1..], judge);
      i := k + 1;
      assert lines[i] == lines[1..][k];
      forall j | 0 <= j < i ensures judge(lines[j]).None? {
        if j > 0 { assert lines[j] == lines[1..][j - 1]; }
      }
    }
  }

  lemma {:induction false} FirstValueAppend(a: seq<string>, b: seq<string>, judge: string -> Option<string>)
    ensures FirstValue(a + b, judge) == if FirstValue(a, judge).Some? then FirstValue(a, judge) else FirstValue(b, judge)
  {
    if a == [] {
      assert a + b == b;
    } else {
      assert (a + b)[0] == a[0] && (a + b)[1..] == a[1..] + b;
      FirstValueAppend(a[1..], b, judge);
    }
  }

  /** Scanning `a + b`, where `a` is empty or ends in '\n', scans `a` first and then `b`. */
  lemma ScanAppend(a: string, b: string, judge: string -> Option<string>)
    requires a == [] || EndsWithNewline(a)
    ensures FirstValue(Lines(a + b), judge) ==
      if FirstValue(Lines(a), judge).Some? then FirstValue(Lines(a), judge) else FirstValue(Lines(b), judge)
  {
    LinesAppend(a, b);
    FirstValueAppend(Lines(a), Lines(b), judge);
  }

  /** A file of one line is judged as that line. */
  lemma ScanLine(l: string, judge: string -> Option<string>)
    requires IsLine(l)
    ensures FirstValue(Lines(l), judge) == judge(l)
  {
    LinesOfLine(l);
    var ls: seq<string> := [l];
    assert |ls[1..]| == 0;
  }

  /** Two runs of lines that differ only in a last line judged alike are judged alike. */
  lemma FirstValueLastLine(init: seq<string>, x: string, y: string, judge: string -> Option<string>)
    requires judge(x) == judge(y)
    ensures FirstValue(init + [x], judge) == FirstValue(init + [y], judge)
  {
    FirstValueAppend(init, [x], judge);
    FirstValueAppend(init, [y], judge);
    var xs: seq<string>, ys: seq<string> := [x], [y];
    assert |xs[1..]| == 0 && |ys[1..]| == 0;
  }

  /** Terminating an open last line, which the judge does not tell from its terminated form, changes no value. */
  lemma ScanAfterNewlineOpen(s: string, judge: string -> Option<string>)
    requires s != [] && !EndsWithNewline(s)
    requires forall x :: judge(x + "\n") == judge(x)
    ensures FirstValue(Lines(s + "\n"), judge) == FirstValue(Lines(s), judge)
  {
    LinesAppendNewline(s);
    var ls := Lines(s);
    var k := |ls| - 1;
    FirstValueLastLine(ls[..k], ls[k], ls[k] + "\n", judge);
    DropLast(ls);
  }

  lemma DropLast<T>(s: seq<T>)
    requires s != []
    ensures s == s[..|s| - 1] + [s[|s| - 1]]
  {
  }

  // What one line reads as.

  /** The write pass and the read pass judge a line alike. */
  lemma SupersedesIffAssigns(line: string, key: string)
    ensures Supersedes(line, key) <==> LineValue(line, key).Some?
  {
    StripAfterRStripChar(line, '\n');
  }

  /** A line assigns at most one key. */
  lemma AssignsOneKey(line: string, key: string, q: string)
    requires LineValue(line, key).Some? && LineValue(line, q).Some?
    ensures key == q
  {
  }

  /** A trailing '\n' does not change what a line assigns. */
  lemma LineValueAppendNewline(x: string, key: string)
    ensures LineValue(x + "\n", key) == LineValue(x, key)
  {
    StripAppendSpace(x, '\n');
  }

  /** A line that starts with '#' assigns nothing. */
  lemma CommentValue(l: string, key: string)
    requires |l| > 0 && l[0] == '#'
    ensures LineValue(l, key) == None
  {
    StripKeepsFirst(l);
  }

  /** The assignment line the tool writes reads back as the value, for its own key only. */
  lemma ReadAssignmentLine(key: string, value: string, q: string)
    requires ValidKey(key) && ValidValue(value)
    ensures IsLine(AssignmentLine(key, value))
    ensures LineValue(AssignmentLine(key, value), q) == if q == key then Some(value) else None
  {
    var t := key + "=" + ("\"" + value + "\"");
    StripAssignmentLine(key, value);
    TrimmedAssignment(key, "\"" + value + "\"");
    StripTrimmed(t);
    LineValueByStrip(AssignmentLine(key, value), t, q);
    AssignmentValue(key, value, q);
  }

  /** What a line assigns depends only on the line with its surrounding whitespace stripped. */
  lemma LineValueByStrip(x: string, y: string, key: string)
    requires Strip(x) == Strip(y)
    ensures LineValue(x, key) == LineValue(y, key)
  {
  }
  /** The assignment line is one terminated line that strips to `key="value"`. */
  lemma StripAssignmentLine(key: string, value: string)
    requires ValidKey(key) && ValidValue(value)
    ensures IsLine(AssignmentLine(key, value))
    ensures Strip(AssignmentLine(key, value)) == key + "=" + ("\"" + value + "\"")
  {
    var quoted := "\"" + value + "\"";
    var t := key + "=" + quoted;
    var line := AssignmentLine(key, value);
    assert line == t + "\n";
    assert '\n' !in t by {
      assert '\n' !in quoted;
    }
    FirstIndexFirst(t, '\n');
    TerminatedIsLine(t);
    StripAppendSpace(t, '\n');
    TrimmedAssignment(key, quoted);
    StripTrimmed(t);
  }

  /** The assignment the tool writes, without its line break, assigns the value to its key and nothing else. */
  lemma AssignmentValue(key: string, value: string, q: string)
    requires ValidKey(key) && ValidValue(value)
    ensures LineValue(key + "=" + ("\"" + value + "\""), q) == if q == key then Some(value) else None
  {
    var quoted := "\"" + value + "\"";
    var t := key + "=" + quoted;
    AssignmentShape(key, quoted);
    TrimmedAssignment(key, quoted);
    StripTrimmed(t);
    StripTrimmed(key);
    Unquote(value);
    LineValueAt(t, q);
  }

  /** How `key=rest` splits at its first '=' when `key` holds none. */
  lemma AssignmentShape(key: string, rest: string)
    requires '=' !in key && (key == [] || key[0] != '#')
    ensures var t := key + "=" + rest;
      FirstIndex(t, '=') == |key| && t[..|key|] == key && t[|key| + 1..] == rest && t[0] != '#'
  {
    var t := key + "=" + rest;
    assert t == key + ['='] + rest;
    FirstIndexAfter(key, '=', rest);
    if key != [] { assert t[0] == key[0]; }
  }

  /** What a stripped line with a '=' and no leading '#' assigns. */
  lemma LineValueAt(t: string, key: string)
    requires Strip(t) == t && t != [] && t[0] != '#' && FirstIndex(t, '=') < |t|
    ensures var i := FirstIndex(t, '=');
      LineValue(t, key) == if Strip(t[..i]) == key then Some(StripChar(t[i + 1..], '"')) else None
  {
  }

  /** An assignment to a trimmed key of a quoted value has no surrounding whitespace. */
  lemma TrimmedAssignment(key: string, quoted: string)
    requires Trimmed(key)
    requires quoted != [] && quoted[|quoted| - 1] == '"'
    ensures Trimmed(key + "=" + quoted)
  {
    var t := key + "=" + quoted;
    assert t[|t| - 1] == '"';
    if key != [] {
      assert t[0] == key[0];
    } else {
      assert t[0] == '=';
    }
  }

  /** Stripping '"' from a quoted value takes exactly the quotes off. */
  lemma Unquote(value: string)
    requires value == [] || (value[0] != '"' && value[|value| - 1] != '"')
    ensures StripChar("\"" + value + "\"", '"') == value
  {
    var quoted := "\"" + value + "\"";
    var n := |quoted|;
    assert CharStart(quoted, '"', n) == CharStart(quoted, '"', n - 1);
    if value == [] {
      assert CharStart(quoted, '"', 1) == 0;
    } else {
      assert quoted[n - 2] == value[|value| - 1];
      var open := quoted[..n - 1];
      assert open == "\"" + value;
      assert open[1] == value[0];
      assert CharEnd(open, '"', 0) == 1;
      assert open[1..] == value;
    }
  }

  // What the written file reads as.

  /** Terminating the last line changes no value. */
  lemma ReadAfterNewline(s: string, key: string)
    ensures Read(s + "\n", key, None) == Read(s, key, None)
  {
    if s == [] || EndsWithNewline(s) {
      assert IsLine("\n");
      ScanLine("\n", Judge(key));
      ScanAppend(s, "\n", Judge(key));
    } else {
      forall x ensures Judge(key)(x + "\n") == Judge(key)(x) {
        LineValueAppendNewline(x, key);
      }
      ScanAfterNewlineOpen(s, Judge(key));
    }
  }

  /** The marker line and the assignment line after it read as the assignment line alone. */
  lemma ReadAddedLines(key: string, value: string, q: string)
    requires ValidKey(key) && ValidValue(value)
    ensures FirstValue(Lines(Marker + "\n" + AssignmentLine(key, value)), Judge(q)) == if q == key then Some(value) else None
  {
    var markerLine := Marker + "\n";
    var line := AssignmentLine(key, value);
    ReadMarkerLine(q);
    ScanAppend(markerLine, line, Judge(q));
    ReadAssignmentLine(key, value, q);
    ScanLine(line, Judge(q));
  }

  /** The marker holds no line break. */
  lemma MarkerOneLine()
    ensures NoNewline(Marker)
  {
    FirstIndexFirst(Marker, '\n');
  }

  /** The marker line is a terminated line that assigns nothing. */
  lemma ReadMarkerLine(q: string)
    ensures EndsWithNewline(Marker + "\n")
    ensures FirstValue(Lines(Marker + "\n"), Judge(q)) == None
  {
    var markerLine := Marker + "\n";
    MarkerOneLine();
    TerminatedIsLine(Marker);
    ScanLine(markerLine, Judge(q));
    CommentValue(markerLine, q);
  }

  /** What the appended text reads as: an earlier assignment of `q` still wins. */
  lemma ReadAppended(s: string, key: string, value: string, q: string)
    requires ValidKey(key) && ValidValue(value)
    ensures Read(s + Addition(key, value), q, None) ==
      if Read(s, q, None).Some? then Read(s, q, None) else if q == key then Some(value) else None
  {
    var added := Marker + "\n" + AssignmentLine(key, value);
    AdditionSplit(s, key, value);
    ReadAfterNewline(s, q);
    ScanAppend(s + "\n", added, Judge(q));
    ReadAddedLines(key, value, q);
  }

  /** The addition is a line break, then the marker and assignment lines. */
  lemma AdditionSplit(s: string, key: string, value: string)
    ensures s + Addition(key, value) == (s + "\n") + (Marker + "\n" + AssignmentLine(key, value))
  {
  }

  /** A superseded line, commented out and followed by the addition, assigns only the new value. */
  lemma ReadSuperseded(l: string, key: string, value: string, q: string)
    requires IsLine(l) && ValidKey(key) && ValidValue(value)
    ensures EndsWithNewline("#" + l + Addition(key, value))
    ensures Read("#" + l + Addition(key, value), q, None) == if q == key then Some(value) else None
  {
    var c := "#" + l;
    FirstIndexAppend("#", l, '\n');
    ScanLine(c, Judge(q));
    CommentValue(c, q);
    ReadAppended(c, key, value, q);
  }

  /** One rewritten line, read on its own. */
  lemma ReadChunk(l: string, key: string, value: string, q: string)
    requires IsLine(l) && ValidKey(key) && ValidValue(value)
    ensures EndsWithNewline(l) ==> EndsWithNewline(Rewritten(l, key, value))
    ensures FirstValue(Lines(Rewritten(l, key, value)), Judge(q)) ==
      if Supersedes(l, key) then (if q == key then Some(value) else None) else LineValue(l, q)
  {
    if Supersedes(l, key) {
      ReadSuperseded(l, key, value, q);
    } else {
      ScanLine(l, Judge(q));
    }
  }

  /**
    Rewriting well-formed lines with an `f` that keeps lines terminated, and
    whose output for a line scans as `g` judges that line, scans as `g`
    judges the original lines.
  */
  lemma {:induction false} ScanRewrite(lines: seq<string>, f: string -> string, judge: string -> Option<string>, g: string -> Option<string>)
    requires WellFormed(lines)
    requires forall l {:trigger f(l)} :: IsLine(l) && EndsWithNewline(l) ==> EndsWithNewline(f(l))
    requires forall l {:trigger f(l)} :: IsLine(l) ==> FirstValue(Lines(f(l)), judge) == g(l)
    ensures FirstValue(Lines(RewriteWith(lines, f)), judge) == FirstValue(lines, g)
  {
    if lines == [] {
      assert Lines([]) == [];
    } else {
      var l, rest := lines[0], lines[1..];
      assert WellFormed(rest) by {
        forall i | 0 <= i < |rest| ensures IsLine(rest[i]) && (i < |rest| - 1 ==> EndsWithNewline(rest[i])) {
          assert rest[i] == lines[i + 1];
        }
      }
      ScanRewrite(rest, f, judge, g);
      var head, tail := f(l), RewriteWith(rest, f);
      assert RewriteWith(lines, f) == head + tail;
      assert FirstValue(lines, g) == if g(l).Some? then g(l) else FirstValue(rest, g);
      assert FirstValue(Lines(head), judge) == g(l);
      if rest == [] {
        assert tail == [] && head + tail == head;
      } else {
        assert EndsWithNewline(l);
        ScanAppend(head, tail, judge);
      }
    }
  }

  /** Two judges that agree on every line find the same first value. */
  lemma {:induction false} FirstValueAgree(lines: seq<string>, g: string -> Option<string>, h: string -> Option<string>)
    requires forall l :: g(l) == h(l)
    ensures FirstValue(lines, g) == FirstValue(lines, h)
  {
    if lines != [] {
      FirstValueAgree(lines[1..], g, h);
    }
  }

  /** A judge that gives `v` exactly where `h` gives something finds `v` exactly where `h` finds something. */
  lemma {:induction false} FirstValueMarks(lines: seq<string>, g: string -> Option<string>, h: string -> Option<string>, v: string)
    requires forall l :: g(l) == if h(l).Some? then Some(v) else None
    ensures FirstValue(lines, g) == if FirstValue(lines, h).Some? then Some(v) else None
  {
    if lines != [] {
      FirstValueMarks(lines[1..], g, h, v);
    }
  }

  /** How a rewritten line scans: as the new value of `key` if it was superseded, as itself otherwise. */
  function Rescan(key: string, value: string, q: string): string -> Option<string> {
    l => if Supersedes(l, key) then (if q == key then Some(value) else None) else LineValue(l, q)
  }

  /** Every rewritten line keeps its terminator and scans as `Rescan` says. */
  lemma RewriteScans(key: string, value: string, q: string)
    requires ValidKey(key) && ValidValue(value)
    ensures forall l :: IsLine(l) && EndsWithNewline(l) ==> EndsWithNewline(Rewrite(key, value)(l))
    ensures forall l :: IsLine(l) ==> FirstValue(Lines(Rewrite(key, value)(l)), Judge(q)) == Rescan(key, value, q)(l)
  {
    forall l | IsLine(l)
      ensures EndsWithNewline(l) ==> EndsWithNewline(Rewrite(key, value)(l))
      ensures FirstValue(Lines(Rewrite(key, value)(l)), Judge(q)) == Rescan(key, value, q)(l)
    {
      ReadChunk(l, key, value, q);
    }
  }

  /** For `key` itself, a rewritten line scans as the new value wherever the line assigned `key`. */
  lemma RescanSameKey(key: string, value: string)
    ensures forall l :: Rescan(key, value, key)(l) == if Judge(key)(l).Some? then Some(value) else None
  {
    forall l
      ensures Rescan(key, value, key)(l) == if Judge(key)(l).Some? then Some(value) else None
    {
      SupersedesIffAssigns(l, key);
    }
  }

  /** For any other key, a rewritten line scans as the line did. */
  lemma RescanOtherKey(key: string, value: string, q: string)
    requires q != key
    ensures forall l :: Rescan(key, value, q)(l) == Judge(q)(l)
  {
    forall l
      ensures Rescan(key, value, q)(l) == Judge(q)(l)
    {
      SupersedesIffAssigns(l, key);
      if Supersedes(l, key) && LineValue(l, q).Some? {
        AssignsOneKey(l, key, q);
      }
    }
  }

  /**
    What the rewriting pass reads as: if some line assigns `key`, `key`
    now reads as the new value, and every other key reads as before.
  */
  lemma ReadRewritten(lines: seq<string>, key: string, value: string, q: string)
    requires WellFormed(lines) && ValidKey(key) && ValidValue(value)
    ensures FirstValue(Lines(RewriteText(lines, key, value)), Judge(q)) ==
      if q == key then (if FirstValue(lines, Judge(key)).Some? then Some(value) else None)
      else FirstValue(lines, Judge(q))
  {
    RewriteScans(key, value, q);
    ScanRewrite(lines, Rewrite(key, value), Judge(q), Rescan(key, value, q));
    if q == key {
      RescanSameKey(key, value);
      FirstValueMarks(lines, Rescan(key, value, q), Judge(key), value);
    } else {
      RescanOtherKey(key, value, q);
      FirstValueAgree(lines, Rescan(key, value, q), Judge(q));
    }
  }

  /**
    After `sysconfig_write(k, v)`, `sysconfig_read(k)` gives `v` and every
    other key reads as it did before.
  */
  lemma WriteThenRead(content: string, key: string, value: string, q: string)
    requires ValidKey(key) && ValidValue(value)
    ensures Read(Write(content, key, value), q, None) == if q == key then Some(value) else Read(content, q, None)
  {
    match Read(content, key, None)
    case None =>
      ReadAppended(content, key, value, q);
    case Some(current) =>
      if current != value {
        ReadRewritten(Lines(content), key, value, q);
      }
  }

  /** A second identical write changes nothing. */
  lemma WriteIdempotent(content: string, key: string, value: string)
    requires ValidKey(key) && ValidValue(value)
    ensures Write(Write(content, key, value), key, value) == Write(content, key, value)
  {
    WriteThenRead(content, key, value, key);
  }
}
