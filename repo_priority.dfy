/**
  `set_repo_priority`: gives the named sections of a yum repository file a
  `priority` option, falling back to the lower-case section name that
  older releases used; then `remove_whitespace_from_assignments` rewrites
  the saved file so that "key = value" lines read "key=value" again.
  Reading and writing the file through the parser is not modelled; the
  parser's state and the saved text are.
*/
module RepoPriority {
  import opened Wrappers
  import opened PyStr
  import opened TextFile
  import opened IniConfig

  /** The section a request for `section` sets: the name itself when present, else its lower-case form. */
  function Target(ini: Ini, section: string): string {
    if ini.HasSection(section) then section else Lower(section)
  }

  /**
    One pass of the loop: `set` on the name; on NoSectionError, `set` on
    the lower-case name, whose own NoSectionError is not caught.
  */
  function SetOne(ini: Ini, section: string, priority: string): Result<Ini, ConfigError> {
    match ini.Set(section, "priority", priority)
    case Ok(r) => Ok(r)
    case Err(_) => ini.Set(Lower(section), "priority", priority)
  }

  /** The loop over the requested sections, in order; the first error ends it. */
  function SetPriorities(ini: Ini, sections: seq<string>, priority: string): Result<Ini, ConfigError> {
    if sections == [] then Ok(ini)
    else
      match SetPriorities(ini, sections[..|sections| - 1], priority)
      case Err(e) => Err(e)
      case Ok(mid) => SetOne(mid, sections[|sections| - 1], priority)
  }

  /** The loop of `set_repo_priority` on the parser object. */
  method SetRepoPriority(cfg: Config, sections: seq<string>, priority: string) returns (r: Result<(), ConfigError>)
    modifies cfg
    ensures SetPriorities(old(cfg.State()), sections, priority).Ok? ==>
      r.Ok? && cfg.State() == SetPriorities(old(cfg.State()), sections, priority).value
    ensures SetPriorities(old(cfg.State()), sections, priority).Err? ==>
      r == Err(SetPriorities(old(cfg.State()), sections, priority).error)
  {
    for i := 0 to |sections|
      invariant SetPriorities(old(cfg.State()), sections[..i], priority) == Ok(cfg.State())
    {
      assert sections[..i + 1][..i] == sections[..i];
      var attempt := cfg.Set(sections[i], "priority", priority);
      if attempt.Err? {
        var retry := cfg.Set(Lower(sections[i]), "priority", priority);
        if retry.Err? {
          ErrorPersists(old(cfg.State()), sections, priority, i + 1);
          return Err(retry.error);
        }
      }
    }
    assert sections[..|sections|] == sections;
    return Ok(());
  }

  /** Once a prefix of the requests fails, the whole loop fails with that error. */
  lemma {:induction false} ErrorPersists(ini: Ini, sections: seq<string>, priority: string, n: nat)
    requires n <= |sections|
    requires SetPriorities(ini, sections[..n], priority).Err?
    ensures SetPriorities(ini, sections, priority) == SetPriorities(ini, sections[..n], priority)
    decreases |sections|
  {
    if n < |sections| {
      var front := sections[..|sections| - 1];
      assert front[..n] == sections[..n];
      ErrorPersists(ini, front, priority, n);
    } else {
      assert sections[..n] == sections;
    }
  }

  /** A requested section that the parser holds under its name or its lower-case name. */
  predicate Resolves(ini: Ini, section: string) {
    ini.HasSection(section) || ini.HasSection(Lower(section))
  }

  /** The sections the requests set. */
  function Targets(ini: Ini, sections: seq<string>): set<string> {
    if sections == [] then {} else Targets(ini, sections[..|sections| - 1]) + {Target(ini, sections[|sections| - 1])}
  }

  /** One pass keeps the sections and sets `priority` in the target, or fails with the lower-case name. */
  lemma SetOneAt(ini: Ini, section: string, priority: string, s: string, o: string)
    ensures SetOne(ini, section, priority).Ok? <==> Resolves(ini, section)
    ensures SetOne(ini, section, priority).Err? ==>
      SetOne(ini, section, priority).error == NoSectionError(Lower(section))
    ensures SetOne(ini, section, priority).Ok? ==>
      var r := SetOne(ini, section, priority).value;
      && r.names == ini.names && r.table.Keys == ini.table.Keys
      && r.SafeGet(s, o) == if (s, o) == (Target(ini, section), "priority") then Some(priority) else ini.SafeGet(s, o)
  {
    if Resolves(ini, section) {
      SetOnly(ini, Target(ini, section), "priority", priority);
    }
  }

  /** The loop succeeds exactly when every requested section resolves. */
  lemma {:induction false} SetPrioritiesOk(ini: Ini, sections: seq<string>, priority: string)
    ensures SetPriorities(ini, sections, priority).Ok? <==> forall k :: 0 <= k < |sections| ==> Resolves(ini, sections[k])
    ensures SetPriorities(ini, sections, priority).Ok? ==>
      SetPriorities(ini, sections, priority).value.table.Keys == ini.table.Keys
  {
    if sections != [] {
      var front, last := sections[..|sections| - 1], sections[|sections| - 1];
      SetPrioritiesOk(ini, front, priority);
      assert forall k :: 0 <= k < |front| ==> front[k] == sections[k];
      var prev := SetPriorities(ini, front, priority);
      if prev.Ok? {
        SetOneAt(prev.value, last, priority, "", "");
        assert Resolves(prev.value, last) <==> Resolves(ini, last);
      }
    }
  }

  /**
    When the loop succeeds, the sections are as before, `priority` is set
    in every target section, and every other option keeps its value.
  */
  lemma {:induction false} SetPrioritiesValues(ini: Ini, sections: seq<string>, priority: string, s: string, o: string)
    requires SetPriorities(ini, sections, priority).Ok?
    ensures var r := SetPriorities(ini, sections, priority).value;
      && r.names == ini.names
      && r.SafeGet(s, o) == if o == "priority" && s in Targets(ini, sections) then Some(priority) else ini.SafeGet(s, o)
  {
    if sections != [] {
      var front, last := sections[..|sections| - 1], sections[|sections| - 1];
      SetPrioritiesValues(ini, front, priority, s, o);
      SetPrioritiesOk(ini, front, priority);
      var mid := SetPriorities(ini, front, priority).value;
      SetOneAt(mid, last, priority, s, o);
      assert Target(mid, last) == Target(ini, last);
    }
  }

  /**
    The first request that does not resolve ends the loop with
    NoSectionError naming its lower-case form.
  */
  lemma {:induction false} SetPrioritiesError(ini: Ini, sections: seq<string>, priority: string, k: nat)
    requires k < |sections| && !Resolves(ini, sections[k])
    requires forall j :: 0 <= j < k ==> Resolves(ini, sections[j])
    ensures SetPriorities(ini, sections, priority) == Err(NoSectionError(Lower(sections[k])))
  {
    var upto := sections[..k + 1];
    var front := sections[..k];
    assert upto[..k] == front;
    assert forall j :: 0 <= j < k ==> front[j] == sections[j];
    SetPrioritiesOk(ini, front, priority);
    var mid := SetPriorities(ini, front, priority).value;
    SetOneAt(mid, sections[k], priority, "", "");
    ErrorPersists(ini, sections, priority, k + 1);
  }

  // Removing the whitespace around '='.

  /**
    One line of `remove_whitespace_from_assignments`: stripped; an
    assignment (not a comment, holding '=') is split at its first '=' and
    both sides stripped; then terminated by '\n'.
  */
  function NormaliseLine(line: string): string {
    var l := Strip(line);
    if !StartsWith(l, "#") && HasChar(l, '=') then
      var parts := SplitOnce(l, '=');
      Strip(parts[0]) + "=" + Strip(parts[1]) + "\n"
    else
      l + "\n"
  }

  /** The text the pass writes for the lines it read. */
  function Normalise(lines: seq<string>): string {
    if lines == [] then [] else Normalise(lines[..|lines| - 1]) + NormaliseLine(lines[|lines| - 1])
  }

  /** The body of the loop of `remove_whitespace_from_assignments`, for one line read. */
  method NormaliseOne(raw: string) returns (out: string)
    ensures out == NormaliseLine(raw)
  {
    var separator := '=';
    var line := Strip(raw);
    if !StartsWith(line, "#") && HasChar(line, separator) {
      var assignment := SplitOnce(line, separator);
      assignment := [Strip(assignment[0]), Strip(assignment[1])];
      out := assignment[0] + [separator] + assignment[1] + "\n";
    } else {
      out := line + "\n";
    }
  }

  /** `remove_whitespace_from_assignments` on the file's contents. */
  method RemoveWhitespaceFromAssignments(content: string) returns (written: string)
    ensures written == Normalise(Lines(content))
  {
    var lines := Lines(content);
    written := [];
    for i := 0 to |lines|
      invariant written == Normalise(lines[..i])
    {
      assert lines[..i + 1][..i] == lines[..i];
      var out := NormaliseOne(lines[i]);
      written := written + out;
    }
    assert lines[..|lines|] == lines;
  }

  /** Each line read from a file holds no line break once stripped. */
  lemma StripLineNoNewline(l: string)
    requires IsLine(l)
    ensures !HasChar(Strip(l), '\n')
  {
    var n := |l| - 1;
    assert !HasChar(l[..n], '\n') by {
      FirstIndexTake(l, '\n', n);
    }
    if l[n] == '\n' {
      assert SpaceStart(l, |l|) == SpaceStart(l, n);
      SpaceStartPrefix(l[..n], [l[n]], n);
      assert l[..n] + [l[n]] == l;
      assert RStrip(l) == RStrip(l[..n]) by {
        assert l[..SpaceStart(l, n)] == l[..n][..SpaceStart(l[..n], n)];
      }
      assert Strip(l) == Strip(l[..n]);
      StripKeepsAbsent(l[..n], '\n');
    } else {
      FirstIndexFirst(l, '\n');
      assert FirstIndex(l, '\n') == |l|;
      StripKeepsAbsent(l, '\n');
    }
  }

  /** The two sides of an assignment, stripped, and the text they make with '='. */
  lemma AssignmentParts(l: string)
    requires Trimmed(l) && !StartsWith(l, "#") && HasChar(l, '=')
    ensures var parts := SplitOnce(l, '=');
      var a, b := Strip(parts[0]), Strip(parts[1]);
      && parts == [l[..FirstIndex(l, '=')], l[FirstIndex(l, '=') + 1..]]
      && !HasChar(a, '=') && Trimmed(a + "=" + b)
      && (a == [] || a[0] == l[0])
  {
    var i := FirstIndex(l, '=');
    var parts := SplitOnce(l, '=');
    var a, b := Strip(parts[0]), Strip(parts[1]);
    BeforeFirstAbsent(l, '=');
    StripKeepsAbsent(parts[0], '=');
    TrimmedJoin(a, '=', b);
    if i > 0 {
      assert parts[0][0] == l[0];
      StripKeepsFirst(parts[0]);
    } else {
      assert parts[0] == [];
    }
  }

  /** Splitting at the first `c` recovers the two sides of a join when the left one holds no `c`. */
  lemma SplitOnceJoin(a: string, c: char, b: string)
    requires !HasChar(a, c)
    ensures SplitOnce(a + [c] + b, c) == [a, b]
  {
    var x := a + [c] + b;
    FirstIndexAppend(a, [c] + b, c);
    assert x == a + ([c] + b);
    assert FirstIndex(x, c) == |a|;
    assert x[..|a|] == a && x[|a| + 1..] == b;
  }

  /** A joined assignment whose sides are already stripped normalises to itself. */
  lemma NormaliseJoined(p: string, q: string)
    requires !HasChar(Strip(p), '=')
    requires Trimmed(Strip(p) + "=" + Strip(q))
    requires (Strip(p) + "=" + Strip(q))[0] != '#'
    ensures NormaliseLine(Strip(p) + "=" + Strip(q) + "\n") == Strip(p) + "=" + Strip(q) + "\n"
  {
    var a, b := Strip(p), Strip(q);
    var x := a + "=" + b;
    StripAppendSpace(x, '\n');
    StripTrimmed(x);
    SplitOnceJoin(a, '=', b);
    assert HasChar(x, '=');
    StripIdempotent(p);
    StripIdempotent(q);
  }

  /** A normalised assignment line normalises to itself. */
  lemma NormaliseAssignmentAgain(l: string)
    requires Trimmed(l) && !StartsWith(l, "#") && HasChar(l, '=')
    ensures var parts := SplitOnce(l, '=');
      var x := Strip(parts[0]) + "=" + Strip(parts[1]);
      NormaliseLine(x + "\n") == x + "\n"
  {
    var parts := SplitOnce(l, '=');
    AssignmentParts(l);
    var a, b := Strip(parts[0]), Strip(parts[1]);
    assert (a + "=" + b)[0] != '#' by {
      assert (a + "=" + b)[0] == if a == [] then '=' else l[0];
      assert l[0] != '#';
    }
    NormaliseJoined(parts[0], parts[1]);
  }

  /** Normalising a line twice is normalising it once. */
  lemma NormaliseLineIdempotent(line: string)
    ensures NormaliseLine(NormaliseLine(line)) == NormaliseLine(line)
  {
    var l := Strip(line);
    if !StartsWith(l, "#") && HasChar(l, '=') {
      NormaliseAssignmentAgain(l);
    } else {
      StripAppendSpace(l, '\n');
      StripIdempotent(line);
    }
  }

  /** A line read from a file normalises to one terminated line. */
  lemma NormaliseLineIsLine(line: string)
    requires IsLine(line)
    ensures IsLine(NormaliseLine(line)) && EndsWithNewline(NormaliseLine(line))
  {
    var l := Strip(line);
    StripLineNoNewline(line);
    if !StartsWith(l, "#") && HasChar(l, '=') {
      var parts := SplitOnce(l, '=');
      var a, b := Strip(parts[0]), Strip(parts[1]);
      var i := FirstIndex(l, '=');
      SliceKeepsAbsent(l, '\n', 0, i);
      SliceKeepsAbsent(l, '\n', i + 1, |l|);
      assert parts[0] == l[0..i] && parts[1] == l[i + 1..|l|];
      StripKeepsAbsent(parts[0], '\n');
      StripKeepsAbsent(parts[1], '\n');
      FirstIndexAppend("=", b, '\n');
      FirstIndexAppend(a, "=" + b, '\n');
      assert a + "=" + b == a + ("=" + b);
      TerminatedIsLine(a + "=" + b);
    } else {
      TerminatedIsLine(l);
    }
  }

  /** The normalised lines of `lines`, one per line. */
  function NormalisedLines(lines: seq<string>): (r: seq<string>)
    ensures |r| == |lines|
  {
    seq(|lines|, k requires 0 <= k < |lines| => NormaliseLine(lines[k]))
  }

  /** The written text is the normalised lines one after another. */
  lemma {:induction false} NormaliseConcat(lines: seq<string>)
    ensures Normalise(lines) == Concat(NormalisedLines(lines))
  {
    if lines != [] {
      var front := lines[..|lines| - 1];
      NormaliseConcat(front);
      var ns := NormalisedLines(lines);
      assert NormalisedLines(front) == ns[..|ns| - 1];
      SplitLast(ns);
    }
  }

  /**
    Reading the written file back gives one line per line read, each the
    normalised line and each ending in '\n'.
  */
  lemma NormalisedFileLines(content: string)
    ensures var ls := Lines(content);
      && Lines(Normalise(ls)) == NormalisedLines(ls)
      && forall k :: 0 <= k < |ls| ==> EndsWithNewline(Lines(Normalise(ls))[k])
  {
    var ls := Lines(content);
    var ns := NormalisedLines(ls);
    forall k | 0 <= k < |ns| ensures IsLine(ns[k]) && EndsWithNewline(ns[k]) {
      NormaliseLineIsLine(ls[k]);
    }
    NormaliseConcat(ls);
    LinesOfConcat(ns);
  }

  /** Normalising lines that are already normalised gives the same text. */
  lemma {:induction false} NormaliseNormalised(lines: seq<string>)
    ensures Normalise(NormalisedLines(lines)) == Normalise(lines)
  {
    if lines != [] {
      var front := lines[..|lines| - 1];
      NormaliseNormalised(front);
      var ns := NormalisedLines(lines);
      assert ns[..|ns| - 1] == NormalisedLines(front);
      NormaliseLineIdempotent(lines[|lines| - 1]);
    }
  }

  /** Running the pass on the file it wrote leaves the file as it is. */
  lemma RemoveWhitespaceIdempotent(content: string)
    ensures Normalise(Lines(Normalise(Lines(content)))) == Normalise(Lines(content))
  {
    NormalisedFileLines(content);
    NormaliseNormalised(Lines(content));
  }
}
