/**
  The repository files the deployment helpers write on a remote host: the
  apt source line of `write_sources_list` and the apt pinning file of
  `set_apt_priority`. Writing the file is not modelled; its path and its
  content are.
*/
module RepoFiles {
  import opened PyStr
  import opened TextFile
  import PosixPath

  const SourcesListDir := "/etc/apt/sources.list.d"

  /** The file `write_sources_list` writes when no file name is given. */
  const DefaultSourcesList := "ceph.list"

  /** The path `write_sources_list` writes for `filename`. */
  function SourcesListPath(filename: string): string {
    PosixPath.Join(SourcesListDir, filename)
  }

  /** The one line `write_sources_list` writes: `deb {url} {codename} main`. */
  function SourcesListEntry(url: string, codename: string): string {
    "deb " + url + " " + codename + " main\n"
  }

  /** The three lines of the pinning stanza, the middle one around the origin. */
  const PackageLine := "Package: *\n"
  const PinPrefix := "Pin: origin "
  const PriorityLine := "Pin-Priority: 999\n"

  /** The pinning stanza `set_apt_priority` writes for the origin `fqdn`. */
  function AptPreferences(fqdn: string): string {
    PackageLine + PinPrefix + fqdn + "\n" + PriorityLine
  }

  /** A plain file name lands inside the sources directory. */
  lemma SourcesListInDir(filename: string)
    requires filename == [] || filename[0] != '/'
    ensures SourcesListPath(filename) == SourcesListDir + "/" + filename
  {
    PosixPath.JoinRelative(SourcesListDir, filename);
  }

  /** With no file name given, the entry goes to /etc/apt/sources.list.d/ceph.list. */
  lemma DefaultSourcesListPath()
    ensures SourcesListPath(DefaultSourcesList) == "/etc/apt/sources.list.d/ceph.list"
  {
    SourcesListInDir(DefaultSourcesList);
  }

  /** Text free of '\n', terminated, is read back as that single line. */
  lemma OneLine(x: string)
    requires NoNewline(x)
    ensures Lines(x + "\n") == [x + "\n"]
  {
    TerminatedIsLine(x);
    LinesOfLine(x + "\n");
  }

  /**
    With a url and a codename free of spaces and line breaks, the entry is
    one line whose space-separated fields are deb, the url, the codename
    and main.
  */
  lemma SourcesListEntryFields(url: string, codename: string)
    requires !HasChar(url, ' ') && !HasChar(codename, ' ')
    requires NoNewline(url) && NoNewline(codename)
    ensures var e := SourcesListEntry(url, codename);
      && Lines(e) == [e]
      && Split(e[..|e| - 1], ' ') == ["deb", url, codename, "main"]
  {
    var e := SourcesListEntry(url, codename);
    var body := "deb" + " " + (url + " " + (codename + " " + "main"));
    assert e == body + "\n";
    NoNewlineByIn(" main");
    NoNewlineByIn("deb ");
    NoNewlineByIn(" ");
    NoNewlineAppend(codename, " main");
    NoNewlineAppend(" ", codename + " main");
    NoNewlineAppend(url, " " + (codename + " main"));
    NoNewlineAppend("deb ", url + (" " + (codename + " main")));
    assert "deb " + (url + (" " + (codename + " main"))) == body;
    OneLine(body);
    assert e[..|e| - 1] == body;
    FourFields("deb", url, codename, "main", ' ');
  }

  /** A string without '\n' is one whose search for '\n' runs off its end. */
  lemma NoNewlineByIn(s: string)
    requires '\n' !in s
    ensures NoNewline(s)
  {
    FirstIndexFirst(s, '\n');
  }

  /** Text without '\n' followed by text without '\n' has none. */
  lemma NoNewlineAppend(a: string, b: string)
    requires NoNewline(a) && NoNewline(b)
    ensures NoNewline(a + b)
  {
    FirstIndexAppend(a, b, '\n');
  }

  /**
    With an origin free of line breaks, the pinning file is the three lines
    "Package: *", "Pin: origin <fqdn>" and "Pin-Priority: 999".
  */
  lemma AptPreferencesLines(fqdn: string)
    requires NoNewline(fqdn)
    ensures Lines(AptPreferences(fqdn)) == [PackageLine, PinPrefix + fqdn + "\n", PriorityLine]
  {
    var pin := PinPrefix + fqdn;
    NoNewlineAppend(PinPrefix, fqdn);
    TerminatedIsLine(pin);
    FixedLines();
    assert AptPreferences(fqdn) == PackageLine + (pin + "\n" + PriorityLine);
    ThreeLines(PackageLine, pin + "\n", PriorityLine);
  }

  /** The fixed lines of the stanza are terminated lines; the pin prefix has no line break. */
  lemma FixedLines()
    ensures IsLine(PackageLine) && EndsWithNewline(PackageLine)
    ensures IsLine(PriorityLine) && EndsWithNewline(PriorityLine)
    ensures NoNewline(PinPrefix)
  {
    var package, priority := "Package: *", "Pin-Priority: 999";
    NoNewlineByIn(package);
    NoNewlineByIn(priority);
    NoNewlineByIn(PinPrefix);
    TerminatedIsLine(package);
    TerminatedIsLine(priority);
    assert package + "\n" == PackageLine && priority + "\n" == PriorityLine;
  }

  /** Three terminated lines, written one after another, are read back as those lines. */
  lemma ThreeLines(x: string, y: string, z: string)
    requires IsLine(x) && IsLine(y) && IsLine(z)
    requires EndsWithNewline(x) && EndsWithNewline(y) && EndsWithNewline(z)
    ensures Lines(x + (y + z)) == [x, y, z]
  {
    var ls := [x, y, z];
    assert Concat(ls[2..]) == z;
    assert Concat(ls[1..]) == y + z;
    LinesOfConcat(ls);
  }
}
