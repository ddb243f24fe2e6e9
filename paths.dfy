/** `os.path.join` of a directory and one more path component, on POSIX. */
module PosixPath {
  import opened PyStr

  /** `os.path.join(a, b)`: an absolute `b` replaces `a`; otherwise `b` follows `a` after one '/'. */
  function Join(a: string, b: string): string {
    if StartsWith(b, "/") then b
    else if a == [] || EndsWith(a, "/") then a + b
    else a + "/" + b
  }

  /** A relative component is placed inside a directory that does not end in '/'. */
  lemma JoinRelative(a: string, b: string)
    requires a != [] && a[|a| - 1] != '/'
    requires b == [] || b[0] != '/'
    ensures Join(a, b) == a + "/" + b
    ensures StartsWith(Join(a, b), a + "/") && EndsWith(Join(a, b), b)
  {
    var p := a + "/" + b;
    assert p[..|a| + 1] == a + "/";
    assert p[|p| - |b|..] == b;
  }

  /** An absolute component is the whole result. */
  lemma JoinAbsolute(a: string, b: string)
    requires b != [] && b[0] == '/'
    ensures Join(a, b) == b
  {
    assert b[..1] == "/";
  }
}
