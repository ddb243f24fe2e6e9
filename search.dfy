/**
  The two lookups of the remote helpers: `object_grep`, which looks for a
  term line by line in an open file, and `which`, which looks for an
  executable in the fixed list of system directories. The file is its
  contents; which paths exist is a parameter.
*/
module Search {
  import opened Wrappers
  import opened PyStr
  import opened TextFile
  import PosixPath

  /** `term` occurs within one of `lines`. */
  predicate InSomeLine(term: string, lines: seq<string>) {
    exists k :: 0 <= k < |lines| && IsSubstring(term, lines[k])
  }

  /** `object_grep`: reads the file's lines in order and stops at the first that holds `term`. */
  method ObjectGrep(term: string, content: string) returns (found: bool)
    ensures found <==> InSomeLine(term, Lines(content))
  {
    var lines := Lines(content);
    for i := 0 to |lines|
      invariant forall k :: 0 <= k < i ==> !IsSubstring(term, lines[k])
    {
      if IsSubstring(term, lines[i]) {
        return true;
      }
    }
    return false;
  }

  /** A line of a text sits in the text after the lines before it. */
  lemma {:induction false} LineInText(ls: seq<string>, k: nat)
    requires k < |ls|
    ensures Concat(ls) == Concat(ls[..k]) + ls[k] + Concat(ls[k + 1..])
  {
    if k == 0 {
      assert ls[..0] == [];
    } else {
      LineInText(ls[1..], k - 1);
      assert ls[1..][..k - 1] == ls[1..k];
      assert ls[1..][k - 1] == ls[k];
      assert ls[1..][k..] == ls[k + 1..];
      assert ls[..k] == [ls[0]] + ls[1..k];
      assert Concat(ls[..k]) == ls[0] + Concat(ls[1..k]);
    }
  }

  /** What `object_grep` finds in a line occurs in the file's contents. */
  lemma GrepFindsInContent(term: string, content: string)
    requires InSomeLine(term, Lines(content))
    ensures IsSubstring(term, content)
  {
    FoundInConcat(term, Lines(content));
  }

  /** A term inside one of the lines is inside their concatenation. */
  lemma FoundInConcat(term: string, ls: seq<string>)
    requires InSomeLine(term, ls)
    ensures IsSubstring(term, Concat(ls))
  {
    var k :| 0 <= k < |ls| && IsSubstring(term, ls[k]);
    var j: nat :| j <= |ls[k]| && OccursAt(term, ls[k], j);
    LineInText(ls, k);
    OccursInMiddle(term, Concat(ls[..k]), ls[k], Concat(ls[k + 1..]), j);
  }

  /** An occurrence inside `l` is an occurrence inside `a + l + b`, shifted by `|a|`. */
  lemma OccursInMiddle(term: string, a: string, l: string, b: string, j: nat)
    requires OccursAt(term, l, j)
    ensures OccursAt(term, a + l + b, |a| + j)
  {
    var s := a + l + b;
    var at := |a| + j;
    assert s[at..at + |term|] == l[j..j + |term|];
  }

  /** The empty term is in every line, so it is found exactly when the file is not empty. */
  lemma GrepEmptyTerm(content: string)
    ensures InSomeLine("", Lines(content)) <==> content != []
  {
    var ls := Lines(content);
    if content != [] {
      assert ls != [];
      assert OccursAt("", ls[0], 0);
    }
  }

  /** The directories `which` searches, in its order. */
  const Locations: seq<string> :=
    ["/usr/local/bin", "/bin", "/usr/bin", "/usr/local/sbin", "/usr/sbin", "/sbin"]

  /** The paths `which` tries for `executable`, one per location. */
  function Candidates(executable: string): (paths: seq<string>)
    ensures |paths| == |Locations|
  {
    seq(|Locations|, k requires 0 <= k < |Locations| => PosixPath.Join(Locations[k], executable))
  }

  /** The first of `paths` that exists. */
  function FirstExisting(paths: seq<string>, existing: set<string>): Option<string> {
    if paths == [] then None
    else if paths[0] in existing then Some(paths[0])
    else FirstExisting(paths[1..], existing)
  }

  /** `which`: the first candidate path that exists, or None when none does. */
  method Which(executable: string, existing: set<string>) returns (r: Option<string>)
    ensures r == FirstExisting(Candidates(executable), existing)
  {
    var paths := Candidates(executable);
    for i := 0 to |paths|
      invariant FirstExisting(paths, existing) == FirstExisting(paths[i..], existing)
    {
      assert paths[i..][1..] == paths[i + 1..];
      if paths[i] in existing {
        return Some(paths[i]);
      }
    }
    return None;
  }

  /**
    `FirstExisting` finds nothing exactly when no path exists, and otherwise
    an existing path that comes before every other existing one.
  */
  lemma {:induction false} FirstExistingIsFirst(paths: seq<string>, existing: set<string>)
    ensures FirstExisting(paths, existing).None? <==> forall k :: 0 <= k < |paths| ==> paths[k] !in existing
    ensures FirstExisting(paths, existing).Some? ==>
      exists k :: 0 <= k < |paths| && paths[k] == FirstExisting(paths, existing).value && paths[k] in existing
        && forall j :: 0 <= j < k ==> paths[j] !in existing
  {
    if paths != [] && paths[0] !in existing {
      FirstExistingIsFirst(paths[1..], existing);
      var rest := paths[1..];
      assert forall k :: 1 <= k < |paths| ==> paths[k] == rest[k - 1];
      if FirstExisting(rest, existing).Some? {
        var k :| 0 <= k < |rest| && rest[k] == FirstExisting(rest, existing).value && rest[k] in existing
          && forall j :: 0 <= j < k ==> rest[j] !in existing;
        assert paths[k + 1] == rest[k];
      }
    } else if paths != [] {
      assert paths[0] in existing;
    }
  }

  /** An executable given by name is found inside one of the locations, as location/name. */
  lemma WhichByName(executable: string, existing: set<string>)
    requires executable == [] || executable[0] != '/'
    requires FirstExisting(Candidates(executable), existing).Some?
    ensures exists k :: 0 <= k < |Locations| &&
              FirstExisting(Candidates(executable), existing).value == Locations[k] + "/" + executable
  {
    var paths := Candidates(executable);
    FirstExistingIsFirst(paths, existing);
    var k :| 0 <= k < |paths| && paths[k] == FirstExisting(paths, existing).value;
    PosixPath.JoinRelative(Locations[k], executable);
  }

  /** An absolute path replaces every location: `which` returns it exactly when it exists. */
  lemma WhichAbsolute(executable: string, existing: set<string>)
    requires executable != [] && executable[0] == '/'
    ensures FirstExisting(Candidates(executable), existing)
         == if executable in existing then Some(executable) else None
  {
    var paths := Candidates(executable);
    forall k | 0 <= k < |paths| ensures paths[k] == executable {
      PosixPath.JoinAbsolute(Locations[k], executable);
    }
    FirstExistingIsFirst(paths, existing);
  }
}
