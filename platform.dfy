/**
  `platform_information`: the (distro, release, codename) triple a remote
  host reports, with the codename filled in for Debian releases that
  report none. What `platform.linux_distribution()` returns is a
  parameter here.
*/
module Platform {
  import opened Wrappers
  import opened PyStr

  /** The Debian major versions the helper knows, and their codenames; "" for any other. */
  function DebianCodename(major: string): (name: string)
    ensures name != [] <==> major in {"8", "7", "6"}
  {
    if major == "8" then "jessie"
    else if major == "7" then "wheezy"
    else if major == "6" then "squeeze"
    else ""
  }

  /** What the helper returns: the three fields, right-stripped. */
  datatype Platform = Platform(distro: string, release: string, codename: string)

  /** The error `major, minor = release.split('/')` raises for a release with two or more '/'. */
  const UnpackError := "ValueError: too many values to unpack"

  /** The derivation applies when no codename came back and the distribution name mentions debian. */
  predicate NeedsCodename(distro: string, codename: string) {
    codename == [] && IsSubstring("debian", Lower(distro))
  }

  /** The major version: what precedes the first '.' of the release. */
  function MajorVersion(release: string): string {
    Split(release, '.')[0]
  }

  /**
    The codename of a Debian release: the known name of its major version;
    failing that, for a release "major/minor", "sid" when minor is "sid"
    and major otherwise.
  */
  function DebianDerived(release: string): Result<string, string> {
    var known := DebianCodename(MajorVersion(release));
    if known == [] && HasChar(release, '/') then
      var parts := Split(release, '/');
      if |parts| != 2 then Err(UnpackError)
      else if parts[1] == "sid" then Ok(parts[1])
      else Ok(parts[0])
    else Ok(known)
  }

  /** `platform_information` on what the host reported. */
  function PlatformInformation(distro: string, release: string, codename: string): Result<Platform, string> {
    var derived := if NeedsCodename(distro, codename) then DebianDerived(release) else Ok(codename);
    match derived
    case Err(e) => Err(e)
    case Ok(c) => Ok(Platform(RStrip(distro), RStrip(release), RStrip(c)))
  }

  /** A reported codename, or a distribution that is not Debian, is passed through, only right-stripped. */
  lemma PassThrough(distro: string, release: string, codename: string)
    requires !NeedsCodename(distro, codename)
    ensures PlatformInformation(distro, release, codename)
         == Ok(Platform(RStrip(distro), RStrip(release), RStrip(codename)))
  {
  }

  /** The major version of `major + tail` is `major` when `tail` is empty or starts at a '.'. */
  lemma MajorVersionOf(major: string, tail: string)
    requires !HasChar(major, '.')
    requires tail == [] || tail[0] == '.'
    ensures MajorVersion(major + tail) == major
  {
    FirstIndexAppend(major, tail, '.');
    assert (major + tail)[..|major|] == major;
  }

  /** A Debian release "8", "8.x", "7…" or "6…" without codename gets jessie, wheezy or squeeze. */
  lemma KnownRelease(distro: string, major: string, tail: string)
    requires IsSubstring("debian", Lower(distro))
    requires major in {"8", "7", "6"}
    requires tail == [] || tail[0] == '.'
    ensures PlatformInformation(distro, major + tail, "")
         == Ok(Platform(RStrip(distro), RStrip(major + tail), DebianCodename(major)))
  {
    assert FirstIndex(major, '.') == |major|;
    MajorVersionOf(major, tail);
    RStripNoTrailing(DebianCodename(major));
  }

  /**
    A Debian release "major/minor" whose major version is not a known one
    gets "sid" when the minor part is "sid", and the major part otherwise.
  */
  lemma SidRelease(distro: string, major: string, minor: string)
    requires IsSubstring("debian", Lower(distro))
    requires '/' !in major && '/' !in minor
    requires DebianCodename(MajorVersion(major + "/" + minor)) == []
    ensures PlatformInformation(distro, major + "/" + minor, "")
         == Ok(Platform(RStrip(distro), RStrip(major + "/" + minor), RStrip(if minor == "sid" then minor else major)))
  {
    var release := major + "/" + minor;
    assert release == major + ['/'] + minor;
    SplitAt(major, '/', minor);
    FirstIndexFirst(minor, '/');
    assert Split(minor, '/') == [minor];
    HasCharIn(release, '/');
    assert release[|major|] == '/';
  }

  /**
    The helper fails exactly when it must derive a codename, the major
    version is not a known one, and the release holds two or more '/'.
  */
  lemma FailsOnlyOnSlashes(distro: string, release: string, codename: string)
    ensures PlatformInformation(distro, release, codename).Err?
        <==> NeedsCodename(distro, codename)
             && DebianCodename(MajorVersion(release)) == []
             && Count(release, '/') >= 2
  {
    SplitCount(release, '/');
    HasCharIn(release, '/');
    SplitLength(release, '/');
  }

  /** Every field returned ends in something other than whitespace. */
  lemma ResultStripped(distro: string, release: string, codename: string)
    requires PlatformInformation(distro, release, codename).Ok?
    ensures var p := PlatformInformation(distro, release, codename).value;
      RStrip(p.distro) == p.distro && RStrip(p.release) == p.release && RStrip(p.codename) == p.codename
  {
    var p := PlatformInformation(distro, release, codename).value;
    RStripNoTrailing(p.distro);
    RStripNoTrailing(p.release);
    RStripNoTrailing(p.codename);
  }
}
