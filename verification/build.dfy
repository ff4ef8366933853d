/**
 * build.rs: reads the compiler's `--version --verbose` output, keeps the minor version and
 * whether the compiler is a nightly or dev build, and writes them out for the attribute to
 * include. Running the compiler and writing the file are not modelled: the output text is
 * an input and the file's contents are the result.
 */
module BuildScript {
  import opened Wrappers
  import opened Strings

  /** The `Version` record of the build script. */
  datatype Version = Version(minor: U32, nightly: bool)

  /** The two ways the output text can be unusable. */
  datatype ProbeError = ReleaseNotFound | UnexpectedOutput

  const ReleasePrefix := "release: "

  /** The closure that reads the minor number off `MAJOR.MINOR.PATCH`: the major must be
      exactly `1`, the minor a `u32`, and a patch segment must be present. */
  function MinorOf(version: string): (r: Option<U32>)
    ensures r.Some? <==> var d := SplitN(version, 3, '.');
                         |d| == 3 && d[0] == "1" && ParseUnsigned(d[1], 0x1_0000_0000).Some?
    ensures r.Some? ==> r == ParseUnsigned(SplitN(version, 3, '.')[1], 0x1_0000_0000)
    ensures r.Some? ==> StartsWith(version, "1.")
  {
    var digits := SplitN(version, 3, '.');
    if digits[0] != "1" then None
    else if |digits| < 2 then None
    else
      match ParseUnsigned(digits[1], 0x1_0000_0000)
      case None => None
      case Some(minor) => if |digits| < 3 then None else Some(minor)
  }

  /** A channel counts as nightly when it is present and is `dev` or `nightly`. */
  predicate IsNightlyChannel(channel: Option<string>)
  {
    channel == Some("dev") || channel == Some("nightly")
  }

  /** The release value split into version and channel at the first and second `-`. */
  function ParseRelease(release: string): (r: Result<Version, ProbeError>)
    ensures r.Err? ==> r.error == UnexpectedOutput
    ensures r.Ok? ==> StartsWith(release, "1.")
    ensures r.Ok? && r.value.nightly ==> '-' in release
  {
    var versionChannel := Split(release, '-');
    var version := versionChannel[0];
    var channel := if |versionChannel| > 1 then Some(versionChannel[1]) else None;
    match MinorOf(version)
    case None => Err(UnexpectedOutput)
    case Some(minor) => Ok(Version(minor, IsNightlyChannel(channel)))
  }

  /** `Version::from_rustc` after the compiler has run: find the first `release: ` line and
      parse what follows it. */
  function FromRustc(output: string): (r: Result<Version, ProbeError>)
    ensures r == Err(ReleaseNotFound) <==>
              forall k :: 0 <= k < |Lines(output)| ==> !StartsWith(Lines(output)[k], ReleasePrefix)
    ensures r.Ok? ==> StartsWith(FirstLineWithPrefix(output, ReleasePrefix).value, "1.")
  {
    match FirstLineWithPrefix(output, ReleasePrefix)
    case None => Err(ReleaseNotFound)
    case Some(release) => ParseRelease(release)
  }

  /** The major must be exactly `1`, with or without further segments. */
  lemma MinorOfNeedsMajorOne(major: string, rest: string)
    requires major != "1" && '.' !in major
    ensures MinorOf(major) == None
    ensures MinorOf(major + "." + rest) == None
  {
  }

  /** Without a patch segment the version is refused. */
  lemma MinorOfNeedsPatch(minor: string)
    requires '.' !in minor
    ensures MinorOf("1" + "." + minor) == None
  {
  }

  /** A minor that is not a `u32` is refused. */
  lemma MinorOfNeedsNumber(minor: string, patch: string)
    requires '.' !in minor && ParseUnsigned(minor, 0x1_0000_0000).None?
    ensures MinorOf("1" + "." + (minor + "." + patch)) == None
  {
    SplitNAfterPiece("1", '.', minor + "." + patch, 3);
    SplitNAfterPiece(minor, '.', patch, 2);
  }

  /** `1.MINOR.PATCH` gives back MINOR for every `u32`, whatever the patch text holds. */
  lemma MinorOfRoundTrip(minor: U32, patch: string)
    ensures MinorOf("1" + "." + (Dec(minor) + "." + patch)) == Some(minor)
  {
    DecHasNoSeparator(minor, '.');
    ParseDec(minor, 0x1_0000_0000);
    MinorOfNumber(Dec(minor), patch);
  }

  lemma MinorOfNumber(m: string, patch: string)
    requires '.' !in m && ParseUnsigned(m, 0x1_0000_0000).Some?
    ensures MinorOf("1" + "." + (m + "." + patch)) == ParseUnsigned(m, 0x1_0000_0000)
  {
    SplitNAfterPiece("1", '.', m + "." + patch, 3);
    SplitNAfterPiece(m, '.', patch, 2);
    assert SplitN(patch, 1, '.') == [patch];
    assert SplitN("1" + "." + (m + "." + patch), 3, '.') == ["1", m, patch];
  }

  /** The version is the text before the first `-`; the channel, if any, the text between the
      first and the second; only `dev` and `nightly` count as nightly. */
  lemma ParseReleaseSegments(pieces: seq<string>)
    requires |pieces| >= 1
    requires forall k :: 0 <= k < |pieces| ==> '-' !in pieces[k]
    ensures ParseRelease(Join(pieces, '-'))
         == match MinorOf(pieces[0])
            case None => Err(UnexpectedOutput)
            case Some(m) => Ok(Version(m, |pieces| > 1 && pieces[1] in {"dev", "nightly"}))
  {
    SplitJoin(pieces, '-');
  }

  /** The first `release: ` line decides, whatever lines come before or after it. */
  lemma FromRustcReadsReleaseLine(header: seq<string>, line: string, trailer: string)
    requires forall k :: 0 <= k < |header| ==> '\n' !in header[k]
    requires forall k :: 0 <= k < |header| ==> !StartsWith(StripCr(header[k]), ReleasePrefix)
    requires '\n' !in line && StartsWith(StripCr(line), ReleasePrefix)
    ensures FromRustc(Unlines(header) + line + "\n" + trailer)
         == ParseRelease(StripCr(line)[|ReleasePrefix|..])
  {
    FirstLineAfterHeader(header, line, trailer, ReleasePrefix);
    FromRustcOfRelease(Unlines(header) + line + "\n" + trailer, StripCr(line)[|ReleasePrefix|..]);
  }

  lemma FromRustcOfRelease(output: string, release: string)
    requires FirstLineWithPrefix(output, ReleasePrefix) == Some(release)
    ensures FromRustc(output) == ParseRelease(release)
  {
  }

  const FileHead := "Version {\n    minor: "
  const FileMid := ",\n    nightly: "
  const FileEnd := ",\n}\n"

  function BoolText(b: bool): string
  {
    if b then "true" else "false"
  }

  /** What the build script writes: the record in Rust's pretty `Debug` form. */
  function VersionFile(v: Version): (r: string)
    // the minor in decimal right after the head, ended by a non-digit
    ensures var n := |FileHead| + |Dec(v.minor)|;
            n < |r| && r[..|FileHead|] == FileHead && AllDigits(r[|FileHead|..n])
            && DigitsValue(r[|FileHead|..n]) == v.minor && !IsDigit(r[n])
    // then the flag, `true` exactly for a nightly compiler
    ensures var n := |FileHead| + |Dec(v.minor)| + |FileMid|;
            n < |r| && (v.nightly <==> r[n] == 't')
  {
    var r := FileHead + Dec(v.minor) + FileMid + BoolText(v.nightly) + FileEnd;
    var n := |FileHead| + |Dec(v.minor)|;
    assert r[|FileHead|..n] == Dec(v.minor);
    DecValue(v.minor);
    assert r[n] == FileMid[0];
    assert r[n + |FileMid|] == BoolText(v.nightly)[0];
    r
  }

  /** The written file determines the version it was written from. */
  lemma VersionFileRecordsVersion(v: Version, w: Version)
    requires VersionFile(v) == VersionFile(w)
    ensures v == w
  {
    var restV := FileMid + BoolText(v.nightly) + FileEnd;
    var restW := FileMid + BoolText(w.nightly) + FileEnd;
    FileSplit(Dec(v.minor), restV, BoolText(v.nightly));
    FileSplit(Dec(w.minor), restW, BoolText(w.nightly));
    DropPrefix(FileHead, Dec(v.minor) + restV, Dec(w.minor) + restW);
    DigitsPrefix(Dec(v.minor), restV, Dec(w.minor), restW);
    DecValue(v.minor);
    DecValue(w.minor);
    DropPrefix(FileMid, BoolText(v.nightly) + FileEnd, BoolText(w.nightly) + FileEnd);
    DropSuffix(BoolText(v.nightly), BoolText(w.nightly), FileEnd);
  }

  lemma FileSplit(digits: string, rest: string, flag: string)
    requires rest == FileMid + flag + FileEnd
    ensures FileHead + digits + FileMid + flag + FileEnd == FileHead + (digits + rest)
    ensures FileMid + flag + FileEnd == FileMid + (flag + FileEnd)
    ensures |rest| > 0 && !IsDigit(rest[0])
  {
  }

  lemma DropSuffix(a: string, b: string, t: string)
    requires a + t == b + t
    ensures a == b
  {
    assert a == (a + t)[..|a|];
    assert b == (b + t)[..|b|];
  }

  lemma DropPrefix(h: string, a: string, b: string)
    requires h + a == h + b
    ensures a == b
  {
    assert a == (h + a)[|h|..];
    assert b == (h + b)[|h|..];
  }

  /** The number of decimal digits a text starts with. */
  function DigitRun(s: string): nat
  {
    if |s| == 0 || !IsDigit(s[0]) then 0 else 1 + DigitRun(s[1..])
  }

  lemma {:induction false} DigitRunAfter(x: string, y: string)
    requires AllDigits(x) && |y| > 0 && !IsDigit(y[0])
    ensures DigitRun(x + y) == |x|
  {
    if |x| > 0 {
      assert (x + y)[0] == x[0];
      assert (x + y)[1..] == x[1..] + y;
      DigitRunAfter(x[1..], y);
    } else {
      assert x + y == y;
    }
  }

  /** Two texts that each start with a run of digits followed by a non-digit start with the
      same run when they are equal. */
  lemma DigitsPrefix(x: string, y: string, x': string, y': string)
    requires AllDigits(x) && AllDigits(x')
    requires |y| > 0 && !IsDigit(y[0]) && |y'| > 0 && !IsDigit(y'[0])
    requires x + y == x' + y'
    ensures x == x' && y == y'
  {
    DigitRunAfter(x, y);
    DigitRunAfter(x', y');
    assert x == (x + y)[..|x|];
    assert x' == (x' + y')[..|x'|];
    assert y == (x + y)[|x|..];
    assert y' == (x' + y')[|x'|..];
  }

  /** The message the build stops with: what went wrong, then the whole output. */
  function Message(e: ProbeError, rustc: string, output: string): (r: string)
    ensures |output| <= |r| && r[|r| - |output|..] == output
    ensures e == ReleaseNotFound ==> StartsWith(r, "could not find rustc release")
    ensures e == UnexpectedOutput ==> StartsWith(r, "unexpected output")
  {
    var head := match e
      case ReleaseNotFound => "could not find rustc release from output of `"
      case UnexpectedOutput => "unexpected output from `";
    var r := head + rustc + " --version --verbose`: " + output;
    assert r[..|head|] == head;
    assert r[|r| - |output|..] == output;
    r
  }

  /** The two failures are told apart by their messages. */
  lemma MessagesDiffer(rustc: string, output: string)
    ensures Message(ReleaseNotFound, rustc, output) != Message(UnexpectedOutput, rustc, output)
  {
    var notFound, unexpected := Message(ReleaseNotFound, rustc, output), Message(UnexpectedOutput, rustc, output);
    var c, u := "could not find rustc release", "unexpected output";
    assert notFound[..|c|] == c && c[0] == 'c';
    assert unexpected[..|u|] == u && u[0] == 'u';
    assert notFound[0] == c[0] && unexpected[0] == u[0];
  }

  /** `main`: the contents of the version file, or the message the build panics with. */
  function RunBuildScript(rustc: string, output: string): (r: Result<string, string>)
    ensures r.Ok? <==> FromRustc(output).Ok?
    ensures r.Ok? ==> r.value == VersionFile(FromRustc(output).value)
    ensures r.Err? ==> r.error == Message(FromRustc(output).error, rustc, output)
  {
    match FromRustc(output)
    case Ok(v) => Ok(VersionFile(v))
    case Err(e) => Err(Message(e, rustc, output))
  }
}
