/**
 * test_suite/build.rs: the test crate's build script reads the same compiler output as the
 * main build script and turns the minor version and the nightly flag into `--cfg` names.
 * Running the compiler and printing the cargo directives are not modelled: the output text
 * is an input (`None` when the compiler could not be run or its output was not UTF-8) and
 * the names are returned in the order they would be printed.
 */
module TestSuiteBuild {
  import opened Wrappers
  import opened Strings
  import BuildScript

  const HasMinConstFn := "has_min_const_fn"
  const HasConstLet := "has_const_let"
  const HasConstVecNew := "has_const_vec_new"
  const HasConstMatch := "has_const_match"
  const ConstUnstable := "const_unstable"

  /** Every name the script knows, in the order it considers them. */
  const AllCfgs := [HasMinConstFn, HasConstLet, HasConstVecNew, HasConstMatch, ConstUnstable]

  /** `rustc_version` after the compiler has run: the first `release: ` line, read by
      `ReleaseVersion`. */
  function RustcVersion(output: string): (r: Option<(U32, bool)>)
    // a version comes only from a `release: ` line that starts with `1.`, and a nightly
    // flag only from a channel after a `-`
    ensures r.Some? ==> var release := FirstLineWithPrefix(output, "release: ");
                        release.Some? && StartsWith(release.value, "1.")
                        && (r.value.1 ==> '-' in release.value)
  {
    match FirstLineWithPrefix(output, "release: ")
    case None => None
    case Some(release) => ReleaseVersion(release)
  }

  /** The release value's minor version and whether the channel is `dev` or `nightly`. */
  function ReleaseVersion(release: string): (r: Option<(U32, bool)>)
    ensures r.Some? ==> StartsWith(release, "1.")
    ensures r.Some? && r.value.1 ==> '-' in release
  {
    var versionChannel := Split(release, '-');
    var version := versionChannel[0];
    var channel := if |versionChannel| > 1 then Some(versionChannel[1]) else None;
    var digits := SplitN(version, 3, '.');
    if digits[0] != "1" then None
    else if |digits| < 2 then None
    else
      match ParseUnsigned(digits[1], 0x1_0000_0000)
      case None => None
      case Some(minor) =>
        if |digits| < 3 then None
        else
          ReleaseStartsWithOne(release);
          Some((minor, channel == Some("dev") || channel == Some("nightly")))
  }

  /** A release whose version's first segment is `1`, followed by more, starts with `1.`;
      one with a channel holds a `-`. */
  lemma ReleaseStartsWithOne(release: string)
    ensures var version := Split(release, '-')[0];
            var digits := SplitN(version, 3, '.');
            digits[0] == "1" && |digits| >= 2 ==> StartsWith(release, "1.")
    ensures |Split(release, '-')| > 1 ==> '-' in release
  {
    var version := Split(release, '-')[0];
    var digits := SplitN(version, 3, '.');
    SplitHead(release, '-');
    SplitNHead(version, 3, '.');
    if digits[0] == "1" && |digits| >= 2 {
      assert digits[0] + ['.'] == "1.";
      assert release[..2] == version[..2];
    }
  }

  /** Whether a threshold in `main` switches `cfg` on for this compiler. */
  predicate Enabled(cfg: string, minor: nat, nightly: bool)
  {
    if cfg == HasMinConstFn then minor >= 31
    else if cfg == HasConstLet then minor >= 33
    else if cfg == HasConstVecNew then minor >= 39
    else if cfg == HasConstMatch then minor >= 46
    else cfg == ConstUnstable && nightly
  }

  /** The thresholds of `main`: the names it prints for a known compiler, in print order. */
  method EmitCfgs(minor: U32, nightly: bool) returns (cfgs: seq<string>)
    ensures cfgs == Selected(AllCfgs, minor, nightly)
  {
    EnabledNames(minor, nightly);
    cfgs := [];
    SelectedPrefix(0, minor, nightly);
    if minor >= 31 {
      cfgs := cfgs + [HasMinConstFn];
    }
    assert cfgs == Selected(AllCfgs[..1], minor, nightly);
    SelectedPrefix(1, minor, nightly);
    if minor >= 33 {
      cfgs := cfgs + [HasConstLet];
    }
    assert cfgs == Selected(AllCfgs[..2], minor, nightly);
    SelectedPrefix(2, minor, nightly);
    if minor >= 39 {
      cfgs := cfgs + [HasConstVecNew];
    }
    assert cfgs == Selected(AllCfgs[..3], minor, nightly);
    SelectedPrefix(3, minor, nightly);
    if minor >= 46 {
      cfgs := cfgs + [HasConstMatch];
    }
    assert cfgs == Selected(AllCfgs[..4], minor, nightly);
    SelectedPrefix(4, minor, nightly);
    if nightly {
      cfgs := cfgs + [ConstUnstable];
    }
    assert cfgs == Selected(AllCfgs[..5], minor, nightly);
    assert AllCfgs[..5] == AllCfgs;
  }

  /** Each name is printed exactly when its threshold is met. */
  lemma Thresholds(minor: nat, nightly: bool)
    ensures HasMinConstFn in Selected(AllCfgs, minor, nightly) <==> minor >= 31
    ensures HasConstLet in Selected(AllCfgs, minor, nightly) <==> minor >= 33
    ensures HasConstVecNew in Selected(AllCfgs, minor, nightly) <==> minor >= 39
    ensures HasConstMatch in Selected(AllCfgs, minor, nightly) <==> minor >= 46
    ensures ConstUnstable in Selected(AllCfgs, minor, nightly) <==> nightly
    ensures forall c :: c in Selected(AllCfgs, minor, nightly) ==> c in AllCfgs
  {
    NamesDistinct();
    SelectedMembers(AllCfgs, minor, nightly);
  }

  /** The five names differ, already by their lengths. */
  lemma NamesDistinct()
    ensures HasMinConstFn != HasConstLet && HasMinConstFn != HasConstVecNew
    ensures HasMinConstFn != HasConstMatch && HasMinConstFn != ConstUnstable
    ensures HasConstLet != HasConstVecNew && HasConstLet != HasConstMatch
    ensures HasConstLet != ConstUnstable && HasConstVecNew != HasConstMatch
    ensures HasConstVecNew != ConstUnstable && HasConstMatch != ConstUnstable
  {
    assert |HasMinConstFn| == 16 && |HasConstLet| == 13 && |HasConstVecNew| == 17;
    assert |HasConstMatch| == 15 && |ConstUnstable| == 14;
  }

  /** The names among `names` whose threshold is met, in the order of `names`. */
  function Selected(names: seq<string>, minor: nat, nightly: bool): seq<string>
  {
    if |names| == 0 then []
    else
      (if Enabled(names[0], minor, nightly) then [names[0]] else [])
      + Selected(names[1..], minor, nightly)
  }

  /** A name is selected exactly when it is one of `names` and its threshold is met. */
  lemma {:induction false} SelectedMembers(names: seq<string>, minor: nat, nightly: bool)
    ensures forall c :: c in Selected(names, minor, nightly) <==> c in names && Enabled(c, minor, nightly)
  {
    if |names| > 0 {
      SelectedMembers(names[1..], minor, nightly);
      assert forall c :: c in names <==> c == names[0] || c in names[1..];
    }
  }

  /** The threshold each of the five names stands for. */
  lemma EnabledNames(minor: nat, nightly: bool)
    ensures Enabled(HasMinConstFn, minor, nightly) == (minor >= 31)
    ensures Enabled(HasConstLet, minor, nightly) == (minor >= 33)
    ensures Enabled(HasConstVecNew, minor, nightly) == (minor >= 39)
    ensures Enabled(HasConstMatch, minor, nightly) == (minor >= 46)
    ensures Enabled(ConstUnstable, minor, nightly) == nightly
  {
    NamesDistinct();
  }

  /** Filtering one more name appends it when its threshold is met. */
  lemma {:induction false} SelectedSnoc(names: seq<string>, name: string, minor: nat, nightly: bool)
    ensures Selected(names + [name], minor, nightly)
         == Selected(names, minor, nightly) + (if Enabled(name, minor, nightly) then [name] else [])
  {
    if |names| > 0 {
      assert (names + [name])[1..] == names[1..] + [name];
      SelectedSnoc(names[1..], name, minor, nightly);
    } else {
      assert names + [name] == [name];
    }
  }

  /** The first `k` names filtered, then the next one. */
  lemma SelectedPrefix(k: nat, minor: nat, nightly: bool)
    requires k < |AllCfgs|
    ensures Selected(AllCfgs[..k + 1], minor, nightly)
         == Selected(AllCfgs[..k], minor, nightly)
            + (if Enabled(AllCfgs[k], minor, nightly) then [AllCfgs[k]] else [])
    ensures Selected(AllCfgs[..0], minor, nightly) == []
  {
    assert AllCfgs[..k + 1] == AllCfgs[..k] + [AllCfgs[k]];
    SelectedSnoc(AllCfgs[..k], AllCfgs[k], minor, nightly);
  }

  /** `main`: nothing when the compiler is unknown, otherwise the thresholds' names. */
  method Run(output: Option<string>) returns (cfgs: seq<string>)
    ensures output.None? || RustcVersion(output.value).None? ==> cfgs == []
    ensures output.Some? && RustcVersion(output.value).Some? ==>
              var (minor, nightly) := RustcVersion(output.value).value;
              cfgs == Selected(AllCfgs, minor, nightly)
  {
    if output.None? {
      return [];
    }
    match RustcVersion(output.value)
    case None =>
      cfgs := [];
    case Some((minor, nightly)) =>
      cfgs := EmitCfgs(minor, nightly);
  }

  /** A newer compiler gets every name an older one gets, with the same channel. */
  lemma SelectedGrowsWithMinor(minor: nat, newer: nat, nightly: bool)
    requires minor <= newer
    ensures forall c :: c in Selected(AllCfgs, minor, nightly) ==> c in Selected(AllCfgs, newer, nightly)
  {
    SelectedMembers(AllCfgs, minor, nightly);
    SelectedMembers(AllCfgs, newer, nightly);
  }

  /** The test crate's parser and the main build script's parser agree on every output. */
  lemma RustcVersionAgrees(output: string)
    ensures RustcVersion(output)
         == match BuildScript.FromRustc(output)
            case Ok(v) => Some((v.minor, v.nightly))
            case Err(_) => None
  {
  }
}
