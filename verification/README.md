# const_fn, modelled in Dafny

`#[const_fn(...)]` is a procedural attribute for Rust functions. It keeps or drops the
`const` qualifier of the function it annotates according to its argument:

- `"MAJOR.MINOR"`: keep `const` when the compiler is at least that version;
- `nightly`: keep it on nightly and dev compilers;
- `cfg(...)` or `feature = "..."`: emit the function twice, `const` under the condition and
  plain under its negation.

The crate's build script reads `rustc --version --verbose`, keeps the minor version and the
channel, and writes them to a file the attribute includes. The test crate has its own build
script with the same release-line parser, which turns the version into `--cfg` names.

The model is split into modules that follow the source files:

| module | file | source |
|---|---|---|
| `Wrappers` | wrappers.dfy | `Option` and `Result` |
| `Tokens` | tokens.dfy | `proc_macro2` token trees, their `Display` text, and `TokenStream` as a growable buffer (a class) |
| `Strings` | strings.dfy | the parts of Rust's `str` API used: `find`, `split`, `splitn`, `lines`, `starts_with`, integer `Display` and unsigned `parse` |
| `Utils` | utils.dfy | src/utils.rs: `error!`, `tt_span`, `parse_as_empty` |
| `ConstFnMacro` | lib.dfy | src/lib.rs: `Arg`, `parse_arg`, `VersionReq::from_str`, `const_fn` |
| `ToTokens` | to_tokens.dfy | src/to_tokens.rs: the `ToTokens` trait as in-place appends |
| `BuildScript` | build.dfy | build.rs: the release-line parser and the written version file |
| `TestSuiteBuild` | test_suite_build.dfy | test_suite/build.rs: `rustc_version` and the cfg thresholds of `main` |

Decisions:

- **Tokens.** A token is a Dafny datatype. Spans are opaque values that are only compared.
- **Errors.** An error from `error!` is a `Diagnostic(span, message)`. `CompileError` gives the
  tokens it expands to.
- **The annotated item.** `ast::parse_input`'s result is an input: either an error or an
  `FnItem`. An `FnItem` is the tokens before the `const` keyword, the keyword's span, the
  `print_const` flag and the remaining tokens. Its serialisation prints `const` exactly when
  the flag is set.
- **`VERSION`.** The record the build script generates is a parameter of `ConstFn`.
- **`const_fn` is imperative.** It fills a `TokenStream` object with successive `Extend` calls
  and clears `print_const` in place. Its contract gives the whole output for each argument
  form.
- **Build scripts.** Both are modelled from the point where the compiler's output is
  available as text.
  - The main build script returns the contents of the version file or the panic message.
  - The test script's `main` returns the `--cfg` names in the order they would be printed.

Where the code and its documentation could be read differently, the model follows the code:

- **Version check.** A version requirement drops `const` when `major > 1`, not when
  `major != 1`. So `"0.x"` keeps `const` whenever `x` is at most the compiler's minor.
- **`feature` errors.** The `feature` form reports "expected `=`" also when the `=` is present
  and the string literal after it is missing.

## Model

| member | source | states |
|---|---|---|
| Utils.CompileError | src/utils.rs:3-11 | an error expands to `compile_error`, `!` and a brace group, all at the error's span; the group holds one string literal, the message between double quotes |
| Utils.CompileErrorRecordsDiagnostic | src/utils.rs:3-7 | two errors with the same expansion are the same error: the expansion keeps the span and the whole message |
| Utils.TtSpan | src/utils.rs:13-15 | no tree gives the call-site span; a tree gives its own span |
| Utils.ParseAsEmpty | src/utils.rs:17-24 | succeeds iff nothing is left; otherwise the error is at the first leftover tree's span, with "unexpected token: " followed by that tree's text |
| Utils.ParseAsEmptyTakesOne | src/utils.rs:20-23 | only the first leftover tree decides the outcome; the trees after it are never looked at |
| Tokens.Render | src/utils.rs:21 | an identifier, punctuation or literal shows as its own text; a group shows as its stream's text enclosed in its delimiters |
| Tokens.RenderStreamAppend | src/utils.rs:21 | the text of two streams one after the other is their texts separated by one space |
| ConstFnMacro.ParseU16 | src/lib.rs:183-188 | a segment is accepted exactly when `ParseUnsigned` with bound 65536 accepts it, and gives the same value |
| ConstFnMacro.ParseVersionReq | src/lib.rs:178-195 | accepted iff the text splits on `.` into exactly two segments that are both `u16`; the requirement holds the two segments' values |
| ConstFnMacro.VersionReqRoundTrip | src/lib.rs:178-195 | for all `u16` values a and b, `"a.b"` parses to major a and minor b |
| ConstFnMacro.VersionReqExtraSegment | src/lib.rs:190-191 | after two valid segments, a third is reported as "unexpected input: " with that segment's text, whatever follows |
| ConstFnMacro.VersionReqMissingMinor | src/lib.rs:185-187 | a single number is refused with "need to specify the minor version" |
| ConstFnMacro.VersionReqBadSegment | src/lib.rs:180-189 | a first or second segment that is not a `u16` (empty, not numeric) is refused with the integer error |
| ConstFnMacro.VersionReqOverflow | src/lib.rs:180-189 | a major or minor above 65535 is refused |
| ConstFnMacro.StrLitValue | src/lib.rs:153 | a string literal's value is the text between its double quotes |
| ConstFnMacro.ParseArg | src/lib.rs:118-168 | empty input gives "expected one of" at the call site; every error is at the call site or at some argument tree's span; each accepted form pins down the whole argument (its length, the keyword, the group or literal) and what the `Arg` holds |
| ConstFnMacro.ParseNightly | src/lib.rs:125-128 | `nightly` alone gives `Nightly`; any further tree gives "unexpected token" at that tree |
| ConstFnMacro.ParseCfg | src/lib.rs:129-136 | `cfg` plus a parenthesised group and nothing else gives `Cfg` with the group's inner trees; a missing or other next tree gives "expected `(`" at its span or the call site; a trailing tree is reported |
| ConstFnMacro.ParseFeature | src/lib.rs:138-148 | `feature = "..."` and nothing else gives `Feature` with the whole argument unchanged; a missing `=` and a missing string literal both give "expected `=`"; a trailing tree is reported |
| ConstFnMacro.ParseStringLiteral | src/lib.rs:152-160 | after a string literal, a trailing tree is reported before the version is parsed; a version error is reported at the literal's span with the parser's message |
| ConstFnMacro.ParseVersionLiteral | src/lib.rs:152-158 | the literal `"a.b"` is accepted as the requirement (a, b) for all `u16` values |
| ConstFnMacro.ParseOther | src/lib.rs:150-167 | any other first tree, including a literal that is not a string, gives "expected one of" at that tree's span |
| ConstFnMacro.CopiesDifferInConst | src/lib.rs:76-91 | the two copies of a guarded expansion differ only by the `const` keyword, at the position after the item's leading tokens |
| ConstFnMacro.Serialize | src/lib.rs:78-81 | the item's leading tokens, then `const` at its own span exactly when it is printed, then the rest of the item |
| ConstFnMacro.CfgAttr | src/lib.rs:77-79 | `#` and a bracket group holding `cfg` and a parenthesised group whose trees are the condition; its text is `# [cfg (...)]` around the condition's text |
| ConstFnMacro.Not | src/lib.rs:79 | `not` and a parenthesised group whose trees are the condition; its text is `not (...)` around the condition's text |
| ConstFnMacro.ConstFn | src/lib.rs:65-105 | an argument error, and then an item error, is the whole output; `cfg` and `feature` emit `#[cfg(G)]`, the item, `#[cfg(not(G))]`, the item without `const`; a version requirement keeps `const` iff major <= 1 and minor <= the compiler's minor; `nightly` keeps it iff the compiler is nightly |
| Tokens.TokenStream.Extend | src/to_tokens.rs:32-36 | the new trees go after the existing ones, in order |
| ToTokens.IdentToTokens | src/to_tokens.rs:14-18 | appends exactly the identifier; the old contents stay a prefix |
| ToTokens.LiteralToTokens | src/to_tokens.rs:20-24 | appends exactly the literal |
| ToTokens.TreeToTokens | src/to_tokens.rs:26-30 | appends exactly the tree |
| ToTokens.StreamToTokens | src/to_tokens.rs:32-36 | appends all of the stream's trees, in order |
| ToTokens.OptionToTokens | src/to_tokens.rs:38-44 | `None` leaves the buffer unchanged; `Some(t)` appends what `t` appends |
| ToTokens.RefToTokens | src/to_tokens.rs:46-50 | a reference appends the same as its referent |
| ToTokens.ValueToTokens | src/to_tokens.rs:4-5 | every implementation appends its value's tokens after the existing contents |
| ToTokens.ToTokenStream | src/to_tokens.rs:7-11 | a fresh stream holding exactly what `to_tokens` appends to an empty one |
| Strings.Split | build.rs:65 | at least one piece, and no piece contains the separator |
| Strings.JoinSplit | build.rs:65 | joining the pieces of a split with the separator gives the text back |
| Strings.SplitJoin | build.rs:65 | splitting pieces free of the separator after joining them gives the pieces back |
| Strings.SplitN | build.rs:71 | between 1 and n pieces; only the last may hold the separator, and then only when there are n |
| Strings.JoinSplitN | build.rs:71 | joining the pieces of `splitn` with the separator gives the text back |
| Strings.Lines | build.rs:53 | an empty text has no lines; a non-empty text without `\n` is one line, kept as it is; no line holds a `\n` |
| Strings.LinesOfUnlines | build.rs:53 | lines without `\n` and without a trailing `\r`, each terminated by `\n`, are read back as themselves |
| Strings.FirstLineWithPrefix | build.rs:52-55 | none iff no line starts with the prefix; otherwise the first line that does is the prefix followed by the result |
| Strings.LinesAfter | build.rs:53 | lines terminated by `\n` in front of a text come out of `lines` first, in order, each without a trailing `\r` |
| Strings.FirstLineAfterHeader | build.rs:52-55 | after lines that do not start with the prefix, a line that does (once a trailing `\r` is dropped) is the one found, whatever follows it |
| Strings.ParseUnsigned | build.rs:76 | an accepted text is an optional `+` and at least one digit, so it ends in a digit; its value is the digits' value, below the type's bound |
| Strings.ParseDigits | build.rs:76 | every non-empty digit string below the bound parses to its value, also after a `+` and after a leading zero |
| Strings.DecValue | build.rs:17 | the decimal text of a number reads back as that number |
| Strings.ParseDec | build.rs:76 | the decimal text of a number below the bound, with or without `+`, parses to that number |
| BuildScript.MinorOf | build.rs:69-79 | accepted iff `splitn(3, '.')` gives three segments, the first exactly `1` and the second a `u32`, which is the result; an accepted version starts with `1.` |
| BuildScript.ParseRelease | build.rs:64-85 | the only failure is "unexpected output"; an accepted release starts with `1.`; nightly only when a `-` introduces a channel |
| BuildScript.FromRustc | build.rs:52-85 | "release not found" iff no line starts with `release: `; on success the release value starts with `1.` |
| BuildScript.FromRustcReadsReleaseLine | build.rs:52-62 | the first `release: ` line decides the result, without a trailing `\r`, whatever lines come before or after it |
| BuildScript.ParseReleaseSegments | build.rs:64-85 | the version is the text before the first `-`; the channel is the text between the first and second `-`; nightly iff the channel is exactly `dev` or `nightly` |
| BuildScript.MinorOfNeedsMajorOne | build.rs:71-75 | a major other than exactly `1` is refused, with or without further segments |
| BuildScript.MinorOfNeedsNumber | build.rs:76 | a minor that is not a `u32` is refused |
| BuildScript.MinorOfNeedsPatch | build.rs:77 | a version without a patch segment is refused |
| BuildScript.MinorOfRoundTrip | build.rs:69-82 | `1.MINOR.PATCH` gives MINOR for every `u32`, whatever the patch text |
| BuildScript.RunBuildScript | build.rs:16-19 | the file is written iff the output parses, and it holds the parsed version; otherwise the build stops with the message for the parse failure |
| BuildScript.Message | build.rs:56-82 | each failure message names its failure at the start and ends with the whole compiler output |
| BuildScript.MessagesDiffer | build.rs:56-82 | "release not found" and "unexpected output" give different messages for the same compiler and output |
| BuildScript.VersionFile | build.rs:17 | the file holds the minor in decimal right after the record's head, then the nightly flag, `true` exactly for a nightly compiler |
| BuildScript.VersionFileRecordsVersion | build.rs:17 | the written file determines the version it was written from |
| TestSuiteBuild.RustcVersion | test_suite/build.rs:36-40 | a version comes only from a `release: ` line whose value starts with `1.`; nightly only when a `-` introduces a channel |
| TestSuiteBuild.ReleaseVersion | test_suite/build.rs:42-57 | an accepted release value starts with `1.`; nightly only when it holds a `-` |
| TestSuiteBuild.RustcVersionAgrees | test_suite/build.rs:36-57 | the test crate's parser gives the same minor and nightly flag as the main build script's on every output, and fails on the same outputs |
| TestSuiteBuild.EmitCfgs | test_suite/build.rs:11-25 | the printed names are those of the five whose threshold is met, in print order |
| TestSuiteBuild.Thresholds | test_suite/build.rs:11-25 | `has_min_const_fn` iff minor >= 31, `has_const_let` iff >= 33, `has_const_vec_new` iff >= 39, `has_const_match` iff >= 46, `const_unstable` iff nightly; no other name |
| TestSuiteBuild.SelectedMembers | test_suite/build.rs:11-25 | a name is printed iff it is one of the script's names and its threshold is met |
| TestSuiteBuild.SelectedGrowsWithMinor | test_suite/build.rs:11-22 | a newer compiler gets every name an older one gets |
| TestSuiteBuild.Run | test_suite/build.rs:5-26 | nothing is printed when the version is unknown; otherwise the threshold names |

## Left out

- Running the compiler, reading `RUSTC` and `OUT_DIR`, writing version.rs and printing cargo
  directives are I/O. The compiler's output is an input. The test script's `rustc_version`
  gets `None` for every failure before the text is available.
- The messages of the main build script's I/O failures are not modelled (failing to run the
  compiler, a non-zero exit, output that is not UTF-8). Only the two parse failures are.
- `proc_macro`, `proc_macro2` and `quote` are foreign libraries. Spans are opaque and
  punctuation spacing is not kept. `Render` joins the trees of a stream with single spaces,
  which approximates the `Display` text used in "unexpected token" messages.
- src/ast.rs is not part of this model.
  - `ast::parse_input` is an input to `ConstFn`.
  - The serialiser of the function item is `Serialize` over an `FnItem`.
  - `ast::LitStr` is approximated by `StrLitValue`: a literal is a string when it is delimited
    by double quotes, and its value is the text between them. Escapes are not decoded, raw
    and byte strings are not recognised, and a `"` inside the text is kept as it is.
- ConstFnMacro.ParseVersionReq: std's integer parse error texts are all one generic message,
  "invalid integer".
- Utils.CompileError: the message is written between double quotes without escaping.
- The "need to specify the major version" branch of `VersionReq::from_str` cannot be taken
  (`split` always yields a first piece), so it has no counterpart.
- `VERSION` comes from an `include!` of the generated file. It is a `CompilerVersion`
  parameter of `ConstFn` with the fields of src/lib.rs:199-203. Two differences with the
  record build.rs:30-33 writes are not modelled:
  - `minor` is a `u32` there and a `u16` here;
  - the `patch` field is never written there.
- test_suite/tests/test.rs, the test crate's tests of the attribute: they add no behaviour to model.
