/**
 * The pieces of Rust's `str` API the build scripts and the version parser use:
 * `find`, `split`, `splitn`, `lines`, `starts_with`, integer `Display` and
 * `parse` into an unsigned integer type.
 */
module Strings {
  import opened Wrappers

  type U16 = n: nat | n < 0x1_0000
  type U32 = n: nat | n < 0x1_0000_0000

  /** Index of the first occurrence of `c` in `s`. */
  function Find(s: string, c: char): (r: Option<nat>)
    ensures r.None? <==> c !in s
    ensures r.Some? ==> r.value < |s| && s[r.value] == c && c !in s[..r.value]
  {
    if |s| == 0 then None
    else if s[0] == c then Some(0)
    else
      match Find(s[1..], c)
      case None => None
      case Some(i) =>
        assert s[..i + 1] == [s[0]] + s[1..][..i];
        Some(i + 1)
  }

  /** A separator right after a piece free of it is found at the end of that piece. */
  lemma FindAfterPiece(x: string, c: char, y: string)
    requires c !in x
    ensures Find(x + [c] + y, c) == Some(|x|)
  {
    var s := x + [c] + y;
    assert s[|x|] == c;
    assert forall j :: 0 <= j < |x| ==> s[j] == x[j];
  }

  /** `s.split(sep)`: the pieces between separators; there is always at least one. */
  function Split(s: string, sep: char): (r: seq<string>)
    ensures |r| >= 1
    ensures forall k :: 0 <= k < |r| ==> sep !in r[k]
    decreases |s|
  {
    match Find(s, sep)
    case None => [s]
    case Some(i) =>
      var head, tail := s[..i], Split(s[i + 1..], sep);
      assert forall k :: 1 <= k < |tail| + 1 ==> ([head] + tail)[k] == tail[k - 1];
      [head] + tail
  }

  /** `pieces.join(sep)`, the inverse of `Split`. */
  function Join(pieces: seq<string>, sep: char): string
  {
    if |pieces| == 0 then ""
    else if |pieces| == 1 then pieces[0]
    else pieces[0] + [sep] + Join(pieces[1..], sep)
  }

  /** Splitting loses nothing: joining the pieces gives the text back. */
  lemma {:induction false} JoinSplit(s: string, sep: char)
    ensures Join(Split(s, sep), sep) == s
    decreases |s|
  {
    match Find(s, sep)
    case None =>
    case Some(i) =>
      var head, rest := s[..i], s[i + 1..];
      var ps := Split(s, sep);
      assert ps == [head] + Split(rest, sep);
      assert ps[1..] == Split(rest, sep);
      JoinSplit(rest, sep);
      calc {
        Join(ps, sep);
        ps[0] + [sep] + Join(ps[1..], sep);
        head + [sep] + rest;
        s;
      }
  }

  /** Joining pieces free of the separator and splitting again gives the pieces back. */
  lemma {:induction false} SplitJoin(pieces: seq<string>, sep: char)
    requires |pieces| >= 1
    requires forall k :: 0 <= k < |pieces| ==> sep !in pieces[k]
    ensures Split(Join(pieces, sep), sep) == pieces
  {
    if |pieces| > 1 {
      var rest := Join(pieces[1..], sep);
      var s := pieces[0] + [sep] + rest;
      assert Join(pieces, sep) == s;
      FindAfterPiece(pieces[0], sep, rest);
      assert s[..|pieces[0]|] == pieces[0];
      assert s[|pieces[0]| + 1..] == rest;
      SplitJoin(pieces[1..], sep);
      assert Split(s, sep) == [pieces[0]] + pieces[1..];
    }
  }

  /** `s.splitn(n, sep)`: like `Split`, but the last of at most `n` pieces keeps the rest. */
  function SplitN(s: string, n: nat, sep: char): (r: seq<string>)
    requires n >= 1
    ensures 1 <= |r| <= n
    ensures forall k :: 0 <= k < |r| - 1 ==> sep !in r[k]
    ensures |r| < n ==> sep !in r[|r| - 1]
    decreases n
  {
    if n == 1 then [s]
    else
      match Find(s, sep)
      case None => [s]
      case Some(i) =>
        var head, tail := s[..i], SplitN(s[i + 1..], n - 1, sep);
        assert forall k :: 1 <= k < |tail| + 1 ==> ([head] + tail)[k] == tail[k - 1];
        [head] + tail
  }

  /** `splitn` loses nothing either: joining its pieces gives the text back. */
  lemma {:induction false} JoinSplitN(s: string, n: nat, sep: char)
    requires n >= 1
    ensures Join(SplitN(s, n, sep), sep) == s
    decreases n
  {
    if n > 1 && Find(s, sep).Some? {
      var i := Find(s, sep).value;
      var head, rest := s[..i], s[i + 1..];
      var tail := SplitN(rest, n - 1, sep);
      SplitNAt(s, n, sep, i);
      JoinCons(head, tail, sep);
      JoinSplitN(rest, n - 1, sep);
      RejoinAt(s, sep, i);
    }
  }

  /** Where the separator is first found, `splitn` cuts. */
  lemma SplitNAt(s: string, n: nat, sep: char, i: nat)
    requires n > 1 && Find(s, sep) == Some(i)
    ensures SplitN(s, n, sep) == [s[..i]] + SplitN(s[i + 1..], n - 1, sep)
  {
  }

  lemma RejoinAt(s: string, sep: char, i: nat)
    requires i < |s| && s[i] == sep
    ensures s[..i] + [sep] + s[i + 1..] == s
  {
    assert s[i..] == [sep] + s[i + 1..];
    assert s == s[..i] + s[i..];
  }

  lemma JoinCons(head: string, tail: seq<string>, sep: char)
    requires |tail| >= 1
    ensures Join([head] + tail, sep) == head + [sep] + Join(tail, sep)
  {
    assert ([head] + tail)[1..] == tail;
  }

  /** The first piece of a split is cut at the first separator. */
  lemma SplitAfterPiece(x: string, sep: char, y: string)
    requires sep !in x
    ensures Split(x + [sep] + y, sep) == [x] + Split(y, sep)
  {
    var s := x + [sep] + y;
    FindAfterPiece(x, sep, y);
    assert s[..|x|] == x;
    assert s[|x| + 1..] == y;
  }

  /** The text starts with the first piece of its split, and splits at all only when it
      holds the separator. */
  lemma SplitHead(s: string, sep: char)
    ensures StartsWith(s, Split(s, sep)[0])
    ensures |Split(s, sep)| > 1 ==> sep in s
  {
  }

  /** When `splitn` cuts, the text starts with the first piece and the separator. */
  lemma SplitNHead(s: string, n: nat, sep: char)
    requires n >= 1
    ensures |SplitN(s, n, sep)| > 1 ==> StartsWith(s, SplitN(s, n, sep)[0] + [sep])
  {
    if |SplitN(s, n, sep)| > 1 {
      var i := Find(s, sep).value;
      assert s[..i + 1] == s[..i] + [sep];
    }
  }

  /** The first piece of `splitn` is cut at the first separator. */
  lemma SplitNAfterPiece(x: string, sep: char, y: string, n: nat)
    requires n >= 2 && sep !in x
    ensures SplitN(x + [sep] + y, n, sep) == [x] + SplitN(y, n - 1, sep)
  {
    var s := x + [sep] + y;
    FindAfterPiece(x, sep, y);
    assert s[..|x|] == x;
    assert s[|x| + 1..] == y;
  }

  predicate StartsWith(s: string, prefix: string)
  {
    |prefix| <= |s| && s[..|prefix|] == prefix
  }

  /** The line terminator of `lines` is `\n` or `\r\n`. */
  function StripCr(line: string): string
  {
    if |line| > 0 && line[|line| - 1] == '\r' then line[..|line| - 1] else line
  }

  /** `s.lines()`: pieces ended by `\n`, each losing one `\r` before it; an unterminated
      last line is kept as it is, an empty one is not a line. */
  function Lines(s: string): (r: seq<string>)
    ensures s == "" ==> r == []
    // an unterminated last line is a line too, kept as it is
    ensures '\n' !in s && s != "" ==> r == [s]
    ensures forall k :: 0 <= k < |r| ==> '\n' !in r[k]
    decreases |s|
  {
    match Find(s, '\n')
    case None => if s == "" then [] else [s]
    case Some(i) =>
      var line, later := StripCr(s[..i]), Lines(s[i + 1..]);
      assert forall k :: 1 <= k < |later| + 1 ==> ([line] + later)[k] == later[k - 1];
      [line] + later
  }

  /** Lines, each terminated by `\n`. */
  function Unlines(lines: seq<string>): string
  {
    if |lines| == 0 then "" else lines[0] + "\n" + Unlines(lines[1..])
  }

  /** Each line with its `\r` terminator removed. */
  function StripAll(lines: seq<string>): (r: seq<string>)
    ensures |r| == |lines|
  {
    if |lines| == 0 then [] else [StripCr(lines[0])] + StripAll(lines[1..])
  }

  /** A terminated line in front of some text is the first of its lines. */
  lemma LinesCons(line: string, tail: string)
    requires '\n' !in line
    ensures Lines(line + "\n" + tail) == [StripCr(line)] + Lines(tail)
  {
    var s := line + "\n" + tail;
    FindAfterPiece(line, '\n', tail);
    assert s[..|line|] == line;
    assert s[|line| + 1..] == tail;
  }

  lemma {:induction false} StripAllAt(lines: seq<string>)
    ensures forall k :: 0 <= k < |lines| ==> StripAll(lines)[k] == StripCr(lines[k])
  {
    if |lines| > 0 {
      StripAllAt(lines[1..]);
      assert forall k :: 1 <= k < |lines| ==> StripAll(lines)[k] == StripAll(lines[1..])[k - 1];
    }
  }

  /** Terminated lines in front of some text come out of `Lines` first, in order. */
  lemma {:induction false} LinesAfter(header: seq<string>, rest: string)
    requires forall k :: 0 <= k < |header| ==> '\n' !in header[k]
    ensures Lines(Unlines(header) + rest) == StripAll(header) + Lines(rest)
    decreases |header|, 1
  {
    if |header| > 0 {
      var first, later := header[0], header[1..];
      var tail := Unlines(later) + rest;
      calc {
        Lines(Unlines(header) + rest);
        { UnlinesCons(header, rest); }
        Lines(first + "\n" + tail);
        { LinesCons(first, tail); }
        [StripCr(first)] + Lines(tail);
        { LinesAfterTail(header, rest); }
        [StripCr(first)] + (StripAll(later) + Lines(rest));
        ([StripCr(first)] + StripAll(later)) + Lines(rest);
      }
    } else {
      assert Unlines(header) + rest == rest;
    }
  }

  lemma {:induction false} LinesAfterTail(header: seq<string>, rest: string)
    requires |header| > 0
    requires forall k :: 0 <= k < |header| ==> '\n' !in header[k]
    ensures Lines(Unlines(header[1..]) + rest) == StripAll(header[1..]) + Lines(rest)
    decreases |header|, 0
  {
    var later := header[1..];
    assert forall k :: 0 <= k < |later| ==> later[k] == header[k + 1];
    LinesAfter(later, rest);
  }

  lemma UnlinesCons(lines: seq<string>, rest: string)
    requires |lines| > 0
    ensures Unlines(lines) + rest == lines[0] + "\n" + (Unlines(lines[1..]) + rest)
  {
  }

  /** Index of the first line that starts with `prefix`. */
  function FindLine(lines: seq<string>, prefix: string): (r: Option<nat>)
    ensures r.None? <==> forall k :: 0 <= k < |lines| ==> !StartsWith(lines[k], prefix)
    ensures r.Some? ==> r.value < |lines| && StartsWith(lines[r.value], prefix)
    ensures r.Some? ==> forall k :: 0 <= k < r.value ==> !StartsWith(lines[k], prefix)
  {
    if |lines| == 0 then None
    else if StartsWith(lines[0], prefix) then Some(0)
    else
      match FindLine(lines[1..], prefix)
      case None => None
      case Some(i) => Some(i + 1)
  }

  /** The rest of the first line of `text` that starts with `prefix`, after the prefix. */
  function FirstLineWithPrefix(text: string, prefix: string): (r: Option<string>)
    ensures r.None? <==> forall k :: 0 <= k < |Lines(text)| ==> !StartsWith(Lines(text)[k], prefix)
    ensures r.Some? ==> var i := FindLine(Lines(text), prefix);
                        i.Some? && Lines(text)[i.value] == prefix + r.value
  {
    var found := FindLine(Lines(text), prefix);
    if found.None? then None
    else
      var line := Lines(text)[found.value];
      assert line == prefix + line[|prefix|..];
      Some(line[|prefix|..])
  }

  /** A line that starts with `prefix` after lines that do not is the one found. */
  lemma FindLineAt(lines: seq<string>, prefix: string, i: nat)
    requires i < |lines| && StartsWith(lines[i], prefix)
    requires forall k :: 0 <= k < i ==> !StartsWith(lines[k], prefix)
    ensures FindLine(lines, prefix) == Some(i)
  {
  }

  /** `Lines` undoes `Unlines` for lines that hold no `\n` and do not end in `\r`. */
  lemma LinesOfUnlines(lines: seq<string>)
    requires forall k :: 0 <= k < |lines| ==> '\n' !in lines[k]
    requires forall k :: 0 <= k < |lines| ==> StripCr(lines[k]) == lines[k]
    ensures Lines(Unlines(lines)) == lines
  {
    LinesAfter(lines, "");
    StripAllAt(lines);
    assert Unlines(lines) + "" == Unlines(lines);
  }

  /** The lines of some terminated lines, one more terminated line, and a trailer. */
  lemma LinesThrough(header: seq<string>, line: string, trailer: string)
    requires forall k :: 0 <= k < |header| ==> '\n' !in header[k]
    requires '\n' !in line
    ensures Lines(Unlines(header) + line + "\n" + trailer)
         == StripAll(header) + [StripCr(line)] + Lines(trailer)
  {
    assert Unlines(header) + line + "\n" + trailer == Unlines(header) + (line + "\n" + trailer);
    LinesAfter(header, line + "\n" + trailer);
    LinesCons(line, trailer);
  }

  /** In lines that start with stripped header lines none of which starts with `prefix`,
      the first line after the header is found when it starts with `prefix`. */
  lemma FindLineAfterStripped(header: seq<string>, line: string, rest: seq<string>,
                              prefix: string)
    requires forall k :: 0 <= k < |header| ==> !StartsWith(StripCr(header[k]), prefix)
    requires StartsWith(line, prefix)
    ensures FindLine(StripAll(header) + [line] + rest, prefix) == Some(|header|)
  {
    var lines := StripAll(header) + [line] + rest;
    StripAllAt(header);
    forall k | 0 <= k < |header| ensures !StartsWith(lines[k], prefix) {
      assert lines[k] == StripAll(header)[k];
    }
    FindLineAt(lines, prefix, |header|);
  }

  /** After terminated lines none of which starts with `prefix`, a terminated line that does
      is the one found, and what follows the prefix on it is the result. */
  lemma FirstLineAfterHeader(header: seq<string>, line: string, trailer: string, prefix: string)
    requires forall k :: 0 <= k < |header| ==> '\n' !in header[k]
    requires forall k :: 0 <= k < |header| ==> !StartsWith(StripCr(header[k]), prefix)
    requires '\n' !in line && StartsWith(StripCr(line), prefix)
    ensures FirstLineWithPrefix(Unlines(header) + line + "\n" + trailer, prefix)
         == Some(StripCr(line)[|prefix|..])
  {
    var text := Unlines(header) + line + "\n" + trailer;
    LinesThrough(header, line, trailer);
    FindLineAfterStripped(header, StripCr(line), Lines(trailer), prefix);
    assert Lines(text)[|header|] == StripCr(line);
  }

  predicate IsDigit(c: char)
  {
    '0' <= c <= '9'
  }

  predicate AllDigits(s: string)
  {
    forall i :: 0 <= i < |s| ==> IsDigit(s[i])
  }

  /** The number a string of decimal digits denotes; leading zeros are allowed. */
  function DigitsValue(s: string): nat
    requires AllDigits(s)
    decreases |s|
  {
    if |s| == 0 then 0
    else DigitsValue(s[..|s| - 1]) * 10 + (s[|s| - 1] as int - '0' as int)
  }

  function DigitChar(d: nat): char
    requires d < 10
  {
    ('0' as int + d) as char
  }

  /** `n.to_string()`: the decimal digits of `n`, without leading zeros. */
  function Dec(n: nat): (r: string)
    ensures |r| >= 1 && AllDigits(r)
  {
    if n < 10 then [DigitChar(n)] else Dec(n / 10) + [DigitChar(n % 10)]
  }

  /** Formatting a number and reading it back gives the number. */
  lemma {:induction false} DecValue(n: nat)
    ensures DigitsValue(Dec(n)) == n
  {
    if n >= 10 {
      DecValue(n / 10);
      var s := Dec(n);
      assert s[..|s| - 1] == Dec(n / 10);
    }
  }

  /**
   * `s.parse::<uN>()` where `limit` is 2^N: an optional `+`, then one or more ASCII digits
   * (leading zeros allowed) whose value is below `limit`. The error kinds are not kept.
   */
  function ParseUnsigned(s: string, limit: nat): (r: Option<nat>)
    ensures r.Some? ==> r.value < limit
    ensures r.Some? ==> |s| >= 1 && forall i :: 0 <= i < |s| ==> IsDigit(s[i]) || (i == 0 && s[i] == '+')
    // a lone `+` is refused: an accepted text ends in a digit, and its value is that of
    // the digits after the optional sign
    ensures r.Some? ==> IsDigit(s[|s| - 1]) && r.value == DigitsValue(UnsignedDigits(s))
  {
    var digits := UnsignedDigits(s);
    if |digits| > 0 && AllDigits(digits) && DigitsValue(digits) < limit then
      Some(DigitsValue(digits))
    else
      None
  }

  /** The text after an optional leading `+`. */
  function UnsignedDigits(s: string): (r: string)
    ensures |s| > 0 && s[0] == '+' ==> s == "+" + r
    ensures !(|s| > 0 && s[0] == '+') ==> s == r
  {
    if |s| > 0 && s[0] == '+' then s[1..] else s
  }

  /** Every non-empty digit string whose value is below the limit parses to that value, with
      or without a `+` in front; leading zeros do not change the value. */
  lemma ParseDigits(digits: string, limit: nat)
    requires |digits| >= 1 && AllDigits(digits) && DigitsValue(digits) < limit
    ensures ParseUnsigned(digits, limit) == Some(DigitsValue(digits))
    ensures ParseUnsigned("+" + digits, limit) == Some(DigitsValue(digits))
    ensures ParseUnsigned("0" + digits, limit) == Some(DigitsValue(digits))
  {
    assert ("+" + digits)[1..] == digits;
    LeadingZero(digits);
  }

  /** A leading zero adds nothing to the value. */
  lemma {:induction false} LeadingZero(digits: string)
    requires AllDigits(digits)
    ensures AllDigits("0" + digits) && DigitsValue("0" + digits) == DigitsValue(digits)
    decreases |digits|
  {
    var z := "0" + digits;
    if |digits| > 0 {
      var init := digits[..|digits| - 1];
      LeadingZero(init);
      assert z[..|z| - 1] == "0" + init;
    }
  }

  /** Every number below the limit parses back from its decimal text, with or without a `+`. */
  lemma ParseDec(n: nat, limit: nat)
    requires n < limit
    ensures ParseUnsigned(Dec(n), limit) == Some(n)
    ensures ParseUnsigned("+" + Dec(n), limit) == Some(n)
  {
    DecValue(n);
    ParseDigits(Dec(n), limit);
  }

  /** A number at or past the limit does not fit. */
  lemma ParseDecTooLarge(n: nat, limit: nat)
    requires n >= limit
    ensures ParseUnsigned(Dec(n), limit) == None
  {
    DecValue(n);
  }

  /** Numeric text never holds the separators the parsers split on. */
  lemma DecHasNoSeparator(n: nat, c: char)
    requires !IsDigit(c)
    ensures c !in Dec(n)
  {
  }
}
