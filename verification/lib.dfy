/**
 * src/lib.rs: the `#[const_fn(...)]` attribute. The argument is parsed into one of four
 * forms; the function either keeps or loses its `const` qualifier, or is emitted twice
 * under complementary `cfg` guards.
 */
module ConstFnMacro {
  import opened Wrappers
  import opened Tokens
  import opened Strings
  import opened Utils

  /** `VersionReq`: the `"MAJOR.MINOR"` a version argument asks for. */
  datatype VersionReq = VersionReq(major: U16, minor: U16)

  /** `Arg`: the four argument forms. */
  datatype Arg =
    | Version(req: VersionReq)       // `const_fn("...")`
    | Nightly                        // `const_fn(nightly)`
    | Cfg(cond: seq<Token>)          // `const_fn(cfg(...))`: the tokens inside the parentheses
    | Feature(feature: seq<Token>)   // `const_fn(feature = "...")`: the whole argument

  const ExpectedOneOf := "expected one of: `nightly`, `cfg`, `feature`, string literal"
  const ExpectedParen := "expected `(`"
  const ExpectedEq := "expected `=`"
  const NeedMinor := "need to specify the minor version"
  /** Stands for the text of std's integer parse error, which is not modelled. */
  const InvalidInteger := "invalid integer"

  /** `s.parse::<u16>()` */
  function ParseU16(s: string): (r: Option<U16>)
    ensures r.Some? <==> ParseUnsigned(s, 0x1_0000).Some?
    ensures r.Some? ==> r.value == ParseUnsigned(s, 0x1_0000).value
  {
    match ParseUnsigned(s, 0x1_0000)
    case None => None
    case Some(n) => Some(n)
  }

  /** `VersionReq::from_str`: exactly two `.`-separated segments, each a `u16`. */
  function ParseVersionReq(s: string): (r: Result<VersionReq, string>)
    ensures r.Ok? <==> |Split(s, '.')| == 2 && ParseU16(Split(s, '.')[0]).Some?
                       && ParseU16(Split(s, '.')[1]).Some?
    ensures r.Ok? ==> ParseU16(Split(s, '.')[0]) == Some(r.value.major)
                      && ParseU16(Split(s, '.')[1]) == Some(r.value.minor)
  {
    var pieces := Split(s, '.');
    match ParseU16(pieces[0])
    case None => Err(InvalidInteger)
    case Some(major) =>
      if |pieces| < 2 then Err(NeedMinor)
      else
        match ParseU16(pieces[1])
        case None => Err(InvalidInteger)
        case Some(minor) =>
          if |pieces| > 2 then Err("unexpected input: " + pieces[2])
          else Ok(VersionReq(major, minor))
  }

  /** Every pair of `u16` values written as `"a.b"` parses back to itself. */
  lemma VersionReqRoundTrip(a: U16, b: U16)
    ensures ParseVersionReq(Dec(a) + "." + Dec(b)) == Ok(VersionReq(a, b))
  {
    var pieces := [Dec(a), Dec(b)];
    assert Join(pieces, '.') == Dec(a) + "." + Dec(b) by {
      assert pieces[1..] == [Dec(b)];
    }
    SplitJoin(pieces, '.');
    ParseDec(a, 0x1_0000);
    ParseDec(b, 0x1_0000);
  }

  /** A third segment is reported by its own text, whatever follows it. */
  lemma VersionReqExtraSegment(a: U16, b: U16, rest: string)
    ensures ParseVersionReq(Dec(a) + "." + (Dec(b) + "." + rest))
         == Err("unexpected input: " + Split(rest, '.')[0])
  {
    DecHasNoSeparator(a, '.');
    DecHasNoSeparator(b, '.');
    ParseDec(a, 0x1_0000);
    ParseDec(b, 0x1_0000);
    ExtraSegmentAfter(Dec(a), Dec(b), rest);
  }

  lemma ExtraSegmentAfter(x: string, y: string, rest: string)
    requires '.' !in x && '.' !in y
    requires ParseU16(x).Some? && ParseU16(y).Some?
    ensures ParseVersionReq(x + "." + (y + "." + rest))
         == Err("unexpected input: " + Split(rest, '.')[0])
  {
    SplitAfterPiece(y, '.', rest);
    SplitAfterPiece(x, '.', y + "." + rest);
    ExtraSegmentOfPieces(x + "." + (y + "." + rest), [x] + ([y] + Split(rest, '.')));
  }

  lemma ExtraSegmentOfPieces(s: string, pieces: seq<string>)
    requires Split(s, '.') == pieces && |pieces| >= 3
    requires ParseU16(pieces[0]).Some? && ParseU16(pieces[1]).Some?
    ensures ParseVersionReq(s) == Err("unexpected input: " + pieces[2])
  {
  }

  /** A single number asks for the minor version. */
  lemma VersionReqMissingMinor(a: U16)
    ensures ParseVersionReq(Dec(a)) == Err(NeedMinor)
  {
    SplitJoin([Dec(a)], '.');
    ParseDec(a, 0x1_0000);
  }

  /** Numbers past 65535, and segments that are empty or not numeric, are refused. */
  lemma VersionReqBadSegment(s: string)
    ensures ParseU16(Split(s, '.')[0]).None? ==> ParseVersionReq(s) == Err(InvalidInteger)
    ensures (|Split(s, '.')| >= 2 && ParseU16(Split(s, '.')[0]).Some?
             && ParseU16(Split(s, '.')[1]).None?) ==> ParseVersionReq(s) == Err(InvalidInteger)
  {
  }

  /** A major or minor past 65535 never parses. */
  lemma VersionReqOverflow(a: nat, b: nat)
    requires a >= 0x1_0000 || b >= 0x1_0000
    ensures ParseVersionReq(Dec(a) + "." + Dec(b)).Err?
  {
    var pieces := [Dec(a), Dec(b)];
    assert Join(pieces, '.') == Dec(a) + "." + Dec(b) by {
      assert pieces[1..] == [Dec(b)];
    }
    DecHasNoSeparator(a, '.');
    DecHasNoSeparator(b, '.');
    SplitJoin(pieces, '.');
    if a >= 0x1_0000 {
      ParseDecTooLarge(a, 0x1_0000);
    } else {
      ParseDecTooLarge(b, 0x1_0000);
    }
  }

  /** `ast::LitStr::new(l).value()`: a literal delimited by double quotes, and its contents.
      Escapes are not decoded and raw strings are not recognised. */
  function StrLitValue(text: string): (r: Option<string>)
    ensures r.Some? ==> text == "\"" + r.value + "\""
  {
    if |text| >= 2 && text[0] == '"' && text[|text| - 1] == '"' then
      Some(text[1..|text| - 1])
    else
      None
  }

  predicate IsIdent(t: Token, name: string)
  {
    t.Ident? && t.name == name
  }

  predicate IsParenGroup(t: Token)
  {
    t.Group? && t.delimiter == Parenthesis
  }

  /** `parse_arg`: the argument forms in priority order `nightly`, `cfg(...)`,
      `feature = "..."`, string literal; anything else is refused. */
  function ParseArg(tokens: seq<Token>): (r: Result<Arg, Diagnostic>)
    ensures |tokens| == 0 ==> r == Err(Diagnostic(CallSite, ExpectedOneOf))
    ensures r.Err? ==> r.error.span == CallSite
                       || exists k :: 0 <= k < |tokens| && r.error.span == tokens[k].span
    ensures r.Ok? && r.value.Nightly? ==> |tokens| == 1 && IsIdent(tokens[0], "nightly")
    ensures r.Ok? && r.value.Cfg? ==>
              |tokens| == 2 && IsIdent(tokens[0], "cfg") && IsParenGroup(tokens[1])
              && r.value.cond == tokens[1].stream
    ensures r.Ok? && r.value.Feature? ==>
              r.value.feature == tokens && |tokens| == 3 && IsIdent(tokens[0], "feature")
              && tokens[1] == Punct('=', tokens[1].span)
              && tokens[2].Literal? && StartsWith(tokens[2].text, "\"")
    ensures r.Ok? && r.value.Version? ==>
              |tokens| == 1 && tokens[0].Literal? && StrLitValue(tokens[0].text).Some?
              && ParseVersionReq(StrLitValue(tokens[0].text).value) == Ok(r.value.req)
  {
    var next := Nth(tokens, 0);
    var expectedOneOf := Err(Diagnostic(TtSpan(next), ExpectedOneOf));
    if next.None? then expectedOneOf
    else
      match next.value
      case Ident(name, _) =>
        if name == "nightly" then
          (match ParseAsEmpty(tokens[1..])
           case Err(e) => Err(e)
           case Ok(_) => Ok(Nightly))
        else if name == "cfg" then
          var tt := Nth(tokens, 1);
          if tt.Some? && IsParenGroup(tt.value) then
            (match ParseAsEmpty(tokens[2..])
             case Err(e) => Err(e)
             case Ok(_) => Ok(Cfg(tt.value.stream)))
          else
            Err(Diagnostic(TtSpan(tt), ExpectedParen))
        else if name == "feature" then
          var eq := Nth(tokens, 1);
          if eq.Some? && eq.value.Punct? && eq.value.ch == '=' then
            var lit := Nth(tokens, 2);
            if lit.Some? && lit.value.Literal? && StartsWith(lit.value.text, "\"") then
              (match ParseAsEmpty(tokens[3..])
               case Err(e) => Err(e)
               case Ok(_) => Ok(Feature(tokens)))
            else
              Err(Diagnostic(TtSpan(lit), ExpectedEq))
          else
            Err(Diagnostic(TtSpan(eq), ExpectedEq))
        else
          expectedOneOf
      case Literal(text, span) =>
        (match StrLitValue(text)
         case None => expectedOneOf
         case Some(value) =>
           (match ParseAsEmpty(tokens[1..])
            case Err(e) => Err(e)
            case Ok(_) =>
              (match ParseVersionReq(value)
               case Ok(req) => Ok(Version(req))
               case Err(msg) => Err(Diagnostic(span, msg)))))
      case _ => expectedOneOf
  }

  /** The diagnostic `parse_as_empty` gives for a leftover tree. */
  function Unexpected(t: Token): Diagnostic
  {
    Diagnostic(t.span, "unexpected token: " + Render(t))
  }

  /** `nightly` alone is accepted; the first extra tree is reported at its span. */
  lemma ParseNightly(tokens: seq<Token>)
    requires |tokens| >= 1 && IsIdent(tokens[0], "nightly")
    ensures |tokens| == 1 ==> ParseArg(tokens) == Ok(Nightly)
    ensures |tokens| > 1 ==> ParseArg(tokens) == Err(Unexpected(tokens[1]))
  {
  }

  /** `cfg` needs a parenthesised group next and nothing after it; the condition is the
      group's inner stream. */
  lemma ParseCfg(tokens: seq<Token>)
    requires |tokens| >= 1 && IsIdent(tokens[0], "cfg")
    ensures |tokens| == 1 ==> ParseArg(tokens) == Err(Diagnostic(CallSite, ExpectedParen))
    ensures |tokens| >= 2 && !IsParenGroup(tokens[1]) ==>
              ParseArg(tokens) == Err(Diagnostic(tokens[1].span, ExpectedParen))
    ensures |tokens| == 2 && IsParenGroup(tokens[1]) ==>
              ParseArg(tokens) == Ok(Cfg(tokens[1].stream))
    ensures |tokens| > 2 && IsParenGroup(tokens[1]) ==>
              ParseArg(tokens) == Err(Unexpected(tokens[2]))
  {
  }

  /** `feature = "..."` keeps the whole argument; a missing `=` and a missing string literal
      are both reported as "expected `=`". */
  lemma ParseFeature(tokens: seq<Token>)
    requires |tokens| >= 1 && IsIdent(tokens[0], "feature")
    ensures |tokens| == 1 ==> ParseArg(tokens) == Err(Diagnostic(CallSite, ExpectedEq))
    ensures |tokens| >= 2 && !(tokens[1].Punct? && tokens[1].ch == '=') ==>
              ParseArg(tokens) == Err(Diagnostic(tokens[1].span, ExpectedEq))
    ensures |tokens| == 2 && tokens[1].Punct? && tokens[1].ch == '=' ==>
              ParseArg(tokens) == Err(Diagnostic(CallSite, ExpectedEq))
    ensures |tokens| >= 3 && tokens[1].Punct? && tokens[1].ch == '='
            && !(tokens[2].Literal? && StartsWith(tokens[2].text, "\"")) ==>
              ParseArg(tokens) == Err(Diagnostic(tokens[2].span, ExpectedEq))
    ensures |tokens| == 3 && tokens[1].Punct? && tokens[1].ch == '='
            && tokens[2].Literal? && StartsWith(tokens[2].text, "\"") ==>
              ParseArg(tokens) == Ok(Feature(tokens))
    ensures |tokens| > 3 && tokens[1].Punct? && tokens[1].ch == '='
            && tokens[2].Literal? && StartsWith(tokens[2].text, "\"") ==>
              ParseArg(tokens) == Err(Unexpected(tokens[3]))
  {
  }

  /** A string literal: a trailing tree is reported before the version is looked at; a
      version that does not parse is reported at the literal with the parser's message. */
  lemma ParseStringLiteral(tokens: seq<Token>)
    requires |tokens| >= 1 && tokens[0].Literal? && StrLitValue(tokens[0].text).Some?
    ensures |tokens| > 1 ==> ParseArg(tokens) == Err(Unexpected(tokens[1]))
    ensures |tokens| == 1 ==>
              var v := ParseVersionReq(StrLitValue(tokens[0].text).value);
              ParseArg(tokens) == if v.Ok? then Ok(Version(v.value))
                                  else Err(Diagnostic(tokens[0].span, v.error))
  {
  }

  /** A quoted text is a string literal holding that text. */
  lemma StrLitQuoted(inner: string)
    ensures StrLitValue("\"" + inner + "\"") == Some(inner)
  {
  }

  /** Every `"a.b"` literal for `u16` values is accepted as that requirement. */
  lemma ParseVersionLiteral(a: U16, b: U16, text: string, span: Span)
    requires text == "\"" + Dec(a) + "." + Dec(b) + "\""
    ensures ParseArg([Literal(text, span)]) == Ok(Version(VersionReq(a, b)))
  {
    var inner := Dec(a) + "." + Dec(b);
    assert text == "\"" + inner + "\"";
    StrLitQuoted(inner);
    ParseVersionOfLiteral(text, a, b, span);
  }

  lemma ParseVersionOfLiteral(text: string, a: U16, b: U16, span: Span)
    requires StrLitValue(text) == Some(Dec(a) + "." + Dec(b))
    ensures ParseArg([Literal(text, span)]) == Ok(Version(VersionReq(a, b)))
  {
    VersionReqRoundTrip(a, b);
    ParseStringLiteral([Literal(text, span)]);
  }

  /** Any other first tree (another identifier, punctuation, a group, a literal that is not a
      string) is refused at its own span with the list of accepted forms. */
  lemma ParseOther(tokens: seq<Token>)
    requires |tokens| >= 1
    requires !IsIdent(tokens[0], "nightly") && !IsIdent(tokens[0], "cfg")
             && !IsIdent(tokens[0], "feature")
    requires tokens[0].Literal? ==> StrLitValue(tokens[0].text).None?
    ensures ParseArg(tokens) == Err(Diagnostic(tokens[0].span, ExpectedOneOf))
  {
  }

  /** The `Version` record the build script generates: the compiler's version and channel. */
  datatype CompilerVersion = CompilerVersion(minor: U16, patch: U16, nightly: bool)

  /** The annotated function as `ast::parse_input` gives it: the tokens before the `const`
      keyword (attributes, visibility), the keyword's span, whether to print it, and the rest
      (signature and body). */
  datatype FnItem = FnItem(head: seq<Token>, constSpan: Span, printConst: bool, tail: seq<Token>)

  /** The function's `ToTokens`: `const` is printed exactly when `printConst` holds. */
  function Serialize(f: FnItem): (r: seq<Token>)
    ensures |r| == |f.head| + (if f.printConst then 1 else 0) + |f.tail|
    ensures r[..|f.head|] == f.head && r[|r| - |f.tail|..] == f.tail
    ensures f.printConst ==> r[|f.head|] == Ident("const", f.constSpan)
  {
    var r := f.head + (if f.printConst then [Ident("const", f.constSpan)] else []) + f.tail;
    assert r[..|f.head|] == f.head;
    assert r[|r| - |f.tail|..] == f.tail;
    r
  }

  /** The two copies of a guarded expansion differ only in the `const` keyword: the second is
      the first with that one token removed when the first prints it, and equal otherwise. */
  lemma CopiesDifferInConst(f: FnItem)
    ensures var plain := Serialize(f.(printConst := false));
            if f.printConst then
              Serialize(f) == plain[..|f.head|] + [Ident("const", f.constSpan)] + plain[|f.head|..]
            else
              Serialize(f) == plain
  {
  }

  /** The attribute `#[cfg(cond)]`. */
  function CfgAttr(cond: seq<Token>): (r: seq<Token>)
    ensures |r| == 2 && r[0] == Punct('#', CallSite)
    ensures r[1].Group? && r[1].delimiter == Bracket && |r[1].stream| == 2
    ensures r[1].stream[0] == Ident("cfg", CallSite)
    ensures r[1].stream[1].Group? && r[1].stream[1].delimiter == Parenthesis
            && r[1].stream[1].stream == cond
    ensures RenderStream(r) == "# [cfg (" + RenderStream(cond) + ")]"
  {
    var paren := Group(Parenthesis, cond, CallSite);
    var bracket := Group(Bracket, [Ident("cfg", CallSite), paren], CallSite);
    RenderPair(Ident("cfg", CallSite), paren);
    RenderPair(Punct('#', CallSite), bracket);
    CfgText(RenderStream(cond));
    [Punct('#', CallSite), bracket]
  }

  lemma CfgText(x: string)
    ensures "#" + " " + ("[" + ("cfg" + " " + ("(" + x + ")")) + "]") == "# [cfg (" + x + ")]"
  {
  }

  /** The negated condition `not(cond)`. */
  function Not(cond: seq<Token>): (r: seq<Token>)
    ensures |r| == 2 && r[0] == Ident("not", CallSite)
    ensures r[1].Group? && r[1].delimiter == Parenthesis && r[1].stream == cond
    ensures RenderStream(r) == "not (" + RenderStream(cond) + ")"
  {
    var paren := Group(Parenthesis, cond, CallSite);
    RenderPair(Ident("not", CallSite), paren);
    assert Render(paren) == "(" + RenderStream(cond) + ")";
    [Ident("not", CallSite), paren]
  }

  /** `const_fn`: `args` is the attribute's argument, `input` what `ast::parse_input` made of
      the annotated item, `version` the compiler version the build script found. */
  method ConstFn(args: seq<Token>, input: Result<FnItem, Diagnostic>, version: CompilerVersion)
    returns (out: seq<Token>)
    // an argument error wins over an item error; either is the whole output
    ensures ParseArg(args).Err? ==> out == CompileError(ParseArg(args).error)
    ensures ParseArg(args).Ok? && input.Err? ==> out == CompileError(input.error)
    // `cfg(G)` and `feature = "..."`: the function under `cfg(G)`, then under `cfg(not(G))`
    // the same function without `const`
    ensures ParseArg(args).Ok? && ParseArg(args).value.Cfg? && input.Ok? ==>
              var g := ParseArg(args).value.cond;
              out == CfgAttr(g) + Serialize(input.value)
                     + CfgAttr(Not(g)) + Serialize(input.value.(printConst := false))
    ensures ParseArg(args).Ok? && ParseArg(args).value.Feature? && input.Ok? ==>
              var g := ParseArg(args).value.feature;
              out == CfgAttr(g) + Serialize(input.value)
                     + CfgAttr(Not(g)) + Serialize(input.value.(printConst := false))
    // a version requirement: one copy, `const` kept iff the compiler is new enough
    ensures ParseArg(args).Ok? && ParseArg(args).value.Version? && input.Ok? ==>
              var req := ParseArg(args).value.req;
              var keep := req.major <= 1 && req.minor <= version.minor;
              out == Serialize(input.value.(printConst := input.value.printConst && keep))
    // `nightly`: one copy, `const` kept iff the compiler is a nightly or dev build
    ensures ParseArg(args).Ok? && ParseArg(args).value.Nightly? && input.Ok? ==>
              out == Serialize(input.value.(printConst := input.value.printConst && version.nightly))
  {
    var arg: Arg;
    match ParseArg(args) {
      case Err(e) => return CompileError(e);
      case Ok(a) => arg := a;
    }
    var func: FnItem;
    match input {
      case Err(e) => return CompileError(e);
      case Ok(f) => func := f;
    }
    if arg.Cfg? || arg.Feature? {
      // the two arms of the source differ only in where the guard comes from
      var g := if arg.Cfg? then arg.cond else arg.feature;
      var tokens := new TokenStream.From(CfgAttr(g));
      tokens.Extend(Serialize(func));
      tokens.Extend(CfgAttr(Not(g)));
      func := func.(printConst := false);
      tokens.Extend(Serialize(func));
      out := tokens.tokens;
    } else if arg.Version? {
      if arg.req.major > 1 || arg.req.minor > version.minor {
        func := func.(printConst := false);
      }
      out := Serialize(func);
    } else {
      if !version.nightly {
        func := func.(printConst := false);
      }
      out := Serialize(func);
    }
  }
}
