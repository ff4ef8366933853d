/**
 * The helpers of src/utils.rs: the `error!` macro, `tt_span` and `parse_as_empty`.
 */
module Utils {
  import opened Wrappers
  import opened Tokens

  /** What `error!(span, msg)` stands for: a compile error reported at `span`. */
  datatype Diagnostic = Diagnostic(span: Span, message: string)

  /** The tokens `error!` expands to, `compile_error! { "message" }`, spanned at the error's
      location. The message literal is written between double quotes without escaping. */
  function CompileError(d: Diagnostic): (ts: seq<Token>)
    ensures |ts| == 3 && ts[0] == Ident("compile_error", d.span) && ts[1] == Punct('!', d.span)
    ensures forall k :: 0 <= k < |ts| ==> ts[k].span == d.span
    // the braces hold one string literal: the message between double quotes
    ensures ts[2].Group? && ts[2].delimiter == Brace && |ts[2].stream| == 1
    ensures ts[2].stream[0].Literal? && var text := ts[2].stream[0].text;
            |text| == |d.message| + 2 && text[0] == '"' && text[|text| - 1] == '"'
            && text[1..|text| - 1] == d.message
  {
    var text := "\"" + d.message + "\"";
    assert text[1..|text| - 1] == d.message;
    [ Ident("compile_error", d.span),
      Punct('!', d.span),
      Group(Brace, [Literal(text, CallSite)], d.span) ]
  }

  /** The expansion determines the diagnostic: its span and its whole message. */
  lemma CompileErrorRecordsDiagnostic(d: Diagnostic, e: Diagnostic)
    requires CompileError(d) == CompileError(e)
    ensures d == e
  {
    var text := CompileError(d)[2].stream[0].text;
    assert d.message == text[1..|text| - 1] == e.message;
  }

  /** The next tree of an iterator over `ts` after `i` trees were taken. */
  function Nth(ts: seq<Token>, i: nat): (r: Option<Token>)
    ensures r.Some? <==> i < |ts|
    ensures r.Some? ==> r.value == ts[i]
  {
    if i < |ts| then Some(ts[i]) else None
  }

  /** `tt_span`: where to report a problem with the tree `tt`, or with its absence. */
  function TtSpan(tt: Option<Token>): (s: Span)
    ensures tt.None? ==> s == CallSite
    ensures tt.Some? ==> s == tt.value.span
  {
    match tt
    case None => CallSite
    case Some(t) => t.span
  }

  /** `parse_as_empty`: succeeds exactly when nothing is left; otherwise reports the first
      leftover tree, at its own span. */
  function ParseAsEmpty(rest: seq<Token>): (r: Result<(), Diagnostic>)
    ensures r.Ok? <==> rest == []
    ensures r.Err? ==> r.error == Diagnostic(rest[0].span, "unexpected token: " + Render(rest[0]))
  {
    match Nth(rest, 0)
    case Some(tt) => Err(Diagnostic(tt.span, "unexpected token: " + Render(tt)))
    case None => Ok(())
  }

  /** `parse_as_empty` takes at most one tree from the iterator: the outcome depends on the
      first leftover tree alone. */
  lemma ParseAsEmptyTakesOne(rest: seq<Token>, more: seq<Token>)
    requires |rest| >= 1
    ensures ParseAsEmpty(rest + more) == ParseAsEmpty(rest[..1])
  {
  }
}
