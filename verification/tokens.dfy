/**
 * The token trees of `proc_macro2`, with spans kept opaque.
 * A token stream is a sequence of trees; a group holds a nested stream.
 */
module Tokens {

  /** A source location. Only its identity matters: it is compared, never inspected. */
  datatype Span = CallSite | Site(id: nat)

  datatype Delimiter = Parenthesis | Brace | Bracket | NoDelimiter

  /** `TokenTree`: every variant carries the span it reports. */
  datatype Token =
    | Ident(name: string, span: Span)
    | Punct(ch: char, span: Span)
    | Literal(text: string, span: Span)
    | Group(delimiter: Delimiter, stream: seq<Token>, span: Span)

  function Open(d: Delimiter): string
  {
    match d
    case Parenthesis => "("
    case Brace => "{"
    case Bracket => "["
    case NoDelimiter => ""
  }

  function Close(d: Delimiter): string
  {
    match d
    case Parenthesis => ")"
    case Brace => "}"
    case Bracket => "]"
    case NoDelimiter => ""
  }

  /** The `Display` text of a token tree: identifiers, punctuation and literals as written,
      a group as its delimiters around its rendered stream. */
  function Render(t: Token): (r: string)
    ensures t.Ident? ==> r == t.name
    ensures t.Punct? ==> r == [t.ch]
    ensures t.Literal? ==> r == t.text
    // a group's text is enclosed in its delimiters
    ensures t.Group? ==> var open, close := Open(t.delimiter), Close(t.delimiter);
                         |open| + |close| <= |r| && r[..|open|] == open && r[|r| - |close|..] == close
                         && r[|open|..|r| - |close|] == RenderStream(t.stream)
    decreases t
  {
    match t
    case Ident(name, _) => name
    case Punct(c, _) => [c]
    case Literal(text, _) => text
    case Group(d, stream, _) =>
      var r := Open(d) + RenderStream(stream) + Close(d);
      assert r[..|Open(d)|] == Open(d);
      assert r[|r| - |Close(d)|..] == Close(d);
      assert r[|Open(d)|..|r| - |Close(d)|] == RenderStream(stream);
      r
  }

  /** The `Display` text of a stream: its trees separated by single spaces. */
  function RenderStream(ts: seq<Token>): string
    decreases ts
  {
    if |ts| == 0 then ""
    else if |ts| == 1 then Render(ts[0])
    else Render(ts[0]) + " " + RenderStream(ts[1..])
  }

  /** A stream of two trees renders as the two texts with a space between. */
  lemma RenderPair(a: Token, b: Token)
    ensures RenderStream([a, b]) == Render(a) + " " + Render(b)
  {
    assert [a, b][1..] == [b];
  }

  /** Rendering two non-empty streams one after the other puts one space between them. */
  lemma {:induction false} RenderStreamAppend(xs: seq<Token>, ys: seq<Token>)
    requires |xs| >= 1 && |ys| >= 1
    ensures RenderStream(xs + ys) == RenderStream(xs) + " " + RenderStream(ys)
  {
    if |xs| == 1 {
      assert (xs + ys)[1..] == ys;
    } else {
      assert (xs + ys)[1..] == xs[1..] + ys;
      RenderStreamAppend(xs[1..], ys);
    }
  }

  /** `proc_macro2::TokenStream` used as a growable buffer. */
  class TokenStream {
    var tokens: seq<Token>

    /** `TokenStream::new()` */
    constructor New()
      ensures tokens == []
    {
      tokens := [];
    }

    /** A stream built by `quote!` from fixed tokens. */
    constructor From(initial: seq<Token>)
      ensures tokens == initial
    {
      tokens := initial;
    }

    /** `TokenStream::extend`: the new trees go after the existing ones, in order. */
    method Extend(more: seq<Token>)
      modifies this
      ensures tokens == old(tokens) + more
    {
      tokens := tokens + more;
    }
  }
}
