/**
 * src/to_tokens.rs: the `ToTokens` trait, which appends a value's tokens to a
 * `TokenStream` in place, and its implementations for `Ident`, `Literal`, `TokenTree`,
 * `TokenStream`, `Option<T>` and `&T`.
 */
module ToTokens {
  import opened Wrappers
  import opened Tokens

  type IdentToken = t: Token | t.Ident? witness Ident("_", CallSite)
  type LiteralToken = t: Token | t.Literal? witness Literal("\"\"", CallSite)

  /** The values the trait is implemented for. */
  datatype Value =
    | OfIdent(ident: IdentToken)
    | OfLiteral(literal: LiteralToken)
    | OfTree(tree: Token)
    | OfStream(stream: seq<Token>)
    | OfOption(option: Option<Value>)
    | OfRef(referent: Value)

  /** The tokens a value contributes when it is appended to a stream. */
  function Emitted(v: Value): seq<Token>
  {
    match v
    case OfIdent(i) => [i]
    case OfLiteral(l) => [l]
    case OfTree(t) => [t]
    case OfStream(s) => s
    case OfOption(None) => []
    case OfOption(Some(t)) => Emitted(t)
    case OfRef(t) => Emitted(t)
  }

  /** `impl ToTokens for Ident` */
  method IdentToTokens(i: IdentToken, tokens: TokenStream)
    modifies tokens
    ensures tokens.tokens == old(tokens.tokens) + [i]
  {
    tokens.Extend([i]);
  }

  /** `impl ToTokens for Literal` */
  method LiteralToTokens(l: LiteralToken, tokens: TokenStream)
    modifies tokens
    ensures tokens.tokens == old(tokens.tokens) + [l]
  {
    tokens.Extend([l]);
  }

  /** `impl ToTokens for TokenTree` */
  method TreeToTokens(t: Token, tokens: TokenStream)
    modifies tokens
    ensures tokens.tokens == old(tokens.tokens) + [t]
  {
    tokens.Extend([t]);
  }

  /** `impl ToTokens for TokenStream` */
  method StreamToTokens(s: seq<Token>, tokens: TokenStream)
    modifies tokens
    ensures tokens.tokens == old(tokens.tokens) + s
  {
    tokens.Extend(s);
  }

  /** `impl<T: ToTokens> ToTokens for Option<T>`: `None` appends nothing. */
  method OptionToTokens(o: Option<Value>, tokens: TokenStream)
    modifies tokens
    ensures o.None? ==> tokens.tokens == old(tokens.tokens)
    ensures o.Some? ==> tokens.tokens == old(tokens.tokens) + Emitted(o.value)
    decreases o, 1
  {
    if o.Some? {
      ValueToTokens(o.value, tokens);
    }
  }

  /** `impl<T: ToTokens> ToTokens for &T`: the same as for the referent. */
  method RefToTokens(v: Value, tokens: TokenStream)
    modifies tokens
    ensures tokens.tokens == old(tokens.tokens) + Emitted(v)
    decreases v, 1
  {
    ValueToTokens(v, tokens);
  }

  /** `ToTokens::to_tokens`, dispatched on the implementing type. */
  method ValueToTokens(v: Value, tokens: TokenStream)
    modifies tokens
    ensures tokens.tokens == old(tokens.tokens) + Emitted(v)
    decreases v, 0
  {
    match v {
      case OfIdent(i) => IdentToTokens(i, tokens);
      case OfLiteral(l) => LiteralToTokens(l, tokens);
      case OfTree(t) => TreeToTokens(t, tokens);
      case OfStream(s) => StreamToTokens(s, tokens);
      case OfOption(o) => OptionToTokens(o, tokens);
      case OfRef(r) => RefToTokens(r, tokens);
    }
  }

  /** `ToTokens::to_token_stream`: `to_tokens` into a new, empty stream. */
  method ToTokenStream(v: Value) returns (tokens: TokenStream)
    ensures fresh(tokens)
    ensures tokens.tokens == Emitted(v)
  {
    tokens := new TokenStream.New();
    ValueToTokens(v, tokens);
  }
}
