/** The procedural macros of `menv_proc_macro` (lib.rs): the declaration splitter `Stream::parse`,
    the `require_envs!` call builder, the four `*_body` expansions, `errors!` and `trimmed_help!`.
    Token trees are values; spans are opaque. */
module ProcMacro {
  import opened LitParse

  datatype Spacing = Alone | Joint

  datatype Delimiter = Parenthesis | Brace | Bracket | NoDelimiter

  /** A token tree. `Lit` is a literal token as the lexer wrote it; `StringLit` is a string literal
      token built from its value (`Literal::string`, or the re-lexed text of `compile_error`). */
  datatype TokenTree =
    | Ident(name: string, span: Span)
    | Punct(ch: char, spacing: Spacing)
    | Lit(text: string, span: Span)
    | StringLit(value: string, span: Span)
    | Group(delimiter: Delimiter, stream: seq<TokenTree>)

  datatype VagueVarDecl = VagueVarDecl(tokens: seq<TokenTree>)

  /** `krate` is the `$crate` identifier; `errors` holds one token stream per error. */
  datatype Stream = Stream(krate: TokenTree, decls: seq<VagueVarDecl>, errors: seq<seq<TokenTree>>)

  // ---------------------------------------------------------------------------------------------
  // Splitting on `;` (Stream::parse)

  predicate IsSemicolon(t: TokenTree) {
    t.Punct? && t.ch == ';'
  }

  /** The runs of tokens between semicolons, the last run included even when empty. */
  function Pieces(ts: seq<TokenTree>): (ps: seq<seq<TokenTree>>)
    ensures |ps| > 0
    decreases |ts|
  {
    if ts == [] then [[]]
    else
      var ps := Pieces(ts[..|ts| - 1]);
      var t := ts[|ts| - 1];
      if IsSemicolon(t) then ps + [[]] else ps[..|ps| - 1] + [ps[|ps| - 1] + [t]]
  }

  function Wrap(ps: seq<seq<TokenTree>>): (ds: seq<VagueVarDecl>)
    ensures |ds| == |ps| && forall i :: 0 <= i < |ps| ==> ds[i].tokens == ps[i]
  {
    seq(|ps|, i requires 0 <= i < |ps| => VagueVarDecl(ps[i]))
  }

  function Tokens(ds: seq<VagueVarDecl>): (ps: seq<seq<TokenTree>>)
    ensures |ps| == |ds| && forall i :: 0 <= i < |ds| ==> ps[i] == ds[i].tokens
  {
    seq(|ds|, i requires 0 <= i < |ds| => ds[i].tokens)
  }

  /** The declarations `Stream::parse` collects: every piece, except a last piece that is empty. */
  function Declarations(ts: seq<TokenTree>): seq<VagueVarDecl> {
    var ps := Pieces(ts);
    if ps[|ps| - 1] == [] then Wrap(ps[..|ps| - 1]) else Wrap(ps)
  }

  /** The stream `Stream::parse` returns for `input`. */
  function StreamOf(input: seq<TokenTree>): Stream
    requires |input| > 0 && input[0].Ident?
  {
    Stream(input[0], Declarations(input[1..]), [])
  }

  lemma PiecesSnoc(ts: seq<TokenTree>, t: TokenTree)
    ensures var ps := Pieces(ts);
      Pieces(ts + [t]) == if IsSemicolon(t) then ps + [[]] else ps[..|ps| - 1] + [ps[|ps| - 1] + [t]]
  {
    assert (ts + [t])[..|ts|] == ts;
  }

  lemma TokensSnoc(ds: seq<VagueVarDecl>, d: VagueVarDecl)
    ensures Tokens(ds + [d]) == Tokens(ds) + [d.tokens]
  {
  }

  lemma WrapTokens(ds: seq<VagueVarDecl>)
    ensures Wrap(Tokens(ds)) == ds
  {
  }

  /** `Stream::parse` (lib.rs:31-60): the first tree is the crate identifier; the others are
      pushed into the current declaration, which each `;` flushes. */
  method ParseStream(input: seq<TokenTree>) returns (s: Stream)
    requires |input| > 0 && input[0].Ident?
    ensures s == StreamOf(input)
  {
    var krate := input[0];
    var decls: seq<VagueVarDecl> := [];
    var cdecl: seq<TokenTree> := [];
    for i := 1 to |input|
      invariant Tokens(decls) + [cdecl] == Pieces(input[1..i])
    {
      var tree := input[i];
      assert input[1..i + 1] == input[1..i] + [tree];
      PiecesSnoc(input[1..i], tree);
      TokensSnoc(decls, VagueVarDecl(cdecl));
      if tree.Punct? && tree.ch == ';' {
        decls := decls + [VagueVarDecl(cdecl)];
        cdecl := [];
        continue;
      }
      cdecl := cdecl + [tree];
    }
    assert input[1..|input|] == input[1..];
    if |cdecl| != 0 {
      TokensSnoc(decls, VagueVarDecl(cdecl));
      decls := decls + [VagueVarDecl(cdecl)];
      WrapTokens(decls);
    } else {
      assert (Tokens(decls) + [cdecl])[..|decls|] == Tokens(decls);
      WrapTokens(decls);
    }
    s := Stream(krate, decls, []);
  }

  // ---------------------------------------------------------------------------------------------
  // Building `require_envs!` calls (call_require_envs and the *_body macros)

  /** `call_require_envs(krate, name, input)` (lib.rs:63-78): `krate::require_envs! { @name input }`,
      with the new identifiers taking the span of `krate`. */
  function CallRequireEnvs(krate: TokenTree, name: string, input: seq<TokenTree>): (call: seq<TokenTree>)
    requires krate.Ident?
    ensures |call| == 6 && call[0] == krate
  {
    [krate, Punct(':', Joint), Punct(':', Alone), Ident("require_envs", krate.span), Punct('!', Alone),
     Group(Brace, [Punct('@', Alone), Ident(name, krate.span)] + input)]
  }

  /** Reads the crate identifier, the method name and the forwarded tokens back out of a
      `require_envs!` call; `None` for anything that is not one. */
  function CallParts(call: seq<TokenTree>): Option<(TokenTree, string, seq<TokenTree>)> {
    if |call| == 6 && call[0].Ident? && call[1] == Punct(':', Joint) && call[2] == Punct(':', Alone)
       && call[3] == Ident("require_envs", call[0].span) && call[4] == Punct('!', Alone)
       && call[5].Group? && call[5].delimiter == Brace && |call[5].stream| >= 2
       && call[5].stream[0] == Punct('@', Alone) && call[5].stream[1].Ident?
       && call[5].stream[1].span == call[0].span
    then Some((call[0], call[5].stream[1].name, call[5].stream[2..]))
    else None
  }

  /** The calls for `ds`, one after the other (the `map`/`collect` of lib.rs:84-88 and 118-122). */
  function Calls(krate: TokenTree, name: string, ds: seq<VagueVarDecl>): seq<TokenTree>
    requires krate.Ident?
    decreases |ds|
  {
    if ds == [] then []
    else Calls(krate, name, ds[..|ds| - 1]) + CallRequireEnvs(krate, name, ds[|ds| - 1].tokens)
  }

  /** Each call followed by a `,` (the `flat_map` of lib.rs:94-99 and 106-111). */
  function CallsWithCommas(krate: TokenTree, name: string, ds: seq<VagueVarDecl>): seq<TokenTree>
    requires krate.Ident?
    decreases |ds|
  {
    if ds == [] then []
    else CallsWithCommas(krate, name, ds[..|ds| - 1]) + CallRequireEnvs(krate, name, ds[|ds| - 1].tokens) + [Punct(',', Alone)]
  }

  lemma {:induction false} CallsLayout(krate: TokenTree, name: string, ds: seq<VagueVarDecl>)
    requires krate.Ident?
    ensures |Calls(krate, name, ds)| == 6 * |ds|
    ensures forall i :: 0 <= i < |ds| ==>
      Calls(krate, name, ds)[6 * i..6 * i + 6] == CallRequireEnvs(krate, name, ds[i].tokens)
    decreases |ds|
  {
    if ds != [] {
      var n := |ds|;
      var pre := ds[..n - 1];
      CallsLayout(krate, name, pre);
      var c := Calls(krate, name, ds);
      assert c == Calls(krate, name, pre) + CallRequireEnvs(krate, name, ds[n - 1].tokens);
      forall i | 0 <= i < n
        ensures c[6 * i..6 * i + 6] == CallRequireEnvs(krate, name, ds[i].tokens)
      {
        if i < n - 1 {
          assert c[6 * i..6 * i + 6] == Calls(krate, name, pre)[6 * i..6 * i + 6];
          assert pre[i] == ds[i];
        } else {
          assert c[6 * i..6 * i + 6] == c[6 * (n - 1)..];
        }
      }
    }
  }

  /** A window inside `a` reads the same in `a + b`. */
  lemma PrefixWindow<T>(a: seq<T>, b: seq<T>, i: nat, j: nat)
    requires i < j <= |a|
    ensures (a + b)[i..j] == a[i..j] && (a + b)[j - 1] == a[j - 1]
  {
  }

  lemma {:induction false} CallsWithCommasLayout(krate: TokenTree, name: string, ds: seq<VagueVarDecl>)
    requires krate.Ident?
    ensures |CallsWithCommas(krate, name, ds)| == 7 * |ds|
    ensures forall i :: 0 <= i < |ds| ==>
      && CallsWithCommas(krate, name, ds)[7 * i..7 * i + 6] == CallRequireEnvs(krate, name, ds[i].tokens)
      && CallsWithCommas(krate, name, ds)[7 * i + 6] == Punct(',', Alone)
    decreases |ds|
  {
    if ds != [] {
      var n := |ds|;
      var pre := ds[..n - 1];
      CallsWithCommasLayout(krate, name, pre);
      var prev := CallsWithCommas(krate, name, pre);
      var c := CallsWithCommas(krate, name, ds);
      assert c == prev + CallRequireEnvs(krate, name, ds[n - 1].tokens) + [Punct(',', Alone)];
      forall i | 0 <= i < n
        ensures c[7 * i..7 * i + 6] == CallRequireEnvs(krate, name, ds[i].tokens)
        ensures c[7 * i + 6] == Punct(',', Alone)
      {
        if i < n - 1 {
          PrefixWindow(prev, CallRequireEnvs(krate, name, ds[n - 1].tokens) + [Punct(',', Alone)], 7 * i, 7 * i + 7);
          assert pre[i] == ds[i];
        } else {
          assert c[7 * i..7 * i + 6] == c[7 * (n - 1)..7 * n - 1];
        }
      }
    }
  }

  /** `assert_var_body!` (lib.rs:82-89): an `@assert` call per declaration, in order. */
  function AssertVarBody(input: seq<TokenTree>): (r: seq<TokenTree>)
    requires |input| > 0 && input[0].Ident?
    ensures var ds := Declarations(input[1..]);
      |r| == 6 * |ds| && forall i :: 0 <= i < |ds| ==> r[6 * i..6 * i + 6] == CallRequireEnvs(input[0], "assert", ds[i].tokens)
  {
    CallsLayout(input[0], "assert", StreamOf(input).decls);
    Calls(input[0], "assert", StreamOf(input).decls)
  }

  /** `getters!` (lib.rs:115-123): a `@func` call per declaration, in order. */
  function Getters(input: seq<TokenTree>): (r: seq<TokenTree>)
    requires |input| > 0 && input[0].Ident?
    ensures var ds := Declarations(input[1..]);
      |r| == 6 * |ds| && forall i :: 0 <= i < |ds| ==> r[6 * i..6 * i + 6] == CallRequireEnvs(input[0], "func", ds[i].tokens)
  {
    CallsLayout(input[0], "func", StreamOf(input).decls);
    Calls(input[0], "func", StreamOf(input).decls)
  }

  /** `any_set_body!` (lib.rs:91-101): one bracket group holding a `@get_res` call and a comma per
      declaration. */
  function AnySetBody(input: seq<TokenTree>): (r: seq<TokenTree>)
    requires |input| > 0 && input[0].Ident?
    ensures var ds := Declarations(input[1..]);
      && |r| == 1 && r[0].Group? && r[0].delimiter == Bracket && |r[0].stream| == 7 * |ds|
      && forall i :: 0 <= i < |ds| ==>
           r[0].stream[7 * i..7 * i + 6] == CallRequireEnvs(input[0], "get_res", ds[i].tokens)
           && r[0].stream[7 * i + 6] == Punct(',', Alone)
  {
    CallsWithCommasLayout(input[0], "get_res", StreamOf(input).decls);
    [Group(Bracket, CallsWithCommas(input[0], "get_res", StreamOf(input).decls))]
  }

  /** `help_body!` (lib.rs:103-113): one bracket group holding an `@etext` call and a comma per
      declaration. */
  function HelpBody(input: seq<TokenTree>): (r: seq<TokenTree>)
    requires |input| > 0 && input[0].Ident?
    ensures var ds := Declarations(input[1..]);
      && |r| == 1 && r[0].Group? && r[0].delimiter == Bracket && |r[0].stream| == 7 * |ds|
      && forall i :: 0 <= i < |ds| ==>
           r[0].stream[7 * i..7 * i + 6] == CallRequireEnvs(input[0], "etext", ds[i].tokens)
           && r[0].stream[7 * i + 6] == Punct(',', Alone)
  {
    CallsWithCommasLayout(input[0], "etext", StreamOf(input).decls);
    [Group(Bracket, CallsWithCommas(input[0], "etext", StreamOf(input).decls))]
  }

  /** The token streams of `parts`, one after the other. */
  function Concat<T>(parts: seq<seq<T>>): seq<T>
    decreases |parts|
  {
    if parts == [] then [] else Concat(parts[..|parts| - 1]) + parts[|parts| - 1]
  }

  /** `errors!` (lib.rs:125-129): the collected parse errors, of which there are none. */
  function Errors(input: seq<TokenTree>): (r: seq<TokenTree>)
    requires |input| > 0 && input[0].Ident?
    ensures r == []
  {
    Concat(StreamOf(input).errors)
  }

  // ---------------------------------------------------------------------------------------------
  // trimmed_help

  /** `compile_error(message, span)` (lib.rs:131-141): the message as a string literal at `span`. */
  function CompileError(d: Diagnostic): seq<TokenTree> {
    [StringLit(d.Message(), d.span)]
  }

  function CompileErrors(ds: seq<Diagnostic>): (r: seq<TokenTree>)
    ensures |r| == |ds| && forall j :: 0 <= j < |ds| ==> r[j] == StringLit(ds[j].Message(), ds[j].span)
    decreases |ds|
  {
    if ds == [] then [] else CompileErrors(ds[..|ds| - 1]) + CompileError(ds[|ds| - 1])
  }

  /** The tree inside any wrapping groups, each time the first of the group (lib.rs:152-155);
      an empty group is the `unwrap` that panics. */
  function Unwrapped(t: TokenTree): Outcome<TokenTree>
    decreases t
  {
    if t.Group? then (if |t.stream| == 0 then Panics else Unwrapped(t.stream[0])) else Returns(t)
  }

  /** What `trimmed_help` emits for the literal token `lit` (lib.rs:160-185), given `str::trim`. */
  function HelpOutput(lit: TokenTree, trim: string -> string): Outcome<seq<TokenTree>>
    requires lit.Lit?
  {
    match Classified(lit.text, lit.span)
    case Panics => Panics
    case Returns(Err(e)) => Returns(CompileErrors(e))
    case Returns(Ok(out)) =>
      match out.x.data
      case Unknown => Returns(CompileError(Diagnostic(NonStringHelpText, out.x.span)))
      case String(data) => Returns([StringLit(trim(data), out.x.span)])
  }

  /** `HelpOutput` with the decoder's own diagnostics (invalid escapes, a suffix) emitted after
      the trimmed literal, as the collected-errors design of `Literal::parse` intends. */
  function HelpOutputReported(lit: TokenTree, trim: string -> string): Outcome<seq<TokenTree>>
    requires lit.Lit?
  {
    match Classified(lit.text, lit.span)
    case Panics => Panics
    case Returns(Err(e)) => Returns(CompileErrors(e))
    case Returns(Ok(out)) =>
      match out.x.data
      case Unknown => Returns(CompileErrors(out.errors) + CompileError(Diagnostic(NonStringHelpText, out.x.span)))
      case String(data) => Returns([StringLit(trim(data), out.x.span)] + CompileErrors(out.errors))
  }

  /** What `trimmed_help` emits for `input`; a missing first tree, an empty group and a first tree
      that is not a literal panic. */
  function TrimmedHelpOf(input: seq<TokenTree>, trim: string -> string): Outcome<seq<TokenTree>> {
    if |input| == 0 then Panics
    else match Unwrapped(input[0])
      case Panics => Panics
      case Returns(t) => if t.Lit? then HelpOutput(t, trim) else Panics
  }

  /** `trimmed_help!` (lib.rs:143-186). */
  method TrimmedHelp(input: seq<TokenTree>, trim: string -> string) returns (r: Outcome<seq<TokenTree>>)
    ensures r == TrimmedHelpOf(input, trim)
  {
    if |input| == 0 {
      return Panics;
    }
    var walk := input[0];
    while walk.Group?
      invariant Unwrapped(walk) == Unwrapped(input[0])
      decreases walk
    {
      if |walk.stream| == 0 {
        return Panics;
      }
      walk := walk.stream[0];
    }
    if !walk.Lit? {
      return Panics;
    }
    var errors: seq<TokenTree> := [];
    var output: seq<TokenTree> := [];
    var parsed := ParseLiteral(walk.text, walk.span);
    if parsed.Panics? {
      return Panics;
    }
    match parsed.value {
      case Err(e) =>
        errors := errors + CompileErrors(e);
        assert output + errors == CompileErrors(e);
      case Ok(lit) =>
        match lit.x.data {
          case Unknown =>
            errors := errors + CompileError(Diagnostic(NonStringHelpText, lit.x.span));
            assert output + errors == CompileError(Diagnostic(NonStringHelpText, lit.x.span));
          case String(data) =>
            output := output + [StringLit(trim(data), lit.x.span)];
            assert output + errors == [StringLit(trim(data), lit.x.span)];
        }
    }
    r := Returns(output + errors);
  }
}
