/** Properties of the macros modelled in module ProcMacro: what the declaration splitter keeps and
    drops, how the generated calls carry the declarations, and what `trimmed_help!` reports. */
module ProcMacroProperties {
  import opened LitParse
  import LitParseProperties
  import opened ProcMacro

  // ---------------------------------------------------------------------------------------------
  // Reference definitions

  /** `ts` with every `;` punct removed, order kept. */
  function WithoutSemicolons(ts: seq<TokenTree>): seq<TokenTree>
    decreases |ts|
  {
    if ts == [] then []
    else WithoutSemicolons(ts[..|ts| - 1]) + (if IsSemicolon(ts[|ts| - 1]) then [] else [ts[|ts| - 1]])
  }

  function CountSemicolons(ts: seq<TokenTree>): nat
    decreases |ts|
  {
    if ts == [] then 0 else CountSemicolons(ts[..|ts| - 1]) + (if IsSemicolon(ts[|ts| - 1]) then 1 else 0)
  }

  /** The index just past the last `;`, or 0 when there is none. */
  function AfterLastSemicolon(ts: seq<TokenTree>): (k: nat)
    ensures k <= |ts|
    ensures forall j :: k <= j < |ts| ==> !IsSemicolon(ts[j])
    ensures k > 0 ==> IsSemicolon(ts[k - 1])
    decreases |ts|
  {
    if ts == [] then 0
    else if IsSemicolon(ts[|ts| - 1]) then |ts|
    else AfterLastSemicolon(ts[..|ts| - 1])
  }

  // ---------------------------------------------------------------------------------------------
  // The splitter

  lemma {:induction false} PiecesHaveNoSemicolon(ts: seq<TokenTree>)
    ensures forall i, j :: 0 <= i < |Pieces(ts)| && 0 <= j < |Pieces(ts)[i]| ==> !IsSemicolon(Pieces(ts)[i][j])
    decreases |ts|
  {
    if ts != [] {
      PiecesHaveNoSemicolon(ts[..|ts| - 1]);
    }
  }

  /** No declaration holds a `;` punct. */
  lemma DeclarationsHaveNoSemicolon(ts: seq<TokenTree>)
    ensures forall i, j :: 0 <= i < |Declarations(ts)| && 0 <= j < |Declarations(ts)[i].tokens| ==>
      !IsSemicolon(Declarations(ts)[i].tokens[j])
  {
    PiecesHaveNoSemicolon(ts);
  }

  lemma ConcatSnoc<T>(ps: seq<seq<T>>, p: seq<T>)
    ensures Concat(ps + [p]) == Concat(ps) + p
  {
    assert (ps + [p])[..|ps|] == ps;
  }

  lemma {:induction false} PiecesConcat(ts: seq<TokenTree>)
    ensures Concat(Pieces(ts)) == WithoutSemicolons(ts)
    decreases |ts|
  {
    if ts != [] {
      var pre, t := ts[..|ts| - 1], ts[|ts| - 1];
      PiecesConcat(pre);
      var ps := Pieces(pre);
      if IsSemicolon(t) {
        ConcatSnoc(ps, []);
        assert Concat(ps) + [] == Concat(ps);
      } else {
        var init := ps[..|ps| - 1];
        assert ps == init + [ps[|ps| - 1]];
        ConcatSnoc(init, ps[|ps| - 1]);
        ConcatSnoc(init, ps[|ps| - 1] + [t]);
        assert Concat(init) + (ps[|ps| - 1] + [t]) == Concat(init) + ps[|ps| - 1] + [t];
      }
    }
  }

  /** The declarations, concatenated in order, are the tokens with every `;` removed. */
  lemma DeclarationsConcat(ts: seq<TokenTree>)
    ensures Concat(Tokens(Declarations(ts))) == WithoutSemicolons(ts)
  {
    PiecesConcat(ts);
    var ps := Pieces(ts);
    WrapTokensPieces(ps);
    if ps[|ps| - 1] == [] {
      var init := ps[..|ps| - 1];
      WrapTokensPieces(init);
      assert ps == init + [[]];
      ConcatSnoc(init, []);
      assert Concat(init) + [] == Concat(init);
    }
  }

  lemma WrapTokensPieces(ps: seq<seq<TokenTree>>)
    ensures Tokens(Wrap(ps)) == ps
  {
  }

  lemma {:induction false} PiecesCount(ts: seq<TokenTree>)
    ensures |Pieces(ts)| == CountSemicolons(ts) + 1
    ensures Pieces(ts)[|Pieces(ts)| - 1] == ts[AfterLastSemicolon(ts)..]
    decreases |ts|
  {
    if ts != [] {
      var pre, t := ts[..|ts| - 1], ts[|ts| - 1];
      PiecesCount(pre);
      if !IsSemicolon(t) {
        assert ts[AfterLastSemicolon(pre)..] == pre[AfterLastSemicolon(pre)..] + [t];
      }
    }
  }

  /** There is one declaration per `;`, plus one when tokens follow the last `;`. */
  lemma DeclarationCount(ts: seq<TokenTree>)
    ensures |Declarations(ts)| == CountSemicolons(ts) + (if AfterLastSemicolon(ts) < |ts| then 1 else 0)
  {
    PiecesCount(ts);
  }

  /** Extending the last run of `pa + pb` by `t` extends the last run of `pb`. */
  lemma ExtendAfter(pa: seq<seq<TokenTree>>, pb: seq<seq<TokenTree>>, t: TokenTree, pf: seq<seq<TokenTree>>, pb': seq<seq<TokenTree>>, pf': seq<seq<TokenTree>>)
    requires |pb| > 0 && pf == pa + pb
    requires pb' == if IsSemicolon(t) then pb + [[]] else pb[..|pb| - 1] + [pb[|pb| - 1] + [t]]
    requires pf' == if IsSemicolon(t) then pf + [[]] else pf[..|pf| - 1] + [pf[|pf| - 1] + [t]]
    ensures pf' == pa + pb'
  {
    if !IsSemicolon(t) {
      assert pf[..|pf| - 1] == pa + pb[..|pb| - 1];
    }
  }

  /** A `;` separates the pieces of the two sides. */
  lemma {:induction false} PiecesSplit(a: seq<TokenTree>, x: TokenTree, b: seq<TokenTree>)
    requires IsSemicolon(x)
    ensures Pieces(a + [x] + b) == Pieces(a) + Pieces(b)
    decreases |b|
  {
    if b == [] {
      assert a + [x] + b == a + [x];
      PiecesSnoc(a, x);
    } else {
      var pre, t := b[..|b| - 1], b[|b| - 1];
      var front := a + [x] + pre;
      assert a + [x] + b == front + [t];
      assert b == pre + [t];
      PiecesSplit(a, x, pre);
      PiecesSnoc(front, t);
      PiecesSnoc(pre, t);
      ExtendAfter(Pieces(a), Pieces(pre), t, Pieces(front), Pieces(pre + [t]), Pieces(front + [t]));
    }
  }

  /** Every run but the last is a declaration, at the same index. */
  lemma DeclarationAt(ts: seq<TokenTree>, i: nat)
    requires i + 1 < |Pieces(ts)|
    ensures i < |Declarations(ts)| && Declarations(ts)[i] == VagueVarDecl(Pieces(ts)[i])
  {
  }

  /** Two consecutive `;` yield an empty declaration, at the index after those of `a`. */
  lemma ConsecutiveSemicolons(a: seq<TokenTree>, x: TokenTree, y: TokenTree, b: seq<TokenTree>)
    requires IsSemicolon(x) && IsSemicolon(y)
    ensures CountSemicolons(a) + 1 < |Declarations(a + [x, y] + b)|
    ensures Declarations(a + [x, y] + b)[CountSemicolons(a) + 1] == VagueVarDecl([])
  {
    var ts := a + [x, y] + b;
    assert ts == a + [x] + ([y] + b);
    assert [y] + b == [] + [y] + b;
    PiecesSplit(a, x, [y] + b);
    PiecesSplit([], y, b);
    PiecesCount(a);
    var pa, pb := Pieces(a), Pieces(b);
    assert Pieces([]) == [[]];
    assert Pieces(ts) == pa + ([[]] + pb);
    assert Pieces(ts)[|pa|] == [];
    DeclarationAt(ts, |pa|);
  }

  /** A `;` after a non-empty last declaration adds no declaration. */
  lemma TrailingSemicolon(ts: seq<TokenTree>, x: TokenTree)
    requires IsSemicolon(x) && AfterLastSemicolon(ts) < |ts|
    ensures Declarations(ts + [x]) == Declarations(ts)
  {
    PiecesSnoc(ts, x);
    PiecesCount(ts);
    var ps := Pieces(ts);
    assert (ps + [[]])[..|ps|] == ps;
  }

  /** `Stream::parse` keeps the first tree as the crate and collects no errors, so `errors!`
      expands to nothing. */
  lemma StreamShape(input: seq<TokenTree>)
    requires |input| > 0 && input[0].Ident?
    ensures StreamOf(input).krate == input[0] && StreamOf(input).errors == []
    ensures Errors(input) == []
  {
  }

  // ---------------------------------------------------------------------------------------------
  // The generated calls

  /** A generated call reads back as its crate, method name and the declaration's tokens unchanged. */
  lemma CallRoundTrip(krate: TokenTree, name: string, ts: seq<TokenTree>)
    requires krate.Ident?
    ensures CallParts(CallRequireEnvs(krate, name, ts)) == Some((krate, name, ts))
  {
  }

  /** The tokens forwarded by a run of calls, read back from the end; gives up at anything that is
      not a call. */
  function Forwarded(r: seq<TokenTree>): seq<TokenTree>
    decreases |r|
  {
    if |r| < 6 then []
    else match CallParts(r[|r| - 6..])
      case None => []
      case Some(parts) => Forwarded(r[..|r| - 6]) + parts.2
  }

  /** The tokens forwarded by a run of calls each followed by `,`, read back from the end. */
  function ForwardedWithCommas(r: seq<TokenTree>): seq<TokenTree>
    decreases |r|
  {
    if |r| < 7 || r[|r| - 1] != Punct(',', Alone) then []
    else match CallParts(r[|r| - 7..|r| - 1])
      case None => []
      case Some(parts) => ForwardedWithCommas(r[..|r| - 7]) + parts.2
  }

  /** Reading back one more call. */
  lemma ForwardedSnoc(rest: seq<TokenTree>, call: seq<TokenTree>, parts: (TokenTree, string, seq<TokenTree>))
    requires |call| == 6 && CallParts(call) == Some(parts)
    ensures Forwarded(rest + call) == Forwarded(rest) + parts.2
  {
    var r := rest + call;
    assert r[|r| - 6..] == call && r[..|r| - 6] == rest;
  }

  /** Reading back one more call and its `,`. */
  lemma ForwardedWithCommasSnoc(rest: seq<TokenTree>, call: seq<TokenTree>, parts: (TokenTree, string, seq<TokenTree>))
    requires |call| == 6 && CallParts(call) == Some(parts)
    ensures ForwardedWithCommas(rest + call + [Punct(',', Alone)]) == ForwardedWithCommas(rest) + parts.2
  {
    var r := rest + call + [Punct(',', Alone)];
    assert r[|r| - 7..|r| - 1] == call && r[..|r| - 7] == rest;
  }

  /** The declarations' tokens, concatenated, grow by those of the last declaration. */
  lemma ConcatTokensSnoc(ds: seq<VagueVarDecl>)
    requires ds != []
    ensures Concat(Tokens(ds)) == Concat(Tokens(ds[..|ds| - 1])) + ds[|ds| - 1].tokens
  {
    var pre := ds[..|ds| - 1];
    assert Tokens(ds) == Tokens(pre) + [ds[|ds| - 1].tokens];
    ConcatSnoc(Tokens(pre), ds[|ds| - 1].tokens);
  }

  lemma {:induction false} ForwardedCalls(krate: TokenTree, name: string, ds: seq<VagueVarDecl>)
    requires krate.Ident?
    ensures Forwarded(Calls(krate, name, ds)) == Concat(Tokens(ds))
    decreases |ds|
  {
    if ds != [] {
      var pre, ts := ds[..|ds| - 1], ds[|ds| - 1].tokens;
      ForwardedCalls(krate, name, pre);
      CallRoundTrip(krate, name, ts);
      ForwardedSnoc(Calls(krate, name, pre), CallRequireEnvs(krate, name, ts), (krate, name, ts));
      ConcatTokensSnoc(ds);
    }
  }

  lemma {:induction false} ForwardedCallsWithCommas(krate: TokenTree, name: string, ds: seq<VagueVarDecl>)
    requires krate.Ident?
    ensures ForwardedWithCommas(CallsWithCommas(krate, name, ds)) == Concat(Tokens(ds))
    decreases |ds|
  {
    if ds != [] {
      var pre, ts := ds[..|ds| - 1], ds[|ds| - 1].tokens;
      ForwardedCallsWithCommas(krate, name, pre);
      CallRoundTrip(krate, name, ts);
      ForwardedWithCommasSnoc(CallsWithCommas(krate, name, pre), CallRequireEnvs(krate, name, ts), (krate, name, ts));
      ConcatTokensSnoc(ds);
    }
  }

  /** The `@assert` and `@func` calls, read back, forward exactly the input after the crate with
      its `;` removed. */
  lemma PlainBodiesForwardTokens(input: seq<TokenTree>)
    requires |input| > 0 && input[0].Ident?
    ensures Forwarded(AssertVarBody(input)) == WithoutSemicolons(input[1..])
    ensures Forwarded(Getters(input)) == WithoutSemicolons(input[1..])
  {
    ForwardedCalls(input[0], "assert", StreamOf(input).decls);
    ForwardedCalls(input[0], "func", StreamOf(input).decls);
    DeclarationsConcat(input[1..]);
  }

  /** The same for the bracketed `@get_res` and `@etext` lists. */
  lemma ListBodiesForwardTokens(input: seq<TokenTree>)
    requires |input| > 0 && input[0].Ident?
    ensures ForwardedWithCommas(AnySetBody(input)[0].stream) == WithoutSemicolons(input[1..])
    ensures ForwardedWithCommas(HelpBody(input)[0].stream) == WithoutSemicolons(input[1..])
  {
    ForwardedCallsWithCommas(input[0], "get_res", StreamOf(input).decls);
    ForwardedCallsWithCommas(input[0], "etext", StreamOf(input).decls);
    DeclarationsConcat(input[1..]);
  }

  // ---------------------------------------------------------------------------------------------
  // trimmed_help

  /** `trimmed_help` panics exactly when the decoder does; otherwise it emits one token: the
      non-string error for a literal that starts with neither a quote nor `r`, else the trimmed
      decoded text at the literal's span. */
  lemma HelpOutputCases(text: string, span: Span, trim: string -> string)
    ensures HelpOutput(Lit(text, span), trim).Panics? <==> Classified(text, span).Panics?
    ensures !(|text| > 0 && (text[0] == '"' || text[0] == 'r')) ==>
      HelpOutput(Lit(text, span), trim)
        == Returns([StringLit("attempted to pass a non-string literal as help text", span)])
    ensures (Classified(text, span).Returns? && Classified(text, span).value.Ok?
      && Classified(text, span).value.value.x.data.String?) ==>
      HelpOutput(Lit(text, span), trim)
        == Returns([StringLit(trim(Classified(text, span).value.value.x.data.value), span)])
  {
    LitParseProperties.ClassifierDispatch(text, span);
  }

  /** Groups around the literal are looked through. */
  lemma TrimmedHelpLooksThroughGroups(t: TokenTree, d: Delimiter, rest: seq<TokenTree>, more: seq<TokenTree>, trim: string -> string)
    ensures TrimmedHelpOf([Group(d, [t] + rest)] + more, trim) == TrimmedHelpOf([t], trim)
  {
    assert ([t] + rest)[0] == t;
  }

  /** As written, the decoder's diagnostics are dropped: `"\q"` decodes with an invalid-escape
      diagnostic, yet `trimmed_help` emits the literal alone. */
  lemma TrimmedHelpDropsDiagnostics(span: Span, trim: string -> string)
    ensures Classified("\"\\q\"", span)
      == Returns(Ok(Output(Literal(String("\""), span), [Diagnostic(InvalidEscape(1), span)])))
    ensures TrimmedHelpOf([Lit("\"\\q\"", span)], trim) == Returns([StringLit(trim("\""), span)])
  {
    LitParseProperties.InvalidEscapeExample(span);
  }

  /** The same drop for a literal the lexer accepts: `"abc"xyz` decodes with the suffix diagnostic,
      yet `trimmed_help` emits the literal alone. */
  lemma TrimmedHelpDropsSuffix(span: Span, trim: string -> string)
    ensures Classified("\"abc\"xyz", span)
      == Returns(Ok(Output(Literal(String("abc"), span), [Diagnostic(SuffixUnsupported, span)])))
    ensures TrimmedHelpOf([Lit("\"abc\"xyz", span)], trim) == Returns([StringLit(trim("abc"), span)])
  {
    LitParseProperties.SuffixExample(span);
  }

  /** With the correction, every diagnostic of the decoder follows the trimmed literal, in order,
      with its message and span. */
  lemma HelpOutputReportsDiagnostics(text: string, span: Span, trim: string -> string)
    requires Classified(text, span).Returns? && Classified(text, span).value.Ok?
    requires Classified(text, span).value.value.x.data.String?
    ensures var out := Classified(text, span).value.value;
      var r := HelpOutputReported(Lit(text, span), trim);
      && r.Returns? && |r.value| == 1 + |out.errors|
      && r.value[0] == StringLit(trim(out.x.data.value), span)
      && forall j :: 0 <= j < |out.errors| ==>
           r.value[1 + j] == StringLit(out.errors[j].Message(), out.errors[j].span)
  {
    var out := Classified(text, span).value.value;
    LitParseProperties.ClassifiedKeepsSpan(text, span);
    ReportedOfOutput(text, span, trim, out);
    ReportedShape(out, trim, HelpOutputReported(Lit(text, span), trim).value);
  }

  lemma ReportedShape(out: Output<Literal>, trim: string -> string, ts: seq<TokenTree>)
    requires out.x.data.String?
    requires ts == [StringLit(trim(out.x.data.value), out.x.span)] + CompileErrors(out.errors)
    ensures |ts| == 1 + |out.errors| && ts[0] == StringLit(trim(out.x.data.value), out.x.span)
    ensures forall j :: 0 <= j < |out.errors| ==> ts[1 + j] == StringLit(out.errors[j].Message(), out.errors[j].span)
  {
    var ce := CompileErrors(out.errors);
    forall j | 0 <= j < |out.errors|
      ensures ts[1 + j] == StringLit(out.errors[j].Message(), out.errors[j].span)
    {
      assert ts[1 + j] == ce[j];
    }
  }

  lemma ReportedOfOutput(text: string, span: Span, trim: string -> string, out: Output<Literal>)
    requires Classified(text, span) == Returns(Ok(out)) && out.x.data.String?
    ensures HelpOutputReported(Lit(text, span), trim)
      == Returns([StringLit(trim(out.x.data.value), out.x.span)] + CompileErrors(out.errors))
  {
  }

  /** The corrected output for `"\q"` carries the invalid-escape message. */
  lemma ReportedInvalidEscape(span: Span, trim: string -> string)
    ensures HelpOutputReported(Lit("\"\\q\"", span), trim)
      == Returns([StringLit(trim("\""), span), StringLit("invalid string escape at byte offset: 1", span)])
  {
    TrimmedHelpDropsDiagnostics(span, trim);
    var d := Diagnostic(InvalidEscape(1), span);
    assert Decimal(1) == "1";
    assert d.Message() == "invalid string escape at byte offset: 1";
    assert CompileErrors([d]) == [StringLit(d.Message(), span)];
    var lit := Lit("\"\\q\"", span);
    assert lit.text == "\"\\q\"" && lit.span == span;
    assert HelpOutputReported(lit, trim) == Returns([StringLit(trim("\""), span)] + CompileErrors([d]));
    assert [StringLit(trim("\""), span)] + CompileErrors([d])
      == [StringLit(trim("\""), span), StringLit("invalid string escape at byte offset: 1", span)];
  }

  /** With the correction, `"abc"xyz` also emits the suffix error. */
  lemma ReportedSuffix(span: Span, trim: string -> string)
    ensures HelpOutputReported(Lit("\"abc\"xyz", span), trim)
      == Returns([StringLit(trim("abc"), span), StringLit("string literal suffixes are not supported", span)])
  {
    TrimmedHelpDropsSuffix(span, trim);
    var d := Diagnostic(SuffixUnsupported, span);
    assert d.Message() == "string literal suffixes are not supported";
    assert CompileErrors([d]) == [StringLit(d.Message(), span)];
    ReportedOfOutput("\"abc\"xyz", span, trim, Output(Literal(String("abc"), span), [d]));
    assert [StringLit(trim("abc"), span)] + CompileErrors([d])
      == [StringLit(trim("abc"), span), StringLit("string literal suffixes are not supported", span)];
  }
}
