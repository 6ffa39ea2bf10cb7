/** Decoding the text of a Rust string-literal token, as menv_proc_macro/src/lit_parse.rs does it.

    The text is the literal exactly as written (quotes, `r` and `#` markers, escapes included).
    A plain literal `"..."` goes through a two-state character scanner, a raw literal `r#"..."#`
    through a delimiter matcher, and any other literal is `Unknown`.

    Every place where the Rust code panics (`unwrap` on an exhausted iterator, `unreachable!`,
    `assert_eq!`, an overflowing `u8` operation, `char::from_u32(..).unwrap()`) yields the explicit
    outcome `Panics`: the functions are total and say exactly which inputs abort. */
module LitParse {

  /** An opaque source position; the decoder only copies it into diagnostics. */
  datatype Span = Span(id: nat)

  /** What a diagnostic reports. */
  datatype DiagnosticKind =
    | InvalidEscape(byteOffset: nat)
    | SuffixUnsupported
    | NonStringHelpText

  /** A diagnostic: a message tied to the span of the literal it is about. */
  datatype Diagnostic = Diagnostic(kind: DiagnosticKind, span: Span) {
    /** The text the macro reports for this diagnostic. */
    function Message(): string {
      match kind
      case InvalidEscape(i) => "invalid string escape at byte offset: " + Decimal(i)
      case SuffixUnsupported => "string literal suffixes are not supported"
      case NonStringHelpText => "attempted to pass a non-string literal as help text"
    }
  }

  /** The decoded value of a literal: a string, or `Unknown` for every other kind of literal. */
  datatype LiteralData = String(value: string) | Unknown

  datatype Literal = Literal(data: LiteralData, span: Span)

  /** A value together with the diagnostics collected while computing it. */
  datatype Output<T> = Output(x: T, errors: seq<Diagnostic>)

  /** Rust's `Result<_, Vec<TokenStream>>`, with the error streams kept as diagnostics. */
  datatype Result<T> = Ok(value: T) | Err(diags: seq<Diagnostic>)

  /** Whether a Rust function returns or panics. */
  datatype Outcome<T> = Returns(value: T) | Panics

  datatype Option<T> = None | Some(value: T)

  /** The two states of the plain-string scanner. */
  datatype State = Normal | InEscape

  // ---------------------------------------------------------------------------------------------
  // Characters, bytes and numbers

  /** The decimal rendering of `n`, as `format!("{n}")` writes it. */
  function Decimal(n: nat): (r: string)
    ensures |r| > 0
    ensures forall j :: 0 <= j < |r| ==> '0' <= r[j] <= '9'
    decreases n
  {
    if n < 10 then [DigitChar(n)] else Decimal(n / 10) + [DigitChar(n % 10)]
  }

  function DigitChar(d: nat): (c: char)
    requires d < 10
    ensures '0' <= c <= '9' && c as int - '0' as int == d
  {
    ('0' as int + d) as char
  }

  /** The number of bytes of `c` in UTF-8. */
  function Utf8Len(c: char): nat {
    if c as int < 0x80 then 1
    else if c as int < 0x800 then 2
    else if c as int < 0x1_0000 then 3
    else 4
  }

  /** The number of UTF-8 bytes of the first `k` characters of `s`: the byte index `char_indices`
      reports for character `k`. */
  function ByteOffset(s: string, k: nat): nat
    requires k <= |s|
    decreases k
  {
    if k == 0 then 0 else ByteOffset(s, k - 1) + Utf8Len(s[k - 1])
  }

  /** Rust's `c as u8`: the low byte of the code point. */
  function AsU8(c: char): int {
    c as int % 256
  }

  /** The value of an ASCII hexadecimal digit byte (either case), as the match arms of
      lit_parse.rs:113-117 and lit_parse.rs:155-166 compute it. */
  function HexDigitValue(b: int): (r: Option<nat>)
    ensures r.Some? ==> r.value < 16
  {
    if 48 <= b <= 57 then Some(b - 48)
    else if 65 <= b <= 70 then Some(b - 65 + 10)
    else if 97 <= b <= 102 then Some(b - 97 + 10)
    else None
  }

  /** Rust's `char::from_u32`: defined exactly on the Unicode scalar values. */
  function FromU32(v: nat): (r: Option<char>)
    ensures r.Some? <==> v < 0xD800 || 0xE000 <= v < 0x11_0000
    ensures r.Some? ==> r.value as int == v
  {
    if v < 0xD800 || 0xE000 <= v < 0x11_0000 then Some(v as char) else None
  }

  /** The whitespace a string-continuation escape skips: HT, LF, CR and SPACE. */
  predicate IsContinuationWhitespace(c: char) {
    c == '\t' || c == '\n' || c == '\r' || c == ' '
  }

  // ---------------------------------------------------------------------------------------------
  // The pieces of an escape sequence

  /** The character appended for the single-character escapes `\" \' \n \r \t \\ \0`.
      Both quote escapes append a double quote. */
  function SimpleEscape(c: char): Option<char> {
    match c
    case '"' => Some('"')
    case '\'' => Some('"')
    case 'n' => Some('\n')
    case 'r' => Some('\r')
    case 't' => Some('\t')
    case '\\' => Some('\\')
    case '0' => Some('\0')
    case _ => None
  }

  /** The character of `\xXY`. The first digit is taken as `X as u8 - b'0'` only; with overflow
      checks that subtraction panics below `'0'` and the following `* 16` panics from 16 on.
      The second digit is a hexadecimal digit of either case, or the scan panics. */
  function AsciiEscape(x: char, y: char): (r: Outcome<char>)
    ensures r.Returns? ==> r.value as int < 256
  {
    var hi := AsU8(x) - 48;
    if hi < 0 || hi >= 16 then Panics
    else match HexDigitValue(AsU8(y))
      case None => Panics
      case Some(lo) => Returns((hi * 16 + lo) as char)
  }

  /** The digit loop of `\u{...}` from index `p`, in round `n` of `for n in 0..7`, with the value
      `acc` read so far. Yields the value and the index after the closing brace. */
  function UnicodeDigits(body: string, p: nat, n: nat, acc: nat): (r: Outcome<(nat, nat)>)
    requires n <= 6
    ensures r.Returns? ==> p < r.value.1 <= |body|
    decreases 6 - n
  {
    if p >= |body| then Panics
    else if n == 6 && body[p] != '}' then Panics
    else match HexDigitValue(AsU8(body[p]))
      case Some(d) => if n < 6 then UnicodeDigits(body, p + 1, n + 1, acc * 16 + d) else Panics
      case None => if AsU8(body[p]) == '}' as int then Returns((acc, p + 1)) else Panics
  }

  /** The character of a `\u{...}` escape whose `{` is expected at index `p`, and the index after it. */
  function UnicodeEscape(body: string, p: nat): (r: Outcome<(char, nat)>)
    ensures r.Returns? ==> p < r.value.1 <= |body|
  {
    if p >= |body| || body[p] != '{' then Panics
    else match UnicodeDigits(body, p + 1, 0, 0)
      case Panics => Panics
      case Returns((v, next)) =>
        match FromU32(v)
        case None => Panics
        case Some(c) => Returns((c, next))
  }

  /** The first index at or after `p` that does not hold continuation whitespace. */
  function SkipWhitespace(body: string, p: nat): (q: nat)
    requires p <= |body|
    ensures p <= q <= |body|
    ensures forall j :: p <= j < q ==> IsContinuationWhitespace(body[j])
    ensures q < |body| ==> !IsContinuationWhitespace(body[q])
    decreases |body| - p
  {
    if p < |body| && IsContinuationWhitespace(body[p]) then SkipWhitespace(body, p + 1) else p
  }

  // ---------------------------------------------------------------------------------------------
  // Plain string literals (parse_str_literal)

  /** `t` and `e` prepended to the text and diagnostics of `r`. */
  function Emit(t: string, e: seq<Diagnostic>, r: Outcome<Output<string>>): Outcome<Output<string>> {
    match r
    case Panics => Panics
    case Returns(o) => Returns(Output(t + o.x, e + o.errors))
  }

  /** What one turn of the scanner loop does with the character at index `k`. */
  datatype Step =
    | Advance(text: string, errors: seq<Diagnostic>, next: nat, state: State) // append, go on at `next`
    | Done(errors: seq<Diagnostic>) // the closing quote: the loop ends, the suffix check follows
    | Abort // the code panics

  /** The turn of the loop at index `k` in state `st`: the text it appends, the diagnostics it
      pushes, and where and in which state scanning goes on. */
  function ScanStep(body: string, k: nat, st: State, span: Span): (r: Step)
    requires k < |body|
    ensures r.Advance? ==> k < r.next <= |body|
  {
    var c := body[k];
    match st
    case Normal =>
      if c == '\\' then Advance("", [], k + 1, InEscape)
      else if c == '"' then Done(if k + 1 < |body| then [Diagnostic(SuffixUnsupported, span)] else [])
      else if c == '\r' then Abort
      else Advance([c], [], k + 1, Normal)
    case InEscape =>
      match SimpleEscape(c)
      case Some(e) => Advance([e], [], k + 1, Normal)
      case None =>
        if c == 'x' then
          if k + 2 >= |body| then Abort
          else match AsciiEscape(body[k + 1], body[k + 2])
            case Panics => Abort
            case Returns(e) => Advance([e], [], k + 3, Normal)
        else if c == 'u' then
          match UnicodeEscape(body, k + 1)
          case Panics => Abort
          case Returns((e, next)) => Advance([e], [], next, Normal)
        else if c == '\n' then
          var next := SkipWhitespace(body, k + 1);
          if next == |body| then Abort else Advance("", [], next, Normal)
        else
          Advance("", [Diagnostic(InvalidEscape(ByteOffset(body, k)), span)], k + 1, InEscape)
  }

  /** What the scanner produces from index `k` of `body` in state `st` until it stops: the text it
      appends, the diagnostics it pushes, and the suffix diagnostic that follows the loop. */
  function ScanFrom(body: string, k: nat, st: State, span: Span): Outcome<Output<string>>
    requires k <= |body|
    decreases |body| - k
  {
    if k == |body| then Returns(Output("", []))
    else match ScanStep(body, k, st, span)
      case Advance(t, e, next, st') => Emit(t, e, ScanFrom(body, next, st', span))
      case Done(e) => Returns(Output("", e))
      case Abort => Panics
  }

  /** The result of `parse_str_literal(input, span)`; the body is the text after the opening quote. */
  function StrLiteral(input: string, span: Span): Outcome<Result<Output<string>>>
    requires |input| > 0 && input[0] == '"'
  {
    match ScanFrom(input[1..], 0, Normal, span)
    case Panics => Panics
    case Returns(o) => Returns(Ok(o))
  }

  lemma EmitEmit(t: string, e: seq<Diagnostic>, t': string, e': seq<Diagnostic>, r: Outcome<Output<string>>)
    ensures Emit(t, e, Emit(t', e', r)) == Emit(t + t', e + e', r)
  {
    if r.Returns? {
      assert t + (t' + r.value.x) == (t + t') + r.value.x;
      assert e + (e' + r.value.errors) == (e + e') + r.value.errors;
    }
  }

  lemma EmitEmpty(r: Outcome<Output<string>>)
    ensures Emit("", [], r) == r
  {
    if r.Returns? {
      assert "" + r.value.x == r.value.x;
      assert [] + r.value.errors == r.value.errors;
    }
  }

  /** One `Advance` turn of the loop moves its text and diagnostics from the rest of the scan to
      what has been collected. */
  lemma StepAdvance(body: string, k: nat, st: State, span: Span, text: string, errors: seq<Diagnostic>)
    requires k < |body| && ScanStep(body, k, st, span).Advance?
    ensures var s := ScanStep(body, k, st, span);
      Emit(text, errors, ScanFrom(body, k, st, span))
        == Emit(text + s.text, errors + s.errors, ScanFrom(body, s.next, s.state, span))
  {
    var s := ScanStep(body, k, st, span);
    EmitEmit(text, errors, s.text, s.errors, ScanFrom(body, s.next, s.state, span));
  }

  /** The whitespace loop of a string-continuation escape (lit_parse.rs:188-196): peek, consume
      while whitespace; peeking past the end panics. */
  method SkipStringContinue(body: string, p: nat) returns (r: Outcome<nat>)
    requires p <= |body|
    ensures r == (var q := SkipWhitespace(body, p); if q == |body| then Panics else Returns(q))
  {
    var q := p;
    while true
      invariant p <= q <= |body|
      invariant SkipWhitespace(body, q) == SkipWhitespace(body, p)
      decreases |body| - q
    {
      if q == |body| {
        return Panics;
      }
      if IsContinuationWhitespace(body[q]) {
        q := q + 1;
      } else {
        break;
      }
    }
    r := Returns(q);
  }

  /** The `\u{...}` arm (lit_parse.rs:143-175): `p` is the index after the `u`. */
  method ParseUnicodeEscape(body: string, p: nat) returns (r: Outcome<(char, nat)>)
    ensures r == UnicodeEscape(body, p)
  {
    if p >= |body| || body[p] != '{' {
      return Panics;
    }
    var q := p + 1;
    var sum: nat := 0;
    var n := 0;
    // `for n in 0..7`: round 6 either meets the closing brace or panics, so the loop only ends by `break`
    while true
      invariant n <= 6 && p < q
      invariant UnicodeDigits(body, p + 1, 0, 0) == UnicodeDigits(body, q, n, sum)
      decreases 6 - n
    {
      if q >= |body| {
        return Panics;
      }
      var maybeDigit := body[q];
      q := q + 1;
      if n == 6 && maybeDigit != '}' {
        return Panics;
      }
      var d := HexDigitValue(AsU8(maybeDigit));
      if d.Some? {
        sum := sum * 16 + d.value;
      } else if AsU8(maybeDigit) == '}' as int {
        break;
      } else {
        return Panics;
      }
      n := n + 1;
    }
    var c := FromU32(sum);
    if c.None? {
      return Panics;
    }
    r := Returns((c.value, q));
  }

  /** `parse_str_literal` (lit_parse.rs:75-217): a `while let` over the characters of the body with
      a mutable state, text and diagnostic list. */
  method ParseStrLiteral(input: string, span: Span) returns (r: Outcome<Result<Output<string>>>)
    requires |input| > 0 && input[0] == '"'
    ensures r == StrLiteral(input, span)
  {
    var body := input[1..];
    var state := Normal;
    var text: string := "";
    var errors: seq<Diagnostic> := [];
    var k := 0; // the index of the next character the iterator yields
    EmitEmpty(ScanFrom(body, 0, Normal, span));
    while k < |body|
      invariant k <= |body|
      invariant ScanFrom(body, 0, Normal, span) == Emit(text, errors, ScanFrom(body, k, state, span))
      decreases |body| - k
    {
      var c := body[k];
      var at := k; // `i`, as a character index
      k := k + 1;
      match state
      case Normal =>
        if c == '\\' {
          assert ScanStep(body, at, Normal, span) == Advance("", [], k, InEscape);
          StepAdvance(body, at, Normal, span, text, errors);
          assert text + "" == text && errors + [] == errors;
          state := InEscape;
        } else if c == '"' {
          break;
        } else if c == '\r' {
          return Panics;
        } else {
          assert ScanStep(body, at, Normal, span) == Advance([c], [], k, Normal);
          StepAdvance(body, at, Normal, span, text, errors);
          assert errors + [] == errors;
          text := text + [c];
        }
      case InEscape =>
        var simple := SimpleEscape(c);
        if simple.Some? {
          assert ScanStep(body, at, InEscape, span) == Advance([simple.value], [], k, Normal);
          StepAdvance(body, at, InEscape, span, text, errors);
          assert errors + [] == errors;
          text := text + [simple.value];
          state := Normal;
        } else if c == 'x' {
          if k + 1 >= |body| {
            return Panics;
          }
          var x, y := body[k], body[k + 1];
          k := k + 2;
          var e := AsciiEscape(x, y);
          if e.Panics? {
            return Panics;
          }
          assert ScanStep(body, at, InEscape, span) == Advance([e.value], [], k, Normal);
          StepAdvance(body, at, InEscape, span, text, errors);
          assert errors + [] == errors;
          text := text + [e.value];
          state := Normal;
        } else if c == 'u' {
          var u := ParseUnicodeEscape(body, k);
          if u.Panics? {
            return Panics;
          }
          assert ScanStep(body, at, InEscape, span) == Advance([u.value.0], [], u.value.1, Normal);
          StepAdvance(body, at, InEscape, span, text, errors);
          assert errors + [] == errors;
          text := text + [u.value.0];
          k := u.value.1;
          state := Normal;
        } else if c == '\n' {
          var next := SkipStringContinue(body, k);
          if next.Panics? {
            return Panics;
          }
          assert ScanStep(body, at, InEscape, span) == Advance("", [], next.value, Normal);
          StepAdvance(body, at, InEscape, span, text, errors);
          assert text + "" == text && errors + [] == errors;
          k := next.value;
          state := Normal;
        } else {
          var d := Diagnostic(InvalidEscape(ByteOffset(body, at)), span);
          assert ScanStep(body, at, InEscape, span) == Advance("", [d], k, InEscape);
          StepAdvance(body, at, InEscape, span, text, errors);
          assert text + "" == text;
          errors := errors + [d];
        }
    }
    assert text + "" == text && errors + [] == errors;
    if k < |body| {
      errors := errors + [Diagnostic(SuffixUnsupported, span)];
    }
    r := Returns(Ok(Output(text, errors)));
  }

  // ---------------------------------------------------------------------------------------------
  // Raw string literals (parse_raw_str_literal)

  /** The length of the run of `#` that starts at index `p`. */
  function HashRun(s: string, p: nat): (n: nat)
    requires p <= |s|
    ensures p + n <= |s|
    ensures forall j :: p <= j < p + n ==> s[j] == '#'
    ensures p + n < |s| ==> s[p + n] != '#'
    decreases |s| - p
  {
    if p < |s| && s[p] == '#' then 1 + HashRun(s, p + 1) else 0
  }

  function Hashes(n: nat): (r: string)
    ensures |r| == n && forall j :: 0 <= j < n ==> r[j] == '#'
  {
    seq(n, _ => '#')
  }

  function Prefix(t: string, r: Outcome<string>): Outcome<string> {
    match r
    case Panics => Panics
    case Returns(s) => Returns(t + s)
  }

  lemma PrefixPrefix(t: string, t': string, r: Outcome<string>)
    ensures Prefix(t, Prefix(t', r)) == Prefix(t + t', r)
  {
    if r.Returns? {
      assert t + (t' + r.value) == (t + t') + r.value;
    }
  }

  /** What the `'string_body` loop appends from index `p`, for a delimiter of `n` hashes. */
  function RawBody(body: string, p: nat, n: nat): Outcome<string>
    requires p <= |body|
    decreases |body| - p
  {
    if p == |body| then Panics
    else if body[p] == '"' then
      var run := HashRun(body, p + 1);
      if run >= n then Returns("")
      else if p + 1 + run == |body| then Returns("")
      else Prefix(['"'] + Hashes(run), RawBody(body, p + 1 + run, n))
    else if p + 1 == |body| then Panics
    else Prefix([body[p]], RawBody(body, p + 1, n))
  }

  /** The result of `parse_raw_str_literal(input)`. */
  function RawStrLiteral(input: string): Outcome<string>
    requires |input| > 0 && input[0] == 'r'
  {
    var body := input[1..];
    var n := HashRun(body, 0);
    if n == |body| || body[n] != '"' then Panics else RawBody(body, n + 1, n)
  }

  /** The `'attempt_termination` loop (lit_parse.rs:242-262) at a quote at index `q`: the number
      of `#` that follow it, counted up to `n`. */
  method AttemptTermination(body: string, q: nat, n: nat) returns (h: nat)
    requires q < |body|
    ensures h == if HashRun(body, q + 1) < n then HashRun(body, q + 1) else n
  {
    h := 0;
    while h < n && q + 1 + h < |body| && body[q + 1 + h] == '#'
      invariant h <= n && q + 1 + h <= |body|
      invariant forall j :: q + 1 <= j < q + 1 + h ==> body[j] == '#'
      decreases n - h
    {
      h := h + 1;
    }
    assert HashRun(body, q + 1) >= h;
    assert h < n ==> HashRun(body, q + 1) == h;
  }

  /** `parse_raw_str_literal` (lit_parse.rs:219-276): a cursor moved through labeled nested loops. */
  method ParseRawStrLiteral(input: string) returns (r: Outcome<string>)
    requires |input| > 0 && input[0] == 'r'
    ensures r == RawStrLiteral(input)
  {
    var body := input[1..];
    var cursor := 0;
    var hashPrefixCount := 0;
    while true
      invariant cursor <= |body| && hashPrefixCount == cursor
      invariant forall j :: 0 <= j < cursor ==> body[j] == '#'
      decreases |body| - cursor
    {
      if cursor < |body| && body[cursor] == '#' {
        cursor := cursor + 1;
        hashPrefixCount := hashPrefixCount + 1;
      } else if cursor < |body| && body[cursor] == '"' {
        cursor := cursor + 1;
        break;
      } else {
        assert HashRun(body, 0) == cursor;
        return Panics;
      }
    }
    assert hashPrefixCount == HashRun(body, 0);
    r := StringBody(body, cursor, hashPrefixCount);
  }

  /** The `'string_body` loop of `parse_raw_str_literal` (lit_parse.rs:239-274), from index `start`
      of the body, for a delimiter of `n` hashes. */
  method StringBody(body: string, start: nat, n: nat) returns (r: Outcome<string>)
    requires start <= |body|
    ensures r == RawBody(body, start, n)
  {
    var text: string := "";
    var cursor := start;
    assert Prefix(text, RawBody(body, cursor, n)) == RawBody(body, cursor, n) by {
      if RawBody(body, cursor, n).Returns? {
        assert text + RawBody(body, cursor, n).value == RawBody(body, cursor, n).value;
      }
    }
    while true
      invariant cursor <= |body|
      invariant RawBody(body, start, n) == Prefix(text, RawBody(body, cursor, n))
      decreases |body| - cursor
    {
      if cursor == |body| {
        return Panics;
      }
      if body[cursor] == '"' {
        var hashSuffixCount := AttemptTermination(body, cursor, n);
        var offset := hashSuffixCount + 1;
        if hashSuffixCount == n || cursor + offset == |body| {
          // the closing delimiter, or the input ran out inside a shorter run of `#`
          assert text + "" == text;
          break;
        }
        assert RawBody(body, cursor, n) == Prefix(['"'] + Hashes(hashSuffixCount), RawBody(body, cursor + offset, n));
        PrefixPrefix(text, ['"'] + Hashes(hashSuffixCount), RawBody(body, cursor + offset, n));
        ghost var before := text;
        text := text + ['"'];
        for i := 0 to hashSuffixCount
          invariant text == before + ['"'] + Hashes(i)
        {
          assert Hashes(i + 1) == Hashes(i) + ['#'];
          text := text + ['#'];
        }
        assert before + (['"'] + Hashes(hashSuffixCount)) == text;
        cursor := cursor + offset;
      } else {
        if cursor + 1 == |body| {
          return Panics;
        }
        PrefixPrefix(text, [body[cursor]], RawBody(body, cursor + 1, n));
        text := text + [body[cursor]];
        cursor := cursor + 1;
      }
    }
    r := Returns(text);
  }

  // ---------------------------------------------------------------------------------------------
  // The classifier (Literal::parse)

  /** The result of `Literal::parse` on a literal token whose text is `text`. */
  function Classified(text: string, span: Span): Outcome<Result<Output<Literal>>> {
    if |text| > 0 && text[0] == '"' then
      match StrLiteral(text, span)
      case Panics => Panics
      case Returns(Err(e)) => Returns(Err(e))
      case Returns(Ok(s)) => Returns(Ok(Output(Literal(String(s.x), span), s.errors)))
    else if |text| > 0 && text[0] == 'r' then
      match RawStrLiteral(text)
      case Panics => Panics
      case Returns(t) => Returns(Ok(Output(Literal(String(t), span), [])))
    else
      Returns(Ok(Output(Literal(Unknown, span), [])))
  }

  /** `Literal::parse` (lit_parse.rs:27-49): dispatch on the first character of the token text. */
  method ParseLiteral(text: string, span: Span) returns (r: Outcome<Result<Output<Literal>>>)
    ensures r == Classified(text, span)
  {
    var errors: seq<Diagnostic> := [];
    var lit: Literal;
    if |text| > 0 && text[0] == '"' {
      var s := ParseStrLiteral(text, span);
      if s.Panics? {
        return Panics;
      }
      if s.value.Err? {
        return Returns(Err(s.value.diags));
      }
      assert errors + s.value.value.errors == s.value.value.errors;
      errors := errors + s.value.value.errors;
      lit := Literal(String(s.value.value.x), span);
    } else if |text| > 0 && text[0] == 'r' {
      var t := ParseRawStrLiteral(text);
      if t.Panics? {
        return Panics;
      }
      lit := Literal(String(t.value), span);
    } else {
      lit := Literal(Unknown, span);
    }
    r := Returns(Ok(Output(lit, errors)));
  }
}
