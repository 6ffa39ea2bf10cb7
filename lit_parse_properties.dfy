/** Properties of the literal decoder modelled in module LitParse: what each escape does to the
    scan, what a body without escapes decodes to, round trips through an escaping encoder, the
    diagnostics the scan can produce, and the delimiter matching of raw strings. */
module LitParseProperties {
  import opened LitParse

  // ---------------------------------------------------------------------------------------------
  // Reference definitions, stated on characters rather than on the `as u8` view the code uses

  predicate IsHexDigit(c: char) {
    '0' <= c <= '9' || 'a' <= c <= 'f' || 'A' <= c <= 'F'
  }

  function HexCharValue(c: char): (v: nat)
    requires IsHexDigit(c)
    ensures v < 16
  {
    if c <= '9' then c as int - '0' as int
    else if c <= 'F' then c as int - 'A' as int + 10
    else c as int - 'a' as int + 10
  }

  /** The most-significant-first base-16 value of a run of hexadecimal digits. */
  function HexNumber(ds: string): nat
    requires forall j :: 0 <= j < |ds| ==> IsHexDigit(ds[j])
    decreases |ds|
  {
    if ds == [] then 0 else 16 * HexNumber(ds[..|ds| - 1]) + HexCharValue(ds[|ds| - 1])
  }

  predicate IsScalarValue(v: int) {
    0 <= v < 0xD800 || 0xE000 <= v < 0x11_0000
  }

  /** The decimal value of a run of decimal digits, most significant first. */
  function DecimalValue(ds: string): nat
    requires forall j :: 0 <= j < |ds| ==> '0' <= ds[j] <= '9'
    decreases |ds|
  {
    if ds == [] then 0 else 10 * DecimalValue(ds[..|ds| - 1]) + (ds[|ds| - 1] as int - '0' as int)
  }

  /** `body[j]` is a quote followed by at least `n` hashes. */
  predicate FollowedByHashes(body: string, j: nat, n: nat) {
    j + n < |body| && forall i :: j < i <= j + n ==> body[i] == '#'
  }

  // ---------------------------------------------------------------------------------------------
  // Offsets and the diagnostic text

  /** Each character takes one to four bytes, and ASCII text takes exactly one byte per character. */
  lemma {:induction false} ByteOffsetBounds(s: string, k: nat)
    requires k <= |s|
    ensures k <= ByteOffset(s, k) <= 4 * k
    ensures (forall j :: 0 <= j < k ==> s[j] as int < 0x80) ==> ByteOffset(s, k) == k
    decreases k
  {
    if k > 0 {
      ByteOffsetBounds(s, k - 1);
    }
  }

  /** Byte offsets grow by at least one byte per character. */
  lemma {:induction false} ByteOffsetMonotone(s: string, i: nat, j: nat)
    requires i <= j <= |s|
    ensures ByteOffset(s, i) + (j - i) <= ByteOffset(s, j)
    decreases j - i
  {
    if i < j {
      ByteOffsetMonotone(s, i, j - 1);
    }
  }

  /** Reading the decimal rendering of an offset back gives the offset. */
  lemma {:induction false} DecimalRoundTrip(n: nat)
    ensures DecimalValue(Decimal(n)) == n
    decreases n
  {
    if n >= 10 {
      DecimalRoundTrip(n / 10);
      var r := Decimal(n);
      assert r[..|r| - 1] == Decimal(n / 10);
    }
  }

  lemma InvalidEscapeMessage(i: nat, span: Span)
    ensures var m := Diagnostic(InvalidEscape(i), span).Message();
      |m| > 38 && m[..38] == "invalid string escape at byte offset: " && DecimalValue(m[38..]) == i
  {
    var m := Diagnostic(InvalidEscape(i), span).Message();
    assert m[38..] == Decimal(i);
    DecimalRoundTrip(i);
  }

  // ---------------------------------------------------------------------------------------------
  // A body without escapes

  lemma {:induction false} PlainScan(body: string, k: nat, q: nat, span: Span)
    requires k <= q <= |body|
    requires forall j :: k <= j < q ==> body[j] != '\\' && body[j] != '"' && body[j] != '\r'
    requires q < |body| ==> body[q] == '"'
    ensures ScanFrom(body, k, Normal, span)
      == Returns(Output(body[k..q], if q + 1 < |body| then [Diagnostic(SuffixUnsupported, span)] else []))
    decreases q - k
  {
    if k < q {
      PlainScan(body, k + 1, q, span);
      assert body[k..q] == [body[k]] + body[k + 1..q];
      assert [] + ScanFrom(body, k + 1, Normal, span).value.errors == ScanFrom(body, k + 1, Normal, span).value.errors;
    } else {
      assert body[k..q] == "";
    }
  }

  /** A body with no backslash decodes to the text before its first quote; a suffix diagnostic
      follows exactly when something comes after that quote, and an unterminated body adds none. */
  lemma NoEscapeLiteral(body: string, q: nat, span: Span)
    requires q <= |body|
    requires forall j :: 0 <= j < q ==> body[j] != '\\' && body[j] != '"' && body[j] != '\r'
    requires q < |body| ==> body[q] == '"'
    ensures StrLiteral(['"'] + body, span)
      == Returns(Ok(Output(body[..q], if q + 1 < |body| then [Diagnostic(SuffixUnsupported, span)] else [])))
  {
    assert (['"'] + body)[1..] == body;
    PlainScan(body, 0, q, span);
  }

  lemma {:induction false} CarriageReturnScan(body: string, k: nat, q: nat, span: Span)
    requires k <= q < |body| && body[q] == '\r'
    requires forall j :: k <= j < q ==> body[j] != '\\' && body[j] != '"'
    ensures ScanFrom(body, k, Normal, span) == Panics
    decreases q - k
  {
    if k < q {
      CarriageReturnScan(body, k + 1, q, span);
    }
  }

  /** A bare carriage return outside an escape is the `unreachable!` of lit_parse.rs:91. */
  lemma BareCarriageReturnPanics(body: string, q: nat, span: Span)
    requires q < |body| && body[q] == '\r'
    requires forall j :: 0 <= j < q ==> body[j] != '\\' && body[j] != '"'
    ensures StrLiteral(['"'] + body, span) == Panics
  {
    assert (['"'] + body)[1..] == body;
    CarriageReturnScan(body, 0, q, span);
  }

  // ---------------------------------------------------------------------------------------------
  // One escape sequence at a time

  /** The single-character escapes and the character each appends. */
  predicate SimpleEscapePair(c: char, e: char) {
    (c == '"' && e == '"') || (c == '\'' && e == '"') || (c == 'n' && e == '\n') || (c == 'r' && e == '\r')
    || (c == 't' && e == '\t') || (c == '\\' && e == '\\') || (c == '0' && e == '\0')
  }

  /** A backslash appends nothing and moves the scanner to `InEscape`. */
  lemma EscapeStart(body: string, k: nat, span: Span)
    requires k < |body| && body[k] == '\\'
    ensures ScanFrom(body, k, Normal, span) == ScanFrom(body, k + 1, InEscape, span)
  {
    assert ScanStep(body, k, Normal, span) == Advance("", [], k + 1, InEscape);
    EmitEmpty(ScanFrom(body, k + 1, InEscape, span));
  }

  /** `\c` for a single-character escape appends its character, consumes two characters and
      returns the scanner to `Normal`. */
  lemma SimpleEscapeStep(body: string, k: nat, c: char, e: char, span: Span)
    requires k + 1 < |body| && body[k] == '\\' && body[k + 1] == c
    requires SimpleEscapePair(c, e)
    ensures ScanFrom(body, k, Normal, span) == Emit([e], [], ScanFrom(body, k + 2, Normal, span))
  {
    EscapeStart(body, k, span);
  }

  /** `\xHL` with H in 0..7 appends the character `(H - '0') * 16 + L`, which is ASCII, and consumes
      the three characters after the backslash. */
  lemma HexEscapeStep(body: string, k: nat, span: Span)
    requires k + 3 < |body| && body[k] == '\\' && body[k + 1] == 'x'
    requires '0' <= body[k + 2] <= '7' && IsHexDigit(body[k + 3])
    ensures var v := (body[k + 2] as int - '0' as int) * 16 + HexCharValue(body[k + 3]);
      v < 0x80
      && ScanFrom(body, k, Normal, span) == Emit([v as char], [], ScanFrom(body, k + 4, Normal, span))
  {
    EscapeStart(body, k, span);
    AsciiEscapeValue(body[k + 2], body[k + 3]);
    var v := (body[k + 2] as int - '0' as int) * 16 + HexCharValue(body[k + 3]);
    assert ScanStep(body, k + 1, InEscape, span) == Advance([v as char], [], k + 4, Normal);
  }

  /** `\xHL` with H in 0..7 reads the ASCII value `(H - '0') * 16 + L` without panicking. */
  lemma AsciiEscapeValue(x: char, y: char)
    requires '0' <= x <= '7' && IsHexDigit(y)
    ensures var v := (x as int - '0' as int) * 16 + HexCharValue(y);
      v < 0x80 && AsciiEscape(x, y) == Returns(v as char)
  {
    assert AsU8(x) == x as int;
    HexDigitByte(y);
  }

  /** The shift-and-add loop over the digits of `\u{...}` at indices `p` to `q` (Horner's rule). */
  function HornerAt(body: string, p: nat, q: nat, acc: nat): nat
    requires p <= q <= |body|
    requires forall j :: p <= j < q ==> IsHexDigit(body[j])
    decreases q - p
  {
    if p == q then acc else HornerAt(body, p + 1, q, acc * 16 + HexCharValue(body[p]))
  }

  lemma {:induction false} HornerAtSnoc(body: string, p: nat, q: nat, acc: nat)
    requires p <= q < |body|
    requires forall j :: p <= j <= q ==> IsHexDigit(body[j])
    ensures HornerAt(body, p, q + 1, acc) == 16 * HornerAt(body, p, q, acc) + HexCharValue(body[q])
    decreases q - p
  {
    if p < q {
      HornerAtSnoc(body, p + 1, q, acc * 16 + HexCharValue(body[p]));
    }
  }

  /** Horner's rule computes the most-significant-first value. */
  lemma {:induction false} HornerIsHexNumber(body: string, p: nat, q: nat)
    requires p <= q <= |body|
    requires forall j :: p <= j < q ==> IsHexDigit(body[j])
    ensures HornerAt(body, p, q, 0) == HexNumber(body[p..q])
    decreases q - p
  {
    if p < q {
      HornerIsHexNumber(body, p, q - 1);
      HornerAtSnoc(body, p, q - 1, 0);
      assert body[p..q][..q - 1 - p] == body[p..q - 1];
      assert body[p..q][q - 1 - p] == body[q - 1];
    }
  }

  /** The digit loop reads the hexadecimal digits at `p` to `q` and the `}` at `q`. */
  lemma {:induction false} UnicodeDigitsRead(body: string, p: nat, q: nat, n: nat, acc: nat)
    requires p <= q < |body| && n + (q - p) <= 6
    requires forall j :: p <= j < q ==> IsHexDigit(body[j])
    requires body[q] == '}'
    ensures UnicodeDigits(body, p, n, acc) == Returns((HornerAt(body, p, q, acc), q + 1))
    decreases q - p
  {
    if p == q {
      UnicodeDigitsBrace(body, p, n, acc);
    } else {
      var acc' := acc * 16 + HexCharValue(body[p]);
      UnicodeDigitsDigit(body, p, n, acc);
      UnicodeDigitsRead(body, p + 1, q, n + 1, acc');
      HornerAtStep(body, p, q, acc);
    }
  }

  lemma HornerAtStep(body: string, p: nat, q: nat, acc: nat)
    requires p < q <= |body|
    requires forall j :: p <= j < q ==> IsHexDigit(body[j])
    ensures HornerAt(body, p, q, acc) == HornerAt(body, p + 1, q, acc * 16 + HexCharValue(body[p]))
  {
  }

  /** One digit of the `\u{...}` loop: its value is shifted in. */
  lemma UnicodeDigitsDigit(body: string, p: nat, n: nat, acc: nat)
    requires p < |body| && n < 6 && IsHexDigit(body[p])
    ensures UnicodeDigits(body, p, n, acc) == UnicodeDigits(body, p + 1, n + 1, acc * 16 + HexCharValue(body[p]))
  {
    HexDigitByte(body[p]);
  }

  /** The closing brace of the `\u{...}` loop ends it with the value read so far. */
  lemma UnicodeDigitsBrace(body: string, p: nat, n: nat, acc: nat)
    requires p < |body| && n <= 6 && body[p] == '}'
    ensures UnicodeDigits(body, p, n, acc) == Returns((acc, p + 1))
  {
    assert AsU8(body[p]) == '}' as int;
  }

  /** The code's `as u8` view of a hexadecimal digit character has the digit's value. */
  lemma HexDigitByte(c: char)
    requires IsHexDigit(c)
    ensures HexDigitValue(AsU8(c)) == Some(HexCharValue(c))
  {
    assert AsU8(c) == c as int;
  }

  /** The digit loop, when it does not panic, stops just after a character whose low byte is `}`. */
  lemma {:induction false} UnicodeDigitsEndsAtBrace(body: string, p: nat, n: nat, acc: nat)
    requires n <= 6
    ensures var r := UnicodeDigits(body, p, n, acc);
      r.Returns? ==> AsU8(body[r.value.1 - 1]) == '}' as int
    decreases 6 - n
  {
    if p < |body| && n < 6 {
      match HexDigitValue(AsU8(body[p]))
      case Some(d) => UnicodeDigitsEndsAtBrace(body, p + 1, n + 1, acc * 16 + d);
      case None =>
    }
  }

  /** The digit loop reads the digits `ds` at index `p`, and the `}` after them, to their value. */
  lemma UnicodeDigitsReadValue(body: string, p: nat, ds: string)
    requires forall j :: 0 <= j < |ds| ==> IsHexDigit(ds[j])
    requires |ds| <= 6 && p + |ds| < |body|
    requires body[p..p + |ds|] == ds && body[p + |ds|] == '}'
    ensures UnicodeDigits(body, p, 0, 0) == Returns((HexNumber(ds), p + 1 + |ds|))
  {
    var q := p + |ds|;
    forall j | p <= j < q
      ensures IsHexDigit(body[j])
    {
      assert body[j] == body[p..q][j - p];
    }
    UnicodeDigitsRead(body, p, q, 0, 0);
    HornerIsHexNumber(body, p, q);
  }

  /** A `{` followed by digits that the loop reads to a scalar value yields that character. */
  lemma UnicodeEscapeValue(body: string, p: nat, v: nat, next: nat)
    requires p < |body| && body[p] == '{'
    requires UnicodeDigits(body, p + 1, 0, 0) == Returns((v, next))
    requires IsScalarValue(v)
    ensures UnicodeEscape(body, p) == Returns((v as char, next))
  {
    assert FromU32(v) == Some(v as char);
  }

  /** `\u{...}` whose digits the loop reads to a scalar value appends that character, and scanning
      resumes after the brace. */
  lemma UnicodeEscapeValueStep(body: string, k: nat, v: nat, next: nat, span: Span)
    requires k + 2 < |body| && body[k] == '\\' && body[k + 1] == 'u' && body[k + 2] == '{'
    requires UnicodeDigits(body, k + 3, 0, 0) == Returns((v, next))
    requires IsScalarValue(v)
    ensures next <= |body|
    ensures ScanFrom(body, k, Normal, span) == Emit([v as char], [], ScanFrom(body, next, Normal, span))
  {
    UnicodeEscapeValue(body, k + 2, v, next);
    EscapeStart(body, k, span);
  }

  /** `\u{D1..Dk}` with at most six hexadecimal digits appends the character whose code is their
      base-16 value, provided that is a scalar value, and scanning resumes after the brace. */
  lemma UnicodeEscapeStep(body: string, k: nat, ds: string, span: Span)
    requires forall j :: 0 <= j < |ds| ==> IsHexDigit(ds[j])
    requires |ds| <= 6 && k + 3 + |ds| < |body|
    requires body[k] == '\\' && body[k + 1] == 'u' && body[k + 2] == '{'
    requires body[k + 3..k + 3 + |ds|] == ds && body[k + 3 + |ds|] == '}'
    requires IsScalarValue(HexNumber(ds))
    ensures ScanFrom(body, k, Normal, span)
      == Emit([HexNumber(ds) as char], [], ScanFrom(body, k + 4 + |ds|, Normal, span))
  {
    UnicodeDigitsReadValue(body, k + 3, ds);
    UnicodeEscapeValueStep(body, k, HexNumber(ds), k + 4 + |ds|, span);
  }

  /** `\u{}` with no digits appends NUL. */
  lemma EmptyUnicodeEscapeIsNul(body: string, k: nat, span: Span)
    requires k + 3 < |body| && body[k] == '\\' && body[k + 1] == 'u' && body[k + 2] == '{' && body[k + 3] == '}'
    ensures ScanFrom(body, k, Normal, span) == Emit(['\0'], [], ScanFrom(body, k + 4, Normal, span))
  {
    UnicodeDigitsBrace(body, k + 3, 0, 0);
    UnicodeEscapeValueStep(body, k, 0, k + 4, span);
  }

  lemma SkipWhitespaceIs(body: string, p: nat, q: nat)
    requires p <= q <= |body|
    requires forall j :: p <= j < q ==> IsContinuationWhitespace(body[j])
    requires q < |body| ==> !IsContinuationWhitespace(body[q])
    ensures SkipWhitespace(body, p) == q
  {
  }

  /** A backslash-LF escape appends nothing and skips the maximal run of HT, LF, CR and SPACE after
      it; scanning resumes in `Normal` at the first other character, and running out of input
      inside the run is the `unwrap` of lit_parse.rs:189. */
  lemma ContinuationStep(body: string, k: nat, q: nat, span: Span)
    requires k + 2 <= q <= |body| && body[k] == '\\' && body[k + 1] == '\n'
    requires forall j :: k + 2 <= j < q ==> IsContinuationWhitespace(body[j])
    requires q < |body| ==> !IsContinuationWhitespace(body[q])
    ensures ScanFrom(body, k, Normal, span) == if q == |body| then Panics else ScanFrom(body, q, Normal, span)
  {
    SkipWhitespaceIs(body, k + 2, q);
    EscapeStart(body, k, span);
    if q < |body| {
      assert ScanStep(body, k + 1, InEscape, span) == Advance("", [], q, Normal);
      EmitEmpty(ScanFrom(body, q, Normal, span));
    }
  }

  /** An unrecognised escape character adds one diagnostic carrying its byte offset, appends no text
      and leaves the scanner in `InEscape`, so the next character is read as an escape again. */
  lemma InvalidEscapeStep(body: string, k: nat, span: Span)
    requires k < |body|
    requires body[k] !in ['"', '\'', 'x', 'n', 'r', 't', '\\', '0', 'u', '\n']
    ensures ScanFrom(body, k, InEscape, span)
      == Emit([], [Diagnostic(InvalidEscape(ByteOffset(body, k)), span)], ScanFrom(body, k + 1, InEscape, span))
  {
  }

  // ---------------------------------------------------------------------------------------------
  // What a whole scan can produce

  /** Every diagnostic of a plain-string scan carries the literal's span and is either an invalid
      escape at a byte offset inside the body or a single suffix diagnostic at the end; every
      character produces at most one decoded character. */
  lemma {:induction false} ScanShape(body: string, k: nat, st: State, span: Span)
    requires k <= |body|
    ensures ScanFrom(body, k, st, span).Returns? ==>
      var o := ScanFrom(body, k, st, span).value;
      && |o.x| <= |body| - k
      && (forall j :: 0 <= j < |o.errors| ==> o.errors[j].span == span)
      && (forall j :: 0 <= j < |o.errors| && o.errors[j].kind.InvalidEscape? ==>
            ByteOffset(body, k) <= o.errors[j].kind.byteOffset < ByteOffset(body, |body|))
      && (forall j :: 0 <= j < |o.errors| && o.errors[j].kind.SuffixUnsupported? ==> j == |o.errors| - 1)
      && (forall j :: 0 <= j < |o.errors| ==> !o.errors[j].kind.NonStringHelpText?)
    decreases |body| - k
  {
    if k < |body| {
      StepShape(body, k, st, span);
      ByteOffsetMonotone(body, k, |body|);
      var step := ScanStep(body, k, st, span);
      if step.Advance? {
        ScanShape(body, step.next, step.state, span);
        ByteOffsetMonotone(body, k, step.next);
      }
    }
  }

  /** One turn of the scanner appends at most one character per character consumed, and reports at
      most one diagnostic: an invalid escape at the current offset, or the suffix when it stops. */
  lemma StepShape(body: string, k: nat, st: State, span: Span)
    requires k < |body|
    ensures var s := ScanStep(body, k, st, span);
      && (s.Advance? ==> (|s.text| <= s.next - k && |s.errors| <= 1
            && forall j :: 0 <= j < |s.errors| ==> s.errors[j] == Diagnostic(InvalidEscape(ByteOffset(body, k)), span)))
      && (s.Done? ==> (|s.errors| <= 1
            && forall j :: 0 <= j < |s.errors| ==> s.errors[j] == Diagnostic(SuffixUnsupported, span)))
  {
  }

  // ---------------------------------------------------------------------------------------------
  // Round trips through escaping encoders

  /** A writer of literals that encodes each character on its own. */
  function Encode(enc: char -> string, s: string): string
    decreases |s|
  {
    if s == [] then [] else enc(s[0]) + Encode(enc, s[1..])
  }

  /** `body` holds the encoding of `c` at index `p`. */
  predicate EncodedCharAt(enc: char -> string, body: string, p: nat, c: char) {
    p + |enc(c)| <= |body| && body[p..p + |enc(c)|] == enc(c)
  }

  /** `body` holds the encoding of `s` from index `p` on. */
  predicate EncodedAt(enc: char -> string, body: string, p: nat, s: string) {
    p + |Encode(enc, s)| <= |body| && body[p..p + |Encode(enc, s)|] == Encode(enc, s)
  }

  /** An encoded string is its first character's encoding followed by the rest's. */
  lemma EncodedAtSplit(enc: char -> string, body: string, p: nat, s: string)
    requires s != [] && EncodedAt(enc, body, p, s)
    ensures EncodedCharAt(enc, body, p, s[0]) && EncodedAt(enc, body, p + |enc(s[0])|, s[1..])
  {
    var e, u := enc(s[0]), Encode(enc, s);
    assert u == e + Encode(enc, s[1..]);
    assert body[p..p + |e|] == u[..|e|];
    assert body[p + |e|..p + |u|] == u[|e|..];
  }

  lemma EmitChain(a: Outcome<Output<string>>, b: Outcome<Output<string>>, c: Outcome<Output<string>>, s: string)
    requires s != [] && a == Emit([s[0]], [], b) && b == Emit(s[1..], [], c)
    ensures a == Emit(s, [], c)
  {
    if c.Returns? {
      assert [s[0]] + (s[1..] + c.value.x) == s + c.value.x;
      var errs: seq<Diagnostic> := c.value.errors;
      assert [] + ([] + errs) == [] + errs;
    }
  }

  /** If `f` gives back each encoded character on its own, it gives back an encoded string; `f`
      stands for the scanner from a given index. */
  lemma {:induction false} EncodedRun(f: nat -> Outcome<Output<string>>, enc: char -> string, body: string, p: nat, s: string)
    requires EncodedAt(enc, body, p, s)
    requires forall q: nat, c: char {:trigger EncodedCharAt(enc, body, q, c)} ::
      EncodedCharAt(enc, body, q, c) ==> f(q) == Emit([c], [], f(q + |enc(c)|))
    ensures f(p) == Emit(s, [], f(p + |Encode(enc, s)|))
    decreases |s|
  {
    if s == [] {
      EmitEmpty(f(p));
    } else {
      EncodedAtSplit(enc, body, p, s);
      var q := p + |enc(s[0])|;
      assert |Encode(enc, s)| == |enc(s[0])| + |Encode(enc, s[1..])|;
      EncodedRun(f, enc, body, q, s[1..]);
      EmitChain(f(p), f(q), f(p + |Encode(enc, s)|), s);
    }
  }

  /** `f` is the scanner of `body`, from any index, outside an escape. */
  predicate IsScanner(f: nat -> Outcome<Output<string>>, body: string, span: Span) {
    forall k: nat :: k <= |body| ==> f(k) == ScanFrom(body, k, Normal, span)
  }

  /** The closing quote ends the scan, with the suffix diagnostic when anything follows it. */
  lemma ClosingQuote(body: string, k: nat, span: Span)
    requires k < |body| && body[k] == '"'
    ensures ScanFrom(body, k, Normal, span)
      == Returns(Output("", if k + 1 < |body| then [Diagnostic(SuffixUnsupported, span)] else []))
  {
  }

  /** How a writer of literals escapes one character so that the scanner gives it back. */
  function EscapeChar(c: char): string {
    if c == '"' then ['\\', '"']
    else if c == '\\' then ['\\', '\\']
    else if c == '\r' then ['\\', 'r']
    else if c == '\n' then ['\\', 'n']
    else if c == '\t' then ['\\', 't']
    else if c == '\0' then ['\\', '0']
    else [c]
  }

  lemma EscapeCharStep(body: string, p: nat, c: char, span: Span)
    requires EncodedCharAt(EscapeChar, body, p, c)
    ensures ScanFrom(body, p, Normal, span) == Emit([c], [], ScanFrom(body, p + |EscapeChar(c)|, Normal, span))
  {
    var e := EscapeChar(c);
    assert body[p] == e[0];
    if |e| == 2 {
      assert body[p + 1] == e[1];
      if c == '"' { SimpleEscapeStep(body, p, '"', '"', span); }
      else if c == '\\' { SimpleEscapeStep(body, p, '\\', '\\', span); }
      else if c == '\r' { SimpleEscapeStep(body, p, 'r', '\r', span); }
      else if c == '\n' { SimpleEscapeStep(body, p, 'n', '\n', span); }
      else if c == '\t' { SimpleEscapeStep(body, p, 't', '\t', span); }
      else { SimpleEscapeStep(body, p, '0', '\0', span); }
    }
  }

  lemma EscapeCharSteps(f: nat -> Outcome<Output<string>>, enc: char -> string, body: string, span: Span)
    requires enc == EscapeChar && IsScanner(f, body, span)
    ensures forall q: nat, c: char {:trigger EncodedCharAt(enc, body, q, c)} ::
      EncodedCharAt(enc, body, q, c) ==> f(q) == Emit([c], [], f(q + |enc(c)|))
  {
    forall q: nat, c: char | EncodedCharAt(enc, body, q, c)
      ensures f(q) == Emit([c], [], f(q + |enc(c)|))
    {
      EscapeCharStep(body, q, c, span);
    }
  }

  /** Scanning the escaped form of `s` appends `s` and reports nothing. */
  lemma EscapedScan(body: string, p: nat, s: string, span: Span)
    requires EncodedAt(EscapeChar, body, p, s)
    ensures p + |Encode(EscapeChar, s)| <= |body|
    ensures ScanFrom(body, p, Normal, span) == Emit(s, [], ScanFrom(body, p + |Encode(EscapeChar, s)|, Normal, span))
  {
    var f := (k: nat) => if k <= |body| then ScanFrom(body, k, Normal, span) else Panics;
    assert IsScanner(f, body, span);
    EscapeCharSteps(f, EscapeChar, body, span);
    EncodedRun(f, EscapeChar, body, p, s);
  }

  /** A body that starts with the encoding of `s` holds it at index 0. */
  lemma EncodedPrefix(enc: char -> string, s: string, rest: string)
    ensures EncodedAt(enc, Encode(enc, s) + rest, 0, s)
  {
    var u := Encode(enc, s);
    assert (u + rest)[0..|u|] == u;
  }

  /** A scan of the body that appends `s` and then stops with `errs` is the literal's decoding. */
  lemma ScanToLiteral(input: string, s: string, errs: seq<Diagnostic>, span: Span)
    requires |input| > 0 && input[0] == '"'
    requires ScanFrom(input[1..], 0, Normal, span) == Emit(s, [], Returns(Output("", errs)))
    ensures StrLiteral(input, span) == Returns(Ok(Output(s, errs)))
  {
    assert s + "" == s && [] + errs == errs;
  }

  /** Decoding an escaped string gives it back without diagnostics; any text after the closing
      quote adds exactly the suffix diagnostic. */
  lemma EscapeRoundTrip(s: string, suffix: string, span: Span)
    ensures StrLiteral(['"'] + Encode(EscapeChar, s) + ['"'] + suffix, span)
      == Returns(Ok(Output(s, if suffix == [] then [] else [Diagnostic(SuffixUnsupported, span)])))
  {
    var u := Encode(EscapeChar, s);
    var input := ['"'] + u + ['"'] + suffix;
    var body := u + (['"'] + suffix);
    assert input[1..] == body && body[|u|] == '"';
    EncodedPrefix(EscapeChar, s, ['"'] + suffix);
    EscapedScan(body, 0, s, span);
    ClosingQuote(body, |u|, span);
    ScanToLiteral(input, s, if suffix == [] then [] else [Diagnostic(SuffixUnsupported, span)], span);
  }

  /** The hexadecimal digits of `n`, most significant first, without leading zeros. */
  function HexDigits(n: nat): (ds: string)
    ensures |ds| > 0
    decreases n
  {
    var d := n % 16;
    var c := if d < 10 then ('0' as int + d) as char else ('a' as int + d - 10) as char;
    if n < 16 then [c] else HexDigits(n / 16) + [c]
  }

  /** Every character `HexDigits` writes is a hexadecimal digit. */
  lemma {:induction false} HexDigitsAreHex(n: nat)
    ensures forall j :: 0 <= j < |HexDigits(n)| ==> IsHexDigit(HexDigits(n)[j])
    decreases n
  {
    if n >= 16 {
      HexDigitsAreHex(n / 16);
    }
  }

  lemma {:induction false} HexDigitsValue(n: nat)
    ensures var ds := HexDigits(n); (forall j :: 0 <= j < |ds| ==> IsHexDigit(ds[j])) && HexNumber(ds) == n
    decreases n
  {
    var ds := HexDigits(n);
    HexDigitsAreHex(n);
    if n >= 16 {
      HexDigitsValue(n / 16);
      assert ds[..|ds| - 1] == HexDigits(n / 16);
    }
  }

  function Pow16(k: nat): nat {
    if k == 0 then 1 else 16 * Pow16(k - 1)
  }

  lemma {:induction false} HexDigitsLength(n: nat, k: nat)
    requires 1 <= k && n < Pow16(k)
    ensures |HexDigits(n)| <= k
    decreases k
  {
    if n >= 16 {
      assert Pow16(1) == 16;
      HexDigitsLength(n / 16, k - 1);
    }
  }

  /** A scalar value has at most six hexadecimal digits. */
  lemma ScalarHexDigits(n: nat)
    requires n < 0x11_0000
    ensures |HexDigits(n)| <= 6
  {
    assert Pow16(6) == 0x100_0000 by {
      assert Pow16(1) == 16;
      assert Pow16(2) == 0x100;
      assert Pow16(3) == 0x1000;
      assert Pow16(4) == 0x1_0000;
      assert Pow16(5) == 0x10_0000;
    }
    HexDigitsLength(n, 6);
  }

  function UnicodeEscapeOf(c: char): string {
    ['\\', 'u', '{'] + HexDigits(c as int) + ['}']
  }

  /** A `\u{...}` escape whose digits read as the code of `c` appends `c` alone. */
  lemma UnicodeCharStep(f: nat -> Outcome<Output<string>>, body: string, p: nat, c: char, next: nat, span: Span)
    requires IsScanner(f, body, span)
    requires p + 2 < |body| && body[p] == '\\' && body[p + 1] == 'u' && body[p + 2] == '{'
    requires UnicodeDigits(body, p + 3, 0, 0) == Returns((c as int, next))
    ensures f(p) == Emit([c], [], f(next))
  {
    var v := c as int;
    assert IsScalarValue(v) && v as char == c;
    UnicodeEscapeValueStep(body, p, v, next, span);
  }

  /** The `\u{hex}` form of `c` starts with `\u{` and its digit loop reads the code of `c`. */
  lemma UnicodeEscapeOfHead(body: string, p: nat, c: char)
    requires EncodedCharAt(UnicodeEscapeOf, body, p, c)
    ensures p + 2 < |body| && body[p] == '\\' && body[p + 1] == 'u' && body[p + 2] == '{'
    ensures UnicodeDigits(body, p + 3, 0, 0) == Returns((c as int, p + |UnicodeEscapeOf(c)|))
  {
    var e := UnicodeEscapeOf(c);
    assert body[p] == e[0] && body[p + 1] == e[1] && body[p + 2] == e[2];
    UnicodeDigitsOfChar(body, p, c);
  }

  /** The digit loop reads the digits of `UnicodeEscapeOf(c)` back to the code of `c`. */
  lemma UnicodeDigitsOfChar(body: string, p: nat, c: char)
    requires EncodedCharAt(UnicodeEscapeOf, body, p, c)
    ensures UnicodeDigits(body, p + 3, 0, 0) == Returns((c as int, p + |UnicodeEscapeOf(c)|))
  {
    CharHexDigits(c);
    UnicodeDigitsOfDigits(body, p, HexDigits(c as int), c as int);
  }

  /** The digits of a character's code have its value and number at most six, and its escape is
      four characters longer. */
  lemma CharHexDigits(c: char)
    ensures var ds := HexDigits(c as int); forall j :: 0 <= j < |ds| ==> IsHexDigit(ds[j])
    ensures HexNumber(HexDigits(c as int)) == c as int && |HexDigits(c as int)| <= 6
    ensures |UnicodeEscapeOf(c)| == |HexDigits(c as int)| + 4
  {
    HexDigitsValue(c as int);
    ScalarHexDigits(c as int);
  }

  /** The digit loop reads the digits of a `\u{...}` written at index `p` to their value. */
  lemma UnicodeDigitsOfDigits(body: string, p: nat, ds: string, v: nat)
    requires forall j :: 0 <= j < |ds| ==> IsHexDigit(ds[j])
    requires |ds| <= 6 && HexNumber(ds) == v
    requires p + |ds| + 4 <= |body| && body[p..p + |ds| + 4] == ['\\', 'u', '{'] + ds + ['}']
    ensures UnicodeDigits(body, p + 3, 0, 0) == Returns((v, p + |ds| + 4))
  {
    DigitsInEscape(body, p, ds);
    UnicodeDigitsReadValue(body, p + 3, ds);
  }

  /** The digits and the brace inside a `\u{...}` written at index `p`. */
  lemma DigitsInEscape(body: string, p: nat, ds: string)
    requires p + |ds| + 4 <= |body| && body[p..p + |ds| + 4] == ['\\', 'u', '{'] + ds + ['}']
    ensures body[p + 3..p + 3 + |ds|] == ds && body[p + 3 + |ds|] == '}'
  {
    var e := ['\\', 'u', '{'] + ds + ['}'];
    forall j | 0 <= j < |ds|
      ensures body[p + 3 + j] == ds[j]
    {
      assert body[p + 3 + j] == e[3 + j];
    }
    assert body[p + 3 + |ds|] == e[3 + |ds|];
  }

  lemma UnicodeEscapeOfSteps(f: nat -> Outcome<Output<string>>, enc: char -> string, body: string, span: Span)
    requires enc == UnicodeEscapeOf && IsScanner(f, body, span)
    ensures forall q: nat, c: char {:trigger EncodedCharAt(enc, body, q, c)} ::
      EncodedCharAt(enc, body, q, c) ==> f(q) == Emit([c], [], f(q + |enc(c)|))
  {
    forall q: nat, c: char | EncodedCharAt(enc, body, q, c)
      ensures f(q) == Emit([c], [], f(q + |enc(c)|))
    {
      UnicodeEscapeOfHead(body, q, c);
      UnicodeCharStep(f, body, q, c, q + |enc(c)|, span);
    }
  }

  /** Scanning the `\u{...}` form of `s` appends `s` and reports nothing. */
  lemma UnicodeEscapedScan(body: string, p: nat, s: string, span: Span)
    requires EncodedAt(UnicodeEscapeOf, body, p, s)
    ensures p + |Encode(UnicodeEscapeOf, s)| <= |body|
    ensures ScanFrom(body, p, Normal, span) == Emit(s, [], ScanFrom(body, p + |Encode(UnicodeEscapeOf, s)|, Normal, span))
  {
    var f := (k: nat) => if k <= |body| then ScanFrom(body, k, Normal, span) else Panics;
    assert IsScanner(f, body, span);
    UnicodeEscapeOfSteps(f, UnicodeEscapeOf, body, span);
    EncodedRun(f, UnicodeEscapeOf, body, p, s);
  }

  /** Writing every character as `\u{...}` and decoding gives the string back without diagnostics. */
  lemma UnicodeEscapeRoundTrip(s: string, span: Span)
    ensures StrLiteral(['"'] + Encode(UnicodeEscapeOf, s) + ['"'], span) == Returns(Ok(Output(s, [])))
  {
    var u := Encode(UnicodeEscapeOf, s);
    var input := ['"'] + u + ['"'];
    var body := u + ['"'];
    assert input[1..] == body && body[|u|] == '"';
    EncodedPrefix(UnicodeEscapeOf, s, ['"']);
    UnicodeEscapedScan(body, 0, s, span);
    ClosingQuote(body, |u|, span);
    ScanToLiteral(input, s, [], span);
  }

  // ---------------------------------------------------------------------------------------------
  // Raw strings

  lemma HashRunAtLeast(body: string, j: nat, n: nat)
    requires j < |body|
    ensures HashRun(body, j + 1) >= n <==> FollowedByHashes(body, j, n)
  {
    var r := HashRun(body, j + 1);
  }

  lemma HashRunStops(s: string, p: nat, e: nat)
    requires p <= e < |s| && s[e] != '#'
    ensures p + HashRun(s, p) <= e
  {
  }

  /** A quote followed by `k < n` hashes and then another character emits the quote and the `k`
      hashes verbatim and resumes after them. */
  lemma RawShortRunStep(body: string, p: nat, n: nat, k: nat)
    requires p + 1 + k < |body| && body[p] == '"' && k < n
    requires forall j :: p < j <= p + k ==> body[j] == '#'
    requires body[p + 1 + k] != '#'
    ensures RawBody(body, p, n) == Prefix(['"'] + Hashes(k), RawBody(body, p + 1 + k, n))
  {
    var r := HashRun(body, p + 1);
  }

  /** A quote followed by `n` hashes closes the body. */
  lemma RawClosingStep(body: string, e: nat, n: nat)
    requires e < |body| && body[e] == '"' && FollowedByHashes(body, e, n)
    ensures RawBody(body, e, n) == Returns("")
  {
    HashRunAtLeast(body, e, n);
  }

  /** A character other than a quote, with more input after it, is copied. */
  lemma RawPlainStep(body: string, p: nat, n: nat)
    requires p + 1 < |body| && body[p] != '"'
    ensures RawBody(body, p, n) == Prefix([body[p]], RawBody(body, p + 1, n))
  {
  }

  /** Splitting the verbatim text at `m`. */
  lemma SliceJoin(body: string, p: nat, m: nat, e: nat, t: string, s: string)
    requires p <= m <= e <= |body| && body[p..m] == t && body[m..e] == s
    ensures Prefix(t, Returns(s)) == Returns(body[p..e])
  {
    assert body[p..e] == body[p..m] + body[m..e];
  }

  lemma QuoteRunSlice(body: string, p: nat, k: nat)
    requires p + 1 + k <= |body| && body[p] == '"'
    requires forall j :: p < j <= p + k ==> body[j] == '#'
    ensures body[p..p + 1 + k] == ['"'] + Hashes(k)
  {
  }

  lemma {:induction false} RawBodyVerbatim(body: string, p: nat, e: nat, n: nat)
    requires p <= e < |body| && body[e] == '"' && FollowedByHashes(body, e, n)
    requires forall j :: p <= j < e && body[j] == '"' ==> !FollowedByHashes(body, j, n)
    ensures RawBody(body, p, n) == Returns(body[p..e])
    decreases e - p
  {
    if p == e {
      RawClosingStep(body, e, n);
      assert body[p..e] == "";
    } else if body[p] == '"' {
      HashRunAtLeast(body, p, n);
      var run := HashRun(body, p + 1);
      HashRunStops(body, p + 1, e);
      var m := p + 1 + run;
      RawShortRunStep(body, p, n, run);
      RawBodyVerbatim(body, m, e, n);
      QuoteRunSlice(body, p, run);
      SliceJoin(body, p, m, e, ['"'] + Hashes(run), body[m..e]);
    } else {
      RawPlainStep(body, p, n);
      RawBodyVerbatim(body, p + 1, e, n);
      SliceJoin(body, p, p + 1, e, [body[p]], body[p + 1..e]);
    }
  }

  /** A raw string opened by `n` hashes and a quote decodes to exactly the characters up to the
      first quote that is followed by `n` hashes, copied verbatim. */
  lemma RawLiteralContent(body: string, n: nat, e: nat)
    requires n < e < |body|
    requires forall j :: 0 <= j < n ==> body[j] == '#'
    requires body[n] == '"'
    requires body[e] == '"' && FollowedByHashes(body, e, n)
    requires forall j :: n < j < e && body[j] == '"' ==> !FollowedByHashes(body, j, n)
    ensures RawStrLiteral(['r'] + body) == Returns(body[n + 1..e])
  {
    RawOpening(body, n);
    RawBodyVerbatim(body, n + 1, e, n);
  }

  /** `r`, `n` hashes and a quote hand the rest to the body loop with a delimiter of `n` hashes. */
  lemma RawOpening(body: string, n: nat)
    requires n < |body| && body[n] == '"'
    requires forall j :: 0 <= j < n ==> body[j] == '#'
    ensures RawStrLiteral(['r'] + body) == RawBody(body, n + 1, n)
  {
    assert (['r'] + body)[1..] == body;
    HashRunCovers(body, 0, n);
    HashRunStops(body, 0, n);
  }

  /** A run of `#` from `p` to `n` is inside the `#` run at `p`. */
  lemma {:induction false} HashRunCovers(s: string, p: nat, n: nat)
    requires p <= n <= |s|
    requires forall j :: p <= j < n ==> s[j] == '#'
    ensures p + HashRun(s, p) >= n
    decreases n - p
  {
    if p < n {
      HashRunCovers(s, p + 1, n);
    }
  }

  /** Where the parts of `n` hashes, a quote, the content, a quote, `n` hashes and the rest lie. */
  lemma RawLayout(n: nat, content: string, rest: string)
    ensures var body := Hashes(n) + ['"'] + content + ['"'] + Hashes(n) + rest;
      var e := n + 1 + |content|;
      && e + n < |body| && body[n] == '"' && body[e] == '"'
      && (forall j :: 0 <= j < n ==> body[j] == '#')
      && (forall i :: 0 <= i < |content| ==> body[n + 1 + i] == content[i])
      && FollowedByHashes(body, e, n)
      && body[n + 1..e] == content
  {
    var body := Hashes(n) + ['"'] + content + ['"'] + Hashes(n) + rest;
    var e := n + 1 + |content|;
    forall i | e < i <= e + n
      ensures body[i] == '#'
    {
      assert body[i] == Hashes(n)[i - e - 1];
    }
    assert body[n + 1..e] == content;
  }

  /** A quote of the content followed by `n` hashes in the literal would be one in the content
      followed by the closing quote. */
  lemma ContentQuotesOpen(body: string, content: string, n: nat)
    requires n + 1 + |content| < |body| && body[n + 1 + |content|] == '"'
    requires forall i :: 0 <= i < |content| ==> body[n + 1 + i] == content[i]
    requires forall j :: 0 <= j < |content| && content[j] == '"' ==> !FollowedByHashes(content + ['"'], j, n)
    ensures forall j :: n < j < n + 1 + |content| && body[j] == '"' ==> !FollowedByHashes(body, j, n)
  {
    var e := n + 1 + |content|;
    forall j | n < j < e && body[j] == '"'
      ensures !FollowedByHashes(body, j, n)
    {
      QuoteCarriesOver(body, content, n, j);
      assert content[j - n - 1] == body[j];
    }
  }

  /** The hashes after a quote of the content inside the literal are hashes of the content. */
  lemma QuoteCarriesOver(body: string, content: string, n: nat, j: nat)
    requires n + 1 + |content| < |body| && body[n + 1 + |content|] == '"'
    requires forall i :: 0 <= i < |content| ==> body[n + 1 + i] == content[i]
    requires n < j < n + 1 + |content|
    ensures FollowedByHashes(body, j, n) ==> FollowedByHashes(content + ['"'], j - n - 1, n)
  {
    var e, c := n + 1 + |content|, j - n - 1;
    if FollowedByHashes(body, j, n) {
      assert body[e] != '#';
      assert c + n < |content|;
      forall i | c < i <= c + n
        ensures (content + ['"'])[i] == '#'
      {
        assert body[n + 1 + i] == '#';
      }
    }
  }

  /** Writing `r`, `n` hashes, a quote, the content, a quote and `n` hashes gives the content back
      when no quote in the content is followed by `n` hashes. */
  lemma RawRoundTrip(content: string, n: nat, rest: string)
    requires forall j :: 0 <= j < |content| && content[j] == '"' ==> !FollowedByHashes(content + ['"'], j, n)
    ensures RawStrLiteral(['r'] + Hashes(n) + ['"'] + content + ['"'] + Hashes(n) + rest) == Returns(content)
  {
    RawInput(n, content, rest);
    RawLayout(n, content, rest);
    RawContentOf(Hashes(n) + ['"'] + content + ['"'] + Hashes(n) + rest, content, n);
  }

  /** A body laid out as `n` hashes, a quote, the content and a closing quote followed by `n`
      hashes decodes to the content. */
  lemma RawContentOf(body: string, content: string, n: nat)
    requires var e := n + 1 + |content|;
      && e + n < |body| && body[n] == '"' && body[e] == '"'
      && (forall j :: 0 <= j < n ==> body[j] == '#')
      && (forall i :: 0 <= i < |content| ==> body[n + 1 + i] == content[i])
      && FollowedByHashes(body, e, n)
      && body[n + 1..e] == content
    requires forall j :: 0 <= j < |content| && content[j] == '"' ==> !FollowedByHashes(content + ['"'], j, n)
    ensures RawStrLiteral(['r'] + body) == Returns(content)
  {
    ContentQuotesOpen(body, content, n);
    RawLiteralContent(body, n, n + 1 + |content|);
  }

  lemma RawInput(n: nat, content: string, rest: string)
    ensures ['r'] + Hashes(n) + ['"'] + content + ['"'] + Hashes(n) + rest
      == ['r'] + (Hashes(n) + ['"'] + content + ['"'] + Hashes(n) + rest)
  {
  }

  // ---------------------------------------------------------------------------------------------
  // The classifier

  /** The decoded literal carries the span of the token. */
  lemma ClassifiedKeepsSpan(text: string, span: Span)
    ensures Classified(text, span).Returns? && Classified(text, span).value.Ok? ==>
      Classified(text, span).value.value.x.span == span
  {
  }

  /** `Literal::parse` never yields `Err`; a literal is `Unknown`, with no diagnostics, exactly when
      its text starts with neither a quote nor `r`; raw strings never carry diagnostics. */
  lemma ClassifierDispatch(text: string, span: Span)
    ensures !(Classified(text, span).Returns? && Classified(text, span).value.Err?)
    ensures Classified(text, span) == Returns(Ok(Output(Literal(Unknown, span), [])))
      <==> !(|text| > 0 && (text[0] == '"' || text[0] == 'r'))
    ensures |text| > 0 && text[0] == '"' ==>
      Classified(text, span) == match StrLiteral(text, span)
        case Panics => Panics
        case Returns(Err(e)) => Returns(Err(e))
        case Returns(Ok(o)) => Returns(Ok(Output(Literal(String(o.x), span), o.errors)))
    ensures |text| > 0 && text[0] == 'r' ==>
      Classified(text, span) == match RawStrLiteral(text)
        case Panics => Panics
        case Returns(s) => Returns(Ok(Output(Literal(String(s), span), [])))
  {
  }

  // ---------------------------------------------------------------------------------------------
  // Worked examples

  /** `"\x41"` decodes to `A`. */
  lemma HexExample(span: Span)
    ensures StrLiteral("\"\\x41\"", span) == Returns(Ok(Output("A", [])))
  {
    var body := "\\x41\"";
    assert "\"\\x41\""[1..] == body;
    assert body[1] == 'x' && body[2] == '4' && body[3] == '1' && body[4] == '"';
    HexEscapeStep(body, 0, span);
    assert ScanFrom(body, 4, Normal, span) == Returns(Output("", []));
    assert (4 * 16 + 1) as char == 'A';
    var none: seq<Diagnostic> := [];
    assert ['A'] + "" == "A" && none + none == none;
    assert ScanFrom(body, 0, Normal, span) == Returns(Output("A", []));
  }

  /** `"\q"` yields the text `"` (the quote after `q` is read as an escape) and one diagnostic at
      byte offset 1. */
  lemma InvalidEscapeExample(span: Span)
    ensures StrLiteral("\"\\q\"", span) == Returns(Ok(Output("\"", [Diagnostic(InvalidEscape(1), span)])))
  {
    var body := "\\q\"";
    assert "\"\\q\""[1..] == body;
    assert ByteOffset(body, 1) == 1;
    InvalidEscapeStep(body, 1, span);
    assert ScanFrom(body, 2, InEscape, span) == Emit(['"'], [], ScanFrom(body, 3, Normal, span));
    assert ScanFrom(body, 3, Normal, span) == Returns(Output("", []));
    var none: seq<Diagnostic> := [];
    var d := [Diagnostic(InvalidEscape(1), span)];
    assert ['"'] + "" == "\"" && none + none == none;
    assert ScanFrom(body, 2, InEscape, span) == Returns(Output("\"", []));
    assert "" + "\"" == "\"" && d + none == d;
    EscapeStart(body, 0, span);
    assert ScanFrom(body, 0, Normal, span) == Returns(Output("\"", d));
  }

  /** `"abc"xyz` decodes to `abc` and reports the suffix. */
  lemma SuffixExample(span: Span)
    ensures StrLiteral("\"abc\"xyz", span) == Returns(Ok(Output("abc", [Diagnostic(SuffixUnsupported, span)])))
  {
    var body := "abc\"xyz";
    assert body[3] == '"' && body[..3] == "abc";
    NoEscapeLiteral(body, 3, span);
    assert ['"'] + "abc\"xyz" == "\"abc\"xyz";
  }

  /** `r#"a"b"#` decodes to `a"b`. */
  lemma RawExample()
    ensures RawStrLiteral("r#\"a\"b\"#") == Returns("a\"b")
  {
    var body := "#\"a\"b\"#";
    assert ['r'] + body == "r#\"a\"b\"#";
    assert body[0] == '#' && body[1] == '"' && body[4] == 'b' && body[5] == '"' && body[6] == '#';
    forall j | 1 < j < 5 && body[j] == '"'
      ensures !FollowedByHashes(body, j, 1)
    {
      assert j == 3;
    }
    assert body[2..5] == "a\"b";
    RawLiteralContent(body, 1, 5);
  }

  /** `"\u{48}\u{49}"` decodes to `HI`. */
  lemma UnicodeExample(span: Span)
    ensures StrLiteral("\"\\u{48}\\u{49}\"", span) == Returns(Ok(Output("HI", [])))
  {
    UnicodeEscapedHI();
    UnicodeEscapeRoundTrip("HI", span);
  }

  lemma UnicodeEscapedHI()
    ensures ['"'] + Encode(UnicodeEscapeOf, "HI") + ['"'] == "\"\\u{48}\\u{49}\""
  {
    UnicodeEscapeOfHI();
    var h, i := UnicodeEscapeOf('H'), UnicodeEscapeOf('I');
    assert Encode(UnicodeEscapeOf, "HI") == h + Encode(UnicodeEscapeOf, "I");
    assert Encode(UnicodeEscapeOf, "I") == i + Encode(UnicodeEscapeOf, "");
  }

  lemma UnicodeEscapeOfHI()
    ensures UnicodeEscapeOf('H') == "\\u{48}" && UnicodeEscapeOf('I') == "\\u{49}"
  {
    assert HexDigits('H' as int) == "48";
    assert HexDigits('I' as int) == "49";
  }

  /** A backslash, a line feed and three spaces between `a` and `b` decode to `ab`. */
  lemma ContinuationExample(span: Span)
    ensures StrLiteral("\"a\\\n   b\"", span) == Returns(Ok(Output("ab", [])))
  {
    var body := "a\\\n   b\"";
    assert "\"a\\\n   b\""[1..] == body;
    ContinuationStep(body, 1, 6, span);
    assert ScanFrom(body, 7, Normal, span) == Returns(Output("", []));
    var none: seq<Diagnostic> := [];
    assert ['b'] + "" == "b" && ['a'] + "b" == "ab" && none + none == none;
    assert ScanFrom(body, 6, Normal, span) == Returns(Output("b", []));
    assert ScanFrom(body, 0, Normal, span) == Returns(Output("ab", []));
  }

  /** `r"plain"` decodes to `plain`. */
  lemma RawWithoutHashesExample()
    ensures RawStrLiteral("r\"plain\"") == Returns("plain")
  {
    var body := "\"plain\"";
    assert ['r'] + body == "r\"plain\"";
    assert body[6] == '"' && body[1..6] == "plain";
    RawLiteralContent(body, 0, 6);
  }
}
