/** Bodies that are nothing but `N G R` (indirect_reference.rs and the scalar checks of object_body_references.rs). */
module ScalarReference {
  import opened Basics
  import opened Lexing
  import opened ByteRegions
  import opened ReferenceScan
  import opened ReferenceSplice

  const SCAN_LIMIT: nat := 128

  datatype Shape = Shape(reference: IndirectRef, range: ByteRange)

  datatype ShapeRejection = OffsetOutOfBounds | Malformed | BadObjectNumber | BadGeneration

  predicate ConsumesR(s: Bytes) {
    s != [] && s[0] == 'R' && (|s| > 1 ==> !IsRegular(s[1]))
  }

  datatype Layout = Layout(number: nat, gap: nat, generation: nat, last: nat) {
    function GenerationStart(): nat { number + gap }
    function LastStart(): nat { number + gap + generation }
    function KeywordStart(): nat { number + gap + generation + last }
  }

  /** Lengths of the parts of `N G R` at the front of the window; absent when it is not shaped so. */
  function Parts(content: Bytes): (parts: Option<Layout>)
    ensures parts.Some? ==> parts.value.KeywordStart() < |content|
  {
    var n := CountLeadingDigits(content);
    var gap := SkipWhitespace(content[n..]);
    var m := CountLeadingDigits(content[n + gap..]);
    var last := SkipWhitespace(content[n + gap + m..]);
    if n == 0 || gap == 0 || m == 0 || last == 0 || !ConsumesR(content[n + gap + m + last..]) then None
    else Some(Layout(n, gap, m, last))
  }

  function Window(input: Bytes, offset: nat): Bytes
    requires offset < |input|
  {
    input[offset..if offset + SCAN_LIMIT < |input| then offset + SCAN_LIMIT else |input|]
  }

  function NumberIn(s: Bytes, from: nat, length: nat): Option<nat>
    requires from + length <= |s|
  {
    var text := s[from..from + length];
    if IsDigits(text) then U64Decimal(text) else None
  }

  /** The window after its leading whitespace. */
  function Content(input: Bytes, offset: nat): Bytes
    requires offset < |input|
  {
    Window(input, offset)[SkipWhitespace(Window(input, offset))..]
  }

  /** Parses one reference after optional whitespace, looking at a bounded window only. */
  function ParseIndirectReference(input: Bytes, offset: nat): Result<Shape, ShapeRejection> {
    if offset >= |input| then Err(OffsetOutOfBounds)
    else
      var start, content := offset + SkipWhitespace(Window(input, offset)), Content(input, offset);
      match Parts(content)
      case None => Err(Malformed)
      case Some(parts) =>
        match ReferenceFromWindow(NumberIn(content, 0, parts.number),
                                  NumberIn(content, parts.GenerationStart(), parts.generation))
        case Err(ObjectNumberOutOfRange) => Err(BadObjectNumber)
        case Err(GenerationOutOfRange) => Err(BadGeneration)
        case Ok(reference) => Ok(Shape(reference, ByteRange(start, start + parts.KeywordStart() + 1)))
  }

  function ScalarSkips(reason: ShapeRejection): seq<SkippedReference> {
    match reason
    case BadObjectNumber => [ObjectNumberOutOfRange]
    case BadGeneration => [GenerationOutOfRange]
    case _ => []
  }

  /** The census of a number-like body: its one reference, or a structured skip. */
  function ScalarCheck(input: Bytes, offset: nat): (seq<IndirectRef>, seq<SkippedReference>) {
    match ParseIndirectReference(input, offset)
    case Ok(shape) => ([shape.reference], [])
    case Err(reason) => ([], ScalarSkips(reason))
  }

  /** The range-bearing sibling: the span scanner over exactly the accepted bytes. */
  function ScalarRangesCheck(input: Bytes, offset: nat): ReferenceReport {
    match ParseIndirectReference(input, offset)
    case Ok(shape) => Report(input, shape.range)
    case Err(reason) => ReferenceReport([], [], ScalarSkips(reason), false)
  }

  // ---- The two siblings agree ----------------------------------------------

  lemma LexDigitsThen(digits: Bytes, rest: Bytes)
    requires IsDigits(digits) && (rest != [] ==> !IsRegular(rest[0]))
    ensures Lex(digits + rest) == Some((Integer, |digits|))
  {
    var s := digits + rest;
    assert forall i | 0 <= i < |digits| :: s[i] == digits[i] && IsRegular(s[i]);
    RunIs(s, IsRegular, |digits|);
    assert s[..|digits|] == digits;
    RunIs(digits, IsDigit, |digits|);
  }

  lemma LexBlankThen(blank: Bytes, rest: Bytes)
    requires blank != [] && (forall i | 0 <= i < |blank| :: IsWhitespace(blank[i]))
      && (rest != [] ==> !IsWhitespace(rest[0]))
    ensures Lex(blank + rest) == Some((Blank, |blank|))
  {
    var s := blank + rest;
    assert forall i | 0 <= i < |blank| :: s[i] == blank[i];
    RunIs(s, IsWhitespace, |blank|);
  }

  predicate AllWhitespace(s: Bytes) { s != [] && forall i | 0 <= i < |s| :: IsWhitespace(s[i]) }

  function ReferenceTokens(number: Bytes, gap: Bytes, generation: Bytes, last: Bytes): seq<Token> {
    [Token(Integer, number), Token(Blank, gap), Token(Integer, generation), Token(Blank, last), Token(Keyword, ['R'])]
  }

  /** Two digit runs and the keyword, separated by whitespace, are five tokens. */
  lemma TokensOfReference(number: Bytes, gap: Bytes, generation: Bytes, last: Bytes)
    requires IsDigits(number) && AllWhitespace(gap) && IsDigits(generation) && AllWhitespace(last)
    ensures Tokens(number + (gap + (generation + (last + ['R'])))) == ReferenceTokens(number, gap, generation, last)
  {
    hide Lex, Tokens;
    KeywordToken();
    var fromLast := last + ['R'];
    LexBlankThen(last, ['R']);
    TokensFold(fromLast, last, ['R'], Blank);
    var fromGeneration := generation + fromLast;
    assert fromLast[0] == last[0];
    LexDigitsThen(generation, fromLast);
    TokensFold(fromGeneration, generation, fromLast, Integer);
    var fromGap := gap + fromGeneration;
    assert fromGeneration[0] == generation[0];
    LexBlankThen(gap, fromGeneration);
    TokensFold(fromGap, gap, fromGeneration, Blank);
    assert fromGap[0] == gap[0];
    LexDigitsThen(number, fromGap);
    TokensFold(number + fromGap, number, fromGap, Integer);
  }

  lemma KeywordToken()
    ensures Tokens(['R']) == [Token(Keyword, ['R'])]
  {
    var s: Bytes := ['R'];
    RunIs(s, IsRegular, 1);
    assert s[..1] == s && s[1..] == [];
    assert Lex(s) == Some((Keyword, 1));
    assert Tokens(s[1..]) == [];
  }

  lemma FindingsOfReference(tokens: seq<Token>)
    requires |tokens| == 5 && tokens[0].kind == Integer && tokens[1].kind == Blank && tokens[2].kind == Integer
    requires tokens[3].kind == Blank && tokens[4].kind == Keyword && Reading(tokens, 0, 2).Ok?
    ensures FindingsBefore(tokens, 5) == Findings([Triple(0, 2, 4)], [], false)
  {
    hide Reading;
    assert ReferenceScan.Window(tokens, 0) == (None, None);
    assert ReferenceScan.Window(tokens, 1) == (None, Some(0));
    assert ReferenceScan.Window(tokens, 2) == (None, Some(0));
    assert ReferenceScan.Window(tokens, 3) == (Some(0), Some(2));
    assert ReferenceScan.Window(tokens, 4) == (Some(0), Some(2));
    assert FindingsBefore(tokens, 0) == Findings([], [], false);
    assert FindingsBefore(tokens, 1) == Findings([], [], false);
    assert FindingsBefore(tokens, 2) == Findings([], [], false);
    assert FindingsBefore(tokens, 3) == Findings([], [], false);
    assert FindingsBefore(tokens, 4) == Findings([], [], false);
  }

  lemma RunPiece(content: Bytes, start: nat, class_: Byte -> bool)
    requires start <= |content|
    ensures var n := RunOf(content[start..], class_);
      start + n <= |content|
      && var piece := content[start..start + n]; forall i | 0 <= i < |piece| :: class_(piece[i])
  {
    var n := RunOf(content[start..], class_);
    var piece := content[start..start + n];
    assert forall i | 0 <= i < n :: piece[i] == content[start..][i];
  }

  /** What the parser accepted, in its parts. */
  lemma AcceptedParts(content: Bytes)
    requires Parts(content).Some?
    ensures var parts := Parts(content).value;
      IsDigits(content[..parts.number]) && AllWhitespace(content[parts.number..parts.GenerationStart()])
      && IsDigits(content[parts.GenerationStart()..parts.LastStart()])
      && AllWhitespace(content[parts.LastStart()..parts.KeywordStart()])
      && content[parts.KeywordStart()] == 'R'
  {
    hide RunOf;
    var parts := Parts(content).value;
    assert content[0..] == content;
    RunPiece(content, 0, IsDigit);
    RunPiece(content, parts.number, IsWhitespace);
    RunPiece(content, parts.GenerationStart(), IsDigit);
    RunPiece(content, parts.LastStart(), IsWhitespace);
  }

  lemma AcceptedSpan(input: Bytes, offset: nat)
    requires ParseIndirectReference(input, offset).Ok?
    ensures offset < |input| && Parts(Content(input, offset)).Some?
    ensures var content := Content(input, offset);
      var parts := Parts(content).value;
      Spanned(input, ParseIndirectReference(input, offset).value.range) == content[..parts.KeywordStart() + 1]
      && ReferenceFromWindow(NumberIn(content, 0, parts.number),
                             NumberIn(content, parts.GenerationStart(), parts.generation))
         == Ok(ParseIndirectReference(input, offset).value.reference)
  {
    hide Parts, RunOf, ReferenceFromWindow, NumberIn;
    var window, content := Window(input, offset), Content(input, offset);
    var leading := SkipWhitespace(window);
    var length := Parts(content).value.KeywordStart() + 1;
    assert window[leading..][..length] == window[leading..leading + length];
    assert window[leading..leading + length] == input[offset + leading..offset + leading + length];
  }

  lemma FiveParts(content: Bytes, parts: Layout)
    requires parts.KeywordStart() < |content|
    ensures content[..parts.KeywordStart() + 1]
      == content[..parts.number] + (content[parts.number..parts.GenerationStart()]
         + (content[parts.GenerationStart()..parts.LastStart()]
            + (content[parts.LastStart()..parts.KeywordStart()] + [content[parts.KeywordStart()]])))
  {
  }

  /**
   * The two scalar checks report the same: running the span scanner over the bytes the parser accepted
   * finds that one reference, whatever follows the window, and nothing else.
   */
  lemma ScalarSiblingsAgree(input: Bytes, offset: nat)
    ensures var (references, skipped) := ScalarCheck(input, offset);
      var report := ScalarRangesCheck(input, offset);
      report.references == references && report.skipped == skipped && !report.truncated
      && |report.ranges| == |references|
  {
    hide Parts, Tokens, Content, SkipWhitespace, Spanned, SpanStart, ParseIndirectReference, ReferenceFromWindow,
         FindingsBefore, U64Decimal;
    if ParseIndirectReference(input, offset).Ok? {
      AcceptedSpan(input, offset);
      var content := Content(input, offset);
      var parts := Parts(content).value;
      AcceptedParts(content);
      FiveParts(content, parts);
      var a, c := content[..parts.number], content[parts.GenerationStart()..parts.LastStart()];
      var b, d := content[parts.number..parts.GenerationStart()], content[parts.LastStart()..parts.KeywordStart()];
      TokensOfReference(a, b, c, d);
      var tokens := ReferenceTokens(a, b, c, d);
      assert content[0..0 + parts.number] == a;
      FindingsOfReference(tokens);
    }
  }

  // ---- Where the keyword ends ----------------------------------------------

  predicate EndsToken(input: Bytes, end: nat) { end < |input| ==> !IsRegular(input[end]) }

  /** An accepted keyword ends where its token does, unless it is the last byte of a full window. */
  lemma KeywordEndsToken(input: Bytes, offset: nat)
    requires ParseIndirectReference(input, offset).Ok?
    ensures var end := ParseIndirectReference(input, offset).value.range.end;
      end <= |input| && end <= offset + SCAN_LIMIT && (end < offset + SCAN_LIMIT ==> EndsToken(input, end))
  {
    hide RunOf, ReferenceFromWindow, NumberIn;
    var window, content := Window(input, offset), Content(input, offset);
    var keyword := Parts(content).value.KeywordStart();
    if keyword + 1 < |content| {
      assert content[keyword..][1] == content[keyword + 1];
      assert content[keyword + 1] == window[SkipWhitespace(window) + keyword + 1];
    }
  }

  /**
   * When a keyword that runs on, as in `Robot`, is accepted all the same: putting a regular byte after an
   * accepted reference changes nothing exactly when its keyword is the last byte of the window.
   */
  lemma RunOnAcceptedExactly(input: Bytes, offset: nat, next: Byte)
    requires ParseIndirectReference(input, offset).Ok? && IsRegular(next)
    requires ParseIndirectReference(input, offset).value.range.end < |input|
    ensures var end := ParseIndirectReference(input, offset).value.range.end;
      ParseIndirectReference(input[end := next], offset) == ParseIndirectReference(input, offset)
      <==> end == offset + SCAN_LIMIT
  {
    var end := ParseIndirectReference(input, offset).value.range.end;
    var other := input[end := next];
    KeywordEndsToken(input, offset);
    if end == offset + SCAN_LIMIT {
      SameWindowSameParse(input, other, offset);
    } else if ParseIndirectReference(other, offset) == ParseIndirectReference(input, offset) {
      KeywordEndsToken(other, offset);
    }
  }

  lemma SameWindowSameParse(input: Bytes, other: Bytes, offset: nat)
    requires offset < |input| == |other| && Window(input, offset) == Window(other, offset)
    ensures ParseIndirectReference(other, offset) == ParseIndirectReference(input, offset)
  {
    hide Parts, ReferenceFromWindow, NumberIn;
  }

  /** A reference whose keyword fills the window, followed by a byte that belongs to the same token. */
  const RUNS_ON: Bytes := ['1', ' ', '0'] + seq(124, _ => ' ') + ['R', 'o']

  lemma RunOnIsAccepted(input: Bytes)
    requires input == RUNS_ON
    ensures ParseIndirectReference(input, 0) == Ok(Shape(IndirectRef(1, 0), ByteRange(0, 128)))
    ensures !EndsToken(input, 128)
  {
    hide Parts, ReferenceFromWindow, NumberIn, RunOf;
    RunsOnBytes();
    var window := Window(input, 0);
    assert |window| == 128 && forall i | 0 <= i < 128 :: window[i] == input[i];
    RunsOnParts(window);
    OneDigit(window, 0, 1, '1');
    OneDigit(window, 2, 1, '0');
    ReferenceOfDigits();
    ParsesAs(input, 0, Layout(1, 1, 1, 124), IndirectRef(1, 0));
  }

  lemma ParsesAs(input: Bytes, offset: nat, parts: Layout, reference: IndirectRef)
    requires offset < |input| && SkipWhitespace(Window(input, offset)) == 0
    requires Parts(Window(input, offset)) == Some(parts)
    requires ReferenceFromWindow(NumberIn(Window(input, offset), 0, parts.number),
                                 NumberIn(Window(input, offset), parts.GenerationStart(), parts.generation))
      == Ok(reference)
    ensures ParseIndirectReference(input, offset)
      == Ok(Shape(reference, ByteRange(offset, offset + parts.KeywordStart() + 1)))
  {
    hide Parts, ReferenceFromWindow, NumberIn, RunOf;
    assert Content(input, offset) == Window(input, offset);
  }

  lemma RunsOnBytes()
    ensures |RUNS_ON| == 129 && RUNS_ON[0] == '1' && RUNS_ON[1] == ' ' && RUNS_ON[2] == '0'
    ensures RUNS_ON[127] == 'R' && RUNS_ON[128] == 'o'
    ensures forall i | 3 <= i < 127 :: RUNS_ON[i] == ' '
  {
  }

  lemma RunsOnParts(window: Bytes)
    requires |window| == 128 && window[0] == '1' && window[1] == ' ' && window[2] == '0' && window[127] == 'R'
    requires forall i | 3 <= i < 127 :: window[i] == ' '
    ensures SkipWhitespace(window) == 0 && Parts(window) == Some(Layout(1, 1, 1, 124))
  {
    RunIs(window, IsWhitespace, 0);
    RunIs(window, IsDigit, 1);
    RunIs(window[1..], IsWhitespace, 1);
    RunIs(window[2..], IsDigit, 1);
    RunIs(window[3..], IsWhitespace, 124);
  }

  lemma OneDigit(s: Bytes, at: nat, length: nat, digit: Byte)
    requires at < |s| && length == 1 && s[at] == digit && IsDigit(digit)
    ensures NumberIn(s, at, length) == Some(DigitValue(digit))
  {
    var text := s[at..at + 1];
    assert text == [digit] && text[..0] == [];
    assert Decimal([]) == 0;
    assert Decimal(text) == DigitValue(digit);
  }

  lemma ReferenceOfDigits()
    ensures ReferenceFromWindow(Some(DigitValue('1')), Some(DigitValue('0'))) == Ok(IndirectRef(1, 0))
  {
  }

  // ---- What is accepted, byte by byte --------------------------------------

  ghost predicate AllSpacing(s: Bytes, from: nat, to: nat) {
    from <= to <= |s| && forall i | from <= i < to :: Spacing(s[i])
  }

  ghost predicate AllNumeric(s: Bytes, from: nat, to: nat) {
    from < to <= |s| && forall i | from <= i < to :: Numeric(s[i])
  }

  /**
   * Within 128 bytes from `offset`: blanks if any, digits at `a`, blanks at `b`, digits at `c`, blanks at `d`, and
   * at `k` an `R` that the window does not show to go on.
   */
  ghost predicate ShapedAt(input: Bytes, offset: nat, a: nat, b: nat, c: nat, d: nat, k: nat) {
    offset <= a < b < c < d < k < offset + 128 && k < |input|
    && AllSpacing(input, offset, a) && AllNumeric(input, a, b) && AllSpacing(input, b, c)
    && AllNumeric(input, c, d) && AllSpacing(input, d, k) && input[k] == 'R'
    && (k + 1 < offset + 128 && k + 1 < |input| ==> !Regular(input[k + 1]))
  }

  ghost predicate Shaped(input: Bytes, offset: nat) {
    exists a: nat, b: nat, c: nat, d: nat, k: nat :: ShapedAt(input, offset, a, b, c, d, k)
  }

  /** The run starting at `from` in the class ends at `to`. */
  lemma RunEndsAt(s: Bytes, from: nat, to: nat, class_: Byte -> bool)
    requires from <= to <= |s| && (forall i | from <= i < to :: class_(s[i])) && (to < |s| ==> !class_(s[to]))
    ensures RunOf(s[from..], class_) == to - from
  {
    var rest := s[from..];
    assert forall i | 0 <= i < to - from :: rest[i] == s[from + i];
    assert to < |s| ==> rest[to - from] == s[to];
    RunIs(rest, class_, to - from);
  }

  /** Parts of the content, at positions. */
  ghost predicate PartsAt(content: Bytes, b: nat, c: nat, d: nat, k: nat) {
    k < |content| && AllNumeric(content, 0, b) && b < c && AllSpacing(content, b, c) && AllNumeric(content, c, d)
    && d < k && AllSpacing(content, d, k) && content[k] == 'R' && (k + 1 < |content| ==> !Regular(content[k + 1]))
  }

  /** The run of blanks from `from` on, both ways. */
  lemma SpacingRun(s: Bytes, from: nat, to: nat)
    requires from <= to <= |s|
    ensures RunOf(s[from..], IsWhitespace) == to - from <==> AllSpacing(s, from, to) && (to < |s| ==> !Spacing(s[to]))
  {
    var rest := s[from..];
    forall i | 0 <= i < |rest| ensures rest[i] == s[from + i] && (IsWhitespace(rest[i]) <==> Spacing(s[from + i])) {
      ClassesAgree(rest[i]);
    }
    if AllSpacing(s, from, to) && (to < |s| ==> !Spacing(s[to])) {
      forall i | from <= i < to ensures IsWhitespace(s[i]) {
        ClassesAgree(s[i]);
      }
      if to < |s| {
        ClassesAgree(s[to]);
      }
      RunEndsAt(s, from, to, IsWhitespace);
    }
    if RunOf(rest, IsWhitespace) == to - from {
      forall i | from <= i < to ensures Spacing(s[i]) {
        assert IsWhitespace(rest[i - from]);
      }
      assert to < |s| ==> !IsWhitespace(rest[to - from]);
    }
  }

  /** The run of digits from `from` on, both ways. */
  lemma NumericRun(s: Bytes, from: nat, to: nat)
    requires from < to <= |s|
    ensures RunOf(s[from..], IsDigit) == to - from <==> AllNumeric(s, from, to) && (to < |s| ==> !Numeric(s[to]))
  {
    var rest := s[from..];
    forall i | 0 <= i < |rest| ensures rest[i] == s[from + i] && (IsDigit(rest[i]) <==> Numeric(s[from + i])) {
      ClassesAgree(rest[i]);
    }
    if AllNumeric(s, from, to) && (to < |s| ==> !Numeric(s[to])) {
      forall i | from <= i < to ensures IsDigit(s[i]) {
        ClassesAgree(s[i]);
      }
      if to < |s| {
        ClassesAgree(s[to]);
      }
      RunEndsAt(s, from, to, IsDigit);
    }
    if RunOf(rest, IsDigit) == to - from {
      forall i | from <= i < to ensures Numeric(s[i]) {
        assert IsDigit(rest[i - from]);
      }
      assert to < |s| ==> !IsDigit(rest[to - from]);
    }
  }

  /** Nothing is a digit and a blank, or a letter and either. */
  lemma ClassesDisjoint(x: Byte)
    ensures !(Numeric(x) && Spacing(x)) && (x == 'R' ==> Regular(x) && !Numeric(x) && !Spacing(x))
    ensures IsRegular(x) <==> Regular(x)
  {
    ClassesAgree(x);
  }

  lemma PartsExactly(content: Bytes, b: nat, c: nat, d: nat, k: nat)
    requires PartsAt(content, b, c, d, k)
    ensures Parts(content) == Some(Layout(b, c - b, d - c, k - d))
  {
    hide RunOf, Numeric, Spacing, Regular, IsRegular;
    assert content[0..] == content;
    NumbersEnd(content, b, c, d, k);
    NumericRun(content, 0, b);
    SpacingRun(content, b, c);
    NumericRun(content, c, d);
    SpacingRun(content, d, k);
    if k + 1 < |content| {
      ClassesDisjoint(content[k + 1]);
    }
  }

  lemma NumbersEnd(content: Bytes, b: nat, c: nat, d: nat, k: nat)
    requires PartsAt(content, b, c, d, k)
    ensures !Numeric(content[b]) && !Spacing(content[c]) && !Numeric(content[d]) && !Spacing(content[k])
  {
    hide Numeric, Spacing, Regular;
    ClassesDisjoint(content[b]);
    ClassesDisjoint(content[c]);
    ClassesDisjoint(content[d]);
    ClassesDisjoint(content[k]);
  }

  lemma PartsAreAt(content: Bytes)
    requires Parts(content).Some?
    ensures var p := Parts(content).value;
      PartsAt(content, p.number, p.GenerationStart(), p.LastStart(), p.KeywordStart())
  {
    hide RunOf, Numeric, Spacing, Regular, IsRegular;
    var p := Parts(content).value;
    assert content[0..] == content;
    NumericRun(content, 0, p.number);
    SpacingRun(content, p.number, p.GenerationStart());
    NumericRun(content, p.GenerationStart(), p.LastStart());
    SpacingRun(content, p.LastStart(), p.KeywordStart());
    var k := p.KeywordStart();
    if k + 1 < |content| {
      ClassesDisjoint(content[k + 1]);
    }
  }

  /** Where the content of the window starts. */
  ghost function Lead(input: Bytes, offset: nat): nat
    requires offset < |input|
  {
    offset + SkipWhitespace(Window(input, offset))
  }

  /** Shapes in the input are shapes in the content, and the other way round. */
  lemma ShapeInContent(input: Bytes, offset: nat, a: nat, b: nat, c: nat, d: nat, k: nat)
    requires offset < |input| && ShapedAt(input, offset, a, b, c, d, k)
    ensures a == Lead(input, offset) && PartsAt(Content(input, offset), b - a, c - a, d - a, k - a)
  {
    hide RunOf, Numeric, Spacing, Regular, PartsAt, AllNumeric;
    ContentIsThere(input, offset);
    StartsAtDigit(input, offset, a, b);
    ShiftsDown(input, a, |Content(input, offset)|, b, c, d, k);
  }

  lemma ContentInShape(input: Bytes, offset: nat, b: nat, c: nat, d: nat, k: nat)
    requires offset < |input| && PartsAt(Content(input, offset), b, c, d, k)
    ensures var a := Lead(input, offset); ShapedAt(input, offset, a, a + b, a + c, a + d, a + k)
  {
    hide RunOf, Numeric, Spacing, Regular, PartsAt, AllNumeric;
    var window, a := Window(input, offset), Lead(input, offset);
    assert window[0..] == window;
    SpacingRun(window, 0, a - offset);
    ContentIsThere(input, offset);
    PartsFit(Content(input, offset), b, c, d, k);
    ShiftsUp(input, a, |Content(input, offset)|, a + b, a + c, a + d, a + k);
    forall i | offset <= i < a ensures Spacing(input[i]) {
      assert input[i] == window[i - offset];
    }
  }

  lemma PartsFit(content: Bytes, b: nat, c: nat, d: nat, k: nat)
    requires PartsAt(content, b, c, d, k)
    ensures b < c < d < k < |content|
  {
  }

  /** Blanks and then a digit, within the window: the content starts at the digit. */
  lemma StartsAtDigit(input: Bytes, offset: nat, a: nat, b: nat)
    requires offset < |input| && AllSpacing(input, offset, a) && AllNumeric(input, a, b) && a < offset + 128
    ensures a == Lead(input, offset)
  {
    hide RunOf, Numeric, Spacing;
    var window := Window(input, offset);
    assert window[0..] == window;
    assert forall i | 0 <= i < |window| :: window[i] == input[offset + i];
    ClassesDisjoint(input[a]);
    SpacingRun(window, 0, a - offset);
  }

  lemma ShiftsDown(input: Bytes, a: nat, length: nat, b: nat, c: nat, d: nat, k: nat)
    requires a + length <= |input| && a <= k < a + length
    requires AllNumeric(input, a, b) && b < c && AllSpacing(input, b, c) && AllNumeric(input, c, d) && d < k
    requires AllSpacing(input, d, k) && input[k] == 'R' && (k + 1 < a + length ==> !Regular(input[k + 1]))
    ensures PartsAt(input[a..a + length], b - a, c - a, d - a, k - a)
  {
    var content := input[a..a + length];
    assert forall i | 0 <= i < length :: content[i] == input[a + i];
  }

  lemma ShiftsUp(input: Bytes, a: nat, length: nat, b: nat, c: nat, d: nat, k: nat)
    requires a + length <= |input| && a <= b && a <= c && a <= d && a <= k
    requires PartsAt(input[a..a + length], b - a, c - a, d - a, k - a)
    ensures AllNumeric(input, a, b) && AllSpacing(input, b, c) && AllNumeric(input, c, d) && AllSpacing(input, d, k)
    ensures input[k] == 'R' && (k + 1 < a + length ==> !Regular(input[k + 1]))
  {
    var content := input[a..a + length];
    assert forall i | a <= i < a + length :: input[i] == content[i - a];
  }

  /** The decimal number the digits of a range spell. */
  ghost predicate Spelled(input: Bytes, from: nat, to: nat, value: nat) {
    from <= to <= |input| && IsDigits(input[from..to]) && Decimal(input[from..to]) == value
  }

  /** One shape, parsed. */
  lemma ShapeParses(input: Bytes, offset: nat, a: nat, b: nat, c: nat, d: nat, k: nat, number: nat, generation: nat)
    requires ShapedAt(input, offset, a, b, c, d, k) && Spelled(input, a, b, number) && Spelled(input, c, d, generation)
    ensures ParseIndirectReference(input, offset)
      == if number >= 0x1_0000_0000 then Err(BadObjectNumber)
         else if generation >= 0x1_0000 then Err(BadGeneration)
         else Ok(Shape(IndirectRef(number, generation), ByteRange(a, k + 1)))
  {
    hide Parts, Content, Window, PartsAt, AllNumeric, AllSpacing, Decimal, IsDigits;
    var content := Content(input, offset);
    ShapeInContent(input, offset, a, b, c, d, k);
    PartsExactly(content, b - a, c - a, d - a, k - a);
    PartsFit(content, b - a, c - a, d - a, k - a);
    ContentIsThere(input, offset);
    SliceOfSlice(input, a, |content|, a, b);
    SliceOfSlice(input, a, |content|, c, d);
    assert c - a + (d - c) == d - a;
  }

  lemma SliceOfSlice(input: Bytes, a: nat, length: nat, from: nat, to: nat)
    requires a <= from <= to <= a + length <= |input|
    ensures input[a..a + length][from - a..to - a] == input[from..to]
  {
    var inner, outer := input[a..a + length][from - a..to - a], input[from..to];
    assert |inner| == |outer| && forall i | 0 <= i < |inner| :: inner[i] == outer[i];
  }

  /**
   * The parser, exactly: it accepts what is shaped as a reference within the window and whose two numbers fit their
   * fields, with these numbers and this range; a number that does not fit is named, the object number first; and
   * anything not shaped so is malformed.
   */
  lemma ParsedExactly(input: Bytes, offset: nat)
    ensures ParseIndirectReference(input, offset) == Err(OffsetOutOfBounds) <==> offset >= |input|
    ensures ParseIndirectReference(input, offset) == Err(Malformed) <==> offset < |input| && !Shaped(input, offset)
    ensures forall a: nat, b: nat, c: nat, d: nat, k: nat, number: nat, generation: nat
      | ShapedAt(input, offset, a, b, c, d, k) && Spelled(input, a, b, number) && Spelled(input, c, d, generation) ::
      ParseIndirectReference(input, offset)
      == if number >= 0x1_0000_0000 then Err(BadObjectNumber)
         else if generation >= 0x1_0000 then Err(BadGeneration)
         else Ok(Shape(IndirectRef(number, generation), ByteRange(a, k + 1)))
  {
    hide Parts, Content, Window, PartsAt, ShapedAt, Spelled, NumberIn;
    if offset < |input| {
      var content := Content(input, offset);
      if Parts(content).Some? {
        var p, a := Parts(content).value, Lead(input, offset);
        PartsAreAt(content);
        ContentInShape(input, offset, p.number, p.GenerationStart(), p.LastStart(), p.KeywordStart());
      }
      if a: nat, b: nat, c: nat, d: nat, k: nat :| ShapedAt(input, offset, a, b, c, d, k) {
        ShapeIsParts(input, offset, a, b, c, d, k);
      }
    }
    forall a: nat, b: nat, c: nat, d: nat, k: nat, number: nat, generation: nat
      | ShapedAt(input, offset, a, b, c, d, k) && Spelled(input, a, b, number) && Spelled(input, c, d, generation)
      ensures ParseIndirectReference(input, offset)
        == if number >= 0x1_0000_0000 then Err(BadObjectNumber)
           else if generation >= 0x1_0000 then Err(BadGeneration)
           else Ok(Shape(IndirectRef(number, generation), ByteRange(a, k + 1)))
    {
      ShapeParses(input, offset, a, b, c, d, k, number, generation);
    }
  }

  lemma ShapeIsParts(input: Bytes, offset: nat, a: nat, b: nat, c: nat, d: nat, k: nat)
    requires offset < |input| && ShapedAt(input, offset, a, b, c, d, k)
    ensures Parts(Content(input, offset)).Some?
  {
    hide Parts, Content, PartsAt;
    ShapeInContent(input, offset, a, b, c, d, k);
    PartsExactly(Content(input, offset), b - a, c - a, d - a, k - a);
  }

  lemma ContentIsThere(input: Bytes, offset: nat)
    requires offset < |input|
    ensures var a := Lead(input, offset); var n := |Content(input, offset)|;
      a + n <= |input| && Content(input, offset) == input[a..a + n]
  {
  }

  /** What both checks of a scalar body report for such a shape. */
  lemma ScalarChecksMean(input: Bytes, offset: nat, a: nat, b: nat, c: nat, d: nat, k: nat, number: nat,
                         generation: nat)
    requires ShapedAt(input, offset, a, b, c, d, k) && Spelled(input, a, b, number) && Spelled(input, c, d, generation)
    ensures var (references, skipped) := ScalarCheck(input, offset);
      if number >= 0x1_0000_0000 then references == [] && skipped == [ObjectNumberOutOfRange]
      else if generation >= 0x1_0000 then references == [] && skipped == [GenerationOutOfRange]
      else references == [IndirectRef(number, generation)] && skipped == []
    ensures ScalarRangesCheck(input, offset).references == ScalarCheck(input, offset).0
    ensures ScalarRangesCheck(input, offset).skipped == ScalarCheck(input, offset).1
  {
    hide ParseIndirectReference, ShapedAt, Spelled, Report;
    ShapeParses(input, offset, a, b, c, d, k, number, generation);
    ScalarSiblingsAgree(input, offset);
  }

  /** Anything else is a plain scalar: nothing found, nothing skipped. */
  lemma PlainScalarsReportNothing(input: Bytes, offset: nat)
    requires !Shaped(input, offset)
    ensures ScalarCheck(input, offset) == ([], [])
    ensures ScalarRangesCheck(input, offset) == ReferenceReport([], [], [], false)
  {
    hide ParseIndirectReference, Shaped, Report;
    ParsedExactly(input, offset);
  }
}
