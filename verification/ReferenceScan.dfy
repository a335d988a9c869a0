/** The `N G R` reference scanner over a byte span (object_body_references.rs). */
module ReferenceScan {
  import opened Basics
  import opened Lexing

  const MAX_OBJECT_BODY_REFERENCES: nat := 65_536

  datatype IndirectRef = IndirectRef(objectNumber: nat, generation: nat)

  datatype SkippedReference = ObjectNumberOutOfRange | GenerationOutOfRange

  /** Digits of the object number, digits of the generation, and the keyword; trivia belongs to none. */
  datatype TokenRanges = TokenRanges(objectNumber: ByteRange, generation: ByteRange, keyword: ByteRange)

  // ---- Tokens --------------------------------------------------------------

  /** What a token does to the scanner: nothing, slide the window, close a reference, or clear the window. */
  datatype Kind = Blank | Integer | Keyword | Break

  datatype Token = Token(kind: Kind, text: Bytes)

  /** Kind and length of the token at the front; absent for a string that never closes. */
  function Lex(s: Bytes): (token: Option<(Kind, nat)>)
    requires s != []
    ensures token.Some? ==> 0 < token.value.1 <= |s|
  {
    var c := s[0];
    if IsWhitespace(c) then Some((Blank, SkipWhitespace(s)))
    else if c == '%' then Some((Blank, SkipComment(s)))
    else if c == '(' then Opaque(SkipLiteralString(s))
    else if c == '<' then if |s| > 1 && s[1] == '<' then Some((Break, 2)) else Opaque(SkipHexString(s))
    else if c == '>' then if |s| > 1 && s[1] == '>' then Some((Break, 2)) else Some((Break, 1))
    else if c == '/' then Some((Break, SkipName(s)))
    else if IsDelimiter(c) then Some((Break, 1))
    else
      var n := SkipScalarToken(s);
      Some((ScalarKind(s[..n]), n))
  }

  function Opaque(length: Option<nat>): Option<(Kind, nat)> {
    if length.Some? then Some((Break, length.value)) else None
  }

  function ScalarKind(text: Bytes): Kind
    requires text != []
  {
    if IsDigit(text[0]) then if CountLeadingDigits(text) == |text| then Integer else Break
    else if text == ['R'] then Keyword
    else Break
  }

  /** The tokens up to the end, or up to the string that never closes. */
  function Tokens(s: Bytes): (tokens: seq<Token>)
    ensures forall i | 0 <= i < |tokens| :: tokens[i].text != []
    decreases |s|
  {
    if s == [] then []
    else match Lex(s)
      case None => []
      case Some((kind, n)) => [Token(kind, s[..n])] + Tokens(s[n..])
  }

  /** Where token `j` starts. */
  function Offset(tokens: seq<Token>, j: nat): (offset: nat)
    requires j <= |tokens|
    ensures j <= offset || exists i | 0 <= i < j :: tokens[i].text == []
  {
    if j == 0 then 0 else Offset(tokens, j - 1) + |tokens[j - 1].text|
  }

  // ---- The window ----------------------------------------------------------

  /** Tokens held as the previous and the latest integer before token `n`. */
  function Window(tokens: seq<Token>, n: nat): (window: (Option<nat>, Option<nat>))
    requires n <= |tokens|
    ensures window.0.Some? ==> window.1.Some? && window.0.value < window.1.value
    ensures window.1.Some? ==> window.1.value < n
  {
    if n == 0 then (None, None)
    else
      var before := Window(tokens, n - 1);
      match tokens[n - 1].kind
      case Blank => before
      case Integer => (before.1, Some(n - 1))
      case _ => (None, None)
  }

  predicate AllBlank(tokens: seq<Token>, from: nat, to: nat) {
    forall i | from <= i < to :: i < |tokens| && tokens[i].kind == Blank
  }

  /** Tokens `a`, `b`, `r` form `N G R`: two integers and the keyword with only blanks between them. */
  predicate IsReference(tokens: seq<Token>, a: nat, b: nat, r: nat) {
    a < b < r < |tokens|
    && tokens[a].kind == Integer && tokens[b].kind == Integer && tokens[r].kind == Keyword
    && AllBlank(tokens, a + 1, b) && AllBlank(tokens, b + 1, r)
  }

  /** Digit runs are the texts of integer tokens. */
  lemma {:induction false} IntegerTexts(s: Bytes, i: nat)
    requires i < |Tokens(s)| && Tokens(s)[i].kind == Integer
    ensures IsDigits(Tokens(s)[i].text)
    decreases |s|
  {
    var n := Lex(s).value.1;
    if i > 0 {
      IntegerTexts(s[n..], i - 1);
    }
  }

  // ---- Findings ------------------------------------------------------------

  datatype Triple = Triple(object_: nat, generation: nat, keyword: nat)

  datatype Findings = Findings(found: seq<Triple>, skipped: seq<SkippedReference>, truncated: bool)

  function ReferenceFromWindow(object_: Option<nat>, generation: Option<nat>): Result<IndirectRef, SkippedReference> {
    if object_.None? || object_.value >= U32_COUNT then Err(ObjectNumberOutOfRange)
    else if generation.None? || generation.value >= U16_COUNT then Err(GenerationOutOfRange)
    else Ok(IndirectRef(object_.value, generation.value))
  }

  function NumberAt(tokens: seq<Token>, i: nat): Option<nat>
    requires i < |tokens|
  {
    if IsDigits(tokens[i].text) then U64Decimal(tokens[i].text) else None
  }

  function Reading(tokens: seq<Token>, a: nat, b: nat): Result<IndirectRef, SkippedReference>
    requires a < |tokens| && b < |tokens|
  {
    ReferenceFromWindow(NumberAt(tokens, a), NumberAt(tokens, b))
  }

  predicate Reads(tokens: seq<Token>, t: Triple) {
    t.object_ < t.generation < t.keyword < |tokens|
    && Reading(tokens, t.object_, t.generation).Ok?
  }

  /** What the scan has recorded before token `n`. */
  function FindingsBefore(tokens: seq<Token>, n: nat): (findings: Findings)
    requires n <= |tokens|
    ensures |findings.found| <= MAX_OBJECT_BODY_REFERENCES
    ensures forall i | 0 <= i < |findings.found| :: findings.found[i].keyword < n && Reads(tokens, findings.found[i])
  {
    if n == 0 then Findings([], [], false)
    else
      var before := FindingsBefore(tokens, n - 1);
      if before.truncated || tokens[n - 1].kind != Keyword then before
      else match Window(tokens, n - 1)
        case (Some(a), Some(b)) =>
          (match Reading(tokens, a, b)
           case Err(reason) => before.(skipped := before.skipped + [reason])
           case Ok(_) =>
             if |before.found| == MAX_OBJECT_BODY_REFERENCES then before.(truncated := true)
             else before.(found := before.found + [Triple(a, b, n - 1)]))
        case _ => before
  }

  // ---- The report ----------------------------------------------------------

  datatype ReferenceReport = ReferenceReport(
    references: seq<IndirectRef>, ranges: seq<TokenRanges>, skipped: seq<SkippedReference>, truncated: bool)

  function TokenRange(tokens: seq<Token>, base: nat, i: nat): ByteRange
    requires i < |tokens|
  {
    ByteRange(base + Offset(tokens, i), base + Offset(tokens, i + 1))
  }

  function References(tokens: seq<Token>, found: seq<Triple>): seq<IndirectRef>
    requires forall i | 0 <= i < |found| :: Reads(tokens, found[i])
  {
    seq(|found|, i requires 0 <= i < |found| && Reads(tokens, found[i]) =>
      Reading(tokens, found[i].object_, found[i].generation).value)
  }

  function Ranges(tokens: seq<Token>, base: nat, found: seq<Triple>): seq<TokenRanges>
    requires forall i | 0 <= i < |found| :: Reads(tokens, found[i])
  {
    seq(|found|, i requires 0 <= i < |found| && Reads(tokens, found[i]) =>
      TokenRanges(TokenRange(tokens, base, found[i].object_),
                  TokenRange(tokens, base, found[i].generation),
                  TokenRange(tokens, base, found[i].keyword)))
  }

  function ReportBefore(tokens: seq<Token>, base: nat, n: nat): ReferenceReport
    requires n <= |tokens|
  {
    var findings := FindingsBefore(tokens, n);
    ReferenceReport(References(tokens, findings.found), Ranges(tokens, base, findings.found), findings.skipped,
                    findings.truncated)
  }

  function SpanEnd(buffer: Bytes, span: ByteRange): nat {
    if span.end < |buffer| then span.end else |buffer|
  }

  function SpanStart(buffer: Bytes, span: ByteRange): (start: nat)
    ensures start <= SpanEnd(buffer, span) <= |buffer|
  {
    if span.start < SpanEnd(buffer, span) then span.start else SpanEnd(buffer, span)
  }

  /** The part of the buffer the scanner may read. */
  function Spanned(buffer: Bytes, span: ByteRange): Bytes {
    buffer[SpanStart(buffer, span)..SpanEnd(buffer, span)]
  }

  function Report(buffer: Bytes, span: ByteRange): ReferenceReport {
    var tokens := Tokens(Spanned(buffer, span));
    ReportBefore(tokens, SpanStart(buffer, span), |tokens|)
  }

  // ---- The scanner ---------------------------------------------------------

  datatype IntegerToken = IntegerToken(value: Option<nat>, range: ByteRange)

  /** Collection seam: the census keeps references only, the ranges sink keeps their token ranges too. */
  class ReferenceSink {
    const keepsRanges: bool
    var references: seq<IndirectRef>
    var ranges: seq<TokenRanges>
    var skipped: seq<SkippedReference>
    var truncated: bool

    constructor (keepsRanges: bool)
      ensures this.keepsRanges == keepsRanges && Holds(ReferenceReport([], [], [], false))
    {
      this.keepsRanges := keepsRanges;
      references, ranges, skipped, truncated := [], [], [], false;
    }

    ghost predicate Holds(report: ReferenceReport)
      reads this
    {
      references == report.references && skipped == report.skipped && truncated == report.truncated
      && ranges == if keepsRanges then report.ranges else []
    }

    method RecordReference(reference: IndirectRef, tokens: TokenRanges)
      modifies this
      ensures references == old(references) + [reference]
      ensures ranges == if keepsRanges then old(ranges) + [tokens] else old(ranges)
      ensures skipped == old(skipped) && truncated == old(truncated)
    {
      references := references + [reference];
      if keepsRanges {
        ranges := ranges + [tokens];
      }
    }

    method RecordSkipped(reason: SkippedReference)
      modifies this`skipped
      ensures skipped == old(skipped) + [reason]
    {
      skipped := skipped + [reason];
    }

    method RecordTruncation()
      modifies this`truncated
      ensures truncated
    {
      truncated := true;
    }
  }

  /** The remembered integer for a window slot. */
  ghost function Remembered(tokens: seq<Token>, base: nat, slot: Option<nat>): Option<IntegerToken> {
    if slot.Some? && slot.value < |tokens|
    then Some(IntegerToken(NumberAt(tokens, slot.value), TokenRange(tokens, base, slot.value)))
    else None
  }

  lemma NextToken(bounded: Bytes, tokens: seq<Token>, cursor: nat, j: nat)
    requires cursor < |bounded| && j <= |tokens| && Tokens(bounded[cursor..]) == tokens[j..]
    ensures match Lex(bounded[cursor..])
            case None => j == |tokens|
            case Some((kind, n)) =>
              j < |tokens| && cursor + n <= |bounded| && tokens[j] == Token(kind, bounded[cursor..cursor + n])
              && Tokens(bounded[cursor + n..]) == tokens[j + 1..]
              && (kind == Integer ==> IsDigits(tokens[j].text))
  {
    hide Lex;
    var rest := bounded[cursor..];
    match Lex(rest) {
      case None =>
      case Some((kind, n)) =>
        assert rest[..n] == bounded[cursor..cursor + n] && rest[n..] == bounded[cursor + n..];
        assert tokens[j..] == [tokens[j]] + tokens[j + 1..];
        assert Tokens(rest)[1..] == Tokens(rest[n..]);
        if kind == Integer {
          IntegerTexts(rest, 0);
        }
    }
  }

  /** What one token adds to the report. */
  lemma ReportGrows(tokens: seq<Token>, base: nat, j: nat)
    requires j < |tokens| && !ReportBefore(tokens, base, j).truncated
    ensures var before, after := ReportBefore(tokens, base, j), ReportBefore(tokens, base, j + 1);
      if tokens[j].kind != Keyword || Window(tokens, j).0.None? then after == before
      else
        var a, b := Window(tokens, j).0.value, Window(tokens, j).1.value;
        match Reading(tokens, a, b)
        case Err(reason) => after == before.(skipped := before.skipped + [reason])
        case Ok(reference) =>
          var ranges := TokenRanges(TokenRange(tokens, base, a), TokenRange(tokens, base, b),
                                    TokenRange(tokens, base, j));
          after == if |before.references| == MAX_OBJECT_BODY_REFERENCES then before.(truncated := true)
                   else before.(references := before.references + [reference],
                                ranges := before.ranges + [ranges])
  {
    hide Reading, TokenRange;
  }

  lemma {:induction false} TruncationIsFinal(tokens: seq<Token>, j: nat, n: nat)
    requires j <= n <= |tokens| && FindingsBefore(tokens, j).truncated
    ensures FindingsBefore(tokens, n) == FindingsBefore(tokens, j)
    decreases n
  {
    if j < n {
      TruncationIsFinal(tokens, j, n - 1);
    }
  }

  /** The single scanner core behind both span scanners. */
  method ScanReferenceTokensInSpan(buffer: Bytes, span: ByteRange, sink: ReferenceSink)
    requires sink.Holds(ReferenceReport([], [], [], false))
    modifies sink
    ensures sink.Holds(Report(buffer, span))
  {
    hide Lex, Reading, NumberAt, TokenRange, Tokens, FindingsBefore, ReportBefore;
    var end := SpanEnd(buffer, span);
    var bounded := buffer[..end];
    var cursor := SpanStart(buffer, span);
    var previousInteger: Option<IntegerToken> := None;
    var latestInteger: Option<IntegerToken> := None;
    ghost var base, j := cursor, 0;
    ghost var tokens := Tokens(bounded[cursor..]);
    assert bounded[cursor..] == Spanned(buffer, span);
    NothingYet(tokens, base);
    while cursor < end
      invariant base <= cursor <= end == |bounded| && j <= |tokens|
      invariant cursor == base + Offset(tokens, j) && Tokens(bounded[cursor..]) == tokens[j..]
      invariant previousInteger == Remembered(tokens, base, Window(tokens, j).0)
      invariant latestInteger == Remembered(tokens, base, Window(tokens, j).1)
      invariant sink.Holds(ReportBefore(tokens, base, j)) && !ReportBefore(tokens, base, j).truncated
      decreases end - cursor
    {
      NextToken(bounded, tokens, cursor, j);
      match Lex(bounded[cursor..]) {
        case None =>
          break;
        case Some((kind, length)) =>
          var range := ByteRange(cursor, cursor + length);
          WindowMoves(tokens, base, j, range);
          ReportGrows(tokens, base, j);
          match kind {
            case Blank =>
            case Integer =>
              assert tokens[j].text == bounded[cursor..cursor + length] && IsDigits(tokens[j].text);
              var value := ParseU64Decimal(bounded[cursor..cursor + length]);
              previousInteger, latestInteger := latestInteger, Some(IntegerToken(value, range));
            case Break =>
              previousInteger, latestInteger := None, None;
            case Keyword =>
              if previousInteger.Some? && latestInteger.Some? {
                match ReferenceFromWindow(previousInteger.value.value, latestInteger.value.value) {
                  case Ok(reference) =>
                    if |sink.references| == MAX_OBJECT_BODY_REFERENCES {
                      sink.RecordTruncation();
                      TruncatedReport(tokens, base, j + 1);
                      return;
                    }
                    sink.RecordReference(reference,
                                         TokenRanges(previousInteger.value.range, latestInteger.value.range, range));
                  case Err(reason) =>
                    sink.RecordSkipped(reason);
                }
              }
              previousInteger, latestInteger := None, None;
          }
          cursor := cursor + length;
          j := j + 1;
      }
    }
    AllTokensRead(bounded, tokens, cursor, j);
  }

  method ScanIndirectReferencesInSpan(buffer: Bytes, span: ByteRange)
    returns (references: seq<IndirectRef>, skipped: seq<SkippedReference>, truncated: bool)
    ensures references == Report(buffer, span).references
    ensures skipped == Report(buffer, span).skipped && truncated == Report(buffer, span).truncated
  {
    var sink := new ReferenceSink(false);
    ScanReferenceTokensInSpan(buffer, span, sink);
    return sink.references, sink.skipped, sink.truncated;
  }

  method ScanIndirectReferenceRangesInSpan(buffer: Bytes, span: ByteRange) returns (report: ReferenceReport)
    ensures report == Report(buffer, span)
  {
    var sink := new ReferenceSink(true);
    ScanReferenceTokensInSpan(buffer, span, sink);
    return ReferenceReport(sink.references, sink.ranges, sink.skipped, sink.truncated);
  }

  lemma NothingYet(tokens: seq<Token>, base: nat)
    ensures ReportBefore(tokens, base, 0) == ReferenceReport([], [], [], false)
  {
  }

  lemma WindowMoves(tokens: seq<Token>, base: nat, j: nat, range: ByteRange)
    requires j < |tokens| && range == ByteRange(base + Offset(tokens, j), base + Offset(tokens, j) + |tokens[j].text|)
    requires tokens[j].kind == Integer ==> IsDigits(tokens[j].text)
    ensures TokenRange(tokens, base, j) == range
    ensures var before, after := Window(tokens, j), Window(tokens, j + 1);
      match tokens[j].kind
      case Blank => after == before
      case Integer =>
        after.0 == before.1
        && Remembered(tokens, base, after.1) == Some(IntegerToken(U64Decimal(tokens[j].text), range))
      case _ => after == (None, None)
    ensures Window(tokens, j).0.Some? ==>
      var a, b := Window(tokens, j).0.value, Window(tokens, j).1.value;
      Reading(tokens, a, b) == ReferenceFromWindow(NumberAt(tokens, a), NumberAt(tokens, b))
  {
  }

  lemma TruncatedReport(tokens: seq<Token>, base: nat, j: nat)
    requires j <= |tokens| && ReportBefore(tokens, base, j).truncated
    ensures ReportBefore(tokens, base, |tokens|) == ReportBefore(tokens, base, j)
  {
    TruncationIsFinal(tokens, j, |tokens|);
  }

  lemma AllTokensRead(bounded: Bytes, tokens: seq<Token>, cursor: nat, j: nat)
    requires cursor <= |bounded| && j <= |tokens| && Tokens(bounded[cursor..]) == tokens[j..]
    requires cursor == |bounded| || Lex(bounded[cursor..]).None?
    ensures j == |tokens|
  {
    hide Lex;
  }
}
