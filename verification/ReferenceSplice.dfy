/** What the reference scanner reports, and what splicing new numbers into a reported reference does. */
module ReferenceSplice {
  import opened Basics
  import opened Lexing
  import opened ReferenceScan

  // ---- Reports and the token grammar ---------------------------------------

  /** A full window is exactly two integers with nothing but blanks after each. */
  lemma {:induction false} WindowExactly(tokens: seq<Token>, n: nat, a: nat, b: nat)
    requires n <= |tokens|
    ensures Window(tokens, n).1 == Some(b)
      <==> b < n && tokens[b].kind == Integer && AllBlank(tokens, b + 1, n)
    ensures Window(tokens, n) == (Some(a), Some(b))
      <==> a < b < n && tokens[a].kind == Integer && tokens[b].kind == Integer
           && AllBlank(tokens, a + 1, b) && AllBlank(tokens, b + 1, n)
    decreases n
  {
    if n > 0 {
      WindowExactly(tokens, n - 1, a, b);
      if tokens[n - 1].kind == Integer {
        WindowExactly(tokens, n - 1, 0, a);
      }
    }
  }

  predicate Refers(tokens: seq<Token>, t: Triple) {
    IsReference(tokens, t.object_, t.generation, t.keyword)
  }

  /** References in source order, none sharing a token with another. */
  predicate InSourceOrder(tokens: seq<Token>, found: seq<Triple>) {
    (forall i | 0 <= i < |found| :: Refers(tokens, found[i]))
    && forall i, j | 0 <= i < j < |found| :: found[i].keyword < found[j].object_
  }

  lemma {:induction false} FoundAreReferences(tokens: seq<Token>, n: nat)
    requires n <= |tokens|
    ensures InSourceOrder(tokens, FindingsBefore(tokens, n).found)
    decreases n
  {
    hide Reading;
    if n > 0 {
      FoundAreReferences(tokens, n - 1);
      var before := FindingsBefore(tokens, n - 1).found;
      match Window(tokens, n - 1) {
        case (Some(a), Some(b)) =>
          if tokens[n - 1].kind == Keyword {
            WindowExactly(tokens, n - 1, a, b);
            OneMore(tokens, before, Triple(a, b, n - 1));
          }
        case _ =>
      }
    }
  }

  lemma OneMore(tokens: seq<Token>, before: seq<Triple>, t: Triple)
    requires InSourceOrder(tokens, before) && Refers(tokens, t)
    requires forall i | 0 <= i < |before| :: before[i].keyword < t.keyword
    ensures InSourceOrder(tokens, before + [t])
  {
    forall i | 0 <= i < |before| ensures before[i].keyword < t.object_ {
      ReferencesDisjoint(tokens, before[i], t);
    }
  }

  /** The three tokens of a reference belong to no other reference. */
  lemma ReferencesDisjoint(tokens: seq<Token>, s: Triple, t: Triple)
    requires Refers(tokens, s) && Refers(tokens, t)
    ensures s.keyword < t.keyword ==> s.keyword < t.object_
    ensures s.keyword == t.keyword ==> s == t
  {
  }

  /** Every `N G R` with numbers in range is found, unless the cap was reached. */
  lemma {:induction false} EveryReferenceIsFound(tokens: seq<Token>, n: nat, t: Triple)
    requires n <= |tokens| && t.keyword < n && Refers(tokens, t)
    requires Reading(tokens, t.object_, t.generation).Ok?
    ensures t in FindingsBefore(tokens, n).found
      || (FindingsBefore(tokens, n).truncated && |FindingsBefore(tokens, n).found| == MAX_OBJECT_BODY_REFERENCES)
    decreases n
  {
    hide Reading;
    TruncatedAtCap(tokens, n);
    if t.keyword == n - 1 {
      WindowExactly(tokens, n - 1, t.object_, t.generation);
    } else {
      EveryReferenceIsFound(tokens, n - 1, t);
    }
  }

  lemma {:induction false} TruncatedAtCap(tokens: seq<Token>, n: nat)
    requires n <= |tokens|
    ensures FindingsBefore(tokens, n).truncated ==> |FindingsBefore(tokens, n).found| == MAX_OBJECT_BODY_REFERENCES
    decreases n
  {
    if n > 0 {
      TruncatedAtCap(tokens, n - 1);
    }
  }

  // ---- Token positions -----------------------------------------------------

  lemma {:induction false} OffsetsGrow(tokens: seq<Token>, i: nat, j: nat)
    requires i <= j <= |tokens|
    ensures Offset(tokens, i) <= Offset(tokens, j)
    decreases j
  {
    if i < j {
      OffsetsGrow(tokens, i, j - 1);
    }
  }

  lemma {:induction false} OffsetOfRest(tokens: seq<Token>, j: nat)
    requires 0 < j <= |tokens|
    ensures Offset(tokens, j) == |tokens[0].text| + Offset(tokens[1..], j - 1)
    decreases j
  {
    if j > 1 {
      OffsetOfRest(tokens, j - 1);
    } else {
      assert Offset(tokens, 0) == 0 && Offset(tokens[1..], 0) == 0;
    }
  }

  lemma TokensUnfold(s: Bytes)
    requires Tokens(s) != []
    ensures s != [] && Lex(s).Some?
    ensures var (kind, n) := Lex(s).value; Tokens(s)[0] == Token(kind, s[..n]) && Tokens(s)[1..] == Tokens(s[n..])
  {
    hide Lex;
  }

  lemma SliceOfRest(s: Bytes, n: nat, from: nat, to: nat)
    requires n <= from <= to <= |s|
    ensures s[from..to] == s[n..][from - n..to - n]
  {
  }

  /** Token `i` is the text at its offset. */
  lemma {:induction false} TokenText(s: Bytes, i: nat)
    requires i < |Tokens(s)|
    ensures var tokens := Tokens(s);
      Offset(tokens, i + 1) <= |s| && s[Offset(tokens, i)..Offset(tokens, i + 1)] == tokens[i].text
    decreases |s|
  {
    hide Lex, Tokens;
    TokensUnfold(s);
    var tokens, n := Tokens(s), Lex(s).value.1;
    if i == 0 {
      assert Offset(tokens, 0) == 0;
    } else {
      TokenText(s[n..], i - 1);
      OffsetOfRest(tokens, i);
      OffsetOfRest(tokens, i + 1);
      SliceOfRest(s, n, Offset(tokens, i), Offset(tokens, i + 1));
    }
  }

  lemma {:induction false} KeywordText(s: Bytes, i: nat)
    requires i < |Tokens(s)| && Tokens(s)[i].kind == Keyword
    ensures Tokens(s)[i].text == ['R']
    decreases |s|
  {
    var n := Lex(s).value.1;
    if i > 0 {
      KeywordText(s[n..], i - 1);
    }
  }

  /** Bytes of the span, seen in the buffer. */
  lemma SpannedSlice(buffer: Bytes, span: ByteRange, from: nat, to: nat)
    requires from <= to <= |Spanned(buffer, span)|
    ensures var base := SpanStart(buffer, span);
      base + to <= SpanEnd(buffer, span)
      && Slice(buffer, ByteRange(base + from, base + to)) == Some(Spanned(buffer, span)[from..to])
  {
    var base := SpanStart(buffer, span);
    assert buffer[base + from..base + to] == Spanned(buffer, span)[from..to];
  }

  /** One reported reference in terms of the tokens behind it. */
  lemma ReportEntry(buffer: Bytes, span: ByteRange, k: nat) returns (t: Triple)
    requires k < |Report(buffer, span).references|
    ensures var tokens, base := Tokens(Spanned(buffer, span)), SpanStart(buffer, span);
      k < |FindingsBefore(tokens, |tokens|).found| == |Report(buffer, span).ranges|
      && t == FindingsBefore(tokens, |tokens|).found[k]
      && Reads(tokens, t) && Refers(tokens, t)
      && Report(buffer, span).references[k] == Reading(tokens, t.object_, t.generation).value
      && Report(buffer, span).ranges[k]
         == TokenRanges(TokenRange(tokens, base, t.object_), TokenRange(tokens, base, t.generation),
                        TokenRange(tokens, base, t.keyword))
  {
    hide Tokens, Offset, Reading, TokenRange, FindingsBefore;
    var tokens := Tokens(Spanned(buffer, span));
    FoundAreReferences(tokens, |tokens|);
    t := FindingsBefore(tokens, |tokens|).found[k];
  }

  predicate Decodes(buffer: Bytes, range: ByteRange, value: nat) {
    var digits := Slice(buffer, range);
    digits.Some? && IsDigits(digits.value) && Decimal(digits.value) == value
  }

  /**
   * Every reported range addresses, inside the span, precisely the digits of its number or the keyword,
   * and every reported number fits the public field widths.
   */
  lemma RangesDecode(buffer: Bytes, span: ByteRange, k: nat)
    requires k < |Report(buffer, span).references|
    ensures |Report(buffer, span).ranges| == |Report(buffer, span).references|
    ensures var reference, ranges := Report(buffer, span).references[k], Report(buffer, span).ranges[k];
      Decodes(buffer, ranges.objectNumber, reference.objectNumber) && reference.objectNumber < U32_COUNT
      && Decodes(buffer, ranges.generation, reference.generation) && reference.generation < U16_COUNT
      && Slice(buffer, ranges.keyword) == Some(['R'])
      && SpanStart(buffer, span) <= ranges.objectNumber.start && ranges.keyword.end <= SpanEnd(buffer, span)
  {
    hide Tokens, Offset, Reading, Slice, Report, Spanned, SpanStart, SpanEnd;
    var s := Spanned(buffer, span);
    var tokens := Tokens(s);
    var t := ReportEntry(buffer, span, k);
    SameLengths(buffer, span);
    TokenSlice(buffer, span, t.object_);
    TokenSlice(buffer, span, t.generation);
    TokenSlice(buffer, span, t.keyword);
    KeywordText(s, t.keyword);
    ReadingDecodes(tokens, t.object_, t.generation);
  }

  lemma TokenSlice(buffer: Bytes, span: ByteRange, i: nat)
    requires i < |Tokens(Spanned(buffer, span))|
    ensures var tokens, base := Tokens(Spanned(buffer, span)), SpanStart(buffer, span);
      base <= TokenRange(tokens, base, i).start && TokenRange(tokens, base, i).end <= SpanEnd(buffer, span)
      && Slice(buffer, TokenRange(tokens, base, i)) == Some(tokens[i].text)
  {
    hide Tokens, Offset, Slice, Spanned, SpanStart, SpanEnd;
    var tokens := Tokens(Spanned(buffer, span));
    TokenText(Spanned(buffer, span), i);
    OffsetsGrow(tokens, i, i + 1);
    SpannedSlice(buffer, span, Offset(tokens, i), Offset(tokens, i + 1));
  }

  lemma ReadingDecodes(tokens: seq<Token>, a: nat, b: nat)
    requires a < |tokens| && b < |tokens| && Reading(tokens, a, b).Ok?
    ensures IsDigits(tokens[a].text) && IsDigits(tokens[b].text)
    ensures Reading(tokens, a, b).value == IndirectRef(Decimal(tokens[a].text), Decimal(tokens[b].text))
    ensures Decimal(tokens[a].text) < U32_COUNT && Decimal(tokens[b].text) < U16_COUNT
  {
  }

  /** Object, generation, keyword, next object: the ranges never overlap and come in that order. */
  predicate Follows(earlier: TokenRanges, later: TokenRanges) {
    earlier.keyword.end <= later.objectNumber.start
  }

  predicate InOrder(r: TokenRanges) {
    r.objectNumber.start < r.objectNumber.end <= r.generation.start < r.generation.end <= r.keyword.start
    && r.keyword.start < r.keyword.end
  }

  lemma RangesAreOrdered(buffer: Bytes, span: ByteRange)
    ensures var ranges := Report(buffer, span).ranges;
      (forall k | 0 <= k < |ranges| :: InOrder(ranges[k]))
      && forall j, k | 0 <= j < k < |ranges| :: Follows(ranges[j], ranges[k])
  {
    hide Tokens, Offset, FindingsBefore, Reading, TokenRange, Report, Spanned;
    var tokens, base := Tokens(Spanned(buffer, span)), SpanStart(buffer, span);
    FoundAreReferences(tokens, |tokens|);
    forall k | 0 <= k < |Report(buffer, span).ranges| ensures InOrder(Report(buffer, span).ranges[k]) {
      SameLengths(buffer, span);
      var t := ReportEntry(buffer, span, k);
      TripleInOrder(tokens, base, t);
    }
    forall j, k | 0 <= j < k < |Report(buffer, span).ranges|
      ensures Follows(Report(buffer, span).ranges[j], Report(buffer, span).ranges[k])
    {
      SameLengths(buffer, span);
      var t := ReportEntry(buffer, span, j);
      var u := ReportEntry(buffer, span, k);
      TokensInOrder(tokens, base, t.keyword, u.object_);
    }
  }

  lemma SameLengths(buffer: Bytes, span: ByteRange)
    ensures |Report(buffer, span).ranges| == |Report(buffer, span).references|
  {
  }

  lemma TokensInOrder(tokens: seq<Token>, base: nat, i: nat, j: nat)
    requires i < j < |tokens|
    ensures TokenRange(tokens, base, i).end <= TokenRange(tokens, base, j).start
  {
    OffsetsGrow(tokens, i + 1, j);
  }

  lemma TripleInOrder(tokens: seq<Token>, base: nat, t: Triple)
    requires t.object_ < t.generation < t.keyword < |tokens|
    requires forall i | 0 <= i < |tokens| :: tokens[i].text != []
    ensures InOrder(TokenRanges(TokenRange(tokens, base, t.object_), TokenRange(tokens, base, t.generation),
                                TokenRange(tokens, base, t.keyword)))
  {
    TokensInOrder(tokens, base, t.object_, t.generation);
    TokensInOrder(tokens, base, t.generation, t.keyword);
  }

  // ---- Rescanning after a digit run is replaced ----------------------------

  /** The first token does not change when what follows it starts alike, or with another digit. */
  lemma LexIsLocal(s: Bytes, t: Bytes)
    requires s != [] && t != [] && Lex(s).Some?
    requires var n := Lex(s).value.1;
      n < |s| && n < |t| && t[..n] == s[..n] && (s[n] == t[n] || (IsDigit(s[n]) && IsDigit(t[n])))
    ensures Lex(t) == Lex(s)
  {
    var n := Lex(s).value.1;
    assert forall i | 0 <= i < n :: s[i] == s[..n][i] == t[..n][i] == t[i];
    var c := s[0];
    if IsWhitespace(c) {
      RunIs(t, IsWhitespace, n);
    } else if c == '%' {
      RunIs(t, IsInLine, n);
    } else if c == '(' {
      assert t[1..][..n - 1] == t[..n][1..] == s[..n][1..] == s[1..][..n - 1];
      StringBodyIsLocal(s[1..], t[1..], 1);
    } else if c == '<' {
      if s[1] != '<' {
        assert t[1..][..n - 1] == t[..n][1..] == s[..n][1..] == s[1..][..n - 1];
        HexBodyIsLocal(s[1..], t[1..]);
      }
    } else if c == '/' {
      RunIs(t[1..], IsRegular, n - 1);
    } else if !IsDelimiter(c) && c != '>' {
      RunIs(t, IsRegular, n);
    }
  }

  /** A digit run in the place of an integer token is an integer token. */
  lemma LexDigits(s: Bytes, digits: Bytes)
    requires s != [] && Lex(s).Some? && Lex(s).value.0 == Integer && IsDigits(digits)
    ensures Lex(digits + s[Lex(s).value.1..]) == Some((Integer, |digits|))
  {
    var n := Lex(s).value.1;
    var t := digits + s[n..];
    assert forall i | 0 <= i < |digits| :: t[i] == digits[i] && IsRegular(t[i]);
    assert |digits| < |t| ==> t[|digits|] == s[n];
    RunIs(t, IsRegular, |digits|);
    assert t[..|digits|] == digits;
    RunIs(digits, IsDigit, |digits|);
  }

  function Replaced(tokens: seq<Token>, i: nat, digits: Bytes): seq<Token>
    requires i < |tokens|
  {
    tokens[i := Token(Integer, digits)]
  }

  /** The span with the text of token `i` replaced. */
  function Respelled(s: Bytes, i: nat, digits: Bytes): Bytes
    requires i < |Tokens(s)|
    requires Offset(Tokens(s), i) <= Offset(Tokens(s), i + 1) <= |s|
  {
    s[..Offset(Tokens(s), i)] + digits + s[Offset(Tokens(s), i + 1)..]
  }

  /** Rescanning sees the same tokens, with only the replaced one changed. */
  lemma {:induction false} RespelledTokens(s: Bytes, i: nat, digits: Bytes)
    requires i < |Tokens(s)| && Tokens(s)[i].kind == Integer && IsDigits(digits)
    ensures Offset(Tokens(s), i) <= Offset(Tokens(s), i + 1) <= |s|
    ensures Tokens(Respelled(s, i, digits)) == Replaced(Tokens(s), i, digits)
    decreases i
  {
    hide Lex, Tokens, Respelled;
    TokenText(s, i);
    TokensUnfold(s);
    var tokens, n := Tokens(s), Lex(s).value.1;
    var rest := s[n..];
    if i == 0 {
      RespelledFirst(s, digits);
      LexDigits(s, digits);
      TokensFold(digits + rest, digits, rest, Integer);
    } else {
      RespelledTokens(rest, i - 1, digits);
      RespelledLater(s, n, i, digits);
      SameHead(rest, i - 1, digits);
      KeepsFirst(s, Respelled(rest, i - 1, digits));
    }
  }

  /** The first token survives a change behind it that keeps the head of the rest alike. */
  lemma KeepsFirst(s: Bytes, u: Bytes)
    requires Tokens(s) != [] && u != []
    requires var n := Lex(s).value.1; n < |s| && (s[n] == u[0] || (IsDigit(s[n]) && IsDigit(u[0])))
    ensures Tokens(s[..Lex(s).value.1] + u) == [Tokens(s)[0]] + Tokens(u)
  {
    hide Lex, Tokens;
    TokensUnfold(s);
    var n := Lex(s).value.1;
    var t := s[..n] + u;
    assert t[..n] == s[..n] && t[n] == u[0];
    LexIsLocal(s, t);
    TokensFold(t, s[..n], u, Lex(s).value.0);
  }

  lemma TokensFold(s: Bytes, text: Bytes, rest: Bytes, kind: Kind)
    requires text != [] && s == text + rest && Lex(s) == Some((kind, |text|))
    ensures Tokens(s) == [Token(kind, text)] + Tokens(rest)
  {
    hide Lex;
    assert s[..|text|] == text && s[|text|..] == rest;
  }

  lemma RespelledFirst(s: Bytes, digits: Bytes)
    requires Tokens(s) != [] && Offset(Tokens(s), 1) <= |s|
    ensures Lex(s).Some? && Respelled(s, 0, digits) == digits + s[Lex(s).value.1..]
  {
    hide Lex, Tokens;
    TokensUnfold(s);
    assert Offset(Tokens(s), 0) == 0;
  }

  lemma RespelledLater(s: Bytes, n: nat, i: nat, digits: Bytes)
    requires 0 < i < |Tokens(s)| && Offset(Tokens(s), i) <= Offset(Tokens(s), i + 1) <= |s|
    requires Lex(s).Some? && n == Lex(s).value.1 && Tokens(s)[1..] == Tokens(s[n..]) && |Tokens(s)[0].text| == n
    ensures Offset(Tokens(s[n..]), i - 1) <= Offset(Tokens(s[n..]), i) <= |s[n..]|
    ensures Respelled(s, i, digits) == s[..n] + Respelled(s[n..], i - 1, digits)
  {
    hide Lex, Tokens, Offset;
    OffsetOfRest(Tokens(s), i);
    OffsetOfRest(Tokens(s), i + 1);
  }

  lemma SameHead(s: Bytes, i: nat, digits: Bytes)
    requires i < |Tokens(s)| && Tokens(s)[i].kind == Integer && IsDigits(digits)
    requires Offset(Tokens(s), i) <= Offset(Tokens(s), i + 1) <= |s|
    ensures s != [] && Respelled(s, i, digits) != []
    ensures var t := Respelled(s, i, digits); s[0] == t[0] || (IsDigit(s[0]) && IsDigit(t[0]))
  {
    hide Lex;
    if i == 0 {
      IntegerTexts(s, 0);
      TokenText(s, 0);
      assert s[0] == Tokens(s)[0].text[0];
    } else {
      OffsetsGrow(Tokens(s), 1, i);
    }
  }

  // ---- Splicing both numbers of a reported reference -----------------------

  function Retold(tokens: seq<Token>, t: Triple, object_: Bytes, generation: Bytes): seq<Token>
    requires Reads(tokens, t)
  {
    Replaced(Replaced(tokens, t.generation, generation), t.object_, object_)
  }

  lemma {:induction false} SameWindow(tokens: seq<Token>, other: seq<Token>, n: nat)
    requires |other| == |tokens| && n <= |tokens| && forall i | 0 <= i < |tokens| :: other[i].kind == tokens[i].kind
    ensures Window(other, n) == Window(tokens, n)
    decreases n
  {
    if n > 0 {
      SameWindow(tokens, other, n - 1);
    }
  }

  /** New numbers for one reference leave every finding where it was. */
  lemma {:induction false} SameFindings(tokens: seq<Token>, t: Triple, object_: Bytes, generation: Bytes, n: nat)
    requires n <= |tokens| && Reads(tokens, t) && Refers(tokens, t)
    requires IsDigits(object_) && Decimal(object_) < U32_COUNT && IsDigits(generation)
      && Decimal(generation) < U16_COUNT
    ensures FindingsBefore(Retold(tokens, t, object_, generation), n) == FindingsBefore(tokens, n)
    decreases n
  {
    hide NumberAt;
    if n > 0 {
      var other := Retold(tokens, t, object_, generation);
      SameFindings(tokens, t, object_, generation, n - 1);
      SameWindow(tokens, other, n - 1);
      match Window(tokens, n - 1) {
        case (Some(a), Some(b)) =>
          if tokens[n - 1].kind == Keyword {
            WindowExactly(tokens, n - 1, a, b);
            RetoldReading(tokens, t, object_, generation, Triple(a, b, n - 1));
          }
        case _ =>
      }
    }
  }

  /** Only the respelled reference reads differently. */
  lemma RetoldReading(tokens: seq<Token>, t: Triple, object_: Bytes, generation: Bytes, u: Triple)
    requires Reads(tokens, t) && Refers(tokens, t)
    requires Refers(tokens, u)
    requires IsDigits(object_) && Decimal(object_) < U32_COUNT && IsDigits(generation)
      && Decimal(generation) < U16_COUNT
    ensures Reading(Retold(tokens, t, object_, generation), u.object_, u.generation)
         == if u == t then Ok(IndirectRef(Decimal(object_), Decimal(generation)))
           else Reading(tokens, u.object_, u.generation)
  {
    ReferencesDisjoint(tokens, t, u);
    ReferencesDisjoint(tokens, u, t);
  }

  /** Where an offset of the old buffer is found after the splice. */
  function Moved(r: TokenRanges, object_: Bytes, generation: Bytes, offset: nat): int {
    offset
    + (if offset <= r.objectNumber.start then 0 else |object_| - (r.objectNumber.end - r.objectNumber.start))
    + (if offset <= r.generation.start then 0 else |generation| - (r.generation.end - r.generation.start))
  }

  predicate HasMoved(r: TokenRanges, object_: Bytes, generation: Bytes, before: ByteRange, after: ByteRange) {
    after.start == Moved(r, object_, generation, before.start) && after.end == Moved(r, object_, generation, before.end)
  }

  predicate HaveMoved(r: TokenRanges, object_: Bytes, generation: Bytes, before: TokenRanges, after: TokenRanges) {
    HasMoved(r, object_, generation, before.objectNumber, after.objectNumber)
    && HasMoved(r, object_, generation, before.generation, after.generation)
    && HasMoved(r, object_, generation, before.keyword, after.keyword)
  }

  predicate Spliceable(buffer: Bytes, r: TokenRanges) {
    r.objectNumber.start <= r.objectNumber.end <= r.generation.start <= r.generation.end <= |buffer|
  }

  /** The buffer with the two number tokens rewritten; the keyword and all trivia are kept. */
  function Spliced(buffer: Bytes, r: TokenRanges, object_: Bytes, generation: Bytes): Bytes
    requires Spliceable(buffer, r)
  {
    buffer[..r.objectNumber.start] + object_ + buffer[r.objectNumber.end..r.generation.start]
    + generation + buffer[r.generation.end..]
  }

  lemma {:induction false} RetoldOffset(tokens: seq<Token>, t: Triple, object_: Bytes, generation: Bytes, i: nat)
    requires Reads(tokens, t) && i <= |tokens|
    ensures Offset(Retold(tokens, t, object_, generation), i)
         == Offset(tokens, i) + (if i <= t.object_ then 0 else |object_| - |tokens[t.object_].text|)
                              + (if i <= t.generation then 0 else |generation| - |tokens[t.generation].text|)
    decreases i
  {
    if i > 0 {
      RetoldOffset(tokens, t, object_, generation, i - 1);
    }
  }

  /** Offsets order as token positions do, since no token is empty. */
  lemma OffsetsCompare(tokens: seq<Token>, i: nat, j: nat)
    requires i <= |tokens| && j < |tokens| && forall k | 0 <= k < |tokens| :: tokens[k].text != []
    ensures Offset(tokens, i) <= Offset(tokens, j) <==> i <= j
  {
    if i <= j {
      OffsetsGrow(tokens, i, j);
    } else {
      OffsetsGrow(tokens, j + 1, i);
    }
  }

  function RangesOf(tokens: seq<Token>, base: nat, t: Triple): TokenRanges
    requires Reads(tokens, t)
  {
    TokenRanges(TokenRange(tokens, base, t.object_), TokenRange(tokens, base, t.generation),
                TokenRange(tokens, base, t.keyword))
  }

  lemma OffsetHasMoved(tokens: seq<Token>, base: nat, t: Triple, object_: Bytes, generation: Bytes, i: nat)
    requires Reads(tokens, t) && i <= |tokens| && forall k | 0 <= k < |tokens| :: tokens[k].text != []
    ensures base + Offset(Retold(tokens, t, object_, generation), i)
         == Moved(RangesOf(tokens, base, t), object_, generation, base + Offset(tokens, i))
  {
    hide Retold, Reading;
    RetoldOffset(tokens, t, object_, generation, i);
    OffsetsCompare(tokens, i, t.object_);
    OffsetsCompare(tokens, i, t.generation);
    assert Offset(tokens, t.object_ + 1) == Offset(tokens, t.object_) + |tokens[t.object_].text|;
    assert Offset(tokens, t.generation + 1) == Offset(tokens, t.generation) + |tokens[t.generation].text|;
  }

  lemma PiecesReplaced(x: Bytes, o: Bytes, y: Bytes, g: Bytes, z: Bytes, object_: Bytes, generation: Bytes)
    ensures var s := (x + o + y) + g + z;
      var once := s[..|x| + |o| + |y|] + generation + s[|x| + |o| + |y| + |g|..];
      once[..|x|] + object_ + once[|x| + |o|..] == x + object_ + (y + generation + z)
  {
    ReplaceMiddle(x + o + y, g, z, generation);
    assert (x + o + y) + generation + z == x + o + (y + generation + z);
    ReplaceMiddle(x, o, y + generation + z, object_);
  }

  /** The span of the spliced buffer, piece by piece. */
  lemma SplicedPieces(buffer: Bytes, base: nat, end: nat, r: TokenRanges, object_: Bytes, generation: Bytes)
    requires Spliceable(buffer, r) && base <= r.objectNumber.start && r.generation.end <= end <= |buffer|
    ensures var m := buffer[base..r.objectNumber.start] + object_
                     + (buffer[r.objectNumber.end..r.generation.start] + generation + buffer[r.generation.end..end]);
      base + |m| <= |Spliced(buffer, r, object_, generation)|
      && Spliced(buffer, r, object_, generation)[base..base + |m|] == m
  {
    var os, oe, gs, ge := r.objectNumber.start, r.objectNumber.end, r.generation.start, r.generation.end;
    var m := buffer[base..os] + object_ + (buffer[oe..gs] + generation + buffer[ge..end]);
    assert buffer[..os] == buffer[..base] + buffer[base..os] && buffer[ge..] == buffer[ge..end] + buffer[end..];
    assert Spliced(buffer, r, object_, generation) == buffer[..base] + m + buffer[end..];
    Middle(buffer[..base], m, buffer[end..]);
  }

  lemma ReplaceMiddle(a: Bytes, b: Bytes, c: Bytes, d: Bytes)
    ensures (a + b + c)[..|a|] + d + (a + b + c)[|a| + |b|..] == a + d + c
  {
  }

  lemma Middle(a: Bytes, b: Bytes, c: Bytes)
    ensures (a + b + c)[|a|..|a| + |b|] == b
  {
  }

  /** The tokens of the spliced span. */
  lemma SplicedTokens(buffer: Bytes, span: ByteRange, t: Triple, object_: Bytes, generation: Bytes)
    requires var tokens := Tokens(Spanned(buffer, span)); Reads(tokens, t) && Refers(tokens, t)
    requires IsDigits(object_) && IsDigits(generation)
    ensures var tokens, base, end := Tokens(Spanned(buffer, span)), SpanStart(buffer, span), SpanEnd(buffer, span);
      var r := RangesOf(tokens, base, t);
      Spliceable(buffer, r) && base == span.start && Moved(r, object_, generation, end) >= 0
      && var spliced := Spliced(buffer, r, object_, generation);
      var moved := ByteRange(span.start, Moved(r, object_, generation, end));
      SpanStart(spliced, moved) == base && Tokens(Spanned(spliced, moved)) == Retold(tokens, t, object_, generation)
  {
    hide Tokens, Offset, Reading, Spliced;
    var s, base, end := Spanned(buffer, span), SpanStart(buffer, span), SpanEnd(buffer, span);
    var tokens := Tokens(s);
    var r := RangesOf(tokens, base, t);
    TripleInOrder(tokens, base, t);
    TokenSlice(buffer, span, t.object_);
    TokenSlice(buffer, span, t.generation);
    TokenSlice(buffer, span, t.keyword);
    SplicedPieces(buffer, base, end, r, object_, generation);
    RespelledTwice(s, t, object_, generation);
    var oa, ob := Offset(tokens, t.object_), Offset(tokens, t.object_ + 1);
    var oc, od := Offset(tokens, t.generation), Offset(tokens, t.generation + 1);
    SlicesOfSpan(buffer, base, end, oa, ob, oc, od);
  }

  lemma SlicesOfSpan(buffer: Bytes, base: nat, end: nat, oa: nat, ob: nat, oc: nat, od: nat)
    requires oa <= ob <= oc <= od && base + od <= end <= |buffer|
    ensures var s := buffer[base..end];
      s[..oa] == buffer[base..base + oa] && s[ob..oc] == buffer[base + ob..base + oc]
      && s[od..] == buffer[base + od..end]
  {
    var s := buffer[base..end];
    assert forall i | 0 <= i < oa :: s[..oa][i] == buffer[base..base + oa][i];
    assert forall i | 0 <= i < oc - ob :: s[ob..oc][i] == buffer[base + ob..base + oc][i];
    assert forall i | 0 <= i < |s| - od :: s[od..][i] == buffer[base + od..end][i];
  }

  lemma RespelledTwice(s: Bytes, t: Triple, object_: Bytes, generation: Bytes)
    requires Reads(Tokens(s), t) && Refers(Tokens(s), t) && IsDigits(object_) && IsDigits(generation)
    ensures var tokens := Tokens(s);
      var oa, ob := Offset(tokens, t.object_), Offset(tokens, t.object_ + 1);
      var oc, od := Offset(tokens, t.generation), Offset(tokens, t.generation + 1);
      oa <= ob <= oc <= od <= |s|
      && Tokens(s[..oa] + object_ + (s[ob..oc] + generation + s[od..])) == Retold(tokens, t, object_, generation)
  {
    hide Tokens, Offset, Reading, AllBlank, Retold, Respelled;
    var tokens := Tokens(s);
    var oa, ob := Offset(tokens, t.object_), Offset(tokens, t.object_ + 1);
    var oc, od := Offset(tokens, t.generation), Offset(tokens, t.generation + 1);
    OffsetsGrow(tokens, t.object_, t.object_ + 1);
    OffsetsGrow(tokens, t.object_ + 1, t.generation);
    RespelledTokens(s, t.generation, generation);
    var once := Respelled(s, t.generation, generation);
    RespelledIs(s, t.generation, generation);
    RespelledInTurn(s, once, t, object_, generation);
    SlicesReplaced(s, oa, ob, oc, od, object_, generation);
  }

  lemma RespelledIs(s: Bytes, i: nat, digits: Bytes)
    requires i < |Tokens(s)| && Offset(Tokens(s), i) <= Offset(Tokens(s), i + 1) <= |s|
    ensures Respelled(s, i, digits) == s[..Offset(Tokens(s), i)] + digits + s[Offset(Tokens(s), i + 1)..]
  {
  }

  /** One number at a time: respelling the generation leaves the object number where it was. */
  lemma RespelledInTurn(s: Bytes, once: Bytes, t: Triple, object_: Bytes, generation: Bytes)
    requires Reads(Tokens(s), t) && Refers(Tokens(s), t) && IsDigits(object_) && IsDigits(generation)
    requires Tokens(once) == Replaced(Tokens(s), t.generation, generation)
    ensures var oa, ob := Offset(Tokens(s), t.object_), Offset(Tokens(s), t.object_ + 1);
      oa <= ob <= |once|
      && Tokens(once[..oa] + object_ + once[ob..]) == Retold(Tokens(s), t, object_, generation)
  {
    hide Tokens, Offset, Reading, AllBlank, Respelled;
    RespelledTokens(once, t.object_, object_);
    EarlierOffset(Tokens(s), t.generation, generation, t.object_);
    EarlierOffset(Tokens(s), t.generation, generation, t.object_ + 1);
    RespelledIs(once, t.object_, object_);
  }

  lemma SlicesReplaced(s: Bytes, oa: nat, ob: nat, oc: nat, od: nat, object_: Bytes, generation: Bytes)
    requires oa <= ob <= oc <= od <= |s|
    ensures var once := s[..oc] + generation + s[od..];
      once[..oa] + object_ + once[ob..] == s[..oa] + object_ + (s[ob..oc] + generation + s[od..])
  {
    var x, o, y, g, z := s[..oa], s[oa..ob], s[ob..oc], s[oc..od], s[od..];
    assert s == (x + o + y) + g + z;
    PiecesReplaced(x, o, y, g, z, object_, generation);
  }

  lemma {:induction false} EarlierOffset(tokens: seq<Token>, i: nat, digits: Bytes, j: nat)
    requires j <= i < |tokens|
    ensures Offset(Replaced(tokens, i, digits), j) == Offset(tokens, j)
    decreases j
  {
    if j > 0 {
      EarlierOffset(tokens, i, digits, j - 1);
    }
  }

  /**
   * Splice, then rescan: writing any other in-range numbers into one reported reference and scanning the
   * adjusted span again reports the same references but for that one, the same skips and the same
   * truncation, and every token range where the splice moved it.
   */
  lemma SpliceThenRescan(buffer: Bytes, span: ByteRange, k: nat, object_: Bytes, generation: Bytes)
    requires k < |Report(buffer, span).references|
    requires IsDigits(object_) && Decimal(object_) < U32_COUNT && IsDigits(generation)
      && Decimal(generation) < U16_COUNT
    ensures |Report(buffer, span).ranges| == |Report(buffer, span).references|
    ensures var report := Report(buffer, span);
      var r := report.ranges[k];
      Spliceable(buffer, r) && Moved(r, object_, generation, SpanEnd(buffer, span)) >= 0
      && var rescanned := Report(Spliced(buffer, r, object_, generation),
                                 ByteRange(span.start, Moved(r, object_, generation, SpanEnd(buffer, span))));
         rescanned.references == report.references[k := IndirectRef(Decimal(object_), Decimal(generation))]
         && rescanned.skipped == report.skipped && rescanned.truncated == report.truncated
         && |rescanned.ranges| == |report.ranges|
         && forall i | 0 <= i < |report.ranges| ::
           HaveMoved(r, object_, generation, report.ranges[i], rescanned.ranges[i])
  {
    hide Tokens, Offset, Reading, Spliced, Spanned, SpanStart, SpanEnd, FindingsBefore, Retold, Moved;
    SameLengths(buffer, span);
    var t := ReportEntry(buffer, span, k);
    var tokens, base := Tokens(Spanned(buffer, span)), SpanStart(buffer, span);
    SplicedTokens(buffer, span, t, object_, generation);
    SameFindings(tokens, t, object_, generation, |tokens|);
    var found := FindingsBefore(tokens, |tokens|).found;
    FoundAreReferences(tokens, |tokens|);
    var other := Retold(tokens, t, object_, generation);
    assert |other| == |tokens| by { RetoldLength(tokens, t, object_, generation); }
    forall i | 0 <= i < |found|
      ensures Reading(other, found[i].object_, found[i].generation)
        == if i == k then Ok(IndirectRef(Decimal(object_), Decimal(generation)))
          else Reading(tokens, found[i].object_, found[i].generation)
      ensures HaveMoved(RangesOf(tokens, base, t), object_, generation, RangesOf(tokens, base, found[i]),
                        RangesOf(other, base, found[i]))
    {
      RetoldReading(tokens, t, object_, generation, found[i]);
      RangesHaveMoved(tokens, base, t, object_, generation, found[i]);
    }
  }

  lemma RetoldLength(tokens: seq<Token>, t: Triple, object_: Bytes, generation: Bytes)
    requires Reads(tokens, t)
    ensures |Retold(tokens, t, object_, generation)| == |tokens|
  {
  }

  lemma RangesHaveMoved(tokens: seq<Token>, base: nat, t: Triple, object_: Bytes, generation: Bytes, u: Triple)
    requires Reads(tokens, t) && Reads(tokens, u) && forall k | 0 <= k < |tokens| :: tokens[k].text != []
    requires Reads(Retold(tokens, t, object_, generation), u)
    ensures HaveMoved(RangesOf(tokens, base, t), object_, generation,
                      RangesOf(tokens, base, u), RangesOf(Retold(tokens, t, object_, generation), base, u))
  {
    hide Retold, Moved, Offset;
    OffsetHasMoved(tokens, base, t, object_, generation, u.object_);
    OffsetHasMoved(tokens, base, t, object_, generation, u.object_ + 1);
    OffsetHasMoved(tokens, base, t, object_, generation, u.generation);
    OffsetHasMoved(tokens, base, t, object_, generation, u.generation + 1);
    OffsetHasMoved(tokens, base, t, object_, generation, u.keyword);
    OffsetHasMoved(tokens, base, t, object_, generation, u.keyword + 1);
  }
}
