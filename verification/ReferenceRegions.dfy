/** What the reference scanner reports, said of the bytes of the span and of where each of them lies. */
module ReferenceRegions {
  import opened Basics
  import opened Lexing
  import opened ByteRegions
  import opened ReferenceScan
  import opened ReferenceSplice

  // ---- One token -----------------------------------------------------------

  /** The token ends where reading is outside again. */
  ghost predicate EndsOutside(s: Bytes, n: nat) {
    n <= |s| && (n < |s| ==> At(s, n) == Outside)
  }

  /** No regular byte outside lies strictly inside the token. */
  ghost predicate CoversNoOther(s: Bytes, n: nat) {
    forall i | 0 < i < n && i < |s| :: !(At(s, i) == Outside && Regular(s[i]))
  }

  /** All bytes of the token are regular and outside, and the next one is not regular. */
  ghost predicate IsRegularRun(s: Bytes, n: nat) {
    n <= |s| && (forall i | 0 <= i < n :: At(s, i) == Outside && Regular(s[i])) && (n < |s| ==> !Regular(s[n]))
  }

  ghost predicate AllSeparate(s: Bytes, n: nat) {
    forall i | 0 <= i < n :: Separates(s, i)
  }

  /** What a token is, in terms of where its bytes lie. */
  lemma TokenLies(s: Bytes)
    requires s != []
    ensures match Lex(s)
            case None => !Regular(s[0]) && !Separates(s, 0) && CoversNoOther(s, |s|)
            case Some((kind, n)) =>
              EndsOutside(s, n)
              && (kind == Blank <==> Separates(s, 0)) && (kind == Blank ==> AllSeparate(s, n))
              && (if Regular(s[0]) then IsRegularRun(s, n) else CoversNoOther(s, n))
  {
    var c := s[0];
    ClassesAgree(c);
    assert s[..0] == [];
    if Spacing(c) {
      BlankLies(s);
    } else if c == '%' {
      CommentLies(s);
    } else if c == '(' {
      StringLies(s);
    } else if c == '<' {
      AngleLies(s);
    } else if c == '>' {
      CloseLies(s);
    } else if c == '/' {
      NameLies(s);
    } else if IsDelimiter(c) {
      assert s[..1][0] == c && s[..1][1..] == [];
      assert Next(Settled(Outside, c), c) == Outside;
      assert Led(Outside, s[..1]) == Outside;
    } else {
      RegularLies(s);
    }
  }

  lemma BlankLies(s: Bytes)
    requires s != [] && Spacing(s[0])
    ensures var n := SkipWhitespace(s); n > 0 && EndsOutside(s, n) && AllSeparate(s, n) && CoversNoOther(s, n)
  {
    ClassesAgree(s[0]);
    var n := SkipWhitespace(s);
    forall i | 0 <= i <= n ensures Led(Outside, s[..i]) == Outside {
      forall k | 0 <= k < i ensures Next(Settled(Outside, s[..i][k]), s[..i][k]) == Outside {
        ClassesAgree(s[k]);
      }
      LedStays(Outside, s[..i]);
    }
    forall i | 0 <= i < n ensures Separates(s, i) && Spacing(s[i]) {
      ClassesAgree(s[i]);
    }
  }

  lemma CommentLies(s: Bytes)
    requires s != [] && s[0] == '%'
    ensures var n := SkipComment(s); n > 0 && EndsOutside(s, n) && AllSeparate(s, n) && CoversNoOther(s, n)
  {
    var n := SkipComment(s);
    assert s[..0] == [];
    forall i | 0 < i <= n ensures Led(Outside, s[..i]) == InComment {
      var rest := s[1..i];
      assert s[..i][0] == '%' && s[..i][1..] == rest;
      forall k | 0 <= k < |rest| ensures Next(Settled(InComment, rest[k]), rest[k]) == InComment {
        ClassesAgree(s[k + 1]);
      }
      LedStays(InComment, rest);
    }
    forall i | 0 < i < n ensures At(s, i) == InComment {
      ClassesAgree(s[i]);
    }
    if n < |s| {
      ClassesAgree(s[n]);
    }
    assert forall i | 0 < i < n :: Separates(s, i);
  }

  lemma StringLies(s: Bytes)
    requires s != [] && s[0] == '('
    ensures match SkipLiteralString(s)
            case None => CoversNoOther(s, |s|)
            case Some(n) => EndsOutside(s, n) && CoversNoOther(s, n)
  {
    forall i | 0 < i <= |s|
      ensures match SkipLiteralString(s)
              case None => Led(Outside, s[..i]).InString?
              case Some(n) => (i < n ==> Led(Outside, s[..i]).InString?) && (i == n ==> Led(Outside, s[..i]) == Outside)
    {
      assert s[..i][0] == '(' && s[..i][1..] == s[1..][..i - 1];
      StringLeads(s[1..], 1, i - 1);
    }
  }

  lemma AngleLies(s: Bytes)
    requires s != [] && s[0] == '<'
    ensures if |s| > 1 && s[1] == '<' then EndsOutside(s, 2) && CoversNoOther(s, 2)
            else match SkipHexString(s)
              case None => CoversNoOther(s, |s|)
              case Some(n) => EndsOutside(s, n) && CoversNoOther(s, n)
  {
    assert s[..1] == ['<'] && ['<'][1..] == [];
    assert Led(Outside, s[..1]) == Less;
    if |s| > 1 && s[1] == '<' {
      assert s[..2] == ['<', '<'] && ['<', '<'][1..] == ['<'];
      assert Led(Outside, s[..2]) == Outside;
    } else {
      forall i | 1 < i <= |s|
        ensures match SkipHexString(s)
                case None => Led(Outside, s[..i]) == InHex
                case Some(n) =>
                  (i < n ==> Led(Outside, s[..i]) == InHex) && (i == n ==> Led(Outside, s[..i]) == Outside)
      {
        assert s[..i][0] == '<' && s[..i][1..] == s[1..][..i - 1];
        LessLeads(s[1..], i - 1);
      }
    }
  }

  lemma CloseLies(s: Bytes)
    requires s != [] && s[0] == '>'
    ensures if |s| > 1 && s[1] == '>' then EndsOutside(s, 2) && CoversNoOther(s, 2)
            else EndsOutside(s, 1) && CoversNoOther(s, 1)
  {
    assert s[..1] == ['>'] && ['>'][1..] == [];
    assert Led(Outside, s[..1]) == Greater;
    if |s| > 1 && s[1] == '>' {
      assert s[..2] == ['>', '>'] && ['>', '>'][1..] == ['>'];
      assert Led(Outside, s[..2]) == Outside;
    }
  }

  lemma NameLies(s: Bytes)
    requires s != [] && s[0] == '/'
    ensures EndsOutside(s, SkipName(s)) && CoversNoOther(s, SkipName(s))
  {
    var n := SkipName(s);
    forall i | 0 < i <= n ensures Led(Outside, s[..i]) == InName {
      var rest := s[1..i];
      assert s[..i][0] == '/' && s[..i][1..] == rest;
      forall k | 0 <= k < |rest| ensures Next(Settled(InName, rest[k]), rest[k]) == InName {
        assert rest[k] == s[1..][k];
        ClassesAgree(rest[k]);
      }
      LedStays(InName, rest);
    }
    forall i | 0 < i < n ensures At(s, i) == InName {
      assert s[i] == s[1..][i - 1];
      ClassesAgree(s[i]);
    }
    if n < |s| {
      assert s[n] == s[1..][n - 1];
      ClassesAgree(s[n]);
    }
  }

  lemma RegularLies(s: Bytes)
    requires s != [] && Regular(s[0])
    ensures var n := SkipScalarToken(s); EndsOutside(s, n) && IsRegularRun(s, n)
  {
    ClassesAgree(s[0]);
    var n := SkipScalarToken(s);
    forall i | 0 <= i <= n ensures Led(Outside, s[..i]) == Outside {
      forall k | 0 <= k < i ensures Next(Settled(Outside, s[..i][k]), s[..i][k]) == Outside {
        ClassesAgree(s[k]);
      }
      LedStays(Outside, s[..i]);
    }
    forall i | 0 <= i < n ensures At(s, i) == Outside && Regular(s[i]) {
      ClassesAgree(s[i]);
    }
    if n < |s| {
      ClassesAgree(s[n]);
    }
  }

  // ---- All tokens ----------------------------------------------------------

  /** Token `j` of the span, seen from where it starts. */
  lemma {:induction false} TokenStarts(s: Bytes, j: nat)
    requires j < |Tokens(s)|
    ensures var tokens := Tokens(s);
      var from := Offset(tokens, j);
      from < |s| && Offset(tokens, j + 1) == from + |tokens[j].text| <= |s|
      && At(s, from) == Outside && Lex(s[from..]) == Some((tokens[j].kind, |tokens[j].text|))
    decreases |s|
  {
    hide Lex, Tokens, At, EndsOutside;
    TokensUnfold(s);
    TokenLies(s);
    StartsOutside(s);
    var tokens, n := Tokens(s), Lex(s).value.1;
    var rest := s[n..];
    if n < |s| {
      EndsThere(s, n);
    }
    OffsetOfRest(tokens, j + 1);
    if j == 0 {
      assert Offset(tokens, 0) == 0 && s[0..] == s;
      assert Offset(tokens[1..], 0) == 0;
    } else {
      OffsetOfRest(tokens, j);
      TokenStarts(rest, j - 1);
      var from := Offset(tokens[1..], j - 1);
      AtShifts(s, n, from);
      assert rest[from..] == s[n + from..];
    }
  }

  lemma EndsThere(s: Bytes, n: nat)
    requires EndsOutside(s, n) && n < |s|
    ensures At(s, n) == Outside
  {
  }

  lemma StartsOutside(s: Bytes)
    ensures s != [] ==> At(s, 0) == Outside
  {
    assert s != [] ==> s[..0] == [];
  }

  lemma NoTokens(s: Bytes)
    requires Tokens(s) == [] && s != []
    ensures Lex(s).None?
  {
    hide Lex;
  }

  /** Bytes of token `j`, seen in the whole span. */
  lemma TokenBytes(s: Bytes, j: nat)
    requires j < |Tokens(s)|
    ensures var tokens := Tokens(s);
      var from, to := Offset(tokens, j), Offset(tokens, j + 1);
      from < to <= |s| && s[from..to] == tokens[j].text
      && (tokens[j].kind == Blank <==> Separates(s, from))
      && (tokens[j].kind == Blank ==> forall i | from <= i < to :: Separates(s, i))
      && (if Regular(s[from]) then IsToken(s, from, to)
          else forall i | from < i < to :: !(At(s, i) == Outside && Regular(s[i])))
  {
    hide Lex, Tokens, At, Led;
    TokenStarts(s, j);
    TokenText(s, j);
    var tokens := Tokens(s);
    var from, n := Offset(tokens, j), |tokens[j].text|;
    var rest := s[from..];
    TokenLies(rest);
    forall i | 0 <= i < |rest| ensures At(rest, i) == At(s, from + i) && rest[i] == s[from + i] {
      AtShifts(s, from, i);
    }
    SeparatesShifts(s, from);
    if Regular(s[from]) {
      forall i | from <= i < from + n ensures At(s, i) == Outside && Regular(s[i]) {
        assert At(rest, i - from) == Outside && Regular(rest[i - from]);
      }
      assert from + n < |s| ==> !Regular(rest[n]);
    } else {
      forall i | from < i < from + n ensures !(At(s, i) == Outside && Regular(s[i])) {
        assert !(At(rest, i - from) == Outside && Regular(rest[i - from]));
      }
    }
    if tokens[j].kind == Blank {
      forall i | from <= i < from + n ensures Separates(s, i) {
        assert Separates(rest, i - from);
      }
    }
  }

  lemma SeparatesShifts(s: Bytes, from: nat)
    requires from <= |s| && (from < |s| ==> At(s, from) == Outside)
    ensures forall i | 0 <= i < |s| - from :: Separates(s[from..], i) <==> Separates(s, from + i)
  {
    hide At;
    forall i | 0 <= i < |s| - from ensures Separates(s[from..], i) <==> Separates(s, from + i) {
      AtShifts(s, from, i);
    }
  }

  /** A run of regular bytes outside, as far as it goes to the right. */
  ghost predicate IsToken(s: Bytes, from: nat, to: nat) {
    from < to <= |s| && (forall i | from <= i < to :: At(s, i) == Outside && Regular(s[i]))
    && (to < |s| ==> !Regular(s[to]))
  }

  /** Nothing regular stands directly before. */
  predicate StartsToken(s: Bytes, from: nat) {
    from == 0 || (from <= |s| && !Regular(s[from - 1]))
  }

  /** Which token holds a byte; bytes behind the last token are never outside. */
  lemma {:induction false} TokenOf(s: Bytes, i: nat) returns (j: nat)
    requires i < |s|
    ensures j <= |Tokens(s)|
    ensures if j < |Tokens(s)| then Offset(Tokens(s), j) <= i < Offset(Tokens(s), j + 1)
            else Offset(Tokens(s), j) <= i && !(At(s, i) == Outside && Regular(s[i]))
    decreases |s|
  {
    hide Lex, Tokens, At, CoversNoOther;
    TokenLies(s);
    if Tokens(s) == [] {
      NoTokens(s);
      j := 0;
      FirstOffset([]);
      NothingOutside(s, i);
    } else {
      TokensUnfold(s);
      var tokens, n := Tokens(s), Lex(s).value.1;
      assert Offset(tokens, 0) == 0;
      OffsetOfRest(tokens, 1);
      assert Offset(tokens[1..], 0) == 0;
      if i < n {
        j := 0;
      } else {
        EndsThere(s, n);
        var k := TokenOf(s[n..], i - n);
        AtShifts(s, n, i - n);
        j := k + 1;
        OffsetOfRest(tokens, k + 1);
        if k < |tokens| - 1 {
          OffsetOfRest(tokens, k + 2);
        }
      }
    }
  }

  lemma NothingOutside(s: Bytes, i: nat)
    requires i < |s| && CoversNoOther(s, |s|) && !Regular(s[0])
    ensures !(At(s, i) == Outside && Regular(s[i]))
  {
  }

  /** A regular run outside that starts where nothing regular stands before is a token of its own. */
  lemma RunIsToken(s: Bytes, from: nat, to: nat) returns (j: nat)
    requires IsToken(s, from, to) && StartsToken(s, from)
    ensures j < |Tokens(s)| && Offset(Tokens(s), j) == from && Offset(Tokens(s), j + 1) == to
  {
    hide Tokens, At;
    j := TokenOf(s, from);
    TokenBytes(s, j);
    var tokens := Tokens(s);
    var start, end := Offset(tokens, j), Offset(tokens, j + 1);
    assert At(s, from) == Outside && Regular(s[from]);
    assert from > 0 ==> !Regular(s[from - 1]);
    RunsEnd(s, from, to, end);
  }

  lemma RunsEnd(s: Bytes, from: nat, to: nat, end: nat)
    requires IsToken(s, from, to) && IsToken(s, from, end)
    ensures to == end
  {
    hide At;
  }

  lemma KindLies(s: Bytes)
    requires s != [] && Lex(s).Some?
    ensures var (kind, n) := Lex(s).value;
      if Regular(s[0])
      then (kind == Integer <==> forall i | 0 <= i < n :: Numeric(s[i])) && (kind == Keyword <==> n == 1 && s[0] == 'R')
      else kind == Blank || kind == Break
  {
    ClassesAgree(s[0]);
    if Regular(s[0]) {
      var n := SkipScalarToken(s);
      var text := s[..n];
      var digits := CountLeadingDigits(text);
      forall i | 0 <= i < n ensures IsDigit(text[i]) <==> Numeric(s[i]) {
        ClassesAgree(s[i]);
      }
      assert digits == n ==> forall i | 0 <= i < n :: IsDigit(text[i]);
      assert digits < n ==> !IsDigit(text[digits]);
      assert n == 1 ==> text == [s[0]];
    }
  }

  /** Integers are tokens of digits, the keyword the token `R`. */
  lemma TokenKind(s: Bytes, j: nat)
    requires j < |Tokens(s)|
    ensures var tokens := Tokens(s);
      var from, to := Offset(tokens, j), Offset(tokens, j + 1);
      from < to <= |s|
      && (tokens[j].kind == Integer <==> IsToken(s, from, to) && forall i | from <= i < to :: Numeric(s[i]))
      && (tokens[j].kind == Keyword <==> IsToken(s, from, to) && to == from + 1 && s[from] == 'R')
  {
    hide Lex, Tokens, At;
    TokenStarts(s, j);
    TokenBytes(s, j);
    var tokens := Tokens(s);
    var from, to := Offset(tokens, j), Offset(tokens, j + 1);
    var rest := s[from..];
    KindLies(rest);
    assert forall i | 0 <= i < to - from :: rest[i] == s[from + i];
    assert forall i | from <= i < to :: s[i] == rest[i - from];
    assert rest[0] == s[from];
    assert IsToken(s, from, to) ==> Regular(s[from]);
  }

  // ---- References as they are written --------------------------------------

  /** A number on its own: digits outside everything, with nothing regular directly before or after them. */
  ghost predicate NumberAlone(s: Bytes, from: nat, to: nat) {
    StartsToken(s, from) && IsToken(s, from, to) && forall i | from <= i < to :: Numeric(s[i])
  }

  ghost predicate SeparatesAll(s: Bytes, from: nat, to: nat) {
    from < to <= |s| && forall i | from <= i < to :: Separates(s, i)
  }

  /** `N G R` as written: two numbers and a bare `R`, with blanks or comments and nothing else between them. */
  ghost predicate WrittenReference(s: Bytes, a: nat, b: nat, c: nat, d: nat, k: nat) {
    NumberAlone(s, a, b) && SeparatesAll(s, b, c) && NumberAlone(s, c, d) && SeparatesAll(s, d, k)
    && StartsToken(s, k) && IsToken(s, k, k + 1) && s[k] == 'R'
  }

  /** The ranges address a reference written in the span, byte for byte. */
  ghost predicate RangesOfWritten(buffer: Bytes, span: ByteRange, r: TokenRanges) {
    var s, base := Spanned(buffer, span), SpanStart(buffer, span);
    base <= r.objectNumber.start && r.keyword.end == r.keyword.start + 1 && r.objectNumber.end >= base
    && r.generation.start >= base && r.generation.end >= base && r.keyword.start >= base
    && WrittenReference(s, r.objectNumber.start - base, r.objectNumber.end - base, r.generation.start - base,
                        r.generation.end - base, r.keyword.start - base)
  }

  lemma {:induction false} BeforeToken(s: Bytes, j: nat)
    requires j < |Tokens(s)|
    ensures IsToken(s, Offset(Tokens(s), j), Offset(Tokens(s), j + 1)) ==> StartsToken(s, Offset(Tokens(s), j))
  {
    hide Tokens, At, Offset;
    var tokens := Tokens(s);
    var from := Offset(tokens, j);
    if j > 0 && IsToken(s, from, Offset(tokens, j + 1)) {
      TokenBytes(s, j - 1);
      assert At(s, from) == Outside && Regular(s[from]);
      TokenEndsWhereRegular(s, j - 1);
    } else if j == 0 {
      FirstOffset(tokens);
    }
  }

  lemma FirstOffset(tokens: seq<Token>)
    ensures Offset(tokens, 0) == 0
  {
  }

  /** The byte before a token's end is not regular where the next byte starts a new regular run. */
  lemma TokenEndsWhereRegular(s: Bytes, j: nat)
    requires j < |Tokens(s)|
    requires var to := Offset(Tokens(s), j + 1); to < |s| && At(s, to) == Outside && Regular(s[to])
    ensures Offset(Tokens(s), j + 1) > 0 && !Regular(s[Offset(Tokens(s), j + 1) - 1])
  {
    hide Tokens, Led;
    TokenBytes(s, j);
    var tokens := Tokens(s);
    var from, to := Offset(tokens, j), Offset(tokens, j + 1);
    LastByte(s, from, to);
  }

  /** Only a byte that is not regular leads outside, unless all of the token is regular. */
  lemma LastByte(s: Bytes, from: nat, to: nat)
    requires from < to < |s| && At(s, to) == Outside && Regular(s[to])
    requires if Regular(s[from]) then IsToken(s, from, to)
             else forall i | from < i < to :: !(At(s, i) == Outside && Regular(s[i]))
    ensures !Regular(s[to - 1])
  {
    var last := s[to - 1];
    assert s[..to] == s[..to - 1] + [last];
    LedConcat(Outside, s[..to - 1], [last]);
    assert [last][0] == last && [last][1..] == [];
    assert Led(Outside, s[..to]) == Next(At(s, to - 1), last);
    ClassesAgree(s[to]);
    if !Regular(s[from]) && Regular(last) {
      assert to - 1 > from;
      LeadsOutside(At(s, to - 1), last, s[to]);
    }
  }

  lemma LeadsOutside(at: Place, b: Byte, next: Byte)
    requires Regular(b) && Regular(next) && Settled(Next(at, b), next) == Outside && at == Settled(at, b)
    requires at.InString? ==> at.depth > 0
    ensures at == Outside
  {
    ClassesAgree(b);
    ClassesAgree(next);
  }

  lemma IntegerIsNumberAlone(s: Bytes, j: nat)
    requires j < |Tokens(s)| && Tokens(s)[j].kind == Integer
    ensures NumberAlone(s, Offset(Tokens(s), j), Offset(Tokens(s), j + 1))
  {
    hide Tokens, At, Offset;
    TokenKind(s, j);
    BeforeToken(s, j);
  }

  /** Blank tokens between two others are bytes that separate. */
  lemma BlanksSeparate(s: Bytes, i: nat, j: nat)
    requires i < j < |Tokens(s)| && AllBlank(Tokens(s), i + 1, j)
    requires var tokens := Tokens(s); Offset(tokens, i + 1) < Offset(tokens, j)
    ensures SeparatesAll(s, Offset(Tokens(s), i + 1), Offset(Tokens(s), j))
  {
    hide Tokens, At, Offset;
    var tokens := Tokens(s);
    TokenBytes(s, j);
    forall x | Offset(tokens, i + 1) <= x < Offset(tokens, j) ensures Separates(s, x) {
      var m := TokenOf(s, x);
      TokenCount(s, x, m, j);
      OffsetsCompare(tokens, j, m);
      if m <= i {
        OffsetsGrow(tokens, m + 1, i + 1);
      }
      TokenBytes(s, m);
    }
  }

  lemma TokenCount(s: Bytes, x: nat, m: nat, j: nat)
    requires j < |Tokens(s)| && m <= |Tokens(s)| && x < Offset(Tokens(s), j)
    requires m < |Tokens(s)| ==> Offset(Tokens(s), m) <= x < Offset(Tokens(s), m + 1)
    requires m == |Tokens(s)| ==> Offset(Tokens(s), m) <= x
    ensures m < j
  {
    hide Tokens, Offset;
    if m >= j {
      OffsetsGrow(Tokens(s), j, m);
    }
  }

  /** Bytes that separate belong to blank tokens. */
  lemma SeparatingIsBlank(s: Bytes, i: nat, j: nat)
    requires i < j < |Tokens(s)|
    requires var tokens := Tokens(s); SeparatesAll(s, Offset(tokens, i + 1), Offset(tokens, j))
    ensures AllBlank(Tokens(s), i + 1, j)
  {
    hide Tokens, At, Offset;
    var tokens := Tokens(s);
    forall m: nat | i + 1 <= m < j ensures tokens[m].kind == Blank {
      TokenBytes(s, m);
      OffsetsGrow(tokens, i + 1, m);
      OffsetsGrow(tokens, m + 1, j);
      assert Separates(s, Offset(tokens, m));
    }
  }

  lemma NextAfterRun(s: Bytes, i: nat, j: nat)
    requires i < j < |Tokens(s)|
    requires IsToken(s, Offset(Tokens(s), i), Offset(Tokens(s), i + 1))
    requires IsToken(s, Offset(Tokens(s), j), Offset(Tokens(s), j + 1))
    ensures Offset(Tokens(s), i + 1) < Offset(Tokens(s), j)
  {
    hide Tokens, At, Offset;
    OffsetsGrow(Tokens(s), i + 1, j);
    assert Regular(s[Offset(Tokens(s), j)]);
  }

  /** Three tokens form `N G R` exactly when their bytes are a written reference. */
  lemma RefersExactly(s: Bytes, t: Triple)
    requires t.object_ < t.generation < t.keyword < |Tokens(s)|
    ensures Refers(Tokens(s), t) <==> TripleWritten(s, t)
  {
    hide Tokens, At, Offset, TripleWritten, AllBlank;
    if Refers(Tokens(s), t) {
      RefersIsWritten(s, t);
    }
    if TripleWritten(s, t) {
      WrittenIsRefers(s, t);
    }
  }

  /** The bytes of three tokens are a written reference. */
  ghost predicate TripleWritten(s: Bytes, t: Triple)
    requires t.object_ < |Tokens(s)| && t.generation < |Tokens(s)| && t.keyword < |Tokens(s)|
  {
    var tokens := Tokens(s);
    WrittenReference(s, Offset(tokens, t.object_), Offset(tokens, t.object_ + 1), Offset(tokens, t.generation),
                     Offset(tokens, t.generation + 1), Offset(tokens, t.keyword))
    && Offset(tokens, t.keyword + 1) == Offset(tokens, t.keyword) + 1
  }

  lemma RefersIsWritten(s: Bytes, t: Triple)
    requires Refers(Tokens(s), t)
    ensures TripleWritten(s, t)
  {
    hide Tokens, At, Offset, SeparatesAll, NumberAlone, AllBlank, IsToken;
    TokenKind(s, t.keyword);
    IntegerIsNumberAlone(s, t.object_);
    IntegerIsNumberAlone(s, t.generation);
    BeforeToken(s, t.keyword);
    AloneIsToken(s, t);
    NextAfterRun(s, t.object_, t.generation);
    NextAfterRun(s, t.generation, t.keyword);
    BlanksSeparate(s, t.object_, t.generation);
    BlanksSeparate(s, t.generation, t.keyword);
  }

  lemma AloneIsToken(s: Bytes, t: Triple)
    requires Refers(Tokens(s), t)
    ensures IsToken(s, Offset(Tokens(s), t.object_), Offset(Tokens(s), t.object_ + 1))
    ensures IsToken(s, Offset(Tokens(s), t.generation), Offset(Tokens(s), t.generation + 1))
  {
    hide Tokens, At, Offset, IsToken;
    TokenKind(s, t.object_);
    TokenKind(s, t.generation);
  }

  lemma WrittenIsRefers(s: Bytes, t: Triple)
    requires t.object_ < t.generation < t.keyword < |Tokens(s)| && TripleWritten(s, t)
    ensures Refers(Tokens(s), t)
  {
    hide Tokens, At, Offset, SeparatesAll, AllBlank, StartsToken;
    TokenKind(s, t.object_);
    TokenKind(s, t.generation);
    TokenKind(s, t.keyword);
    SeparatingIsBlank(s, t.object_, t.generation);
    SeparatingIsBlank(s, t.generation, t.keyword);
  }

  /** A written reference is made of three tokens. */
  lemma WrittenTokens(s: Bytes, a: nat, b: nat, c: nat, d: nat, k: nat) returns (t: Triple)
    requires WrittenReference(s, a, b, c, d, k)
    ensures var tokens := Tokens(s);
      t.object_ < t.generation < t.keyword < |tokens| && Refers(tokens, t)
      && Offset(tokens, t.object_) == a && Offset(tokens, t.object_ + 1) == b && Offset(tokens, t.generation) == c
      && Offset(tokens, t.generation + 1) == d && Offset(tokens, t.keyword) == k
      && Offset(tokens, t.keyword + 1) == k + 1
  {
    hide Tokens, At, Offset, Separates;
    var x := RunIsToken(s, a, b);
    var y := RunIsToken(s, c, d);
    var z := RunIsToken(s, k, k + 1);
    t := Triple(x, y, z);
    var tokens := Tokens(s);
    if y <= x {
      OffsetsGrow(tokens, y, x);
    }
    if z <= y {
      OffsetsGrow(tokens, z, y);
    }
    RefersExactly(s, t);
  }

  // ---- The report ----------------------------------------------------------

  ghost predicate NumberOf(buffer: Bytes, range: ByteRange, value: nat) {
    range.start <= range.end <= |buffer| && IsDigits(buffer[range.start..range.end])
    && Decimal(buffer[range.start..range.end]) == value
  }

  /** The ranges address a reference written in the span whose two numbers fit their fields and are these. */
  ghost predicate WrittenAs(buffer: Bytes, span: ByteRange, r: TokenRanges, reference: IndirectRef) {
    RangesOfWritten(buffer, span, r)
    && NumberOf(buffer, r.objectNumber, reference.objectNumber) && reference.objectNumber < 0x1_0000_0000
    && NumberOf(buffer, r.generation, reference.generation) && reference.generation < 0x1_0000
  }

  lemma TripleIsWritten(buffer: Bytes, span: ByteRange, t: Triple)
    requires t.object_ < t.generation < t.keyword < |Tokens(Spanned(buffer, span))|
    requires Refers(Tokens(Spanned(buffer, span)), t)
    ensures var tokens, base := Tokens(Spanned(buffer, span)), SpanStart(buffer, span);
      RangesOfWritten(buffer, span, TokenRanges(TokenRange(tokens, base, t.object_),
                                                TokenRange(tokens, base, t.generation),
                                                TokenRange(tokens, base, t.keyword)))
  {
    hide Tokens, Offset, Spanned, SpanStart, WrittenReference;
    RefersExactly(Spanned(buffer, span), t);
  }

  /**
   * Everything reported is written so: two numbers and a bare `R`, all of their bytes outside comments, names,
   * literal and hexadecimal strings, with nothing but blanks and comments between.
   */
  lemma ReportedAreWritten(buffer: Bytes, span: ByteRange, i: nat)
    requires i < |Report(buffer, span).references|
    ensures |Report(buffer, span).ranges| == |Report(buffer, span).references|
    ensures WrittenAs(buffer, span, Report(buffer, span).ranges[i], Report(buffer, span).references[i])
  {
    hide Tokens, Offset, Reading, TokenRange, FindingsBefore, Report, Spanned, SpanStart, RangesOfWritten, IsDigits;
    var t := ReportEntry(buffer, span, i);
    TripleIsWritten(buffer, span, t);
    RangesDecode(buffer, span, i);
  }

  /** And everything written so is reported, unless 65536 references were reported before the scan stopped. */
  lemma WrittenAreReported(buffer: Bytes, span: ByteRange, r: TokenRanges, reference: IndirectRef)
    requires WrittenAs(buffer, span, r, reference)
    ensures var report := Report(buffer, span);
      (exists i :: 0 <= i < |report.references| && i < |report.ranges| && report.ranges[i] == r
                   && report.references[i] == reference)
      || (report.truncated && |report.references| == 65_536)
  {
    hide Tokens, Offset, Spanned, SpanStart, SpanEnd, FindingsBefore, RangesOfWritten, AllBlank, Decimal;
    var tokens := Tokens(Spanned(buffer, span));
    var t := TripleOfWritten(buffer, span, r);
    TokenSlice(buffer, span, t.object_);
    TokenSlice(buffer, span, t.generation);
    ReadsWritten(tokens, t, reference);
    EveryReferenceIsFound(tokens, |tokens|, t);
    var found := FindingsBefore(tokens, |tokens|).found;
    if t in found {
      var i :| 0 <= i < |found| && found[i] == t;
      assert Report(buffer, span).ranges[i] == r;
      assert Report(buffer, span).references[i] == reference;
    }
  }

  lemma ReadsWritten(tokens: seq<Token>, t: Triple, reference: IndirectRef)
    requires t.object_ < |tokens| && t.generation < |tokens|
    requires IsDigits(tokens[t.object_].text) && Decimal(tokens[t.object_].text) == reference.objectNumber
    requires IsDigits(tokens[t.generation].text) && Decimal(tokens[t.generation].text) == reference.generation
    requires reference.objectNumber < U32_COUNT && reference.generation < U16_COUNT
    ensures Reading(tokens, t.object_, t.generation) == Ok(reference)
  {
  }

  // ---- Skips ---------------------------------------------------------------

  /** The triples behind the skips, in source order: every reference whose numbers do not fit, up to truncation. */
  lemma {:induction false} SkippedTriples(tokens: seq<Token>, n: nat) returns (found: seq<Triple>)
    requires n <= |tokens|
    ensures |found| == |FindingsBefore(tokens, n).skipped| && InSourceOrder(tokens, found)
    ensures forall i | 0 <= i < |found| ::
      found[i].keyword < n
      && Reading(tokens, found[i].object_, found[i].generation) == Err(FindingsBefore(tokens, n).skipped[i])
    ensures forall t: Triple | Refers(tokens, t) && t.keyword < n && Reading(tokens, t.object_, t.generation).Err? ::
      t in found || FindingsBefore(tokens, n).truncated
    decreases n
  {
    hide Reading;
    found := [];
    if n > 0 {
      var before := SkippedTriples(tokens, n - 1);
      found := before;
      match Window(tokens, n - 1) {
        case (Some(a), Some(b)) =>
          if tokens[n - 1].kind == Keyword {
            WindowExactly(tokens, n - 1, a, b);
            if Reading(tokens, a, b).Err? && !FindingsBefore(tokens, n - 1).truncated {
              OneMore(tokens, before, Triple(a, b, n - 1));
              found := before + [Triple(a, b, n - 1)];
            }
          }
        case _ =>
      }
      forall t: Triple | Refers(tokens, t) && t.keyword == n - 1 && Reading(tokens, t.object_, t.generation).Err?
        ensures t in found || FindingsBefore(tokens, n).truncated
      {
        WindowExactly(tokens, n - 1, t.object_, t.generation);
      }
    }
  }

  /** A written number does not fit its field; the object number is looked at first. */
  ghost predicate Oversized(buffer: Bytes, r: TokenRanges, reason: SkippedReference) {
    exists number, generation ::
      NumberOf(buffer, r.objectNumber, number) && NumberOf(buffer, r.generation, generation)
      && if number >= 0x1_0000_0000 then reason == ObjectNumberOutOfRange
         else generation >= 0x1_0000 && reason == GenerationOutOfRange
  }

  lemma TripleIsOversized(buffer: Bytes, span: ByteRange, t: Triple, reason: SkippedReference)
    requires var tokens := Tokens(Spanned(buffer, span));
      t.object_ < t.generation < t.keyword < |tokens| && Refers(tokens, t)
    ensures var tokens, base := Tokens(Spanned(buffer, span)), SpanStart(buffer, span);
      Reading(tokens, t.object_, t.generation) == Err(reason)
      <==> Oversized(buffer, RangesOfTriple(tokens, base, t), reason)
  {
    hide Tokens, Offset, Spanned, SpanStart, SpanEnd, AllBlank, Decimal;
    var s := Spanned(buffer, span);
    var tokens, base := Tokens(s), SpanStart(buffer, span);
    TokenSlice(buffer, span, t.object_);
    TokenSlice(buffer, span, t.generation);
    IntegerTexts(s, t.object_);
    IntegerTexts(s, t.generation);
    var r := RangesOfTriple(tokens, base, t);
    assert NumberOf(buffer, r.objectNumber, Decimal(tokens[t.object_].text));
    assert NumberOf(buffer, r.generation, Decimal(tokens[t.generation].text));
  }

  ghost function RangesOfTriple(tokens: seq<Token>, base: nat, t: Triple): TokenRanges
    requires t.object_ < |tokens| && t.generation < |tokens| && t.keyword < |tokens|
  {
    TokenRanges(TokenRange(tokens, base, t.object_), TokenRange(tokens, base, t.generation),
                TokenRange(tokens, base, t.keyword))
  }

  /**
   * The skips, exactly and in source order: one for every written reference with a number that does not fit,
   * with its reason, up to the point where the scan stops.
   */
  lemma SkippedAreOversized(buffer: Bytes, span: ByteRange) returns (skipped: seq<TokenRanges>)
    ensures |skipped| == |Report(buffer, span).skipped|
    ensures forall i | 0 <= i < |skipped| ::
      RangesOfWritten(buffer, span, skipped[i]) && Oversized(buffer, skipped[i], Report(buffer, span).skipped[i])
    ensures forall i, j | 0 <= i < j < |skipped| :: Follows(skipped[i], skipped[j])
    ensures forall r, reason | RangesOfWritten(buffer, span, r) && Oversized(buffer, r, reason) ::
      r in skipped || Report(buffer, span).truncated
  {
    hide Tokens, Offset, Reading, TokenRange, FindingsBefore, Spanned, SpanStart, RangesOfWritten, Oversized, AllBlank;
    var tokens, base := Tokens(Spanned(buffer, span)), SpanStart(buffer, span);
    var found := SkippedTriples(tokens, |tokens|);
    skipped := seq(|found|, i requires 0 <= i < |found| => RangesOfTriple(tokens, base, found[i]));
    forall i | 0 <= i < |found|
      ensures RangesOfWritten(buffer, span, skipped[i])
        && Oversized(buffer, skipped[i], Report(buffer, span).skipped[i])
    {
      TripleIsWritten(buffer, span, found[i]);
      TripleIsOversized(buffer, span, found[i], Report(buffer, span).skipped[i]);
    }
    forall i, j | 0 <= i < j < |skipped| ensures Follows(skipped[i], skipped[j]) {
      TokensInOrder(tokens, base, found[i].keyword, found[j].object_);
    }
    forall r, reason | RangesOfWritten(buffer, span, r) && Oversized(buffer, r, reason)
      ensures r in skipped || Report(buffer, span).truncated
    {
      var t := TripleOfWritten(buffer, span, r);
      TripleIsOversized(buffer, span, t, reason);
      if t in found {
        var i :| 0 <= i < |found| && found[i] == t;
        assert skipped[i] == r;
      }
    }
  }

  lemma TripleOfWritten(buffer: Bytes, span: ByteRange, r: TokenRanges) returns (t: Triple)
    requires RangesOfWritten(buffer, span, r)
    ensures var tokens := Tokens(Spanned(buffer, span));
      t.object_ < t.generation < t.keyword < |tokens| && Refers(tokens, t)
      && RangesOfTriple(tokens, SpanStart(buffer, span), t) == r
  {
    hide Tokens, Offset, Spanned, SpanStart, WrittenReference, AllBlank;
    var base := SpanStart(buffer, span);
    t := WrittenTokens(Spanned(buffer, span), r.objectNumber.start - base, r.objectNumber.end - base,
                       r.generation.start - base, r.generation.end - base, r.keyword.start - base);
  }
}
