/** Where an extent closes, when there is none, and why nested scans agree with the outer one. */
module ExtentProperties {
  import opened Basics
  import opened Lexing
  import opened Extents

  /** Lexemes after the bracket at `open`. */
  function Inside(b: Bracket, input: Bytes, open: nat): seq<Lexeme> {
    Lexemes(b, input, open + b.Width())
  }

  /** Lexeme `n` closes the extent: depth is zero after it for the first time, never having passed the bound. */
  ghost predicate FirstReturn(lexemes: seq<Lexeme>, n: nat) {
    n < |lexemes| && Depth(lexemes, n + 1) == 0 && forall j | 0 <= j <= n :: DepthOk(lexemes, j)
  }

  /** Lexeme `n` opens a bracket too many before the extent has closed. */
  ghost predicate FirstOverflow(lexemes: seq<Lexeme>, n: nat) {
    n < |lexemes| && lexemes[n].nesting == Opening && Depth(lexemes, n) == MAX_NESTING_DEPTH
    && forall j | 0 <= j <= n :: DepthOk(lexemes, j)
  }

  ghost predicate NeverLeaves(lexemes: seq<Lexeme>) {
    forall j | 0 <= j <= |lexemes| :: DepthOk(lexemes, j)
  }

  /** Some depth among the first is exactly `depth`. */
  ghost predicate Attained(lexemes: seq<Lexeme>, n: nat, depth: nat) {
    exists j: nat :: j <= n && j <= |lexemes| && Depth(lexemes, j) == depth
  }

  lemma DepthMovesByOne(lexemes: seq<Lexeme>, n: nat)
    requires n < |lexemes|
    ensures Depth(lexemes, n) - 1 <= Depth(lexemes, n + 1) <= Depth(lexemes, n) + 1
    ensures Depth(lexemes, n + 1) > Depth(lexemes, n) <==> lexemes[n].nesting == Opening
  {
  }

  lemma DepthFromOne(lexemes: seq<Lexeme>)
    ensures Depth(lexemes, 0) == 1
  {
  }

  /** The stop is a first return, a first overflow, or the end, and there is only one of these. */
  lemma {:induction false} StopExactly(lexemes: seq<Lexeme>, n: nat)
    ensures FirstReturn(lexemes, n) <==> n < |lexemes| && Stop(lexemes, 0) == n && Depth(lexemes, n + 1) == 0
    ensures FirstOverflow(lexemes, n)
      <==> n < |lexemes| && Stop(lexemes, 0) == n && Depth(lexemes, n + 1) > MAX_NESTING_DEPTH
    ensures NeverLeaves(lexemes) <==> Stop(lexemes, 0) == |lexemes|
  {
    hide Stop;
    assert Depth(lexemes, 0) == 1;
    var stop := Stop(lexemes, 0);
    assert forall j | 0 <= j <= stop :: DepthOk(lexemes, j);
    if n < |lexemes| {
      DepthMovesByOne(lexemes, n);
      assert n <= stop ==> n == 0 || DepthOk(lexemes, n);
      assert n < stop ==> DepthOk(lexemes, n + 1);
      assert stop < n ==> !DepthOk(lexemes, stop + 1);
    }
    if stop < |lexemes| {
      assert !DepthOk(lexemes, stop + 1);
    }
  }

  /**
   * The extent found, in full: its close is the lexeme at which depth first returns to zero, and the
   * reported depth is attained and never exceeded.
   */
  lemma ClosesAtFirstReturn(b: Bracket, input: Bytes, byteOffset: nat, open: nat, n: nat)
    requires FirstReturn(Inside(b, input, open), n)
    ensures OutcomeAt(b, input, byteOffset, open).Ok?
    ensures var lexemes, e := Inside(b, input, open), OutcomeAt(b, input, byteOffset, open).value;
      e.byteOffset == byteOffset && e.open == open && e.close == lexemes[n].start && e.afterClose == lexemes[n].end
      && e.maxObservedDepth <= MAX_NESTING_DEPTH
      && (forall j | 0 <= j <= n :: Depth(lexemes, j) <= e.maxObservedDepth)
      && Attained(lexemes, n, e.maxObservedDepth)
  {
    hide Lexemes, EndsInString;
    var lexemes := Inside(b, input, open);
    StopExactly(lexemes, n);
    var j :| 0 <= j <= n && Depth(lexemes, j) == MaxDepth(lexemes, n);
    assert DepthOk(lexemes, j);
  }

  /** Every outcome of the scan, exactly. */
  lemma OutcomeExactly(b: Bracket, input: Bytes, byteOffset: nat, open: nat)
    ensures var outcome, lexemes := OutcomeAt(b, input, byteOffset, open), Inside(b, input, open);
      (outcome.Ok? <==> exists n: nat :: FirstReturn(lexemes, n))
      && (outcome == Err(MaxNestingExceeded) <==> exists n: nat :: FirstOverflow(lexemes, n))
      && (outcome == Err(UnterminatedString) <==> NeverLeaves(lexemes) && EndsInString(b, input, open + b.Width()))
      && (outcome == Err(Unterminated) <==> NeverLeaves(lexemes) && !EndsInString(b, input, open + b.Width()))
  {
    hide Lexemes, EndsInString, MaxDepth, Stop, Depth;
    var lexemes := Inside(b, input, open);
    DepthFromOne(lexemes);
    var stop := Stop(lexemes, 0);
    StopExactly(lexemes, stop);
    if stop < |lexemes| {
      DepthMovesByOne(lexemes, stop);
      assert stop == 0 || DepthOk(lexemes, stop);
    }
    forall n: nat
      ensures FirstReturn(lexemes, n) ==> n == stop && Depth(lexemes, n + 1) == 0
      ensures FirstOverflow(lexemes, n) ==> n == stop && Depth(lexemes, n + 1) > MAX_NESTING_DEPTH
    {
      StopExactly(lexemes, n);
    }
  }

  // ---- Nested scans --------------------------------------------------------

  /** Scanning from the end of a lexeme sees the lexemes that remain. */
  lemma {:induction false} LexemesResume(b: Bracket, input: Bytes, from: nat, n: nat)
    requires n < |Lexemes(b, input, from)|
    ensures var lexemes := Lexemes(b, input, from);
      lexemes[n].start < |input| && Lexemes(b, input, lexemes[n].end) == lexemes[n + 1..]
      && Lex(b, input[lexemes[n].start..]) == Some((lexemes[n].nesting, lexemes[n].end - lexemes[n].start))
      && (n > 0 ==> lexemes[n].start == lexemes[n - 1].end)
    decreases n
  {
    hide Lex, Lexemes;
    var lexemes := Lexemes(b, input, from);
    LexemesUnfold(b, input, from);
    if n > 0 {
      LexemesResume(b, input, from, n - 1);
      LexemesUnfold(b, input, lexemes[n - 1].end);
      assert lexemes[n..][1..] == lexemes[n + 1..];
    }
  }

  lemma LexemesUnfold(b: Bracket, input: Bytes, from: nat)
    requires Lexemes(b, input, from) != []
    ensures from < |input| && Lex(b, input[from..]).Some?
    ensures var (nesting, k) := Lex(b, input[from..]).value;
      Lexemes(b, input, from)[0] == Lexeme(nesting, from, from + k)
      && Lexemes(b, input, from)[1..] == Lexemes(b, input, from + k)
  {
    hide Lex;
  }

  /** Depth counted from an inner bracket is outer depth less what was open around it. */
  lemma {:induction false} InnerDepth(lexemes: seq<Lexeme>, n: nat, j: nat)
    requires n + 1 + j <= |lexemes| && lexemes[n].nesting == Opening
    ensures Depth(lexemes[n + 1..], j) == Depth(lexemes, n + 1 + j) - Depth(lexemes, n)
    decreases j
  {
    if j == 0 {
      assert Depth(lexemes[n + 1..], 0) == 1;
    } else {
      InnerDepth(lexemes, n, j - 1);
      assert lexemes[n + 1..][j - 1] == lexemes[n + j];
    }
  }

  /** A count that moves by one and ends below `level` passes through it: the first place it does. */
  lemma {:induction false} FirstBelow(lexemes: seq<Lexeme>, lo: nat, hi: nat, level: int) returns (m: nat)
    requires lo < hi <= |lexemes| && Depth(lexemes, lo) > level >= Depth(lexemes, hi)
    ensures lo <= m < hi && Depth(lexemes, m + 1) == level
    ensures forall j | lo <= j <= m :: Depth(lexemes, j) > level
    decreases hi - lo
  {
    DepthMovesByOne(lexemes, lo);
    if Depth(lexemes, lo + 1) == level {
      m := lo;
    } else {
      m := FirstBelow(lexemes, lo + 1, hi, level);
    }
  }

  /** An opening lexeme is an opening bracket to a fresh scan. */
  lemma OpeningOpens(b: Bracket, input: Bytes, at: nat, end: nat)
    requires at < |input| && Lex(b, input[at..]) == Some((Opening, end - at))
    ensures OpensAt(b, input, at) && end == at + b.Width() && SkipWhitespace(input[at..]) == 0
  {
  }

  /**
   * Lockstep: scanning afresh at any bracket the outer scan counted succeeds, closes strictly inside the
   * outer extent, and sees correspondingly less depth.
   */
  lemma NestedScanSucceeds(b: Bracket, input: Bytes, byteOffset: nat, n: nat)
    requires ExtentOf(b, input, byteOffset).Ok?
    requires var outer := ExtentOf(b, input, byteOffset).value;
      var lexemes := Inside(b, input, outer.open);
      n < |lexemes| && lexemes[n].nesting == Opening && lexemes[n].start < outer.close
    ensures var outer := ExtentOf(b, input, byteOffset).value;
      var at := Inside(b, input, outer.open)[n].start;
      ExtentOf(b, input, at).Ok?
      && var inner := ExtentOf(b, input, at).value;
         inner.open == at && outer.open < inner.open < inner.close < inner.afterClose <= outer.close
         && inner.maxObservedDepth < outer.maxObservedDepth
  {
    hide Lexemes, Lex, OutcomeAt, ExtentOf, Depth, Attained;
    var outer := ExtentOf(b, input, byteOffset).value;
    OutcomeFromOpen(b, input, byteOffset);
    var lexemes, from := Inside(b, input, outer.open), outer.open + b.Width();
    OutcomeExactly(b, input, byteOffset, outer.open);
    var last: nat :| FirstReturn(lexemes, last);
    ClosesAtFirstReturn(b, input, byteOffset, outer.open, last);
    LaidOutInOrder(b, input, from, n, last);
    var m := InnerReturns(lexemes, n, last);
    LexemesResume(b, input, from, n);
    var at := lexemes[n].start;
    OpeningOpens(b, input, at, lexemes[n].end);
    OutcomeFromBracket(b, input, at);
    ClosesAtFirstReturn(b, input, at, at, m - n - 1);
    LaidOut(b, input, from, n, m);
    LaidOut(b, input, from, m, last);
    assert lexemes[n + 1..][m - n - 1] == lexemes[m];
    InnerIsShallower(lexemes, n, m, last, OutcomeAt(b, input, at, at).value.maxObservedDepth, outer.maxObservedDepth);
  }

  lemma OutcomeFromOpen(b: Bracket, input: Bytes, byteOffset: nat)
    requires ExtentOf(b, input, byteOffset).Ok?
    ensures var e := ExtentOf(b, input, byteOffset).value;
      e.open < |input| && OpensAt(b, input, e.open)
      && ExtentOf(b, input, byteOffset) == OutcomeAt(b, input, byteOffset, e.open)
  {
    hide Lexemes, Stop, Depth, MaxDepth, EndsInString;
  }

  lemma OutcomeFromBracket(b: Bracket, input: Bytes, at: nat)
    requires at < |input| && OpensAt(b, input, at) && SkipWhitespace(input[at..]) == 0
    ensures ExtentOf(b, input, at) == OutcomeAt(b, input, at, at)
  {
    hide OutcomeAt;
  }

  lemma InnerIsShallower(lexemes: seq<Lexeme>, n: nat, m: nat, last: nat, inner: nat, outer: nat)
    requires n < m <= last < |lexemes| && lexemes[n].nesting == Opening && DepthOk(lexemes, n)
    requires forall j | 0 <= j <= last :: Depth(lexemes, j) <= outer
    requires Attained(lexemes[n + 1..], m - n - 1, inner)
    ensures inner < outer
  {
    var j: nat :| j <= m - n - 1 && j <= |lexemes[n + 1..]| && Depth(lexemes[n + 1..], j) == inner;
    InnerDepth(lexemes, n, j);
    assert Depth(lexemes, n + 1 + j) <= outer;
  }

  /** A bracket opened before the outer return has its own, earlier return. */
  lemma InnerReturns(lexemes: seq<Lexeme>, n: nat, last: nat) returns (m: nat)
    requires FirstReturn(lexemes, last) && n < last && lexemes[n].nesting == Opening
    ensures n < m < last && FirstReturn(lexemes[n + 1..], m - n - 1)
  {
    assert DepthOk(lexemes, n);
    DepthMovesByOne(lexemes, n);
    m := FirstBelow(lexemes, n + 1, last + 1, Depth(lexemes, n));
    InnerDepth(lexemes, n, m - n);
    var inner := lexemes[n + 1..];
    forall j: nat | j <= m - n - 1 ensures DepthOk(inner, j) {
      InnerDepth(lexemes, n, j);
      assert DepthOk(lexemes, n) && DepthOk(lexemes, n + 1 + j);
    }
  }

  /** Lexemes are laid out in order, without overlap. */
  lemma {:induction false} LaidOut(b: Bracket, input: Bytes, from: nat, i: nat, j: nat)
    requires i < j < |Lexemes(b, input, from)|
    ensures Lexemes(b, input, from)[i].end <= Lexemes(b, input, from)[j].start
    decreases j
  {
    hide Lex, Lexemes;
    LexemesResume(b, input, from, j);
    if i < j - 1 {
      LaidOut(b, input, from, i, j - 1);
    }
  }

  lemma LaidOutInOrder(b: Bracket, input: Bytes, from: nat, i: nat, j: nat)
    requires i < |Lexemes(b, input, from)| && j < |Lexemes(b, input, from)|
    ensures Lexemes(b, input, from)[i].start < Lexemes(b, input, from)[j].start ==> i < j
  {
    hide Lex, Lexemes;
    if j < i {
      LaidOut(b, input, from, j, i);
    }
  }

  // ---- Scanning only part of the buffer ------------------------------------

  /** A lexeme that ends within the first `close` bytes is seen by a scan of those bytes alone. */
  lemma LexInPrefix(b: Bracket, s: Bytes, close: nat)
    requires 0 < close <= |s| && Lex(b, s).Some? && Lex(b, s).value.1 <= close
    ensures Lex(b, s[..close]) == Lex(b, s)
  {
    var n, t := Lex(b, s).value.1, s[..close];
    assert forall i | 0 <= i < close :: t[i] == s[i];
    var c := s[0];
    if c == '%' {
      RunIs(t, IsInLine, n);
    } else if c == '(' {
      assert t[1..][..n - 1] == s[1..][..n - 1];
      StringBodyIsLocal(s[1..], t[1..], 1);
    } else if c == '<' && !(|s| > 1 && s[1] == '<') {
      assert t[1..][..n - 1] == s[1..][..n - 1];
      HexBodyIsLocal(s[1..], t[1..]);
    }
  }

  /** Conversely, a lexeme of the prefix is one of the whole when it closes a bracket or more prefix follows it. */
  lemma LexBeyondPrefix(b: Bracket, s: Bytes, close: nat)
    requires 0 < close <= |s| && Lex(b, s[..close]).Some?
    requires Lex(b, s[..close]).value.0 == Closing || Lex(b, s[..close]).value.1 < close
    ensures Lex(b, s) == Lex(b, s[..close])
  {
    var t := s[..close];
    var n := Lex(b, t).value.1;
    assert forall i | 0 <= i < close :: t[i] == s[i];
    var c := s[0];
    if c == '%' {
      RunIs(s, IsInLine, n);
    } else if c == '(' {
      assert s[1..][..n - 1] == t[1..][..n - 1];
      StringBodyIsLocal(t[1..], s[1..], 1);
    } else if c == '<' && !(|t| > 1 && t[1] == '<') {
      assert s[1..][..n - 1] == t[1..][..n - 1];
      HexBodyIsLocal(t[1..], s[1..]);
    }
  }

  lemma LexAt(b: Bracket, input: Bytes, close: nat, at: nat)
    requires at < close <= |input|
    ensures Lex(b, input[at..]).Some? && at + Lex(b, input[at..]).value.1 <= close ==>
      Lex(b, input[..close][at..]) == Lex(b, input[at..])
    ensures var lexeme := Lex(b, input[..close][at..]);
      lexeme.Some? && (lexeme.value.0 == Closing || at + lexeme.value.1 < close) ==> Lex(b, input[at..]) == lexeme
  {
    hide Lex;
    var s := input[at..];
    assert input[..close][at..] == s[..close - at];
    if Lex(b, s).Some? && at + Lex(b, s).value.1 <= close {
      LexInPrefix(b, s, close - at);
    }
    var lexeme := Lex(b, s[..close - at]);
    if lexeme.Some? && (lexeme.value.0 == Closing || at + lexeme.value.1 < close) {
      LexBeyondPrefix(b, s, close - at);
    }
  }

  /** Lockstep forwards: the whole scan's lexemes up to one that ends in the prefix are the prefix scan's. */
  lemma {:induction false} PrefixSeesSame(b: Bracket, input: Bytes, close: nat, from: nat, n: nat)
    requires close <= |input| && n < |Lexemes(b, input, from)| && Lexemes(b, input, from)[n].end <= close
    ensures var part := Lexemes(b, input[..close], from);
      n < |part| && part[..n + 1] == Lexemes(b, input, from)[..n + 1]
    decreases n
  {
    hide Lex, Lexemes;
    var whole, part := Lexemes(b, input, from), Lexemes(b, input[..close], from);
    LexemesUnfold(b, input, from);
    var k := Lex(b, input[from..]).value.1;
    if n > 0 {
      LaidOut(b, input, from, 0, n);
    }
    LexAt(b, input, close, from);
    OneLexeme(b, input[..close], from, whole[0].nesting, k);
    if n > 0 {
      PrefixSeesSame(b, input, close, from + k, n - 1);
      SameFront(part, whole, n);
    } else {
      assert part[..1] == [part[0]] && whole[..1] == [whole[0]];
    }
  }

  lemma SameFront(a: seq<Lexeme>, b: seq<Lexeme>, n: nat)
    requires 0 < n && 0 < |a| && 0 < |b| && a[0] == b[0] && n <= |a[1..]| && n <= |b[1..]| && a[1..][..n] == b[1..][..n]
    ensures a[..n + 1] == b[..n + 1]
  {
    assert a[..n + 1] == [a[0]] + a[1..][..n] && b[..n + 1] == [b[0]] + b[1..][..n];
  }

  /** Lockstep backwards: the prefix scan's lexemes up to a closing one are the whole scan's. */
  lemma {:induction false} WholeSeesSame(b: Bracket, input: Bytes, close: nat, from: nat, n: nat)
    requires close <= |input| && n < |Lexemes(b, input[..close], from)|
      && Lexemes(b, input[..close], from)[n].nesting == Closing
    ensures var whole := Lexemes(b, input, from);
      n < |whole| && whole[..n + 1] == Lexemes(b, input[..close], from)[..n + 1]
    decreases n
  {
    hide Lex, Lexemes;
    var whole, part := Lexemes(b, input, from), Lexemes(b, input[..close], from);
    LexemesUnfold(b, input[..close], from);
    var k := Lex(b, input[..close][from..]).value.1;
    if n > 0 {
      LaidOut(b, input[..close], from, 0, n);
      LexemesResume(b, input[..close], from, n);
    }
    LexAt(b, input, close, from);
    OneLexeme(b, input, from, part[0].nesting, k);
    if n > 0 {
      WholeSeesSame(b, input, close, from + k, n - 1);
      SameFront(whole, part, n);
    } else {
      assert part[..1] == [part[0]] && whole[..1] == [whole[0]];
    }
  }

  lemma {:induction false} DepthAgrees(a: seq<Lexeme>, b: seq<Lexeme>, n: nat, j: nat)
    requires j <= n <= |a| && n <= |b| && a[..n] == b[..n]
    ensures Depth(a, j) == Depth(b, j) && MaxDepth(a, j) == MaxDepth(b, j)
    decreases j
  {
    if j > 0 {
      assert a[j - 1] == a[..n][j - 1] == b[..n][j - 1] == b[j - 1];
      DepthAgrees(a, b, n, j - 1);
    }
  }

  lemma ReturnAgrees(a: seq<Lexeme>, b: seq<Lexeme>, n: nat)
    requires n < |a| && n < |b| && a[..n + 1] == b[..n + 1]
    ensures FirstReturn(a, n) <==> FirstReturn(b, n)
    ensures a[n] == b[n] && MaxDepth(a, n) == MaxDepth(b, n)
  {
    forall j: nat | j <= n + 1 ensures Depth(a, j) == Depth(b, j) {
      DepthAgrees(a, b, n + 1, j);
    }
    DepthAgrees(a, b, n + 1, n);
    assert forall j: nat | j <= n :: DepthOk(a, j) <==> DepthOk(b, j);
    assert a[n] == a[..n + 1][n] == b[..n + 1][n] == b[n];
  }

  lemma ReturnDecides(b: Bracket, input: Bytes, byteOffset: nat, open: nat, n: nat)
    requires FirstReturn(Inside(b, input, open), n)
    ensures var lexemes := Inside(b, input, open);
      OutcomeAt(b, input, byteOffset, open)
      == Ok(Extent(byteOffset, open, lexemes[n].start, lexemes[n].end, MaxDepth(lexemes, n)))
  {
    hide Lexemes, Depth, MaxDepth, Stop;
    StopExactly(Inside(b, input, open), n);
  }

  lemma ReturnIsClosing(lexemes: seq<Lexeme>, n: nat)
    requires FirstReturn(lexemes, n)
    ensures lexemes[n].nesting == Closing
  {
    assert DepthOk(lexemes, n);
  }

  /** From one bracket, the scan of the prefix succeeds exactly when the whole scan closes within the prefix. */
  lemma OutcomeInPrefix(b: Bracket, input: Bytes, byteOffset: nat, open: nat, close: nat)
    requires close <= |input|
    ensures var whole, part := OutcomeAt(b, input, byteOffset, open), OutcomeAt(b, input[..close], byteOffset, open);
      part.Ok? <==> whole.Ok? && whole.value.afterClose <= close
    ensures var whole, part := OutcomeAt(b, input, byteOffset, open), OutcomeAt(b, input[..close], byteOffset, open);
      part.Ok? ==> part == whole
  {
    hide Lexemes, FirstReturn, OutcomeAt, EndsInString, MaxDepth, NeverLeaves, FirstOverflow;
    var whole, part := Inside(b, input, open), Inside(b, input[..close], open);
    OutcomeExactly(b, input, byteOffset, open);
    OutcomeExactly(b, input[..close], byteOffset, open);
    if n: nat :| FirstReturn(whole, n) {
      ReturnWithin(whole, n);
      ReturnDecides(b, input, byteOffset, open, n);
      if whole[n].end <= close {
        PrefixSeesSame(b, input, close, open + b.Width(), n);
        ReturnAgrees(part, whole, n);
        ReturnDecides(b, input[..close], byteOffset, open, n);
      }
    }
    if n: nat :| FirstReturn(part, n) {
      ReturnWithin(part, n);
      ReturnIsClosing(part, n);
      WholeSeesSame(b, input, close, open + b.Width(), n);
      ReturnAgrees(whole, part, n);
      ReturnDecides(b, input, byteOffset, open, n);
      ReturnDecides(b, input[..close], byteOffset, open, n);
    }
  }

  lemma ReturnWithin(lexemes: seq<Lexeme>, n: nat)
    requires FirstReturn(lexemes, n)
    ensures n < |lexemes|
  {
  }

  lemma WhitespaceInPrefix(input: Bytes, at: nat, close: nat)
    requires at < close <= |input|
    ensures var whole, part := SkipWhitespace(input[at..]), SkipWhitespace(input[..close][at..]);
      at + whole <= |input| && if at + whole < close then part == whole else at + part == close
  {
    var s, t := input[at..], input[..close][at..];
    assert forall i | 0 <= i < |t| :: t[i] == s[i];
    var n := SkipWhitespace(s);
    RunIs(t, IsWhitespace, if n < |t| then n else |t|);
  }

  /**
   * The exact condition, for either bracket and any cut: an extent closes within the first `close` bytes if
   * and only if scanning those bytes alone finds an extent, and it is then the same one.
   */
  lemma ClosesWithinExactly(b: Bracket, input: Bytes, at: nat, close: nat)
    requires at < close <= |input|
    ensures ExtentOf(b, input, at).Ok? && ExtentOf(b, input, at).value.afterClose <= close
      <==> ExtentOf(b, input[..close], at).Ok?
    ensures ExtentOf(b, input[..close], at).Ok? ==> ExtentOf(b, input[..close], at) == ExtentOf(b, input, at)
  {
    hide OutcomeAt, SkipWhitespace;
    WhitespaceInPrefix(input, at, close);
    var whole, part := at + SkipWhitespace(input[at..]), at + SkipWhitespace(input[..close][at..]);
    if whole < |input| && OpensAt(b, input, whole) {
      OpenBeforeClose(b, input, at, whole);
    }
    if whole < close {
      OutcomeInPrefix(b, input, at, whole, close);
      OpeningInPrefix(b, input, whole, close);
    }
  }

  /** A bracket that a scan of the whole sees but the cut splits cannot close before the cut. */
  lemma OpenBeforeClose(b: Bracket, input: Bytes, byteOffset: nat, open: nat)
    ensures OutcomeAt(b, input, byteOffset, open).Ok? ==>
      open + b.Width() < OutcomeAt(b, input, byteOffset, open).value.afterClose
  {
    hide Lexemes, Stop, Depth, MaxDepth, EndsInString;
  }

  lemma OpeningInPrefix(b: Bracket, input: Bytes, at: nat, close: nat)
    requires at < close <= |input|
    ensures OpensAt(b, input[..close], at) <==> OpensAt(b, input, at) && at + b.Width() <= close
  {
  }

  // ---- The two brackets together -------------------------------------------

  lemma ExtentInBuffer(b: Bracket, input: Bytes, byteOffset: nat)
    requires ExtentOf(b, input, byteOffset).Ok?
    ensures var e := ExtentOf(b, input, byteOffset).value; e.open < e.close < e.afterClose <= |input|
  {
    hide Stop, Depth, MaxDepth, EndsInString, Lex;
    OutcomeFromOpen(b, input, byteOffset);
  }

  /**
   * When one extent nests in another, of the same kind or not: a bracket between the outer ones closes before
   * the outer close exactly when the bytes before that close already hold its whole extent.
   */
  lemma NestsExactly(outer: Bracket, inner: Bracket, input: Bytes, byteOffset: nat, at: nat)
    requires ExtentOf(outer, input, byteOffset).Ok?
    requires var e := ExtentOf(outer, input, byteOffset).value; e.open < at < e.close
    ensures var e := ExtentOf(outer, input, byteOffset).value;
      e.close <= |input|
      && (ExtentOf(inner, input, at).Ok? && ExtentOf(inner, input, at).value.afterClose <= e.close
          <==> ExtentOf(inner, input[..e.close], at).Ok?)
  {
    hide ExtentOf;
    ExtentInBuffer(outer, input, byteOffset);
    ClosesWithinExactly(inner, input, at, ExtentOf(outer, input, byteOffset).value.close);
  }

  const CROSSED: Bytes := ['<', '<', '[', '>', '>', ']']

  lemma CrossedLexemes()
    ensures Lex(Dictionary, CROSSED[2..]) == Some((Other, 1)) && Lex(Dictionary, CROSSED[3..]) == Some((Closing, 2))
    ensures Lex(Array, CROSSED[3..]) == Some((Other, 1)) && Lex(Array, CROSSED[4..]) == Some((Other, 1))
    ensures Lex(Array, CROSSED[5..]) == Some((Closing, 1))
  {
  }

  /** A first lexeme that keeps the depth, and a first that closes. */
  lemma ReturnsAt(b: Bracket, input: Bytes, from: nat, n: nat, lexemes: seq<Lexeme>)
    requires lexemes == Lexemes(b, input, from) && n < |lexemes| && lexemes[n].nesting == Closing
    requires forall j | 0 <= j < n :: lexemes[j].nesting == Other
    ensures FirstReturn(lexemes, n) && MaxDepth(lexemes, n) == 1
  {
    hide Lexemes;
    StraightDepth(lexemes, n);
  }

  lemma {:induction false} StraightDepth(lexemes: seq<Lexeme>, n: nat)
    requires n <= |lexemes| && forall j | 0 <= j < n :: lexemes[j].nesting == Other
    ensures forall j | 0 <= j <= n :: Depth(lexemes, j) == 1
    ensures MaxDepth(lexemes, n) == 1
    decreases n
  {
    if n > 0 {
      StraightDepth(lexemes, n - 1);
    } else {
      DepthFromOne(lexemes);
    }
  }

  lemma OneLexeme(b: Bracket, input: Bytes, cursor: nat, nesting: Nesting, length: nat)
    requires cursor < |input| && Lex(b, input[cursor..]) == Some((nesting, length))
    ensures Lexemes(b, input, cursor) == [Lexeme(nesting, cursor, cursor + length)] + Lexemes(b, input, cursor + length)
  {
    hide Lex;
  }

  /** Extents of one kind nest; extents of different kinds need not: this dictionary closes inside its array value. */
  lemma KindsMayCross()
    ensures ExtentOf(Dictionary, CROSSED, 0) == Ok(Extent(0, 0, 3, 5, 1))
    ensures ExtentOf(Array, CROSSED, 2) == Ok(Extent(2, 2, 5, 6, 1))
  {
    hide Lex, Lexemes, OutcomeAt, MaxDepth, FirstReturn;
    CrossedLexemes();
    OneLexeme(Dictionary, CROSSED, 2, Other, 1);
    OneLexeme(Dictionary, CROSSED, 3, Closing, 2);
    ReturnsAt(Dictionary, CROSSED, 2, 1, Lexemes(Dictionary, CROSSED, 2));
    assert CROSSED[0..][0] == '<';
    FlatExtent(Dictionary, CROSSED, 0, 1);
    OneLexeme(Array, CROSSED, 3, Other, 1);
    OneLexeme(Array, CROSSED, 4, Other, 1);
    OneLexeme(Array, CROSSED, 5, Closing, 1);
    ReturnsAt(Array, CROSSED, 3, 2, Lexemes(Array, CROSSED, 3));
    assert CROSSED[2..][0] == '[';
    FlatExtent(Array, CROSSED, 2, 2);
  }

  lemma FlatExtent(b: Bracket, input: Bytes, open: nat, n: nat)
    requires open < |input| && OpensAt(b, input, open) && SkipWhitespace(input[open..]) == 0
    requires FirstReturn(Inside(b, input, open), n) && MaxDepth(Inside(b, input, open), n) == 1
    ensures var last := Inside(b, input, open)[n];
      ExtentOf(b, input, open) == Ok(Extent(open, open, last.start, last.end, 1))
  {
    hide Lex, Lexemes, Depth, MaxDepth, Stop, ExtentOf;
    StopExactly(Inside(b, input, open), n);
    OutcomeFromBracket(b, input, open);
  }
}
