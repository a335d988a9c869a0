/** Balanced extents of dictionaries and arrays (dictionary_extent.rs, array_extent.rs). */
module Extents {
  import opened Basics
  import opened Lexing

  const MAX_NESTING_DEPTH: nat := 256

  /** The two scanners ignore each other's brackets. */
  datatype Bracket = Dictionary | Array {
    function Width(): nat { if Dictionary? then 2 else 1 }
  }

  datatype Extent = Extent(byteOffset: nat, open: nat, close: nat, afterClose: nat, maxObservedDepth: nat)

  datatype Rejection =
    OffsetOutOfBounds | NoSignificantToken | NotOpen | UnterminatedString | Unterminated | MaxNestingExceeded

  // ---- Lexemes -------------------------------------------------------------

  datatype Nesting = Opening | Closing | Other

  datatype Lexeme = Lexeme(nesting: Nesting, start: nat, end: nat)

  function Opaque(length: Option<nat>): Option<(Nesting, nat)> {
    if length.Some? then Some((Other, length.value)) else None
  }

  /** Strings and comments are opaque; absent for a string that never closes. */
  function Lex(b: Bracket, s: Bytes): (lexeme: Option<(Nesting, nat)>)
    requires s != []
    ensures lexeme.Some? ==> 0 < lexeme.value.1 <= |s|
  {
    var c, next := s[0], if |s| > 1 then s[1] else ' ';
    if c == '%' then Some((Other, SkipComment(s)))
    else if c == '(' then Opaque(SkipLiteralString(s))
    else if c == '<' && next == '<' then Some((if b.Dictionary? then Opening else Other, 2))
    else if c == '<' then Opaque(SkipHexString(s))
    else if b.Dictionary? && c == '>' && next == '>' then Some((Closing, 2))
    else if b.Array? && c == '[' then Some((Opening, 1))
    else if b.Array? && c == ']' then Some((Closing, 1))
    else Some((Other, 1))
  }

  /** Lexemes from a cursor to the end of input, or to the string that never closes. */
  function Lexemes(b: Bracket, input: Bytes, cursor: nat): (lexemes: seq<Lexeme>)
    ensures forall i | 0 <= i < |lexemes| :: cursor <= lexemes[i].start < lexemes[i].end <= |input|
    decreases |input| - cursor
  {
    if cursor >= |input| then []
    else match Lex(b, input[cursor..])
      case None => []
      case Some((nesting, n)) => [Lexeme(nesting, cursor, cursor + n)] + Lexemes(b, input, cursor + n)
  }

  predicate EndsInString(b: Bracket, input: Bytes, cursor: nat)
    decreases |input| - cursor
  {
    cursor < |input| &&
    match Lex(b, input[cursor..])
    case None => true
    case Some((_, n)) => EndsInString(b, input, cursor + n)
  }

  // ---- Depth ---------------------------------------------------------------

  /** Brackets open after `n` lexemes, counting the one the extent starts with. */
  function Depth(lexemes: seq<Lexeme>, n: nat): int
    requires n <= |lexemes|
  {
    if n == 0 then 1
    else Depth(lexemes, n - 1) + match lexemes[n - 1].nesting case Opening => 1 case Closing => -1 case Other => 0
  }

  function MaxDepth(lexemes: seq<Lexeme>, n: nat): (max: int)
    requires n <= |lexemes|
    ensures max >= 1 && forall j | 0 <= j <= n :: Depth(lexemes, j) <= max
    ensures exists j :: 0 <= j <= n && Depth(lexemes, j) == max
  {
    if n == 0 then assert Depth(lexemes, 0) == 1; 1
    else
      var before := MaxDepth(lexemes, n - 1);
      if Depth(lexemes, n) > before then Depth(lexemes, n) else before
  }

  predicate DepthOk(lexemes: seq<Lexeme>, n: nat)
    requires n <= |lexemes|
  {
    1 <= Depth(lexemes, n) <= MAX_NESTING_DEPTH
  }

  /** The first lexeme, from `n` on, that takes the depth out of bounds. */
  function Stop(lexemes: seq<Lexeme>, n: nat): (stop: nat)
    requires n <= |lexemes|
    ensures n <= stop <= |lexemes|
    ensures forall j | n < j <= stop :: DepthOk(lexemes, j)
    ensures stop < |lexemes| ==> !DepthOk(lexemes, stop + 1)
    decreases |lexemes| - n
  {
    if n == |lexemes| || !DepthOk(lexemes, n + 1) then n else Stop(lexemes, n + 1)
  }

  function OutcomeAt(b: Bracket, input: Bytes, byteOffset: nat, open: nat): Result<Extent, Rejection> {
    var from := open + b.Width();
    var lexemes := Lexemes(b, input, from);
    var n := Stop(lexemes, 0);
    if n == |lexemes| then Err(if EndsInString(b, input, from) then UnterminatedString else Unterminated)
    else if Depth(lexemes, n + 1) > MAX_NESTING_DEPTH then Err(MaxNestingExceeded)
    else Ok(Extent(byteOffset, open, lexemes[n].start, lexemes[n].end, MaxDepth(lexemes, n)))
  }

  predicate OpensAt(b: Bracket, input: Bytes, at: nat)
    requires at < |input|
  {
    match b
    case Dictionary => input[at] == '<' && at + 1 < |input| && input[at + 1] == '<'
    case Array => input[at] == '['
  }

  function ExtentOf(b: Bracket, input: Bytes, byteOffset: nat): Result<Extent, Rejection> {
    if byteOffset >= |input| then Err(OffsetOutOfBounds)
    else
      var open := byteOffset + SkipWhitespace(input[byteOffset..]);
      if open == |input| then Err(NoSignificantToken)
      else if !OpensAt(b, input, open) then Err(NotOpen)
      else OutcomeAt(b, input, byteOffset, open)
  }

  // ---- The scanners --------------------------------------------------------

  /** The scan stands before lexeme `n` with `depth` brackets open. */
  ghost predicate ScanAt(b: Bracket, input: Bytes, from: nat, n: nat, cursor: nat, depth: nat, max: nat) {
    var lexemes := Lexemes(b, input, from);
    n <= |lexemes| && DepthOk(lexemes, n) && depth == Depth(lexemes, n) && max == MaxDepth(lexemes, n)
    && Stop(lexemes, 0) == Stop(lexemes, n)
    && Lexemes(b, input, cursor) == lexemes[n..] && EndsInString(b, input, cursor) == EndsInString(b, input, from)
  }

  lemma ScanStarts(b: Bracket, input: Bytes, from: nat)
    ensures ScanAt(b, input, from, 0, from, 1, 1)
  {
    var lexemes := Lexemes(b, input, from);
    assert Depth(lexemes, 0) == 1 && lexemes[0..] == lexemes;
  }

  lemma NextLexeme(b: Bracket, input: Bytes, lexemes: seq<Lexeme>, cursor: nat, n: nat)
    requires cursor < |input| && n <= |lexemes| && Lexemes(b, input, cursor) == lexemes[n..]
    ensures match Lex(b, input[cursor..])
            case None => n == |lexemes| && EndsInString(b, input, cursor)
            case Some((nesting, k)) =>
              n < |lexemes| && lexemes[n] == Lexeme(nesting, cursor, cursor + k)
              && Lexemes(b, input, cursor + k) == lexemes[n + 1..]
              && EndsInString(b, input, cursor + k) == EndsInString(b, input, cursor)
  {
    hide Lex;
    var rest := lexemes[n..];
    assert n < |lexemes| ==> rest[0] == lexemes[n] && rest[1..] == lexemes[n + 1..];
  }

  lemma OneLexemeDeeper(lexemes: seq<Lexeme>, n: nat)
    requires n < |lexemes|
    ensures Depth(lexemes, n + 1) == Depth(lexemes, n)
      + match lexemes[n].nesting case Opening => 1 case Closing => -1 case Other => 0
    ensures Stop(lexemes, n) == if DepthOk(lexemes, n + 1) then Stop(lexemes, n + 1) else n
    ensures MaxDepth(lexemes, n + 1)
      == if Depth(lexemes, n + 1) > MaxDepth(lexemes, n) then Depth(lexemes, n + 1) else MaxDepth(lexemes, n)
  {
  }

  /** One lexeme: where the scan stops, or where it stands next. */
  lemma ScanStep(b: Bracket, input: Bytes, byteOffset: nat, open: nat, n: nat, cursor: nat, depth: nat, max: nat)
    requires ScanAt(b, input, open + b.Width(), n, cursor, depth, max) && cursor < |input|
    ensures var from := open + b.Width();
      match Lex(b, input[cursor..])
      case None => OutcomeAt(b, input, byteOffset, open) == Err(UnterminatedString)
      case Some((Other, k)) => ScanAt(b, input, from, n + 1, cursor + k, depth, max)
      case Some((Opening, k)) =>
        if depth == MAX_NESTING_DEPTH then OutcomeAt(b, input, byteOffset, open) == Err(MaxNestingExceeded)
        else ScanAt(b, input, from, n + 1, cursor + k, depth + 1, if depth + 1 > max then depth + 1 else max)
      case Some((Closing, k)) =>
        if depth == 1 then OutcomeAt(b, input, byteOffset, open)
          == Ok(Extent(byteOffset, open, cursor, cursor + k, max))
        else ScanAt(b, input, from, n + 1, cursor + k, depth - 1, max)
  {
    hide Lex, Lexemes, EndsInString, Depth, MaxDepth, Stop;
    var lexemes := Lexemes(b, input, open + b.Width());
    NextLexeme(b, input, lexemes, cursor, n);
    if n < |lexemes| {
      OneLexemeDeeper(lexemes, n);
    }
    DeepestSoFar(lexemes, n);
  }

  lemma DeepestSoFar(lexemes: seq<Lexeme>, n: nat)
    requires n <= |lexemes|
    ensures Depth(lexemes, n) <= MaxDepth(lexemes, n)
  {
  }

  lemma ScanEnds(b: Bracket, input: Bytes, byteOffset: nat, open: nat, n: nat, cursor: nat, depth: nat, max: nat)
    requires ScanAt(b, input, open + b.Width(), n, cursor, depth, max) && cursor >= |input|
    ensures OutcomeAt(b, input, byteOffset, open) == Err(Unterminated)
  {
    hide Lex;
    assert Lexemes(b, input, open + b.Width())[n..] == [];
  }

  method InspectDictionaryExtent(input: Bytes, byteOffset: nat) returns (result: Result<Extent, Rejection>)
    ensures result == ExtentOf(Dictionary, input, byteOffset)
  {
    hide ScanAt, OutcomeAt, Lexemes;
    if byteOffset >= |input| {
      return Err(OffsetOutOfBounds);
    }
    var open := byteOffset + SkipWhitespace(input[byteOffset..]);
    if open == |input| {
      return Err(NoSignificantToken);
    }
    if input[open] != '<' || open + 1 >= |input| || input[open + 1] != '<' {
      return Err(NotOpen);
    }
    var cursor, depth, maxObservedDepth := open + 2, 1, 1;
    ghost var n := 0;
    ScanStarts(Dictionary, input, open + 2);
    while cursor < |input|
      invariant ScanAt(Dictionary, input, open + 2, n, cursor, depth, maxObservedDepth)
      invariant 0 < depth <= MAX_NESTING_DEPTH
      decreases |input| - cursor
    {
      ScanStep(Dictionary, input, byteOffset, open, n, cursor, depth, maxObservedDepth);
      var rest := input[cursor..];
      var doubled := cursor + 1 < |input| && input[cursor + 1] == input[cursor];
      match input[cursor] {
        case '%' =>
          cursor := cursor + SkipComment(rest);
        case '(' =>
          var length := SkipLiteralString(rest);
          if length.None? {
            return Err(UnterminatedString);
          }
          cursor := cursor + length.value;
        case '<' =>
          if doubled {
            if depth == MAX_NESTING_DEPTH {
              return Err(MaxNestingExceeded);
            }
            depth := depth + 1;
            maxObservedDepth := if depth > maxObservedDepth then depth else maxObservedDepth;
            cursor := cursor + 2;
          } else {
            var length := SkipHexString(rest);
            if length.None? {
              return Err(UnterminatedString);
            }
            cursor := cursor + length.value;
          }
        case '>' =>
          if doubled {
            depth := depth - 1;
            if depth == 0 {
              return Ok(Extent(byteOffset, open, cursor, cursor + 2, maxObservedDepth));
            }
            cursor := cursor + 2;
          } else {
            cursor := cursor + 1;
          }
        case _ =>
          cursor := cursor + 1;
      }
      n := n + 1;
    }
    ScanEnds(Dictionary, input, byteOffset, open, n, cursor, depth, maxObservedDepth);
    return Err(Unterminated);
  }

  method InspectArrayExtent(input: Bytes, byteOffset: nat) returns (result: Result<Extent, Rejection>)
    ensures result == ExtentOf(Array, input, byteOffset)
  {
    hide ScanAt, OutcomeAt, Lexemes;
    if byteOffset >= |input| {
      return Err(OffsetOutOfBounds);
    }
    var open := byteOffset + SkipWhitespace(input[byteOffset..]);
    if open == |input| {
      return Err(NoSignificantToken);
    }
    if input[open] != '[' {
      return Err(NotOpen);
    }
    var cursor, depth, maxObservedDepth := open + 1, 1, 1;
    ghost var n := 0;
    ScanStarts(Array, input, open + 1);
    while cursor < |input|
      invariant ScanAt(Array, input, open + 1, n, cursor, depth, maxObservedDepth)
      invariant 0 < depth <= MAX_NESTING_DEPTH
      decreases |input| - cursor
    {
      ScanStep(Array, input, byteOffset, open, n, cursor, depth, maxObservedDepth);
      var rest := input[cursor..];
      match input[cursor] {
        case '%' =>
          cursor := cursor + SkipComment(rest);
        case '(' =>
          var length := SkipLiteralString(rest);
          if length.None? {
            return Err(UnterminatedString);
          }
          cursor := cursor + length.value;
        case '<' =>
          if cursor + 1 < |input| && input[cursor + 1] == '<' {
            cursor := cursor + 2;
          } else {
            var length := SkipHexString(rest);
            if length.None? {
              return Err(UnterminatedString);
            }
            cursor := cursor + length.value;
          }
        case '[' =>
          if depth == MAX_NESTING_DEPTH {
            return Err(MaxNestingExceeded);
          }
          depth := depth + 1;
          maxObservedDepth := if depth > maxObservedDepth then depth else maxObservedDepth;
          cursor := cursor + 1;
        case ']' =>
          depth := depth - 1;
          if depth == 0 {
            return Ok(Extent(byteOffset, open, cursor, cursor + 1, maxObservedDepth));
          }
          cursor := cursor + 1;
        case _ =>
          cursor := cursor + 1;
      }
      n := n + 1;
    }
    ScanEnds(Array, input, byteOffset, open, n, cursor, depth, maxObservedDepth);
    return Err(Unterminated);
  }
}
