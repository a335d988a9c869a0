/** Balanced extents, said byte by byte: which brackets count, and where their depth first returns to zero. */
module ExtentRegions {
  import opened Basics
  import opened Lexing
  import opened ByteRegions
  import opened Extents
  import opened ExtentProperties

  // ---- Counting brackets byte by byte --------------------------------------

  /** A bracket counts outside comments and strings; a double one counts at its second byte. */
  function Counts(b: Bracket, at: Place, byte: Byte): int {
    match b
    case Array => if at != Outside then 0 else if byte == '[' then 1 else if byte == ']' then -1 else 0
    case Dictionary => if at == Less && byte == '<' then 1 else if at == Greater && byte == '>' then -1 else 0
  }

  /** Brackets opened less brackets closed over a run of bytes read from `place` on. */
  function Change(b: Bracket, place: Place, s: Bytes): int
    decreases |s|
  {
    if s == [] then 0
    else
      var at := Settled(place, s[0]);
      Counts(b, at, s[0]) + Change(b, ByteRegions.Next(at, s[0]), s[1..])
  }

  /** Brackets open before byte `x`, one being open at `from`. */
  function DepthAt(b: Bracket, input: Bytes, from: nat, x: nat): int
    requires from <= x <= |input|
  {
    1 + Change(b, Outside, input[from..x])
  }

  lemma {:induction false} ChangeConcat(b: Bracket, place: Place, x: Bytes, y: Bytes)
    ensures Change(b, place, x + y) == Change(b, place, x) + Change(b, Led(place, x), y)
    decreases |x|
  {
    if x == [] {
      assert x + y == y;
    } else {
      assert (x + y)[1..] == x[1..] + y;
      ChangeConcat(b, ByteRegions.Next(Settled(place, x[0]), x[0]), x[1..], y);
    }
  }

  /** Where no byte counts, nothing changes. */
  lemma {:induction false} NothingCounts(b: Bracket, place: Place, s: Bytes)
    requires forall i | 0 <= i < |s| :: Counts(b, Settled(Led(place, s[..i]), s[i]), s[i]) == 0
    ensures Change(b, place, s) == 0
    decreases |s|
  {
    if s != [] {
      var rest := s[1..];
      var next := ByteRegions.Next(Settled(place, s[0]), s[0]);
      assert s[..0] == [];
      assert Counts(b, Settled(Led(place, s[..0]), s[0]), s[0]) == 0;
      forall i | 0 <= i < |rest| ensures Counts(b, Settled(Led(next, rest[..i]), rest[i]), rest[i]) == 0 {
        assert s[..i + 1][0] == s[0] && s[..i + 1][1..] == rest[..i];
        assert Counts(b, Settled(Led(place, s[..i + 1]), s[i + 1]), s[i + 1]) == 0;
      }
      NothingCounts(b, next, rest);
    }
  }

  /** Reading is inside a string that has not closed. */
  predicate Unclosed(place: Place) { place.InString? || place.InHex? || place.Less? }

  predicate ReadyAt(b: Bracket, at: Place) { at == Outside || at == InName || (b.Array? && at == Greater) }

  /** The scanner may start a lexeme here. */
  predicate Ready(b: Bracket, place: Place, s: Bytes) {
    !Unclosed(place)
    && (s != [] ==> ReadyAt(b, Settled(place, s[0])))
  }

  function NestingChange(nesting: Nesting): int {
    match nesting case Opening => 1 case Closing => -1 case Other => 0
  }

  /** Until its last byte a lexeme changes nothing. */
  ghost predicate QuietUntil(b: Bracket, place: Place, s: Bytes, n: nat) {
    n <= |s| && forall x | 0 <= x < n :: Change(b, place, s[..x]) == 0
  }

  /** A lexeme changes the depth by its nesting, at its last byte; a string that never closes changes nothing. */
  ghost predicate LexemeIs(b: Bracket, place: Place, s: Bytes, lexeme: Option<(Nesting, nat)>) {
    match lexeme
    case None => Unclosed(Led(place, s)) && QuietUntil(b, place, s, |s|) && Change(b, place, s) == 0
    case Some((nesting, n)) =>
      n <= |s| && Ready(b, Led(place, s[..n]), s[n..]) && QuietUntil(b, place, s, n)
      && Change(b, place, s[..n]) == NestingChange(nesting)
  }

  /** What a lexeme of the scanner is, byte by byte. */
  lemma LexemeLies(b: Bracket, place: Place, s: Bytes)
    requires s != [] && Ready(b, place, s)
    ensures LexemeIs(b, place, s, Extents.Lex(b, s))
  {
    var at := Settled(place, s[0]);
    ClassesAgree(s[0]);
    if at == InName || at == Greater {
      OneByteLies(b, place, s);
    } else if s[0] == '%' {
      CommentQuiet(b, place, s);
    } else if s[0] == '(' {
      StringQuiet(b, place, s);
    } else if s[0] == '<' {
      AngleQuiet(b, place, s);
    } else if b.Dictionary? && s[0] == '>' && |s| > 1 && s[1] == '>' {
      CloseQuiet(place, s);
    } else {
      OneByteLies(b, place, s);
    }
  }

  /** A lexeme of one byte. */
  lemma OneByteLies(b: Bracket, place: Place, s: Bytes)
    requires s != [] && Ready(b, place, s) && s[0] != '%' && s[0] != '(' && s[0] != '<'
    requires !(b.Dictionary? && s[0] == '>' && |s| > 1 && s[1] == '>')
    ensures Extents.Lex(b, s).Some?
    ensures var (nesting, n) := Extents.Lex(b, s).value;
      n == 1 && Ready(b, Led(place, s[..1]), s[1..]) && QuietUntil(b, place, s, 1)
      && Change(b, place, s[..1]) == NestingChange(nesting)
  {
    var at := Settled(place, s[0]);
    ClassesAgree(s[0]);
    assert s[..1] == [s[0]] && [s[0]][1..] == [] && s[..0] == [];
    assert Led(place, s[..1]) == ByteRegions.Next(at, s[0]);
    assert Change(b, place, s[..1]) == Counts(b, at, s[0]);
  }

  lemma CommentQuiet(b: Bracket, place: Place, s: Bytes)
    requires s != [] && Settled(place, s[0]) == Outside && s[0] == '%'
    ensures var n := SkipComment(s);
      n > 0 && Ready(b, Led(place, s[..n]), s[n..]) && QuietUntil(b, place, s, n) && Change(b, place, s[..n]) == 0
  {
    var n := SkipComment(s);
    forall i | 0 < i <= n ensures Led(place, s[..i]) == InComment {
      var rest := s[1..i];
      assert s[..i][0] == '%' && s[..i][1..] == rest;
      forall k | 0 <= k < |rest|
        ensures ByteRegions.Next(Settled(InComment, rest[k]), rest[k]) == InComment
      {
        ClassesAgree(s[k + 1]);
      }
      LedStays(InComment, rest);
    }
    assert s[..0] == [];
    forall x | 0 <= x <= n ensures Change(b, place, s[..x]) == 0 {
      forall i | 0 <= i < x
        ensures Counts(b, Settled(Led(place, s[..x][..i]), s[..x][i]), s[..x][i]) == 0
      {
        ClassesAgree(s[i]);
        assert s[..x][..i] == s[..i];
      }
      NothingCounts(b, place, s[..x]);
    }
    if n < |s| {
      ClassesAgree(s[n]);
    }
  }

  lemma StringQuiet(b: Bracket, place: Place, s: Bytes)
    requires s != [] && Settled(place, s[0]) == Outside && s[0] == '('
    ensures match SkipLiteralString(s)
            case None => Unclosed(Led(place, s)) && QuietUntil(b, place, s, |s|) && Change(b, place, s) == 0
            case Some(n) =>
              Ready(b, Led(place, s[..n]), s[n..]) && QuietUntil(b, place, s, n) && Change(b, place, s[..n]) == 0
  {
    var n := if SkipLiteralString(s).Some? then SkipLiteralString(s).value else |s| + 1;
    forall i | 0 < i <= |s|
      ensures i < n ==> Led(place, s[..i]).InString?
      ensures i == n ==> Led(place, s[..i]) == Outside
    {
      assert s[..i][0] == '(' && s[..i][1..] == s[1..][..i - 1];
      StringLeads(s[1..], 1, i - 1);
    }
    assert s[..0] == [] && s[..|s|] == s;
    forall x | 0 <= x <= |s| && x <= n ensures Change(b, place, s[..x]) == 0 {
      forall i | 0 <= i < x ensures Counts(b, Settled(Led(place, s[..x][..i]), s[..x][i]), s[..x][i]) == 0 {
        assert s[..x][..i] == s[..i];
      }
      NothingCounts(b, place, s[..x]);
    }
  }

  lemma AngleQuiet(b: Bracket, place: Place, s: Bytes)
    requires s != [] && Settled(place, s[0]) == Outside && s[0] == '<'
    ensures LexemeIs(b, place, s, Extents.Lex(b, s))
  {
    assert s[..0] == [] && s[..1] == ['<'] && ['<'][1..] == [];
    assert Led(place, s[..1]) == Less && Change(b, place, s[..1]) == 0;
    if |s| > 1 && s[1] == '<' {
      assert s[..2] == ['<'] + ['<'];
      LedConcat(place, ['<'], ['<']);
      ChangeConcat(b, place, ['<'], ['<']);
    } else {
      HexQuiet(b, place, s);
    }
  }

  lemma HexQuiet(b: Bracket, place: Place, s: Bytes)
    requires s != [] && Settled(place, s[0]) == Outside && s[0] == '<' && (|s| > 1 ==> s[1] != '<')
    requires Led(place, s[..1]) == Less
    ensures match SkipHexString(s)
            case None => Unclosed(Led(place, s)) && QuietUntil(b, place, s, |s|) && Change(b, place, s) == 0
            case Some(n) =>
              Ready(b, Led(place, s[..n]), s[n..]) && QuietUntil(b, place, s, n) && Change(b, place, s[..n]) == 0
  {
    var n := if SkipHexString(s).Some? then SkipHexString(s).value else |s| + 1;
    forall i | 1 < i <= |s|
      ensures i < n ==> Led(place, s[..i]) == InHex
      ensures i == n ==> Led(place, s[..i]) == Outside
    {
      assert s[..i] == s[..1] + s[1..][..i - 1];
      LedConcat(place, s[..1], s[1..][..i - 1]);
      LessLeads(s[1..], i - 1);
    }
    assert s[..0] == [] && s[..|s|] == s;
    forall x | 0 <= x <= |s| && x <= n ensures Change(b, place, s[..x]) == 0 {
      forall i | 0 <= i < x ensures Counts(b, Settled(Led(place, s[..x][..i]), s[..x][i]), s[..x][i]) == 0 {
        assert s[..x][..i] == s[..i];
      }
      NothingCounts(b, place, s[..x]);
    }
  }

  lemma CloseQuiet(place: Place, s: Bytes)
    requires |s| > 1 && Settled(place, s[0]) == Outside && s[0] == '>' && s[1] == '>'
    ensures Ready(Dictionary, Led(place, s[..2]), s[2..]) && QuietUntil(Dictionary, place, s, 2)
    ensures Change(Dictionary, place, s[..2]) == -1
  {
    assert s[..0] == [] && s[..1] == ['>'] && ['>'][1..] == [];
    assert s[..2] == ['>'] + ['>'];
    assert Led(place, ['>']) == Greater && Change(Dictionary, place, ['>']) == 0;
    LedConcat(place, ['>'], ['>']);
    ChangeConcat(Dictionary, place, ['>'], ['>']);
  }

  // ---- The lexemes of a scan -----------------------------------------------

  /** The scanner may start a lexeme at `x`. */
  ghost predicate ReadyAtByte(b: Bracket, input: Bytes, from: nat, x: nat) {
    from <= x <= |input| && Ready(b, Led(Outside, input[from..x]), input[x..])
  }

  /** Reading on from `x`. */
  lemma ReadOn(b: Bracket, input: Bytes, from: nat, x: nat, z: nat)
    requires from <= x <= z <= |input|
    ensures DepthAt(b, input, from, z)
      == DepthAt(b, input, from, x) + Change(b, Led(Outside, input[from..x]), input[x..][..z - x])
    ensures Led(Outside, input[from..z]) == Led(Led(Outside, input[from..x]), input[x..][..z - x])
  {
    assert input[from..z] == input[from..x] + input[x..][..z - x];
    ChangeConcat(b, Outside, input[from..x], input[x..][..z - x]);
    LedConcat(Outside, input[from..x], input[x..][..z - x]);
  }

  /** One lexeme that starts where the scanner is ready. */
  lemma LexemeFrom(b: Bracket, input: Bytes, from: nat, x: nat)
    requires ReadyAtByte(b, input, from, x) && x < |input| && Extents.Lex(b, input[x..]).Some?
    ensures var (nesting, n) := Extents.Lex(b, input[x..]).value;
      n > 0 && ReadyAtByte(b, input, from, x + n)
      && DepthAt(b, input, from, x + n) == DepthAt(b, input, from, x) + NestingChange(nesting)
      && forall z | x <= z < x + n :: DepthAt(b, input, from, z) == DepthAt(b, input, from, x)
  {
    hide Extents.Lex, DepthAt;
    var place, rest := Led(Outside, input[from..x]), input[x..];
    LexemeLies(b, place, rest);
    var n := Extents.Lex(b, rest).value.1;
    ReadOn(b, input, from, x, x + n);
    assert input[x + n..] == rest[n..];
    forall z | x <= z < x + n ensures DepthAt(b, input, from, z) == DepthAt(b, input, from, x) {
      ReadOn(b, input, from, x, z);
    }
  }

  /** Depths of the scan are depths at bytes: before, inside and after lexeme `n`. */
  lemma {:induction false} DepthsAgree(b: Bracket, input: Bytes, from: nat, n: nat)
    requires from <= |input| && n < |Lexemes(b, input, from)|
    ensures var lexemes := Lexemes(b, input, from);
      ReadyAtByte(b, input, from, lexemes[n].end) && from <= lexemes[n].start
      && (forall z | lexemes[n].start <= z < lexemes[n].end :: DepthAt(b, input, from, z) == Depth(lexemes, n))
      && DepthAt(b, input, from, lexemes[n].end) == Depth(lexemes, n + 1)
    decreases n
  {
    hide Extents.Lex, Lexemes, ReadyAtByte, DepthAt;
    var lexemes := Lexemes(b, input, from);
    LexemesResume(b, input, from, n);
    if n == 0 {
      LexemesUnfold(b, input, from);
      StartsReady(b, input, from);
      LexemeFrom(b, input, from, from);
    } else {
      DepthsAgree(b, input, from, n - 1);
      LexemeFrom(b, input, from, lexemes[n].start);
    }
  }

  lemma StartsReady(b: Bracket, input: Bytes, from: nat)
    requires from <= |input|
    ensures ReadyAtByte(b, input, from, from) && DepthAt(b, input, from, from) == 1
  {
    assert input[from..from] == [];
  }

  /** Where the lexemes end. */
  ghost function Tail(lexemes: seq<Lexeme>, from: nat): nat {
    if lexemes == [] then from else lexemes[|lexemes| - 1].end
  }

  lemma {:induction false} StringsAgree(b: Bracket, input: Bytes, from: nat, n: nat)
    requires from <= |input| && n < |Lexemes(b, input, from)|
    ensures EndsInString(b, input, Lexemes(b, input, from)[n].end) == EndsInString(b, input, from)
    decreases n
  {
    hide Extents.Lex, Lexemes;
    LexemesResume(b, input, from, n);
    if n == 0 {
      LexemesUnfold(b, input, from);
    } else {
      StringsAgree(b, input, from, n - 1);
    }
  }

  /** Behind the last lexeme the depth stays, and what is left is an unclosed string or nothing. */
  lemma TailAgrees(b: Bracket, input: Bytes, from: nat)
    requires from <= |input|
    ensures var lexemes := Lexemes(b, input, from);
      var tail := Tail(lexemes, from);
      from <= tail <= |input|
      && (forall z | tail <= z <= |input| :: DepthAt(b, input, from, z) == Depth(lexemes, |lexemes|))
      && (EndsInString(b, input, from) <==> Unclosed(Led(Outside, input[from..])))
  {
    hide Extents.Lex, Lexemes, DepthAt, EndsInString;
    var lexemes := Lexemes(b, input, from);
    var tail := Tail(lexemes, from);
    StartsReady(b, input, from);
    if lexemes != [] {
      DepthsAgree(b, input, from, |lexemes| - 1);
      LexemesResume(b, input, from, |lexemes| - 1);
      StringsAgree(b, input, from, |lexemes| - 1);
    }
    NothingLeft(b, input, from, tail);
    assert input[from..|input|] == input[from..];
  }

  lemma NothingLeft(b: Bracket, input: Bytes, from: nat, tail: nat)
    requires ReadyAtByte(b, input, from, tail) && Lexemes(b, input, tail) == []
    ensures forall z | tail <= z <= |input| :: DepthAt(b, input, from, z) == DepthAt(b, input, from, tail)
    ensures EndsInString(b, input, tail) <==> Unclosed(Led(Outside, input[from..|input|]))
  {
    hide Extents.Lex, DepthAt;
    if tail < |input| {
      var place, rest := Led(Outside, input[from..tail]), input[tail..];
      LexemeLies(b, place, rest);
      forall z | tail <= z <= |input| ensures DepthAt(b, input, from, z) == DepthAt(b, input, from, tail) {
        ReadOn(b, input, from, tail, z);
        assert z == |input| ==> rest[..z - tail] == rest;
      }
      ReadOn(b, input, from, tail, |input|);
      assert rest[..|input| - tail] == rest;
    }
  }

  /** Which lexeme a byte position falls into. */
  lemma {:induction false} PositionOf(b: Bracket, input: Bytes, from: nat, z: nat, n: nat) returns (m: nat)
    requires from <= z <= |input| && n <= |Lexemes(b, input, from)|
    requires n < |Lexemes(b, input, from)| ==> z < Lexemes(b, input, from)[n].end
    ensures var lexemes := Lexemes(b, input, from);
      m <= |lexemes| && DepthAt(b, input, from, z) == Depth(lexemes, m)
      && (m < |lexemes| ==> lexemes[m].start <= z < lexemes[m].end)
      && (m == |lexemes| ==> Tail(lexemes, from) <= z)
    decreases n
  {
    hide Extents.Lex, Lexemes, DepthAt;
    var lexemes := Lexemes(b, input, from);
    if n > 0 && z < lexemes[n - 1].end {
      m := PositionOf(b, input, from, z, n - 1);
    } else {
      m := n;
      if n < |lexemes| {
        LexemesResume(b, input, from, n);
        DepthsAgree(b, input, from, n);
        if n == 0 {
          LexemesUnfold(b, input, from);
        }
      } else {
        TailAgrees(b, input, from);
      }
    }
  }

  // ---- Extents, byte by byte -----------------------------------------------

  /** Before `x` the depth has stayed between one and 256. */
  ghost predicate StaysOpen(b: Bracket, input: Bytes, from: nat, x: nat) {
    from <= x <= |input| && forall z | from <= z < x :: 1 <= DepthAt(b, input, from, z) <= 256
  }

  /** The bracket that stands right before `from` is closed by the one at `close`, at most `max` deep in between. */
  ghost predicate Balanced(b: Bracket, input: Bytes, from: nat, close: nat, max: nat) {
    from <= close && StaysOpen(b, input, from, close + b.Width())
    && DepthAt(b, input, from, close + b.Width()) == 0
    && (exists z :: from <= z < close + b.Width() && DepthAt(b, input, from, z) == max)
    && forall z | from <= z < close + b.Width() :: DepthAt(b, input, from, z) <= max
  }

  /** The depth passes 256 at `x`, not having returned to zero before. */
  ghost predicate Overflows(b: Bracket, input: Bytes, from: nat, x: nat) {
    StaysOpen(b, input, from, x) && DepthAt(b, input, from, x) > 256
  }

  lemma StaysOpenUpTo(b: Bracket, input: Bytes, from: nat, n: nat)
    requires from <= |input| && n < |Lexemes(b, input, from)|
    requires forall j | 0 <= j <= n :: DepthOk(Lexemes(b, input, from), j)
    ensures StaysOpen(b, input, from, Lexemes(b, input, from)[n].end)
  {
    hide Extents.Lex, Lexemes, DepthAt, Depth;
    var lexemes := Lexemes(b, input, from);
    DepthsAgree(b, input, from, n);
    forall z | from <= z < lexemes[n].end ensures 1 <= DepthAt(b, input, from, z) <= 256 {
      var m := PositionOf(b, input, from, z, n);
      PositionBefore(b, input, from, z, m, n);
      assert DepthOk(lexemes, m);
    }
  }

  lemma PositionBefore(b: Bracket, input: Bytes, from: nat, z: nat, m: nat, n: nat)
    requires n < |Lexemes(b, input, from)| && m <= |Lexemes(b, input, from)| && z < Lexemes(b, input, from)[n].end
    requires m < |Lexemes(b, input, from)| ==> Lexemes(b, input, from)[m].start <= z
    requires m == |Lexemes(b, input, from)| ==> Tail(Lexemes(b, input, from), from) <= z
    ensures m <= n
  {
    hide Extents.Lex, Lexemes;
    var lexemes := Lexemes(b, input, from);
    if n < m {
      if m < |lexemes| {
        LaidOut(b, input, from, n, m);
      } else if n < |lexemes| - 1 {
        LaidOut(b, input, from, n, |lexemes| - 1);
      }
    }
  }

  lemma ClosingIsWide(b: Bracket, s: Bytes)
    requires s != [] && Extents.Lex(b, s).Some? && Extents.Lex(b, s).value.0 == Closing
    ensures Extents.Lex(b, s).value.1 == b.Width()
  {
  }

  /** The depth leaves the bounds once. */
  lemma LeavesOnce(b: Bracket, input: Bytes, from: nat, x: nat, y: nat)
    requires StaysOpen(b, input, from, x) && !(1 <= DepthAt(b, input, from, x) <= 256)
    requires StaysOpen(b, input, from, y) && !(1 <= DepthAt(b, input, from, y) <= 256)
    ensures x == y
  {
    hide DepthAt;
  }

  lemma ReturnIsBalanced(b: Bracket, input: Bytes, byteOffset: nat, open: nat, n: nat)
    requires open + b.Width() <= |input| && FirstReturn(Inside(b, input, open), n)
    ensures OutcomeAt(b, input, byteOffset, open).Ok?
    ensures var e := OutcomeAt(b, input, byteOffset, open).value;
      e == Extent(byteOffset, open, e.close, e.close + b.Width(), e.maxObservedDepth)
      && Balanced(b, input, open + b.Width(), e.close, e.maxObservedDepth)
  {
    hide Extents.Lex, Lexemes, DepthAt, Depth, OutcomeAt;
    var from := open + b.Width();
    var lexemes := Lexemes(b, input, from);
    ClosesAtFirstReturn(b, input, byteOffset, open, n);
    var e := OutcomeAt(b, input, byteOffset, open).value;
    LexemesResume(b, input, from, n);
    DepthsAgree(b, input, from, n);
    OneLess(lexemes, n);
    ClosingIsWide(b, input[lexemes[n].start..]);
    StaysOpenUpTo(b, input, from, n);
    var j: nat :| j <= n && j <= |lexemes| && Depth(lexemes, j) == e.maxObservedDepth;
    DepthsAgree(b, input, from, j);
    if j < n {
      LaidOut(b, input, from, j, n);
    }
    assert from <= lexemes[j].start < e.afterClose && DepthAt(b, input, from, lexemes[j].start) == e.maxObservedDepth;
    forall z | from <= z < e.afterClose ensures DepthAt(b, input, from, z) <= e.maxObservedDepth {
      var m := PositionOf(b, input, from, z, n);
      PositionBefore(b, input, from, z, m, n);
    }
  }

  lemma OneLess(lexemes: seq<Lexeme>, n: nat)
    requires FirstReturn(lexemes, n)
    ensures lexemes[n].nesting == Closing
  {
    assert DepthOk(lexemes, n);
  }

  lemma OverflowIsAtByte(b: Bracket, input: Bytes, from: nat, n: nat)
    requires from <= |input| && FirstOverflow(Lexemes(b, input, from), n)
    ensures Overflows(b, input, from, Lexemes(b, input, from)[n].end)
  {
    hide Extents.Lex, Lexemes, DepthAt;
    var lexemes := Lexemes(b, input, from);
    LexemesResume(b, input, from, n);
    DepthsAgree(b, input, from, n);
    StaysOpenUpTo(b, input, from, n);
    DepthMovesByOne(lexemes, n);
  }

  /** The depth never leaves the bounds. */
  ghost predicate NeverCloses(b: Bracket, input: Bytes, from: nat) {
    StaysOpen(b, input, from, |input|) && 1 <= DepthAt(b, input, from, |input|) <= 256
  }

  lemma NeverLeavesAtBytes(b: Bracket, input: Bytes, from: nat)
    requires from <= |input| && NeverLeaves(Lexemes(b, input, from))
    ensures NeverCloses(b, input, from)
  {
    hide Extents.Lex, Lexemes, DepthAt, Depth;
    var lexemes := Lexemes(b, input, from);
    forall z | from <= z <= |input| ensures 1 <= DepthAt(b, input, from, z) <= 256 {
      var m := PositionOf(b, input, from, z, |lexemes|);
      assert DepthOk(lexemes, m);
    }
  }

  /**
   * Every outcome of a scan, byte by byte and exactly: the extent whose bracket balances first, with its greatest
   * depth; too deep where the depth passes 256 before that; otherwise unterminated, in a string or not.
   */
  lemma OutcomeByBytes(b: Bracket, input: Bytes, byteOffset: nat, open: nat)
    requires open + b.Width() <= |input|
    ensures var outcome, from := OutcomeAt(b, input, byteOffset, open), open + b.Width();
      (outcome.Ok? ==> Balanced(b, input, from, outcome.value.close, outcome.value.maxObservedDepth))
      && (forall close: nat, max: nat | Balanced(b, input, from, close, max) ::
            outcome == Ok(Extent(byteOffset, open, close, close + b.Width(), max)))
      && (outcome == Err(MaxNestingExceeded) <==> exists x: nat :: Overflows(b, input, from, x))
      && (outcome == Err(UnterminatedString)
          <==> NeverCloses(b, input, from) && Unclosed(Led(Outside, input[from..])))
      && (outcome == Err(Unterminated)
          <==> NeverCloses(b, input, from) && !Unclosed(Led(Outside, input[from..])))
  {
    hide Extents.Lex, Lexemes, DepthAt, Depth, OutcomeAt, EndsInString, Unclosed, Led;
    var outcome, from := OutcomeAt(b, input, byteOffset, open), open + b.Width();
    var lexemes := Lexemes(b, input, from);
    OutcomeExactly(b, input, byteOffset, open);
    TailAgrees(b, input, from);
    OutcomeIsOneOf(b, input, byteOffset, open);
    if outcome.Ok? {
      var n: nat :| FirstReturn(lexemes, n);
      ReturnIsBalanced(b, input, byteOffset, open, n);
    } else if outcome == Err(MaxNestingExceeded) {
      var n: nat :| FirstOverflow(lexemes, n);
      OverflowIsAtByte(b, input, from, n);
    } else {
      NeverLeavesAtBytes(b, input, from);
    }
    forall close: nat, max: nat | Balanced(b, input, from, close, max)
      ensures outcome == Ok(Extent(byteOffset, open, close, close + b.Width(), max))
    {
      BalancedDecides(b, input, byteOffset, open, close, max);
    }
    forall x: nat | Overflows(b, input, from, x) ensures outcome == Err(MaxNestingExceeded) {
      OverflowDecides(b, input, byteOffset, open, x);
    }
    if NeverCloses(b, input, from) {
      OpenDecides(b, input, byteOffset, open);
    }
  }

  lemma OutcomeIsOneOf(b: Bracket, input: Bytes, byteOffset: nat, open: nat)
    ensures var outcome := OutcomeAt(b, input, byteOffset, open);
      outcome.Ok? || outcome.error in {MaxNestingExceeded, UnterminatedString, Unterminated}
  {
  }

  /** What an outcome says of where the depth leaves the bounds. */
  lemma OutcomeLeaves(b: Bracket, input: Bytes, byteOffset: nat, open: nat) returns (x: nat)
    requires open + b.Width() <= |input|
    ensures var outcome, from := OutcomeAt(b, input, byteOffset, open), open + b.Width();
      StaysOpen(b, input, from, x)
      && match outcome
         case Ok(e) =>
           x == e.afterClose && DepthAt(b, input, from, x) == 0
           && e == Extent(byteOffset, open, e.close, e.close + b.Width(), e.maxObservedDepth)
           && Balanced(b, input, from, e.close, e.maxObservedDepth)
         case Err(MaxNestingExceeded) => DepthAt(b, input, from, x) > 256
         case Err(_) => x == |input| && NeverCloses(b, input, from)
  {
    hide Extents.Lex, Lexemes, DepthAt, Depth, OutcomeAt, EndsInString;
    var outcome, from := OutcomeAt(b, input, byteOffset, open), open + b.Width();
    var lexemes := Lexemes(b, input, from);
    OutcomeExactly(b, input, byteOffset, open);
    OutcomeIsOneOf(b, input, byteOffset, open);
    if outcome.Ok? {
      var n: nat :| FirstReturn(lexemes, n);
      ReturnIsBalanced(b, input, byteOffset, open, n);
      x := outcome.value.afterClose;
    } else if outcome == Err(MaxNestingExceeded) {
      var n: nat :| FirstOverflow(lexemes, n);
      OverflowIsAtByte(b, input, from, n);
      x := lexemes[n].end;
    } else {
      NeverLeavesAtBytes(b, input, from);
      x := |input|;
    }
  }

  lemma BalancedDecides(b: Bracket, input: Bytes, byteOffset: nat, open: nat, close: nat, max: nat)
    requires open + b.Width() <= |input| && Balanced(b, input, open + b.Width(), close, max)
    ensures OutcomeAt(b, input, byteOffset, open) == Ok(Extent(byteOffset, open, close, close + b.Width(), max))
  {
    hide DepthAt, OutcomeAt;
    var from, after := open + b.Width(), close + b.Width();
    var x := OutcomeLeaves(b, input, byteOffset, open);
    var outcome := OutcomeAt(b, input, byteOffset, open);
    if outcome.Ok? || outcome == Err(MaxNestingExceeded) {
      LeavesOnce(b, input, from, x, after);
    }
  }

  lemma OverflowDecides(b: Bracket, input: Bytes, byteOffset: nat, open: nat, y: nat)
    requires open + b.Width() <= |input| && Overflows(b, input, open + b.Width(), y)
    ensures OutcomeAt(b, input, byteOffset, open) == Err(MaxNestingExceeded)
  {
    hide DepthAt, OutcomeAt, Balanced;
    var x := OutcomeLeaves(b, input, byteOffset, open);
    if OutcomeAt(b, input, byteOffset, open).Ok? {
      LeavesOnce(b, input, open + b.Width(), x, y);
    }
  }

  lemma OpenDecides(b: Bracket, input: Bytes, byteOffset: nat, open: nat)
    requires open + b.Width() <= |input| && NeverCloses(b, input, open + b.Width())
    ensures OutcomeAt(b, input, byteOffset, open).Err?
      && OutcomeAt(b, input, byteOffset, open).error != MaxNestingExceeded
  {
    hide DepthAt, OutcomeAt, Balanced;
    var x := OutcomeLeaves(b, input, byteOffset, open);
  }

  /** The first byte from `byteOffset` on that is no blank. */
  ghost predicate FirstSignificant(input: Bytes, byteOffset: nat, open: nat) {
    byteOffset <= open <= |input| && (forall i | byteOffset <= i < open :: Spacing(input[i]))
    && (open < |input| ==> !Spacing(input[open]))
  }

  /** The bracket itself: `<<` or `[`. */
  predicate StandsAt(b: Bracket, input: Bytes, open: nat) {
    match b
    case Dictionary => open + 1 < |input| && input[open] == '<' && input[open + 1] == '<'
    case Array => open < |input| && input[open] == '['
  }

  /** Before the scan proper: blanks are skipped, and then the bracket must stand there. */
  lemma ExtentStarts(b: Bracket, input: Bytes, byteOffset: nat, open: nat)
    ensures ExtentOf(b, input, byteOffset) == Err(OffsetOutOfBounds) <==> byteOffset >= |input|
    ensures byteOffset < |input| && FirstSignificant(input, byteOffset, open) ==>
      if open == |input| then ExtentOf(b, input, byteOffset) == Err(NoSignificantToken)
      else if !StandsAt(b, input, open) then ExtentOf(b, input, byteOffset) == Err(NotOpen)
      else open + b.Width() <= |input| && ExtentOf(b, input, byteOffset) == OutcomeAt(b, input, byteOffset, open)
  {
    hide OutcomeAt;
    if byteOffset < |input| {
      OutcomeIsOneOf(b, input, byteOffset, byteOffset + SkipWhitespace(input[byteOffset..]));
    }
    if byteOffset < |input| && FirstSignificant(input, byteOffset, open) {
      var rest := input[byteOffset..];
      forall i | 0 <= i < open - byteOffset ensures IsWhitespace(rest[i]) {
        ClassesAgree(rest[i]);
      }
      if open < |input| {
        ClassesAgree(rest[open - byteOffset]);
      }
      RunIs(rest, IsWhitespace, open - byteOffset);
    }
  }
}
