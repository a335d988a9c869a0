/**
 * Where a byte of a PDF body lies: outside, or in a comment, a name, a literal string with balanced parentheses
 * and escapes, or a hexadecimal string. Read byte by byte, independently of any token skipper.
 */
module ByteRegions {
  import opened Basics
  import opened Lexing

  // ---- Byte classes (ISO 32000-1, tables 1 and 2) --------------------------

  predicate Spacing(b: Byte) { b as int in {0, 9, 10, 12, 13, 32} }

  predicate Bracketing(b: Byte) { b in "()<>[]{}/%" }

  predicate Regular(b: Byte) { !Spacing(b) && !Bracketing(b) }

  predicate EndsLine(b: Byte) { b as int in {10, 13} }

  predicate Numeric(b: Byte) { b in "0123456789" }

  lemma ClassesAgree(b: Byte)
    ensures IsWhitespace(b) <==> Spacing(b)
    ensures IsDelimiter(b) <==> Bracketing(b)
    ensures IsRegular(b) <==> Regular(b)
    ensures IsInLine(b) <==> !EndsLine(b)
    ensures IsDigit(b) <==> Numeric(b)
    ensures Numeric(b) ==> Regular(b)
  {
    assert "0123456789" == ['0', '1', '2', '3', '4', '5', '6', '7', '8', '9'];
  }

  // ---- Reading one byte ----------------------------------------------------

  /** `Less` and `Greater` stand after one angle bracket that a second one may complete. */
  datatype Place =
    Outside | Less | Greater | InComment | InName | InString(depth: nat, escaped: bool) | InHex

  /** Where a byte is read, given where the ones before it led: line ends close comments, and so on. */
  function Settled(place: Place, b: Byte): Place {
    match place
    case InComment => if EndsLine(b) then Outside else InComment
    case InName => if Regular(b) then InName else Outside
    case Greater => if b == '>' then Greater else Outside
    case _ => place
  }

  /** Where the byte leads. */
  function Next(at: Place, b: Byte): Place {
    match at
    case Outside =>
      if b == '%' then InComment
      else if b == '/' then InName
      else if b == '(' then InString(1, false)
      else if b == '<' then Less
      else if b == '>' then Greater
      else Outside
    case Less => if b == '<' || b == '>' then Outside else InHex
    case Greater => Outside
    case InComment => InComment
    case InName => InName
    case InHex => if b == '>' then Outside else InHex
    case InString(depth, escaped) =>
      if escaped then InString(depth, false)
      else if b == '\\' then InString(depth, true)
      else if b == '(' then InString(depth + 1, false)
      else if b == ')' then if depth <= 1 then Outside else InString(depth - 1, false)
      else InString(depth, false)
  }

  /** Where a whole run of bytes leads. */
  function Led(place: Place, s: Bytes): Place
    decreases |s|
  {
    if s == [] then place else Led(Next(Settled(place, s[0]), s[0]), s[1..])
  }

  /** Where byte `i` lies when reading starts outside. */
  function At(s: Bytes, i: nat): Place
    requires i < |s|
  {
    Settled(Led(Outside, s[..i]), s[i])
  }

  /** A byte that separates tokens: a blank outside everything, or any byte of a comment. */
  predicate Separates(s: Bytes, i: nat) {
    i < |s| && (At(s, i) == InComment || (At(s, i) == Outside && (Spacing(s[i]) || s[i] == '%')))
  }

  lemma {:induction false} LedConcat(place: Place, a: Bytes, b: Bytes)
    ensures Led(place, a + b) == Led(Led(place, a), b)
    decreases |a|
  {
    if a == [] {
      assert a + b == b;
    } else {
      assert (a + b)[1..] == a[1..] + b;
      LedConcat(Next(Settled(place, a[0]), a[0]), a[1..], b);
    }
  }

  /** Reading on from a byte outside is reading afresh. */
  lemma AtShifts(s: Bytes, n: nat, i: nat)
    requires n + i < |s| && At(s, n) == Outside
    ensures At(s, n + i) == At(s[n..], i)
  {
    var x := s[n..n + i];
    assert s[..n + i] == s[..n] + x && s[n..][..i] == x;
    LedConcat(Outside, s[..n], x);
    if i > 0 {
      assert x[0] == s[n];
    }
  }

  /** A run of bytes that each lead back to where they started. */
  lemma {:induction false} LedStays(place: Place, s: Bytes)
    requires forall i | 0 <= i < |s| :: Next(Settled(place, s[i]), s[i]) == place
    ensures Led(place, s) == place
    decreases |s|
  {
    if s != [] {
      assert forall i | 0 <= i < |s| - 1 :: s[1..][i] == s[i + 1];
      LedStays(place, s[1..]);
    }
  }

  // ---- Strings -------------------------------------------------------------

  /** Inside a string until it closes; for ever if it does not. */
  lemma {:induction false} StringLeads(s: Bytes, depth: nat, i: nat)
    requires depth > 0 && i <= |s|
    ensures match SkipStringBody(s, depth)
            case None => Led(InString(depth, false), s[..i]).InString?
            case Some(n) =>
              (i < n ==> Led(InString(depth, false), s[..i]).InString?)
              && (i == n ==> Led(InString(depth, false), s[..i]) == Outside)
    decreases |s|
  {
    if i > 0 {
      assert s[..i][0] == s[0] && s[..i][1..] == s[1..][..i - 1];
      if s[0] == '\\' {
        if i > 1 {
          assert s[..i][1..][0] == s[1] && s[..i][1..][1..] == s[2..][..i - 2];
          StringLeads(s[2..], depth, i - 2);
        } else {
          assert s[..i][1..] == [];
        }
      } else if s[0] == ')' && depth == 1 {
        assert i == 1 ==> s[..i][1..] == [];
      } else {
        StringLeads(s[1..], if s[0] == '(' then depth + 1 else if s[0] == ')' then depth - 1 else depth, i - 1);
      }
    }
  }

  lemma {:induction false} HexLeads(s: Bytes, i: nat)
    requires i <= |s|
    ensures match SkipHexBody(s)
            case None => Led(InHex, s[..i]) == InHex
            case Some(n) => (i < n ==> Led(InHex, s[..i]) == InHex) && (i == n ==> Led(InHex, s[..i]) == Outside)
    decreases |s|
  {
    if i > 0 {
      assert s[..i][0] == s[0] && s[..i][1..] == s[1..][..i - 1];
      if s[0] != '>' {
        HexLeads(s[1..], i - 1);
      } else {
        assert i == 1 ==> s[..i][1..] == [];
      }
    }
  }

  /** After one `<`: the second decides between a dictionary bracket and a hexadecimal string. */
  lemma LessLeads(s: Bytes, i: nat)
    requires 0 < i <= |s| && s[0] != '<'
    ensures match SkipHexBody(s)
            case None => Led(Less, s[..i]) == InHex
            case Some(n) => (i < n ==> Led(Less, s[..i]) == InHex) && (i == n ==> Led(Less, s[..i]) == Outside)
  {
    assert s[..i][0] == s[0] && s[..i][1..] == s[1..][..i - 1];
    if s[0] != '>' {
      HexLeads(s[1..], i - 1);
    } else {
      assert i == 1 ==> s[..i][1..] == [];
    }
  }
}
