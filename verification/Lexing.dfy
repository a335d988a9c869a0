/** Byte-level token skipping, as functions of what is left to read (source_utils.rs). */
module Lexing {
  import opened Basics

  predicate IsWhitespace(b: Byte) {
    b == '\0' || b == '\t' || b == '\n' || b == 12 as char || b == '\r' || b == ' '
  }

  predicate IsDelimiter(b: Byte) {
    b == '(' || b == ')' || b == '<' || b == '>' || b == '[' || b == ']' || b == '{' || b == '}' || b == '/' || b == '%'
  }

  predicate IsRegular(b: Byte) { !IsWhitespace(b) && !IsDelimiter(b) }

  predicate IsDigit(b: Byte) { '0' <= b <= '9' }

  predicate IsInLine(b: Byte) { b != '\r' && b != '\n' }

  /** Length of the longest prefix whose bytes all belong to the class. */
  function RunOf(s: Bytes, class_: Byte -> bool): (n: nat)
    ensures n <= |s|
    ensures forall i | 0 <= i < n :: class_(s[i])
    ensures n < |s| ==> !class_(s[n])
  {
    if s == [] || !class_(s[0]) then 0 else 1 + RunOf(s[1..], class_)
  }

  function SkipWhitespace(s: Bytes): nat { RunOf(s, IsWhitespace) }

  /** Digits at the front of a token. */
  function CountLeadingDigits(s: Bytes): nat { RunOf(s, IsDigit) }

  /** A comment reaches up to, and not over, the end of its line. */
  function SkipComment(s: Bytes): nat { RunOf(s, IsInLine) }

  /** A name is its solidus and the regular bytes after it. */
  function SkipName(s: Bytes): nat
    requires s != []
  {
    1 + RunOf(s[1..], IsRegular)
  }

  /** A run of regular bytes; at least one byte is always consumed. */
  function SkipScalarToken(s: Bytes): nat {
    if RunOf(s, IsRegular) == 0 then 1 else RunOf(s, IsRegular)
  }

  /** Bytes until the parentheses balance, `depth` of them being open; a backslash hides the next byte. */
  function SkipStringBody(s: Bytes, depth: nat): (n: Option<nat>)
    requires depth > 0
    ensures n.Some? ==> 0 < n.value <= |s|
  {
    if s == [] then None
    else if s[0] == '\\' then if |s| < 2 then None else Plus(2, SkipStringBody(s[2..], depth))
    else if s[0] == '(' then Plus(1, SkipStringBody(s[1..], depth + 1))
    else if s[0] == ')' then if depth == 1 then Some(1) else Plus(1, SkipStringBody(s[1..], depth - 1))
    else Plus(1, SkipStringBody(s[1..], depth))
  }

  function Plus(n: nat, rest: Option<nat>): Option<nat> {
    if rest.Some? then Some(n + rest.value) else None
  }

  function SkipLiteralString(s: Bytes): (n: Option<nat>)
    requires s != []
    ensures n.Some? ==> 1 < n.value <= |s|
  {
    Plus(1, SkipStringBody(s[1..], 1))
  }

  function SkipHexBody(s: Bytes): (n: Option<nat>)
    ensures n.Some? ==> 0 < n.value <= |s|
  {
    if s == [] then None else if s[0] == '>' then Some(1) else Plus(1, SkipHexBody(s[1..]))
  }

  function SkipHexString(s: Bytes): (n: Option<nat>)
    requires s != []
    ensures n.Some? ==> 1 < n.value <= |s|
  {
    Plus(1, SkipHexBody(s[1..]))
  }

  // ---- What a token sees of what follows it --------------------------------

  /** A run is decided by its own bytes and the class of the byte after it. */
  lemma RunIs(s: Bytes, class_: Byte -> bool, n: nat)
    requires n <= |s| && (forall i | 0 <= i < n :: class_(s[i])) && (n < |s| ==> !class_(s[n]))
    ensures RunOf(s, class_) == n
  {
  }

  /** A terminated string is decided by its own bytes alone. */
  lemma {:induction false} StringBodyIsLocal(s: Bytes, t: Bytes, depth: nat)
    requires depth > 0 && SkipStringBody(s, depth).Some?
    requires var n := SkipStringBody(s, depth).value; n <= |t| && t[..n] == s[..n]
    ensures SkipStringBody(t, depth) == SkipStringBody(s, depth)
    decreases |s|
  {
    var n := SkipStringBody(s, depth).value;
    assert s[0] == s[..n][0] == t[..n][0] == t[0];
    if s[0] == '\\' {
      assert t[2..][..n - 2] == t[..n][2..] == s[..n][2..] == s[2..][..n - 2];
      StringBodyIsLocal(s[2..], t[2..], depth);
    } else if s[0] != ')' || depth != 1 {
      assert t[1..][..n - 1] == t[..n][1..] == s[..n][1..] == s[1..][..n - 1];
      StringBodyIsLocal(s[1..], t[1..], if s[0] == '(' then depth + 1 else if s[0] == ')' then depth - 1 else depth);
    }
  }

  lemma {:induction false} HexBodyIsLocal(s: Bytes, t: Bytes)
    requires SkipHexBody(s).Some?
    requires var n := SkipHexBody(s).value; n <= |t| && t[..n] == s[..n]
    ensures SkipHexBody(t) == SkipHexBody(s)
    decreases |s|
  {
    var n := SkipHexBody(s).value;
    assert s[0] == s[..n][0] == t[..n][0] == t[0];
    if s[0] != '>' {
      assert t[1..][..n - 1] == t[..n][1..] == s[..n][1..] == s[1..][..n - 1];
      HexBodyIsLocal(s[1..], t[1..]);
    }
  }

  // ---- Decimal numbers -----------------------------------------------------

  predicate IsDigits(s: Bytes) { s != [] && forall i | 0 <= i < |s| :: IsDigit(s[i]) }

  function DigitValue(b: Byte): nat
    requires IsDigit(b)
  {
    b as int - '0' as int
  }

  function Decimal(s: Bytes): nat
    requires forall i | 0 <= i < |s| :: IsDigit(s[i])
  {
    if s == [] then 0 else 10 * Decimal(s[..|s| - 1]) + DigitValue(s[|s| - 1])
  }

  /** Checked 64-bit accumulation: absent as soon as a step overflows. */
  method ParseU64Decimal(s: Bytes) returns (value: Option<nat>)
    requires forall i | 0 <= i < |s| :: IsDigit(s[i])
    ensures value == U64Decimal(s)
  {
    var total := 0;
    for i := 0 to |s|
      invariant total == Decimal(s[..i]) && total < U64_COUNT
    {
      assert s[..i + 1][..i] == s[..i];
      total := total * 10 + DigitValue(s[i]);
      if total >= U64_COUNT {
        DecimalGrows(s, i + 1);
        return None;
      }
    }
    assert s[..|s|] == s;
    return Some(total);
  }

  function U64Decimal(s: Bytes): Option<nat>
    requires forall i | 0 <= i < |s| :: IsDigit(s[i])
  {
    if Decimal(s) < U64_COUNT then Some(Decimal(s)) else None
  }

  lemma {:induction false} DecimalGrows(s: Bytes, n: nat)
    requires n <= |s| && forall i | 0 <= i < |s| :: IsDigit(s[i])
    ensures Decimal(s[..n]) <= Decimal(s)
    decreases |s|
  {
    if n == |s| {
      assert s[..n] == s;
    } else {
      assert s[..|s| - 1][..n] == s[..n];
      DecimalGrows(s[..|s| - 1], n);
    }
  }

  /** A number written in decimal, the most significant digit first. */
  function Written(value: nat): Bytes {
    (if value < 10 then [] else Written(value / 10)) + ["0123456789"[value % 10]]
  }

  /** Reading a written number gives it back. */
  lemma {:induction false} WrittenReadsBack(value: nat)
    ensures IsDigits(Written(value)) && Decimal(Written(value)) == value
    decreases value
  {
    var last := "0123456789"[value % 10];
    assert IsDigit(last) && DigitValue(last) == value % 10;
    if value >= 10 {
      WrittenReadsBack(value / 10);
    }
    assert Written(value)[..|Written(value)| - 1] == if value < 10 then [] else Written(value / 10);
  }
}
