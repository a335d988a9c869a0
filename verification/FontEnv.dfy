/** PDF name decoding and the borrowed font namespace (font_env.rs). */
module FontEnvs {
  import opened Basics

  // ---- Name decoding -------------------------------------------------------

  function HexValue(byte: Byte): (value: Option<nat>)
    ensures value.Some? ==> value.value < 16
  {
    if '0' <= byte <= '9' then Some(byte as int - '0' as int)
    else if 'a' <= byte <= 'f' then Some(byte as int - 'a' as int + 10)
    else if 'A' <= byte <= 'F' then Some(byte as int - 'A' as int + 10)
    else None
  }

  /** The escape loop from a cursor, as a function of what is left to read. */
  function DecodeEscapes(name: Bytes): Option<Bytes> {
    if name == [] then Some([])
    else if name[0] != '#' then
      if name[0] == '\0' then None else Prepend(name[0], DecodeEscapes(name[1..]))
    else if |name| < 3 then None
    else match (HexValue(name[1]), HexValue(name[2]))
      case (Some(high), Some(low)) =>
        if 16 * high + low == 0 then None
        else Prepend((16 * high + low) as char, DecodeEscapes(name[3..]))
      case _ => None
  }

  function Prepend(byte: Byte, rest: Option<Bytes>): Option<Bytes> {
    if rest.Some? then Some([byte] + rest.value) else None
  }

  /**
   * What a spelling means, independently of any decoder: a regular byte stands for itself and
   * `#` followed by two hexadecimal digits of either case stands for the byte they denote.
   * The null byte cannot be spelled.
   */
  ghost predicate Spells(raw: Bytes, name: Bytes)
    decreases |name|
  {
    if name == [] then raw == []
    else
      name[0] != '\0' &&
      ((raw != [] && raw[0] == name[0] != '#' && Spells(raw[1..], name[1..])) ||
       (|raw| >= 3 && raw[0] == '#' && EscapeDenotes(raw[1], raw[2], name[0])
        && Spells(raw[3..], name[1..])))
  }

  /** The byte two hexadecimal digits stand for, the high one first. */
  ghost predicate EscapeDenotes(first: Byte, second: Byte, byte: Byte) {
    exists high: nat, low: nat ::
      HexDenotes(first, high) && HexDenotes(second, low) && 16 * high + low == byte as int
  }

  const LOWER_HEX: string := "0123456789abcdef"
  const UPPER_HEX: string := "0123456789ABCDEF"

  /** A hexadecimal digit of either case stands for its position among the sixteen. */
  ghost predicate HexDenotes(digit: Byte, value: nat) {
    value < 16 && (LOWER_HEX[value] == digit || UPPER_HEX[value] == digit)
  }

  lemma HexValueDenotes(digit: Byte, value: nat)
    ensures HexValue(digit) == Some(value) <==> HexDenotes(digit, value)
  {
    var found := HexValue(digit);
    assert found.Some? ==> LOWER_HEX[found.value] == digit || UPPER_HEX[found.value] == digit;
  }

  lemma EscapeExactly(first: Byte, second: Byte, byte: Byte)
    ensures EscapeDenotes(first, second, byte)
      <==> HexValue(first).Some? && HexValue(second).Some?
           && 16 * HexValue(first).value + HexValue(second).value == byte as int
  {
    hide HexValue, HexDenotes;
    if EscapeDenotes(first, second, byte) {
      var high: nat, low: nat :|
        HexDenotes(first, high) && HexDenotes(second, low) && 16 * high + low == byte as int;
      HexValueDenotes(first, high);
      HexValueDenotes(second, low);
    }
    if HexValue(first).Some? && HexValue(second).Some? {
      HexValueDenotes(first, HexValue(first).value);
      HexValueDenotes(second, HexValue(second).value);
    }
  }

  /** Decoding inverts spelling, in both directions. */
  lemma {:induction false} DecodeEscapesSpells(raw: Bytes, name: Bytes)
    ensures DecodeEscapes(raw) == Some(name) <==> Spells(raw, name)
    decreases |raw|
  {
    if raw == [] {
    } else if name == [] {
      assert DecodeEscapes(raw) != Some([]);
    } else if raw[0] != '#' {
      DecodeEscapesSpells(raw[1..], name[1..]);
      assert name == [name[0]] + name[1..];
    } else if |raw| >= 3 {
      DecodeEscapesSpells(raw[3..], name[1..]);
      EscapeExactly(raw[1], raw[2], name[0]);
      assert name == [name[0]] + name[1..];
    }
  }

  /** Without a `#` the escape loop copies its input, unless a null byte stops it. */
  lemma {:induction false} NoEscapesCopies(name: Bytes)
    requires '#' !in name
    ensures DecodeEscapes(name) == if '\0' in name then None else Some(name)
    decreases |name|
  {
    if name != [] {
      NoEscapesCopies(name[1..]);
      assert name == [name[0]] + name[1..];
    }
  }

  /** The decoder: a fast path for unescaped names, else the cursor loop. */
  method DecodePdfName(name: Bytes) returns (result: Option<Bytes>)
    ensures result == DecodeEscapes(name)
    ensures result.Some? ==> Spells(name, result.value)
    ensures result.None? <==> !exists n :: Spells(name, n)
  {
    result := DecodeLoop(name);
    if result.Some? {
      DecodeEscapesSpells(name, result.value);
    } else {
      forall n ensures !Spells(name, n) {
        DecodeEscapesSpells(name, n);
      }
    }
  }

  method DecodeLoop(name: Bytes) returns (result: Option<Bytes>)
    ensures result == DecodeEscapes(name)
  {
    hide HexValue;
    if '#' !in name {
      NoEscapesCopies(name);
      return if '\0' in name then None else Some(name);
    }
    var decoded: Bytes := [];
    var cursor := 0;
    assert name[0..] == name;
    ContinueUnits(DecodeEscapes(name), []);
    while cursor < |name|
      invariant cursor <= |name|
      invariant DecodeEscapes(name) == Continue(decoded, DecodeEscapes(name[cursor..]))
    {
      ghost var here := name[cursor..];
      ghost var rest := DecodeEscapes(if name[cursor] == '#' && |here| >= 3 then here[3..] else here[1..]);
      if name[cursor] != '#' {
        if name[cursor] == '\0' {
          return None;
        }
        ContinuePush(decoded, name[cursor], rest);
        decoded := decoded + [name[cursor]];
        cursor := cursor + 1;
        continue;
      }
      if cursor + 1 >= |name| {
        return None;
      }
      var high := HexValue(name[cursor + 1]);
      if high.None? || cursor + 2 >= |name| {
        return None;
      }
      var low := HexValue(name[cursor + 2]);
      if low.None? || 16 * high.value + low.value == 0 {
        return None;
      }
      var byte: Byte := (16 * high.value + low.value) as char;
      ContinuePush(decoded, byte, rest);
      decoded := decoded + [byte];
      cursor := cursor + 3;
    }
    ContinueUnits(None, decoded);
    return Some(decoded);
  }

  ghost function Continue(decoded: Bytes, rest: Option<Bytes>): Option<Bytes> {
    if rest.Some? then Some(decoded + rest.value) else None
  }

  lemma ContinueUnits(rest: Option<Bytes>, decoded: Bytes)
    ensures Continue([], rest) == rest && Continue(decoded, DecodeEscapes([])) == Some(decoded)
  {
    assert decoded + [] == decoded;
    assert rest.Some? ==> [] + rest.value == rest.value;
  }

  lemma ContinuePush(decoded: Bytes, byte: Byte, rest: Option<Bytes>)
    ensures Continue(decoded, Prepend(byte, rest)) == Continue(decoded + [byte], rest)
  {
    if rest.Some? {
      assert decoded + ([byte] + rest.value) == decoded + [byte] + rest.value;
    }
  }

  /** Every null-free name has a spelling that uses escapes for all its bytes, and it decodes back. */
  function EscapeAll(name: Bytes): Bytes {
    if name == [] then []
    else ['#', HexDigit(name[0] as int / 16), HexDigit(name[0] as int % 16)] + EscapeAll(name[1..])
  }

  function HexDigit(value: nat): (digit: Byte)
    requires value < 16
    ensures HexValue(digit) == Some(value)
  {
    if value < 10 then ('0' as int + value) as char else ('A' as int + value - 10) as char
  }

  lemma {:induction false} EscapedNameRoundTrips(name: Bytes)
    ensures DecodeEscapes(EscapeAll(name)) == Some(name) <==> '\0' !in name
    decreases |name|
  {
    if name != [] {
      var raw := EscapeAll(name);
      assert raw[3..] == EscapeAll(name[1..]);
      EscapedNameRoundTrips(name[1..]);
      assert name == [name[0]] + name[1..];
    }
  }

  // ---- Namespace -----------------------------------------------------------

  /** Exact identity of one eligible indirect font dictionary. */
  datatype ResolvedFont = ResolvedFont(objectNumber: nat, generation: nat, objectByteOffset: nat)

  datatype FontBindingTarget = ResolvedTo(font: ResolvedFont) | UnresolvedFont

  datatype FontBinding = FontBinding(semanticName: Bytes, target: FontBindingTarget)

  /** `f64`: a finite number, or one of the values that are not. */
  datatype Float = Finite(value: real) | NonFinite

  datatype ExtGStateFontDirective = LeaveUnchanged | Select(font: ResolvedFont, size: Float) | UnknownFont

  /** `Known([])` is not `Disabled`: it makes every named `Tf` indeterminate. */
  datatype FontEnv = Disabled | Known(bindings: seq<FontBinding>) | UnknownNamespace

  function FindBinding(bindings: seq<FontBinding>, name: Bytes): Option<FontBindingTarget> {
    if bindings == [] then None
    else if bindings[0].semanticName == name then Some(bindings[0].target)
    else FindBinding(bindings[1..], name)
  }

  function FromPdfName(raw: Bytes, target: FontBindingTarget): Option<FontBinding> {
    match DecodeEscapes(raw)
    case Some(name) => Some(FontBinding(name, target))
    case None => None
  }

  function ResolveFont(env: FontEnv, raw: Bytes): Option<FontBindingTarget> {
    if !env.Known? then None
    else match DecodeEscapes(raw)
      case Some(name) => FindBinding(env.bindings, name)
      case None => None
  }

  /** The first binding whose name the raw bytes spell has this target. */
  ghost predicate BindsTo(env: FontEnv, raw: Bytes, target: FontBindingTarget) {
    env.Known? && exists i: nat :: FirstSpelled(env.bindings, raw, i) && env.bindings[i].target == target
  }

  ghost predicate FirstSpelled(bindings: seq<FontBinding>, raw: Bytes, i: nat) {
    i < |bindings| && Spells(raw, bindings[i].semanticName)
    && forall j | 0 <= j < i :: !Spells(raw, bindings[j].semanticName)
  }

  /** Resolution of a raw font name, both ways, without the decoder. */
  lemma ResolveFontExactly(env: FontEnv, raw: Bytes, target: FontBindingTarget)
    ensures ResolveFont(env, raw) == Some(target) <==> BindsTo(env, raw, target)
  {
    if env.Known? {
      FindSpelled(env.bindings, raw, target);
    }
  }

  lemma {:induction false} FindSpelled(bindings: seq<FontBinding>, raw: Bytes, target: FontBindingTarget)
    ensures DecodeEscapes(raw).Some? && FindBinding(bindings, DecodeEscapes(raw).value) == Some(target)
      <==> exists i: nat :: FirstSpelled(bindings, raw, i) && bindings[i].target == target
    decreases |bindings|
  {
    if bindings != [] {
      var first, rest := bindings[0].semanticName, bindings[1..];
      FindSpelled(rest, raw, target);
      DecodeEscapesSpells(raw, first);
      if Spells(raw, first) {
        assert FirstSpelled(bindings, raw, 0);
        forall i: nat | FirstSpelled(bindings, raw, i) ensures i == 0 {
        }
      } else {
        forall i: nat | FirstSpelled(bindings, raw, i)
          ensures i > 0 && FirstSpelled(rest, raw, i - 1) && rest[i - 1] == bindings[i]
        {
          assert forall j | 0 <= j < i - 1 :: rest[j] == bindings[j + 1];
        }
        forall i: nat | FirstSpelled(rest, raw, i)
          ensures FirstSpelled(bindings, raw, i + 1) && bindings[i + 1] == rest[i]
        {
          assert forall j | 1 <= j <= i :: bindings[j] == rest[j - 1];
        }
      }
    }
  }

  /** All spellings of one name resolve alike, and a binding made from one spelling answers to all. */
  lemma SpellingsResolveAlike(env: FontEnv, first: Bytes, second: Bytes, name: Bytes, target: FontBindingTarget)
    requires Spells(first, name) && Spells(second, name)
    ensures ResolveFont(env, first) == ResolveFont(env, second)
    ensures FromPdfName(first, target) == FromPdfName(second, target) == Some(FontBinding(name, target))
    ensures env.Known? ==>
      ResolveFont(env.(bindings := [FontBinding(name, target)] + env.bindings), second) == Some(target)
  {
    DecodeEscapesSpells(first, name);
    DecodeEscapesSpells(second, name);
  }

  /** Converse: two raw names the environment can tell apart are not spellings of one name. */
  lemma DifferentNamesSeparate(first: Bytes, second: Bytes)
    requires DecodeEscapes(first).Some? && DecodeEscapes(second).Some?
    ensures (exists n :: Spells(first, n) && Spells(second, n)) <==>
            (forall env: FontEnv :: ResolveFont(env, first) == ResolveFont(env, second))
  {
    var a, b := DecodeEscapes(first).value, DecodeEscapes(second).value;
    DecodeEscapesSpells(first, a);
    DecodeEscapesSpells(second, b);
    if a == b {
      assert Spells(first, a) && Spells(second, a);
    } else {
      forall n ensures !(Spells(first, n) && Spells(second, n)) {
        DecodeEscapesSpells(first, n);
        DecodeEscapesSpells(second, n);
      }
      var only := [FontBinding(a, UnresolvedFont)];
      assert only[1..] == [];
      assert FindBinding(only, a) == Some(UnresolvedFont) && FindBinding(only, b) == None;
      assert ResolveFont(Known(only), first) != ResolveFont(Known(only), second);
    }
  }
}
