/** Operand parsing shared by the content-stream operators (operands.rs). */
module Operands {
  import opened Basics
  import opened FontEnvs

  /** One operand: how many tokens form it and where it lies in the decoded stream. */
  datatype OperandRecord = OperandRecord(tokens: nat, range: ByteRange)

  /** One operator with the operands before it; `range` runs from the first operand to the operator. */
  datatype OperatorRecord = OperatorRecord(operator: ByteRange, operands: seq<OperandRecord>, range: ByteRange)

  datatype WalkErrorKind =
    | InvalidSourceRange
    | GraphicsStateStackUnderflow
    | MalformedOperandCount(operator: Bytes, expected: nat, got: nat)
    | MalformedNumericOperand(operator: Bytes, operandIndex: nat)
    | MalformedNameOperand(operator: Bytes, operandIndex: nat)
    | NonFiniteNumericOperand(operator: Bytes, operandIndex: nat)

  datatype GraphicsWalkError = GraphicsWalkError(kind: WalkErrorKind, range: ByteRange)

  type Fallible<T> = Result<T, GraphicsWalkError>

  /** The platform's float conversions: text to `f64`, and `f64` to its bit pattern. */
  datatype Floats = Floats(parse: Bytes -> Option<Float>, bits: real -> nat)

  /** Transformation matrix in `[a b c d e f]` layout. */
  datatype Matrix = Matrix(a: real, b: real, c: real, d: real, e: real, f: real)

  const IDENTITY := Matrix(1.0, 0.0, 0.0, 1.0, 0.0, 0.0)

  function CheckedSource(source: Bytes, range: ByteRange, errorRange: ByteRange): Fallible<Bytes> {
    match Slice(source, range)
    case Some(bytes) => Ok(bytes)
    case None => Err(GraphicsWalkError(InvalidSourceRange, errorRange))
  }

  function MalformedNumeric<T>(operator: Bytes, index: nat, range: ByteRange): Fallible<T> {
    Err(GraphicsWalkError(MalformedNumericOperand(operator, index), range))
  }

  function MalformedName<T>(operator: Bytes, index: nat, range: ByteRange): Fallible<T> {
    Err(GraphicsWalkError(MalformedNameOperand(operator, index), range))
  }

  function ParseFiniteNumber(floats: Floats, operator: Bytes, index: nat, operand: OperandRecord,
                             bytes: Bytes): Fallible<real> {
    if operand.tokens != 1 then MalformedNumeric(operator, index, operand.range)
    else match floats.parse(bytes)
      case None => MalformedNumeric(operator, index, operand.range)
      case Some(NonFinite) => Err(GraphicsWalkError(NonFiniteNumericOperand(operator, index), operand.range))
      case Some(Finite(value)) => Ok(value)
  }

  function ExpectOperands(operator: Bytes, record: OperatorRecord, expected: nat): Fallible<()> {
    if |record.operands| == expected then Ok(())
    else Err(GraphicsWalkError(MalformedOperandCount(operator, expected, |record.operands|), record.range))
  }

  /** The numbers of the operands from `index` on; the first bad operand decides the error. */
  function NumbersFrom(floats: Floats, source: Bytes, operator: Bytes, record: OperatorRecord,
                       index: nat): (numbers: Fallible<seq<real>>)
    requires index <= |record.operands|
    ensures numbers.Ok? ==> |numbers.value| == |record.operands| - index
    decreases |record.operands| - index
  {
    if index == |record.operands| then Ok([])
    else
      var operand := record.operands[index];
      if operand.tokens != 1 then MalformedNumeric(operator, index, operand.range)
      else
        var bytes :- CheckedSource(source, operand.range, operand.range);
        var value :- ParseFiniteNumber(floats, operator, index, operand, bytes);
        var rest :- NumbersFrom(floats, source, operator, record, index + 1);
        Ok([value] + rest)
  }

  function NumericOperands(floats: Floats, source: Bytes, operator: Bytes, record: OperatorRecord,
                           expected: nat): (numbers: Fallible<seq<real>>)
    ensures numbers.Ok? ==> |numbers.value| == |record.operands| == expected
  {
    var _ :- ExpectOperands(operator, record, expected);
    NumbersFrom(floats, source, operator, record, 0)
  }

  function MatrixOperand(floats: Floats, source: Bytes, operator: Bytes, record: OperatorRecord): Fallible<Matrix> {
    var n :- NumericOperands(floats, source, operator, record, 6);
    Ok(Matrix(n[0], n[1], n[2], n[3], n[4], n[5]))
  }

  function IntegerOperand(floats: Floats, source: Bytes, operator: Bytes, record: OperatorRecord): Fallible<int> {
    var n :- NumericOperands(floats, source, operator, record, 1);
    if n[0] != n[0].Floor as real || n[0] < -2147483648.0 || n[0] > 2147483647.0
    then MalformedNumeric(operator, 0, record.operands[0].range)
    else Ok(n[0].Floor)
  }

  /** The bytes of one single-token name operand, without the slash. */
  function NameAt(source: Bytes, operator: Bytes, record: OperatorRecord, index: nat): Fallible<Bytes>
    requires index < |record.operands|
  {
    var operand := record.operands[index];
    if operand.tokens != 1 then MalformedName(operator, index, operand.range)
    else
      var bytes :- CheckedSource(source, operand.range, operand.range);
      if |bytes| <= 1 || bytes[0] != '/' then MalformedName(operator, index, operand.range) else Ok(bytes[1..])
  }

  function NameOperand(source: Bytes, operator: Bytes, record: OperatorRecord): Fallible<Bytes> {
    var _ :- ExpectOperands(operator, record, 1);
    NameAt(source, operator, record, 0)
  }

  function FontOperands(floats: Floats, source: Bytes, operator: Bytes,
                        record: OperatorRecord): Fallible<(Bytes, real)> {
    var _ :- ExpectOperands(operator, record, 2);
    var name :- NameAt(source, operator, record, 0);
    var operand := record.operands[1];
    if operand.tokens != 1 then MalformedNumeric(operator, 1, operand.range)
    else
      var bytes :- CheckedSource(source, operand.range, operand.range);
      var size :- ParseFiniteNumber(floats, operator, 1, operand, bytes);
      Ok((name, size))
  }

  /** Operands of `sc`/`scn`: numbers, then at most one name, which must come last. */
  function ColorOperandsFrom(floats: Floats, source: Bytes, operator: Bytes, record: OperatorRecord,
                             index: nat): Fallible<(seq<real>, Option<Bytes>)>
    requires index <= |record.operands|
    decreases |record.operands| - index
  {
    if index == |record.operands| then Ok(([], None))
    else
      var operand := record.operands[index];
      var bytes :- CheckedSource(source, operand.range, operand.range);
      if operand.tokens == 1 && bytes != [] && bytes[0] == '/' then
        if |bytes| <= 1 then MalformedName(operator, index, operand.range)
        else if index + 1 < |record.operands|
        then MalformedNumeric(operator, index + 1, record.operands[index + 1].range)
        else Ok(([], Some(bytes[1..])))
      else
        var value :- ParseFiniteNumber(floats, operator, index, operand, bytes);
        var (rest, name) :- ColorOperandsFrom(floats, source, operator, record, index + 1);
        Ok(([value] + rest, name))
  }

  /** Operand `i` is one token that reads as a finite number and not as a name. */
  predicate IsNumberOperand(floats: Floats, source: Bytes, record: OperatorRecord, i: nat, value: real) {
    i < |record.operands| && record.operands[i].tokens == 1
    && match Slice(source, record.operands[i].range)
       case None => false
       case Some(bytes) => (bytes == [] || bytes[0] != '/') && floats.parse(bytes) == Some(Finite(value))
  }

  /** Operand `i` is one token: a slash and the name. */
  predicate IsNameOperand(source: Bytes, record: OperatorRecord, i: nat, name: Bytes) {
    i < |record.operands| && record.operands[i].tokens == 1 && name != []
    && match Slice(source, record.operands[i].range)
       case None => false
       case Some(bytes) => bytes != [] && bytes[0] == '/' && bytes[1..] == name
  }

  /** Accepted operands, both ways: finite numbers in order, then at most one name, and nothing after it. */
  lemma {:induction false} ColorOperandsExactly(floats: Floats, source: Bytes, operator: Bytes,
                                                record: OperatorRecord, index: nat,
                                                components: seq<real>, name: Option<Bytes>)
    requires index <= |record.operands|
    ensures ColorOperandsFrom(floats, source, operator, record, index) == Ok((components, name))
      <==> index + |components| + (if name.Some? then 1 else 0) == |record.operands|
           && (forall k | 0 <= k < |components| :: IsNumberOperand(floats, source, record, index + k, components[k]))
           && (name.Some? ==> IsNameOperand(source, record, index + |components|, name.value))
    decreases |record.operands| - index
  {
    if index < |record.operands| {
      if components != [] {
        ColorOperandsExactly(floats, source, operator, record, index + 1, components[1..], name);
        assert forall k | 1 <= k < |components| :: components[k] == components[1..][k - 1];
        assert components == [components[0]] + components[1..];
      }
    }
  }

  ghost predicate StartsAsName(source: Bytes, record: OperatorRecord, i: nat) {
    i < |record.operands| && record.operands[i].tokens == 1
    && match Slice(source, record.operands[i].range)
       case None => false
       case Some(bytes) => bytes != [] && bytes[0] == '/'
  }

  /** What is wrong with operand `i` of `sc`/`scn`: no bytes, an empty name, a name too early, or no number. */
  ghost predicate FaultyColorOperand(floats: Floats, source: Bytes, operator: Bytes, record: OperatorRecord, i: nat,
                                     error: GraphicsWalkError) {
    i < |record.operands|
    && match Slice(source, record.operands[i].range)
       case None => error == GraphicsWalkError(InvalidSourceRange, record.operands[i].range)
       case Some(bytes) =>
         if !StartsAsName(source, record, i) then FaultyNumber(floats, source, operator, record, i, error)
         else if |bytes| == 1
         then error == GraphicsWalkError(MalformedNameOperand(operator, i), record.operands[i].range)
         else i + 1 < |record.operands|
              && error == GraphicsWalkError(MalformedNumericOperand(operator, i + 1), record.operands[i + 1].range)
  }

  ghost predicate IsColorNumber(floats: Floats, source: Bytes, record: OperatorRecord, i: nat) {
    exists value :: IsNumberOperand(floats, source, record, i, value)
  }

  ghost predicate FirstColorFault(floats: Floats, source: Bytes, operator: Bytes, record: OperatorRecord, from: nat,
                                  i: nat, error: GraphicsWalkError) {
    from <= i && FaultyColorOperand(floats, source, operator, record, i, error)
    && forall j | from <= j < i :: IsColorNumber(floats, source, record, j)
  }

  /** Rejection, both ways: the first operand that is out of place decides. */
  lemma {:induction false} ColorOperandsRejected(floats: Floats, source: Bytes, operator: Bytes,
                                                 record: OperatorRecord, index: nat, error: GraphicsWalkError)
    requires index <= |record.operands|
    ensures ColorOperandsFrom(floats, source, operator, record, index) == Err(error)
      <==> exists i :: FirstColorFault(floats, source, operator, record, index, i, error)
    decreases |record.operands| - index
  {
    if index < |record.operands| {
      var next := index + 1;
      ColorOperandsRejected(floats, source, operator, record, next, error);
      ColorNumberOrFault(floats, source, operator, record, index, error);
      if IsColorNumber(floats, source, record, index) {
        forall i: nat
          ensures FirstColorFault(floats, source, operator, record, index, i, error)
            <==> FirstColorFault(floats, source, operator, record, next, i, error)
        {
          assert i == index ==> !FaultyColorOperand(floats, source, operator, record, i, error);
        }
      } else {
        forall i: nat | FirstColorFault(floats, source, operator, record, index, i, error) ensures i == index {
          assert i > index ==> IsColorNumber(floats, source, record, index);
        }
        assert FaultyColorOperand(floats, source, operator, record, index, error) ==>
          FirstColorFault(floats, source, operator, record, index, index, error);
      }
    }
  }

  lemma ColorNumberOrFault(floats: Floats, source: Bytes, operator: Bytes, record: OperatorRecord, i: nat,
                           error: GraphicsWalkError)
    requires i < |record.operands|
    ensures IsColorNumber(floats, source, record, i) ==>
      !FaultyColorOperand(floats, source, operator, record, i, error)
    ensures IsColorNumber(floats, source, record, i) ==>
      (ColorOperandsFrom(floats, source, operator, record, i) == Err(error)
       <==> ColorOperandsFrom(floats, source, operator, record, i + 1) == Err(error))
    ensures !IsColorNumber(floats, source, record, i) ==>
      (ColorOperandsFrom(floats, source, operator, record, i) == Err(error)
       <==> FaultyColorOperand(floats, source, operator, record, i, error))
  {
    var operand := record.operands[i];
    if operand.tokens == 1 && Slice(source, operand.range).Some? {
      match floats.parse(Slice(source, operand.range).value) {
        case Some(Finite(value)) =>
          assert !StartsAsName(source, record, i) ==> IsNumberOperand(floats, source, record, i, value);
        case _ =>
      }
    }
  }

  /** Operand `i` is one token that reads as the finite number `value`. */
  predicate ReadsAs(floats: Floats, source: Bytes, record: OperatorRecord, i: nat, value: real) {
    i < |record.operands| && record.operands[i].tokens == 1
    && match Slice(source, record.operands[i].range)
       case None => false
       case Some(bytes) => floats.parse(bytes) == Some(Finite(value))
  }

  /** What is wrong with an operand that should be a number, blamed on that operand. */
  ghost predicate FaultyNumber(floats: Floats, source: Bytes, operator: Bytes, record: OperatorRecord, i: nat,
                               error: GraphicsWalkError) {
    i < |record.operands| && error.range == record.operands[i].range
    && if record.operands[i].tokens != 1 then error.kind == MalformedNumericOperand(operator, i)
       else match Slice(source, record.operands[i].range)
         case None => error.kind == InvalidSourceRange
         case Some(bytes) =>
           match floats.parse(bytes)
           case None => error.kind == MalformedNumericOperand(operator, i)
           case Some(NonFinite) => error.kind == NonFiniteNumericOperand(operator, i)
           case Some(Finite(_)) => false
  }

  ghost predicate IsNumeral(floats: Floats, source: Bytes, record: OperatorRecord, i: nat) {
    exists value :: ReadsAs(floats, source, record, i, value)
  }

  /** Operands of a fixed-count numeric operator, both ways: the values of all of them, in source order. */
  lemma NumericOperandsExactly(floats: Floats, source: Bytes, operator: Bytes, record: OperatorRecord, expected: nat,
                               numbers: seq<real>)
    ensures NumericOperands(floats, source, operator, record, expected) == Ok(numbers)
      <==> |record.operands| == expected == |numbers|
           && forall i | 0 <= i < |numbers| :: ReadsAs(floats, source, record, i, numbers[i])
  {
    NumbersFromExactly(floats, source, operator, record, 0, numbers);
  }

  lemma {:induction false} NumbersFromExactly(floats: Floats, source: Bytes, operator: Bytes, record: OperatorRecord,
                                              index: nat, numbers: seq<real>)
    requires index <= |record.operands|
    ensures NumbersFrom(floats, source, operator, record, index) == Ok(numbers)
      <==> index + |numbers| == |record.operands|
           && forall k | 0 <= k < |numbers| :: ReadsAs(floats, source, record, index + k, numbers[k])
    decreases |record.operands| - index
  {
    if index < |record.operands| && numbers != [] {
      NumbersFromExactly(floats, source, operator, record, index + 1, numbers[1..]);
      assert forall k | 1 <= k < |numbers| :: numbers[k] == numbers[1..][k - 1];
      assert numbers == [numbers[0]] + numbers[1..];
    }
  }

  /** Rejection, both ways: the count is wrong, or the first operand that is no number decides. */
  lemma NumericOperandsRejected(floats: Floats, source: Bytes, operator: Bytes, record: OperatorRecord, expected: nat,
                                error: GraphicsWalkError)
    ensures NumericOperands(floats, source, operator, record, expected) == Err(error)
      <==> if |record.operands| != expected
           then error == GraphicsWalkError(MalformedOperandCount(operator, expected, |record.operands|), record.range)
           else exists i :: FirstFault(floats, source, operator, record, 0, i, error)
  {
    NumbersFromRejected(floats, source, operator, record, 0, error);
  }

  ghost predicate FirstFault(floats: Floats, source: Bytes, operator: Bytes, record: OperatorRecord, from: nat, i: nat,
                             error: GraphicsWalkError) {
    from <= i && FaultyNumber(floats, source, operator, record, i, error)
    && forall j | from <= j < i :: IsNumeral(floats, source, record, j)
  }

  lemma {:induction false} NumbersFromRejected(floats: Floats, source: Bytes, operator: Bytes, record: OperatorRecord,
                                               index: nat, error: GraphicsWalkError)
    requires index <= |record.operands|
    ensures NumbersFrom(floats, source, operator, record, index) == Err(error)
      <==> exists i :: FirstFault(floats, source, operator, record, index, i, error)
    decreases |record.operands| - index
  {
    if index < |record.operands| {
      var next := index + 1;
      NumbersFromRejected(floats, source, operator, record, next, error);
      NumeralOrFault(floats, source, operator, record, index, error);
      if IsNumeral(floats, source, record, index) {
        forall i: nat
          ensures FirstFault(floats, source, operator, record, index, i, error)
            <==> FirstFault(floats, source, operator, record, next, i, error)
        {
          assert i == index ==> !FaultyNumber(floats, source, operator, record, i, error);
        }
      } else {
        forall i: nat | FirstFault(floats, source, operator, record, index, i, error) ensures i == index {
          assert i > index ==> IsNumeral(floats, source, record, index);
        }
        assert FaultyNumber(floats, source, operator, record, index, error) ==>
          FirstFault(floats, source, operator, record, index, index, error);
      }
    }
  }

  lemma NumeralOrFault(floats: Floats, source: Bytes, operator: Bytes, record: OperatorRecord, i: nat,
                       error: GraphicsWalkError)
    requires i < |record.operands|
    ensures IsNumeral(floats, source, record, i) ==> !FaultyNumber(floats, source, operator, record, i, error)
    ensures IsNumeral(floats, source, record, i) ==> exists value ::
      ReadsAs(floats, source, record, i, value)
      && NumbersFrom(floats, source, operator, record, i) ==
         (match NumbersFrom(floats, source, operator, record, i + 1)
          case Err(e) => Err(e)
          case Ok(rest) => Ok([value] + rest))
    ensures !IsNumeral(floats, source, record, i) ==>
      (NumbersFrom(floats, source, operator, record, i) == Err(error)
       <==> FaultyNumber(floats, source, operator, record, i, error))
  {
    var operand := record.operands[i];
    if operand.tokens == 1 && Slice(source, operand.range).Some? {
      match floats.parse(Slice(source, operand.range).value) {
        case Some(Finite(value)) => assert ReadsAs(floats, source, record, i, value);
        case _ =>
      }
    }
  }

  /** One operand, a whole number that fits 32 signed bits. */
  lemma IntegerOperandExactly(floats: Floats, source: Bytes, operator: Bytes, record: OperatorRecord, value: int)
    ensures IntegerOperand(floats, source, operator, record) == Ok(value)
      <==> |record.operands| == 1 && -0x8000_0000 <= value < 0x8000_0000
           && ReadsAs(floats, source, record, 0, value as real)
  {
    var numbers := NumericOperands(floats, source, operator, record, 1);
    if numbers.Ok? {
      NumericOperandsExactly(floats, source, operator, record, 1, numbers.value);
    }
    NumericOperandsExactly(floats, source, operator, record, 1, [value as real]);
    assert (value as real).Floor == value;
  }

  lemma NameOperandExactly(source: Bytes, operator: Bytes, record: OperatorRecord, name: Bytes)
    ensures NameOperand(source, operator, record) == Ok(name)
      <==> |record.operands| == 1 && IsNameOperand(source, record, 0, name)
  {
  }

  lemma FontOperandsExactly(floats: Floats, source: Bytes, operator: Bytes, record: OperatorRecord, name: Bytes,
                            size: real)
    ensures FontOperands(floats, source, operator, record) == Ok((name, size))
      <==> |record.operands| == 2 && IsNameOperand(source, record, 0, name) && ReadsAs(floats, source, record, 1, size)
  {
  }

  ghost function AfterComponents(done: seq<real>,
                                 rest: Fallible<(seq<real>, Option<Bytes>)>): Fallible<(seq<real>, Option<Bytes>)> {
    var (components, name) :- rest;
    Ok((done + components, name))
  }

  method ColorOperands(floats: Floats, source: Bytes, operator: Bytes, record: OperatorRecord)
    returns (result: Fallible<(seq<real>, Option<Bytes>)>)
    ensures result == ColorOperandsFrom(floats, source, operator, record, 0)
  {
    ghost var goal := ColorOperandsFrom(floats, source, operator, record, 0);
    var components: seq<real> := [];
    var patternName: Option<Bytes> := None;
    assert goal.Ok? ==> [] + goal.value.0 == goal.value.0;
    for index := 0 to |record.operands|
      invariant patternName.None? ==>
        goal == AfterComponents(components, ColorOperandsFrom(floats, source, operator, record, index))
      invariant patternName.Some? && index == |record.operands| ==> goal == Ok((components, patternName))
      invariant patternName.Some? && index < |record.operands| ==>
        goal == MalformedNumeric(operator, index, record.operands[index].range)
    {
      var operand := record.operands[index];
      if patternName.Some? {
        return MalformedNumeric(operator, index, operand.range);
      }
      ghost var rest := ColorOperandsFrom(floats, source, operator, record, index + 1);
      var bytes :- CheckedSource(source, operand.range, operand.range);
      if operand.tokens == 1 && bytes != [] && bytes[0] == '/' {
        if |bytes| <= 1 {
          return MalformedName(operator, index, operand.range);
        }
        patternName := Some(bytes[1..]);
        assert components + [] == components;
        continue;
      }
      var value :- ParseFiniteNumber(floats, operator, index, operand, bytes);
      assert rest.Ok? ==> components + ([value] + rest.value.0) == components + [value] + rest.value.0;
      components := components + [value];
    }
    assert components + [] == components;
    return Ok((components, patternName));
  }

  function ConcatMatrix(m: Matrix, n: Matrix): Matrix {
    Matrix(
      m.a * n.a + m.b * n.c,
      m.a * n.b + m.b * n.d,
      m.c * n.a + m.d * n.c,
      m.c * n.b + m.d * n.d,
      m.e * n.a + m.f * n.c + n.e,
      m.e * n.b + m.f * n.d + n.f)
  }

  /**
   * One entry of a triple matrix product, bracketed both ways: `u`, `v` are entries of the left product
   * and `s`, `t` of the right one, and `e`, `f`, `r` the translations that join in the last row.
   */
  lemma EntryAssociates(x: real, y: real, m: Matrix, p: real, q: real, e: real, f: real, r: real,
                        u: real, v: real, s: real, t: real, w: real)
    requires u == x * m.a + y * m.c + e && v == x * m.b + y * m.d + f
    requires s == m.a * p + m.b * q && t == m.c * p + m.d * q && w == e * p + f * q + r
    ensures u * p + v * q + r == x * s + y * t + w
  {
    calc {
      u * p + v * q + r;
      (x * m.a + y * m.c + e) * p + (x * m.b + y * m.d + f) * q + r;
      x * (m.a * p + m.b * q) + y * (m.c * p + m.d * q) + (e * p + f * q + r);
      x * s + y * t + w;
    }
  }

  lemma LinearRowAssociates(x: real, y: real, m: Matrix, n: Matrix, u: real, v: real, mn: Matrix)
    requires u == x * m.a + y * m.c && v == x * m.b + y * m.d && mn == ConcatMatrix(m, n)
    ensures u * n.a + v * n.c == x * mn.a + y * mn.c
    ensures u * n.b + v * n.d == x * mn.b + y * mn.d
  {
    EntryAssociates(x, y, m, n.a, n.c, 0.0, 0.0, 0.0, u, v, mn.a, mn.c, 0.0);
    EntryAssociates(x, y, m, n.b, n.d, 0.0, 0.0, 0.0, u, v, mn.b, mn.d, 0.0);
  }

  lemma TranslationRowAssociates(x: real, y: real, m: Matrix, n: Matrix, u: real, v: real, mn: Matrix)
    requires u == x * m.a + y * m.c + m.e && v == x * m.b + y * m.d + m.f && mn == ConcatMatrix(m, n)
    ensures u * n.a + v * n.c + n.e == x * mn.a + y * mn.c + mn.e
    ensures u * n.b + v * n.d + n.f == x * mn.b + y * mn.d + mn.f
  {
    EntryAssociates(x, y, m, n.a, n.c, m.e, m.f, n.e, u, v, mn.a, mn.c, mn.e);
    EntryAssociates(x, y, m, n.b, n.d, m.e, m.f, n.f, u, v, mn.b, mn.d, mn.f);
  }

  /** Where a matrix takes a point, points being rows. */
  function TransformX(m: Matrix, x: real, y: real): real { x * m.a + y * m.c + m.e }

  function TransformY(m: Matrix, x: real, y: real): real { x * m.b + y * m.d + m.f }

  /** Concatenating `m` onto `n` transforms by `m` first and by `n` after it. */
  lemma ConcatComposesTransforms(m: Matrix, n: Matrix, x: real, y: real)
    ensures TransformX(ConcatMatrix(m, n), x, y) == TransformX(n, TransformX(m, x, y), TransformY(m, x, y))
    ensures TransformY(ConcatMatrix(m, n), x, y) == TransformY(n, TransformX(m, x, y), TransformY(m, x, y))
  {
    TranslationRowAssociates(x, y, m, n, TransformX(m, x, y), TransformY(m, x, y), ConcatMatrix(m, n));
  }

  /** Concatenation is associative over the reals. */
  lemma ConcatAssociates(l: Matrix, m: Matrix, n: Matrix)
    ensures ConcatMatrix(ConcatMatrix(l, m), n) == ConcatMatrix(l, ConcatMatrix(m, n))
  {
    var lm, mn := ConcatMatrix(l, m), ConcatMatrix(m, n);
    LinearRowAssociates(l.a, l.b, m, n, lm.a, lm.b, mn);
    LinearRowAssociates(l.c, l.d, m, n, lm.c, lm.d, mn);
    TranslationRowAssociates(l.e, l.f, m, n, lm.e, lm.f, mn);
  }

  lemma ConcatUnit(m: Matrix)
    ensures ConcatMatrix(IDENTITY, m) == m == ConcatMatrix(m, IDENTITY)
  {
  }
}
