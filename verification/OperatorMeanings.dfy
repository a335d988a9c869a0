/** What each operator does to a walk, said in terms of the bytes it is written with (walker.rs). */
module OperatorMeanings {
  import opened Basics
  import opened PaintTypes
  import opened FontEnvs
  import opened ExtGStates
  import opened Operands
  import opened Walker
  import opened WalkerHistory
  import opened SaveNesting

  // ---- Spellings -----------------------------------------------------------

  /** The operator of record `n` is spelled so. */
  predicate Written(p: PaintProgram, n: nat, token: Bytes) {
    n < |p.records| && Slice(p.source, p.records[n].range).Some?
    && Slice(p.source, p.records[n].operator) == Some(token)
  }

  /** A device-colour operator: its spelling, family, side, and how many numbers it takes. */
  datatype DeviceSpelling = DeviceSpelling(token: Bytes, space: ColorSpace, side: Side, count: nat)

  const DEVICE_OPERATORS: seq<DeviceSpelling> := [
    DeviceSpelling("G", DeviceGray, Stroking, 1), DeviceSpelling("g", DeviceGray, Nonstroking, 1),
    DeviceSpelling("RG", DeviceRgb, Stroking, 3), DeviceSpelling("rg", DeviceRgb, Nonstroking, 3),
    DeviceSpelling("K", DeviceCmyk, Stroking, 4), DeviceSpelling("k", DeviceCmyk, Nonstroking, 4)]

  /** A path-painting operator and which of the two colours it uses. */
  datatype PaintSpelling = PaintSpelling(token: Bytes, paint: PathPaintKind, strokes: bool, fills: bool)

  const PAINT_OPERATORS: seq<PaintSpelling> := [
    PaintSpelling("S", StrokePath, true, false), PaintSpelling("s", CloseAndStroke, true, false),
    PaintSpelling("f", FillNonzero, false, true), PaintSpelling("F", FillObsolete, false, true),
    PaintSpelling("f*", FillEvenOdd, false, true), PaintSpelling("B", FillAndStrokeNonzero, true, true),
    PaintSpelling("B*", FillAndStrokeEvenOdd, true, true), PaintSpelling("b", CloseFillAndStrokeNonzero, true, true),
    PaintSpelling("b*", CloseFillAndStrokeEvenOdd, true, true), PaintSpelling("n", EndPath, false, false)]

  datatype ShowSpelling = ShowSpelling(token: Bytes, show: TextShowOperator, operands: nat)

  const SHOW_OPERATORS: seq<ShowSpelling> := [
    ShowSpelling("Tj", ShowText, 1), ShowSpelling("TJ", ShowTextAdjusted, 1),
    ShowSpelling("'", MoveNextLineAndShowText, 1), ShowSpelling("\"", SetSpacingMoveNextLineAndShowText, 3)]

  /** A short token is known by its bytes. */
  lemma TokenBytes(token: Bytes)
    ensures |token| == 1 ==> token == [token[0]]
    ensures |token| == 2 ==> token == [token[0], token[1]]
    ensures |token| == 3 ==> token == [token[0], token[1], token[2]]
  {
  }

  /** Every device-colour operator, and no other token, sets a device colour. */
  lemma DeviceOperatorsExactly(token: Bytes, space: ColorSpace, side: Side, count: nat)
    ensures InstructionOf(token) == ColorInstruction(Device(space, count, side))
      <==> DeviceSpelling(token, space, side, count) in DEVICE_OPERATORS
  {
    TokenBytes(token);
  }

  /** Every painting operator, and no other token, paints; and the colours it uses are those of its spelling. */
  lemma PaintOperatorsExactly(token: Bytes, paint: PathPaintKind)
    ensures InstructionOf(token) == PaintInstruction(paint)
      <==> PaintSpelling(token, paint, paint.UsesStroke(), paint.UsesFill()) in PAINT_OPERATORS
  {
    if InstructionOf(token) == PaintInstruction(paint) {
      PaintOperatorIsListed(token, paint);
    }
    var spelling := PaintSpelling(token, paint, paint.UsesStroke(), paint.UsesFill());
    if i :| 0 <= i < |PAINT_OPERATORS| && PAINT_OPERATORS[i] == spelling {
      ListedOperatorPaints(i);
    }
  }

  lemma PaintOperatorIsListed(token: Bytes, paint: PathPaintKind)
    requires InstructionOf(token) == PaintInstruction(paint)
    ensures PaintSpelling(token, paint, paint.UsesStroke(), paint.UsesFill()) in PAINT_OPERATORS
  {
    TokenBytes(token);
    if |token| == 1 {
      hide TwoByteInstruction, ThreeByteInstruction;
    } else if |token| == 2 {
      hide OneByteInstruction, ThreeByteInstruction;
    } else {
      hide OneByteInstruction, TwoByteInstruction;
    }
  }

  lemma ListedOperatorPaints(i: nat)
    requires i < |PAINT_OPERATORS|
    ensures InstructionOf(PAINT_OPERATORS[i].token) == PaintInstruction(PAINT_OPERATORS[i].paint)
  {
  }

  lemma ShowOperatorsExactly(token: Bytes, show: TextShowOperator, operands: nat)
    ensures InstructionOf(token) == ShowInstruction(show, operands)
      <==> ShowSpelling(token, show, operands) in SHOW_OPERATORS
  {
    TokenBytes(token);
  }

  /** The remaining operators, and nothing else. */
  lemma OtherOperatorsExactly(token: Bytes)
    ensures InstructionOf(token) == ColorInstruction(SelectSpace(Stroking)) <==> token == "CS"
    ensures InstructionOf(token) == ColorInstruction(SelectSpace(Nonstroking)) <==> token == "cs"
    ensures InstructionOf(token) == ColorInstruction(SetComponents(Stroking)) <==> token in ["SC", "SCN"]
    ensures InstructionOf(token) == ColorInstruction(SetComponents(Nonstroking)) <==> token in ["sc", "scn"]
    ensures InstructionOf(token) == SaveInstruction <==> token == "q"
    ensures InstructionOf(token) == RestoreInstruction <==> token == "Q"
    ensures InstructionOf(token) == MatrixInstruction <==> token == "cm"
    ensures InstructionOf(token) == TextModeInstruction <==> token == "Tr"
    ensures InstructionOf(token) == FontInstruction <==> token == "Tf"
    ensures InstructionOf(token) == InvokeInstruction <==> token == "Do"
    ensures InstructionOf(token) == GsInstruction <==> token == "gs"
  {
    TokenBytes(token);
  }

  // ---- One record ----------------------------------------------------------

  function StepOf(p: PaintProgram, n: nat, w: WalkerState): Fallible<(PaintOp, WalkerState)>
    requires n < |p.records|
  {
    Step(p.env, p.source, n, p.records[n], w)
  }

  /** A walk that gets past record `n` performed its step on the state before it. */
  lemma WalkPerforms(p: PaintProgram, seed: Snapshot, n: nat)
    requires n < |p.records|
    ensures Run(p, seed, n + 1).Ok? ==>
      Run(p, seed, n).Ok? && StepOf(p, n, Run(p, seed, n).value).Ok?
      && Run(p, seed, n + 1).value == StepOf(p, n, Run(p, seed, n).value).value.1
  {
    hide Step;
  }

  /** A step is the effect of its instruction, reported at its record. */
  lemma StepIsEvent(p: PaintProgram, n: nat, w: WalkerState, token: Bytes)
    requires Written(p, n, token)
    ensures var event := EventKind(p.env, p.source, token, InstructionOf(token), p.records[n], w);
      match event
      case Err(e) => StepOf(p, n, w) == Err(e)
      case Ok((kind, after)) =>
        StepOf(p, n, w) == Ok((PaintOp(n, p.records[n].operator, p.records[n].range, kind, after.state), after))
  {
    hide EventKind, InstructionOf;
  }

  /** A record whose own range or operator does not address the source fails, and is blamed itself. */
  lemma UnreadableRecordFails(p: PaintProgram, n: nat, w: WalkerState)
    requires n < |p.records|
    requires Slice(p.source, p.records[n].range).None? || Slice(p.source, p.records[n].operator).None?
    ensures StepOf(p, n, w) == Err(GraphicsWalkError(InvalidSourceRange, p.records[n].range))
  {
  }

  ghost predicate Numeral(p: PaintProgram, n: nat, i: nat)
    requires n < |p.records|
  {
    IsNumeral(p.env.floats, p.source, p.records[n], i)
  }

  /** The first `count` operands of record `n` read as these numbers, in order, and there are no others. */
  ghost predicate OperandsRead(p: PaintProgram, n: nat, numbers: seq<real>)
    requires n < |p.records|
  {
    |p.records[n].operands| == |numbers|
    && forall i | 0 <= i < |numbers| :: ReadsAs(p.env.floats, p.source, p.records[n], i, numbers[i])
  }

  lemma NumbersRead(p: PaintProgram, n: nat, operator: Bytes, count: nat)
    requires n < |p.records|
    ensures var numbers := NumericOperands(p.env.floats, p.source, operator, p.records[n], count);
      (numbers.Ok? ==> |numbers.value| == count && OperandsRead(p, n, numbers.value))
      && (numbers.Ok? <==> |p.records[n].operands| == count && forall i: nat | i < count :: Numeral(p, n, i))
  {
    var record := p.records[n];
    var numbers := NumericOperands(p.env.floats, p.source, operator, record, count);
    match numbers {
      case Ok(values) =>
        NumericOperandsExactly(p.env.floats, p.source, operator, record, count, values);
        assert forall i: nat | i < count :: ReadsAs(p.env.floats, p.source, record, i, values[i]) && Numeral(p, n, i);
      case Err(e) =>
        NumericOperandsRejected(p.env.floats, p.source, operator, record, count, e);
        if |record.operands| == count {
          var i :| FirstFault(p.env.floats, p.source, operator, record, 0, i, e);
          NumeralOrFault(p.env.floats, p.source, operator, record, i, e);
          assert !Numeral(p, n, i);
        }
    }
  }

  /** The state and nothing else of the walker changed, and of the state only one side's colour. */
  ghost predicate OnlyColorChanged(before: WalkerState, after: WalkerState, side: Side, color: GraphicsColor) {
    after == before.(state := if side.Stroking? then before.state.(strokingColor := color)
                              else before.state.(nonstrokingColor := color))
  }

  /**
   * `G`, `g`, `RG`, `rg`, `K`, `k`: accepted exactly when there are as many numbers as the family has components;
   * the side's colour is then those numbers, in operand order, in that space, with this record as its source.
   */
  lemma DeviceColorMeans(p: PaintProgram, n: nat, w: WalkerState, d: DeviceSpelling)
    requires d in DEVICE_OPERATORS && Written(p, n, d.token)
    ensures var step := StepOf(p, n, w);
      step.Ok? <==> |p.records[n].operands| == d.count && forall i: nat | i < d.count :: Numeral(p, n, i)
    ensures StepOf(p, n, w).Ok? ==>
      var (op, after) := StepOf(p, n, w).value;
      op.kind.SetColor? && op.kind.side == d.side && op.state == after.state
      && OnlyColorChanged(w, after, d.side, op.kind.color)
      && OperandsRead(p, n, op.kind.color.components)
      && op.kind.color
         == GraphicsColor(d.space, op.kind.color.components, None, None, [], Some(p.records[n].range))
  {
    hide InstructionOf, NumericOperands, OperandsRead, Numeral;
    DeviceOperatorsExactly(d.token, d.space, d.side, d.count);
    StepIsEvent(p, n, w, d.token);
    NumbersRead(p, n, d.token, d.count);
  }

  /** After such an operator in a walk, its operands are the components of its side, in order. */
  lemma AfterDeviceColor(p: PaintProgram, seed: Snapshot, n: nat, d: DeviceSpelling)
    requires d in DEVICE_OPERATORS && Written(p, n, d.token) && Run(p, seed, n + 1).Ok?
    ensures Run(p, seed, n).Ok?
    ensures var color := SideColor(Run(p, seed, n + 1).value.state, d.side);
      OnlyColorChanged(Run(p, seed, n).value, Run(p, seed, n + 1).value, d.side, color)
      && |color.components| == d.count && OperandsRead(p, n, color.components)
      && color == GraphicsColor(d.space, color.components, None, None, [], Some(p.records[n].range))
  {
    hide StepOf, Run;
    WalkPerforms(p, seed, n);
    DeviceColorMeans(p, n, Run(p, seed, n).value, d);
  }

  /**
   * `cm`: accepted exactly with six numbers; operand `k` is field `k` of the matrix, and the new matrix
   * takes every point through that one first and then through the old one.
   */
  lemma MatrixMeans(p: PaintProgram, n: nat, w: WalkerState)
    requires Written(p, n, "cm")
    ensures StepOf(p, n, w).Ok? <==> |p.records[n].operands| == 6 && forall i: nat | i < 6 :: Numeral(p, n, i)
    ensures StepOf(p, n, w).Ok? ==>
      var (op, after) := StepOf(p, n, w).value;
      op.kind.SetMatrix? && op.state == after.state && after == w.(state := w.state.(ctm := after.state.ctm))
      && (var m := op.kind.matrix; OperandsRead(p, n, [m.a, m.b, m.c, m.d, m.e, m.f]))
    ensures StepOf(p, n, w).Ok? ==>
      var (op, after) := StepOf(p, n, w).value;
      forall x, y ::
        var x1, y1 := TransformX(op.kind.matrix, x, y), TransformY(op.kind.matrix, x, y);
        TransformX(after.state.ctm, x, y) == TransformX(w.state.ctm, x1, y1)
        && TransformY(after.state.ctm, x, y) == TransformY(w.state.ctm, x1, y1)
  {
    hide InstructionOf, NumericOperands, OperandsRead, Numeral, TransformX, TransformY, ConcatMatrix;
    OtherOperatorsExactly("cm");
    StepIsEvent(p, n, w, "cm");
    NumbersRead(p, n, "cm", 6);
    if StepOf(p, n, w).Ok? {
      var (op, after) := StepOf(p, n, w).value;
      var numbers := NumericOperands(p.env.floats, p.source, "cm", p.records[n], 6).value;
      var m := op.kind.matrix;
      assert numbers == [m.a, m.b, m.c, m.d, m.e, m.f];
      forall x, y
        ensures var x1, y1 := TransformX(m, x, y), TransformY(m, x, y);
          TransformX(after.state.ctm, x, y) == TransformX(w.state.ctm, x1, y1)
          && TransformY(after.state.ctm, x, y) == TransformY(w.state.ctm, x1, y1)
      {
        ConcatComposesTransforms(m, w.state.ctm, x, y);
      }
    }
  }

  // ---- Colour spaces -------------------------------------------------------

  /** The first resource of that name. */
  ghost predicate FirstNamed(resources: seq<ColorSpaceResource>, name: Bytes, i: nat) {
    i < |resources| && resources[i].name == name && forall j | 0 <= j < i :: resources[j].name != name
  }

  lemma {:induction false} ResolveColorSpaceExactly(resources: seq<ColorSpaceResource>, name: Bytes, i: nat)
    ensures FirstNamed(resources, name, i) ==> ResolveColorSpace(resources, name) == Some(resources[i])
    ensures (forall j | 0 <= j < |resources| :: resources[j].name != name) ==>
      ResolveColorSpace(resources, name) == None
    decreases |resources|
  {
    if resources != [] {
      assert FirstNamed(resources, name, i) && i > 0 ==> FirstNamed(resources[1..], name, i - 1);
      ResolveColorSpaceExactly(resources[1..], name, if i > 0 then i - 1 else 0);
    }
  }

  /** How many components a space starts with, and which of them are one rather than zero. */
  ghost predicate StartsAt(r: ColorSpaceResource, components: seq<real>) {
    var tint := r.space.Separation? || r.space.DeviceN?;
    |components| == (if r.space.DeviceGray? then 1 else if r.space.DeviceRgb? then 3 else if r.space.DeviceCmyk? then 4
                     else if r.componentCount.Some? then r.componentCount.value else if tint then 1 else 0)
    && forall i | 0 <= i < |components| ::
         components[i] == if tint || (r.space.DeviceCmyk? && i == 3) then 1.0 else 0.0
  }

  /** Spot names are reported for colorant spaces only: all of them, and the first on its own. */
  ghost predicate NamesSpots(r: ColorSpaceResource, color: GraphicsColor) {
    if r.space.Separation? || r.space.DeviceN?
    then color.spotNames == r.spotNames && color.spotName.Some? == (r.spotNames != [])
         && (color.spotName.Some? ==> color.spotName.value == r.spotNames[0])
    else color.spotNames == [] && color.spotName.None?
  }

  /** The colour a selected space starts with: of the first resource of that name, or of an unknown resource. */
  ghost predicate Selects(spaces: seq<ColorSpaceResource>, name: Bytes, range: ByteRange, color: GraphicsColor) {
    color.resourceName == Some(name) && color.source == Some(range)
    && (forall i: nat | FirstNamed(spaces, name, i) ::
          color.space == spaces[i].space && StartsAt(spaces[i], color.components) && NamesSpots(spaces[i], color))
    && ((forall j | 0 <= j < |spaces| :: spaces[j].name != name) ==>
          color.space == Resource(name) && color.components == [] && color.spotName.None? && color.spotNames == [])
  }

  lemma SelectedColorMeans(env: Environment, name: Bytes, range: ByteRange)
    ensures Selects(env.colorSpaces, name, range, SelectedColor(env, name, range))
  {
    hide ResolveColorSpace, StartsAt, NamesSpots;
    var spaces := env.colorSpaces;
    forall i: nat | FirstNamed(spaces, name, i)
      ensures ResolveColorSpace(spaces, name) == Some(spaces[i])
      ensures StartsAt(spaces[i], spaces[i].InitialColor())
      ensures NamesSpots(spaces[i], SelectedColor(env, name, range))
    {
      ResolveColorSpaceExactly(spaces, name, i);
      ResourceStarts(spaces[i], env, name, range);
    }
    ResolveColorSpaceExactly(spaces, name, 0);
  }

  lemma ResourceStarts(r: ColorSpaceResource, env: Environment, name: Bytes, range: ByteRange)
    ensures StartsAt(r, r.InitialColor())
    ensures ResolveColorSpace(env.colorSpaces, name) == Some(r) ==> NamesSpots(r, SelectedColor(env, name, range))
  {
  }

  /** `CS` and `cs`: one name operand; the side's colour is the selected space at its initial colour. */
  lemma SelectSpaceMeans(p: PaintProgram, n: nat, w: WalkerState, side: Side, name: Bytes)
    requires Written(p, n, if side.Stroking? then "CS" else "cs")
    requires |p.records[n].operands| == 1 && IsNameOperand(p.source, p.records[n], 0, name)
    ensures StepOf(p, n, w).Ok?
    ensures var (op, after) := StepOf(p, n, w).value;
      op.kind.SetColor? && op.kind.side == side && op.state == after.state
      && OnlyColorChanged(w, after, side, op.kind.color)
      && Selects(p.env.colorSpaces, name, p.records[n].range, op.kind.color)
  {
    hide InstructionOf, NameOperand, SelectedColor, Selects;
    var token := if side.Stroking? then "CS" else "cs";
    OtherOperatorsExactly(token);
    StepIsEvent(p, n, w, token);
    NameOperandExactly(p.source, token, p.records[n], name);
    SelectedColorMeans(p.env, name, p.records[n].range);
  }

  /**
   * `SC`, `SCN`, `sc`, `scn`: numbers in operand order and then at most one name; the numbers replace the
   * components of the side's colour, the name its resource name, and the space stays.
   */
  lemma SetComponentsMeans(p: PaintProgram, n: nat, w: WalkerState, token: Bytes, side: Side, components: seq<real>,
                           name: Option<Bytes>)
    requires token in (if side.Stroking? then ["SC", "SCN"] else ["sc", "scn"]) && Written(p, n, token)
    requires |components| + (if name.Some? then 1 else 0) == |p.records[n].operands|
    requires forall k | 0 <= k < |components| ::
      IsNumberOperand(p.env.floats, p.source, p.records[n], k, components[k])
    requires name.Some? ==> IsNameOperand(p.source, p.records[n], |components|, name.value)
    ensures StepOf(p, n, w).Ok?
    ensures var (op, after) := StepOf(p, n, w).value;
      var before := if side.Stroking? then w.state.strokingColor else w.state.nonstrokingColor;
      op.kind.SetColor? && op.kind.side == side && op.state == after.state
      && OnlyColorChanged(w, after, side, op.kind.color)
      && op.kind.color == GraphicsColor(before.space, components, if name.Some? then name else before.resourceName,
                                        before.spotName, before.spotNames, Some(p.records[n].range))
  {
    hide InstructionOf, ColorOperandsFrom;
    OtherOperatorsExactly(token);
    StepIsEvent(p, n, w, token);
    ColorOperandsExactly(p.env.floats, p.source, token, p.records[n], 0, components, name);
  }

  // ---- Text state ----------------------------------------------------------

  /** The number `Tr` is given for a mode. */
  function PdfMode(mode: TextRenderingMode): int {
    match mode
    case FillText => 0
    case StrokeText => 1
    case FillThenStrokeText => 2
    case InvisibleText => 3
    case UnsupportedMode(value) => value
  }

  /**
   * `Tr`: accepted exactly with one whole number of 32 bits; the new mode is the one of that number, modes 0
   * and 2 fill, modes 1 and 2 stroke, and no other does either.
   */
  lemma RenderingModeMeans(p: PaintProgram, n: nat, w: WalkerState, value: int)
    requires Written(p, n, "Tr")
    ensures var step := StepOf(p, n, w);
      step.Ok? && PdfMode(step.value.1.state.textRenderingMode) == value
      <==> |p.records[n].operands| == 1 && -0x8000_0000 <= value < 0x8000_0000
           && ReadsAs(p.env.floats, p.source, p.records[n], 0, value as real)
    ensures StepOf(p, n, w).Ok? ==>
      var (op, after) := StepOf(p, n, w).value;
      var mode := after.state.textRenderingMode;
      op.kind == SetTextRenderingMode(mode) && op.state == after.state
      && after == w.(state := w.state.(textRenderingMode := mode))
      && (mode.UnsupportedMode? ==> !(0 <= PdfMode(mode) <= 3))
      && (mode.UsesFill() <==> PdfMode(mode) in {0, 2}) && (mode.UsesStroke() <==> PdfMode(mode) in {1, 2})
  {
    hide InstructionOf, IntegerOperand;
    OtherOperatorsExactly("Tr");
    StepIsEvent(p, n, w, "Tr");
    IntegerOperandExactly(p.env.floats, p.source, "Tr", p.records[n], value);
    var read := IntegerOperand(p.env.floats, p.source, "Tr", p.records[n]);
    if read.Ok? {
      assert PdfMode(ModeFromPdf(read.value)) == read.value;
    }
  }

  /**
   * `Tf`: a name and a number; the font is kept by name without a font environment, is the binding the name
   * spells where there is a resolved one, and unknown otherwise.
   */
  lemma FontMeans(p: PaintProgram, n: nat, w: WalkerState, name: Bytes, size: real)
    requires Written(p, n, "Tf") && |p.records[n].operands| == 2
    requires IsNameOperand(p.source, p.records[n], 0, name) && ReadsAs(p.env.floats, p.source, p.records[n], 1, size)
    ensures StepOf(p, n, w).Ok?
    ensures var (op, after) := StepOf(p, n, w).value;
      var font := after.state.fontSelection;
      op.kind == SetFont(name, size) && op.state == after.state
      && after == w.(state := w.state.(fontSelection := font))
      && (p.env.fonts.Disabled? ==> font == Selected(name, size))
      && (!p.env.fonts.Disabled? ==> !font.Selected? && !font.Unset?)
      && forall f: ResolvedFont ::
           font == ResolvedIndirect(f.objectNumber, f.generation, f.objectByteOffset, size)
           <==> BindsTo(p.env.fonts, name, ResolvedTo(f))
  {
    hide InstructionOf, FontOperands, ResolveFont;
    OtherOperatorsExactly("Tf");
    StepIsEvent(p, n, w, "Tf");
    FontOperandsExactly(p.env.floats, p.source, "Tf", p.records[n], name, size);
    forall f: ResolvedFont
      ensures ResolveFont(p.env.fonts, name) == Some(ResolvedTo(f)) <==> BindsTo(p.env.fonts, name, ResolvedTo(f))
    {
      ResolveFontExactly(p.env.fonts, name, ResolvedTo(f));
    }
  }

  // ---- Extended graphics states --------------------------------------------

  ghost predicate FirstGsNamed(resources: seq<ExtGStateResource>, name: Bytes, i: nat) {
    i < |resources| && resources[i].name == name && forall j | 0 <= j < i :: resources[j].name != name
  }

  lemma {:induction false} ResolveExtGStateExactly(resources: seq<ExtGStateResource>, name: Bytes, i: nat)
    ensures FirstGsNamed(resources, name, i) ==> ResolveExtGState(resources, name) == Some(resources[i])
    ensures (forall j | 0 <= j < |resources| :: resources[j].name != name) ==>
      ResolveExtGState(resources, name) == None
    decreases |resources|
  {
    if resources != [] {
      assert FirstGsNamed(resources, name, i) && i > 0 ==> FirstGsNamed(resources[1..], name, i - 1);
      ResolveExtGStateExactly(resources[1..], name, if i > 0 then i - 1 else 0);
    }
  }

  /** A parameter a dictionary carries replaces the current one; an absent one leaves it. */
  ghost predicate Overrides<T>(current: GsParam<T>, carried: GsParam<T>, after: GsParam<T>) {
    after == if carried == Default then current else carried
  }

  ghost predicate OverridesAll(current: GsParams, carried: GsParams, after: GsParams) {
    Overrides(current.overprintStroke, carried.overprintStroke, after.overprintStroke)
    && Overrides(current.overprintFill, carried.overprintFill, after.overprintFill)
    && Overrides(current.overprintMode, carried.overprintMode, after.overprintMode)
    && Overrides(current.strokeAlpha, carried.strokeAlpha, after.strokeAlpha)
    && Overrides(current.fillAlpha, carried.fillAlpha, after.fillAlpha)
    && Overrides(current.blendMode, carried.blendMode, after.blendMode)
    && Overrides(current.softMask, carried.softMask, after.softMask)
  }

  ghost predicate Unknown<T>(param: GsParam<T>) { param.Unresolved? }

  ghost predicate AllUnknown(params: GsParams) {
    Unknown(params.overprintStroke) && Unknown(params.overprintFill) && Unknown(params.overprintMode)
    && Unknown(params.strokeAlpha) && Unknown(params.fillAlpha) && Unknown(params.blendMode) && Unknown(params.softMask)
  }

  /** The font a `gs` leaves: untouched or chosen only where its first resource says so and fonts are modelled. */
  ghost predicate GsFont(p: PaintProgram, directive: ExtGStateFontDirective, before: FontSelectionState<real>,
                         after: FontSelectionState<real>) {
    if !p.env.fonts.Disabled? && directive == LeaveUnchanged then after == before
    else if !p.env.fonts.Disabled? && directive.Select? && directive.size.Finite?
    then after == ResolvedIndirect(directive.font.objectNumber, directive.font.generation,
                                   directive.font.objectByteOffset, directive.size.value)
    else after == Indeterminate
  }

  /**
   * `gs`: one name. The first resource of that name layers the parameters it carries over the current ones
   * and decides the font; a name without a resource makes the font unknown, and all seven parameters too,
   * unless there are no resources at all.
   */
  lemma GsMeans(p: PaintProgram, n: nat, w: WalkerState, name: Bytes)
    requires Written(p, n, "gs")
    requires |p.records[n].operands| == 1 && IsNameOperand(p.source, p.records[n], 0, name)
    ensures StepOf(p, n, w).Ok?
    ensures var (op, after) := StepOf(p, n, w).value;
      op.kind == SetExtGState(name) && op.state == after.state
      && after == w.(state := w.state.(fontSelection := after.state.fontSelection, extGState := after.state.extGState))
    ensures var (op, after) := StepOf(p, n, w).value;
      var resources := p.env.extGStates;
      (forall i: nat | FirstGsNamed(resources, name, i) ::
         OverridesAll(w.state.extGState, resources[i].params, after.state.extGState)
         && GsFont(p, resources[i].font, w.state.fontSelection, after.state.fontSelection))
      && ((forall j | 0 <= j < |resources| :: resources[j].name != name) ==>
            after.state.fontSelection == Indeterminate
            && if resources == [] then after.state.extGState == w.state.extGState
               else AllUnknown(after.state.extGState))
  {
    hide InstructionOf, NameOperand, ResolveExtGState;
    OtherOperatorsExactly("gs");
    StepIsEvent(p, n, w, "gs");
    NameOperandExactly(p.source, "gs", p.records[n], name);
    var resources := p.env.extGStates;
    forall i: nat | FirstGsNamed(resources, name, i) ensures ResolveExtGState(resources, name) == Some(resources[i]) {
      ResolveExtGStateExactly(resources, name, i);
    }
    ResolveExtGStateExactly(resources, name, 0);
  }

  // ---- Operators that leave the state alone --------------------------------

  /** Painting takes no operands, and is reported as the kind it is spelled as. */
  lemma PaintMeans(p: PaintProgram, n: nat, w: WalkerState, d: PaintSpelling)
    requires d in PAINT_OPERATORS && Written(p, n, d.token)
    ensures StepOf(p, n, w).Ok? <==> p.records[n].operands == []
    ensures StepOf(p, n, w).Ok? ==>
      var (op, after) := StepOf(p, n, w).value;
      after == w && op.state == w.state && op.kind == PathPaint(d.paint)
      && d.paint.UsesStroke() == d.strokes && d.paint.UsesFill() == d.fills
  {
    hide InstructionOf;
    var i :| 0 <= i < |PAINT_OPERATORS| && PAINT_OPERATORS[i] == d;
    ListedOperatorPaints(i);
    StepIsEvent(p, n, w, d.token);
  }

  /** Showing text takes the operands of its operator, and reports the rendering mode it is shown in. */
  lemma ShowMeans(p: PaintProgram, n: nat, w: WalkerState, d: ShowSpelling)
    requires d in SHOW_OPERATORS && Written(p, n, d.token)
    ensures StepOf(p, n, w).Ok? <==> |p.records[n].operands| == d.operands
    ensures StepOf(p, n, w).Ok? ==>
      var (op, after) := StepOf(p, n, w).value;
      after == w && op.state == w.state && op.kind == TextShow(d.show, w.state.textRenderingMode)
  {
    hide InstructionOf;
    ShowOperatorsExactly(d.token, d.show, d.operands);
    StepIsEvent(p, n, w, d.token);
  }

  /** `Do` takes one name and reports it. */
  lemma InvokeMeans(p: PaintProgram, n: nat, w: WalkerState, name: Bytes)
    requires Written(p, n, "Do")
    ensures StepOf(p, n, w).Ok? && StepOf(p, n, w).value.0.kind == XObjectInvoke(name)
      <==> |p.records[n].operands| == 1 && IsNameOperand(p.source, p.records[n], 0, name)
    ensures StepOf(p, n, w).Ok? ==> StepOf(p, n, w).value.0.kind.XObjectInvoke? && StepOf(p, n, w).value.1 == w
  {
    hide InstructionOf, NameOperand;
    OtherOperatorsExactly("Do");
    StepIsEvent(p, n, w, "Do");
    NameOperandExactly(p.source, "Do", p.records[n], name);
  }

  /** `q` saves the state, `Q` puts the last saved one back, and neither takes operands. */
  lemma SaveAndRestoreMean(p: PaintProgram, n: nat, w: WalkerState)
    ensures Written(p, n, "q") ==>
      (StepOf(p, n, w).Ok? <==> p.records[n].operands == [])
      && (StepOf(p, n, w).Ok? ==>
            StepOf(p, n, w).value.0.kind == Save
            && StepOf(p, n, w).value.1 == WalkerState(w.state, w.stack + [w.state]))
    ensures Written(p, n, "Q") ==>
      (StepOf(p, n, w).Ok? <==> p.records[n].operands == [] && w.stack != [])
      && (StepOf(p, n, w).Ok? ==>
            StepOf(p, n, w).value.0.kind == Restore
            && w.stack == StepOf(p, n, w).value.1.stack + [StepOf(p, n, w).value.1.state])
  {
    hide InstructionOf;
    OtherOperatorsExactly("q");
    OtherOperatorsExactly("Q");
    if Written(p, n, "q") {
      StepIsEvent(p, n, w, "q");
    }
    if Written(p, n, "Q") {
      StepIsEvent(p, n, w, "Q");
    }
  }

  /** Any other operator is reported and does nothing, whatever its operands. */
  lemma OtherMeans(p: PaintProgram, n: nat, w: WalkerState, token: Bytes)
    requires Written(p, n, token) && InstructionOf(token) == OtherInstruction
    ensures StepOf(p, n, w).Ok? && StepOf(p, n, w).value.1 == w && StepOf(p, n, w).value.0.kind == NoOp
  {
    hide InstructionOf;
    StepIsEvent(p, n, w, token);
  }

  /** Every event names its record, shows the state after it, and agrees with that state. */
  lemma EventsTellTheState(p: PaintProgram, n: nat, w: WalkerState)
    requires n < |p.records| && StepOf(p, n, w).Ok?
    ensures var (op, after) := StepOf(p, n, w).value;
      op.index == n && op.operatorRange == p.records[n].operator && op.recordRange == p.records[n].range
      && op.state == after.state
      && (op.kind.SetColor? ==>
            op.kind.color == if op.kind.side.Stroking? then op.state.strokingColor else op.state.nonstrokingColor)
      && (op.kind.SetTextRenderingMode? ==> op.kind.mode == op.state.textRenderingMode)
      && (op.kind.TextShow? ==> op.kind.renderingMode == op.state.textRenderingMode)
  {
  }

  // ---- The state a page starts in ------------------------------------------

  /** Every point stays, both colours are black in the grey space with no operator to thank, text is filled. */
  lemma PageStartsPlain(x: real, y: real)
    ensures TransformX(PAGE_DEFAULT.ctm, x, y) == x && TransformY(PAGE_DEFAULT.ctm, x, y) == y
    ensures PAGE_DEFAULT.strokingColor == PAGE_DEFAULT.nonstrokingColor
    ensures var color := PAGE_DEFAULT.strokingColor;
      color.source.None? && color.resourceName.None?
      && StartsAt(ColorSpaceResource([], DeviceGray, None, []), color.components) && color.space == DeviceGray
      && NamesSpots(ColorSpaceResource([], DeviceGray, None, []), color)
    ensures PdfMode(PAGE_DEFAULT.textRenderingMode) == 0 && PAGE_DEFAULT.fontSelection == Unset
    ensures forall current, after: GsParams | OverridesAll(current, PAGE_DEFAULT.extGState, after) :: after == current
  {
  }
}
