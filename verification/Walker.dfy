/** The graphics-state walker as a function of values: one operator record, one state, one event (walker.rs). */
module Walker {
  import opened Basics
  import opened PaintTypes
  import opened FontEnvs
  import opened ExtGStates
  import opened Operands

  // ---- Environments and state ----------------------------------------------

  datatype ColorSpaceResource = ColorSpaceResource(
    name: Bytes, space: ColorSpace, componentCount: Option<nat>, spotNames: seq<Bytes>)
  {
    predicate HasColorants() { space.Separation? || space.DeviceN? }

    function SpotName(): Option<Bytes> {
      if HasColorants() && spotNames != [] then Some(spotNames[0]) else None
    }

    function ReportedSpotNames(): seq<Bytes> {
      if HasColorants() then spotNames else []
    }

    function InitialColor(): seq<real> {
      match space
      case DeviceGray => [0.0]
      case DeviceRgb => [0.0, 0.0, 0.0]
      case DeviceCmyk => [0.0, 0.0, 0.0, 1.0]
      case Separation | DeviceN => seq(if componentCount.Some? then componentCount.value else 1, _ => 1.0)
      case _ => seq(if componentCount.Some? then componentCount.value else 0, _ => 0.0)
    }
  }

  /** The resources a content stream resolves names against, and the platform's float conversions. */
  datatype Environment = Environment(
    colorSpaces: seq<ColorSpaceResource>, extGStates: seq<ExtGStateResource>, fonts: FontEnv, floats: Floats)

  /** Colour of one side. `source` is the record range of the operator that set it. */
  datatype GraphicsColor = GraphicsColor(
    space: ColorSpace, components: seq<real>, resourceName: Option<Bytes>,
    spotName: Option<Bytes>, spotNames: seq<Bytes>, source: Option<ByteRange>)

  datatype Snapshot = Snapshot(
    ctm: Matrix, strokingColor: GraphicsColor, nonstrokingColor: GraphicsColor,
    textRenderingMode: TextRenderingMode, fontSelection: FontSelectionState<real>, extGState: GsParams)

  const DEFAULT_COLOR := GraphicsColor(DeviceGray, [0.0], None, None, [], None)

  const PAGE_DEFAULT := Snapshot(IDENTITY, DEFAULT_COLOR, DEFAULT_COLOR, FillText, Unset, NO_PARAMS)

  /** Current state and the save stack, innermost save last. */
  datatype WalkerState = WalkerState(state: Snapshot, stack: seq<Snapshot>)

  datatype Side = Stroking | Nonstroking

  function SideColor(state: Snapshot, side: Side): GraphicsColor {
    match side
    case Stroking => state.strokingColor
    case Nonstroking => state.nonstrokingColor
  }

  function WithColor(state: Snapshot, side: Side, color: GraphicsColor): Snapshot {
    match side
    case Stroking => state.(strokingColor := color)
    case Nonstroking => state.(nonstrokingColor := color)
  }

  datatype PaintOpKind =
    | Save
    | Restore
    | SetMatrix(matrix: Matrix)
    | SetColor(side: Side, color: GraphicsColor)
    | PathPaint(paint: PathPaintKind)
    | SetTextRenderingMode(mode: TextRenderingMode)
    | SetFont(fontName: Bytes, size: real)
    | TextShow(operator: TextShowOperator, renderingMode: TextRenderingMode)
    | XObjectInvoke(name: Bytes)
    | SetExtGState(gsName: Bytes)
    | NoOp

  /** One event: the operator's place in the stream, what it meant, and the state after it. */
  datatype PaintOp = PaintOp(index: nat, operatorRange: ByteRange, recordRange: ByteRange, kind: PaintOpKind,
                             state: Snapshot)

  // ---- Operators -----------------------------------------------------------

  /** The three families of colour operators. */
  datatype ColorOperator =
    | Device(space: ColorSpace, count: nat, side: Side)
    | SelectSpace(side: Side)
    | SetComponents(side: Side)

  datatype Instruction =
    | ColorInstruction(color: ColorOperator)
    | SaveInstruction
    | RestoreInstruction
    | MatrixInstruction
    | TextModeInstruction
    | FontInstruction
    | PaintInstruction(paint: PathPaintKind)
    | ShowInstruction(operator: TextShowOperator, operands: nat)
    | InvokeInstruction
    | GsInstruction
    | OtherInstruction

  /** Meaning of an operator token. Every supported operator has one, two or three bytes. */
  function InstructionOf(operator: Bytes): Instruction {
    if |operator| == 1 then OneByteInstruction(operator[0])
    else if |operator| == 2 then TwoByteInstruction(operator[0], operator[1])
    else if |operator| == 3 then ThreeByteInstruction(operator[0], operator[1], operator[2])
    else OtherInstruction
  }

  function OneByteInstruction(a: char): Instruction {
    match a
    case 'G' => ColorInstruction(Device(DeviceGray, 1, Stroking))
    case 'g' => ColorInstruction(Device(DeviceGray, 1, Nonstroking))
    case 'K' => ColorInstruction(Device(DeviceCmyk, 4, Stroking))
    case 'k' => ColorInstruction(Device(DeviceCmyk, 4, Nonstroking))
    case 'q' => SaveInstruction
    case 'Q' => RestoreInstruction
    case 'S' => PaintInstruction(StrokePath)
    case 's' => PaintInstruction(CloseAndStroke)
    case 'f' => PaintInstruction(FillNonzero)
    case 'F' => PaintInstruction(FillObsolete)
    case 'B' => PaintInstruction(FillAndStrokeNonzero)
    case 'b' => PaintInstruction(CloseFillAndStrokeNonzero)
    case 'n' => PaintInstruction(EndPath)
    case '\'' => ShowInstruction(MoveNextLineAndShowText, 1)
    case '"' => ShowInstruction(SetSpacingMoveNextLineAndShowText, 3)
    case _ => OtherInstruction
  }

  function TwoByteInstruction(a: char, b: char): Instruction {
    match (a, b)
    case ('R', 'G') => ColorInstruction(Device(DeviceRgb, 3, Stroking))
    case ('r', 'g') => ColorInstruction(Device(DeviceRgb, 3, Nonstroking))
    case ('C', 'S') => ColorInstruction(SelectSpace(Stroking))
    case ('c', 's') => ColorInstruction(SelectSpace(Nonstroking))
    case ('S', 'C') => ColorInstruction(SetComponents(Stroking))
    case ('s', 'c') => ColorInstruction(SetComponents(Nonstroking))
    case ('c', 'm') => MatrixInstruction
    case ('T', 'r') => TextModeInstruction
    case ('T', 'f') => FontInstruction
    case ('f', '*') => PaintInstruction(FillEvenOdd)
    case ('B', '*') => PaintInstruction(FillAndStrokeEvenOdd)
    case ('b', '*') => PaintInstruction(CloseFillAndStrokeEvenOdd)
    case ('T', 'j') => ShowInstruction(ShowText, 1)
    case ('T', 'J') => ShowInstruction(ShowTextAdjusted, 1)
    case ('D', 'o') => InvokeInstruction
    case ('g', 's') => GsInstruction
    case _ => OtherInstruction
  }

  function ThreeByteInstruction(a: char, b: char, c: char): Instruction {
    match (a, b, c)
    case ('S', 'C', 'N') => ColorInstruction(SetComponents(Stroking))
    case ('s', 'c', 'n') => ColorInstruction(SetComponents(Nonstroking))
    case _ => OtherInstruction
  }

  // ---- Colour operators ----------------------------------------------------

  function ResolveColorSpace(resources: seq<ColorSpaceResource>, name: Bytes): Option<ColorSpaceResource> {
    if resources == [] then None
    else if resources[0].name == name then Some(resources[0])
    else ResolveColorSpace(resources[1..], name)
  }

  function SelectedColor(env: Environment, name: Bytes, range: ByteRange): GraphicsColor {
    match ResolveColorSpace(env.colorSpaces, name)
    case None => GraphicsColor(Resource(name), [], Some(name), None, [], Some(range))
    case Some(r) =>
      GraphicsColor(r.space, r.InitialColor(), Some(name), r.SpotName(), r.ReportedSpotNames(), Some(range))
  }

  /** The colour an operator establishes on its side, given that side's current colour. */
  function EstablishedColor(env: Environment, source: Bytes, operator: Bytes, record: OperatorRecord,
                            c: ColorOperator, current: GraphicsColor): Fallible<GraphicsColor> {
    match c
    case Device(space, count, _) =>
      var components :- NumericOperands(env.floats, source, operator, record, count);
      Ok(GraphicsColor(space, components, None, None, [], Some(record.range)))
    case SelectSpace(_) =>
      var name :- NameOperand(source, operator, record);
      Ok(SelectedColor(env, name, record.range))
    case SetComponents(_) =>
      var (components, pattern) :- ColorOperandsFrom(env.floats, source, operator, record, 0);
      Ok(current.(components := components,
                  resourceName := if pattern.Some? then pattern else current.resourceName,
                  source := Some(record.range)))
  }

  // ---- Other operators -----------------------------------------------------

  function ModeFromPdf(value: int): TextRenderingMode {
    if value == 0 then FillText
    else if value == 1 then StrokeText
    else if value == 2 then FillThenStrokeText
    else if value == 3 then InvisibleText
    else UnsupportedMode(value)
  }

  function ResolvedSelection(font: ResolvedFont, size: real): FontSelectionState<real> {
    ResolvedIndirect(font.objectNumber, font.generation, font.objectByteOffset, size)
  }

  /** Font selection after `Tf`. */
  function FontAfterTf(env: Environment, name: Bytes, size: real): FontSelectionState<real> {
    if env.fonts.Disabled? then Selected(name, size)
    else match ResolveFont(env.fonts, name)
      case Some(ResolvedTo(font)) => ResolvedSelection(font, size)
      case _ => Indeterminate
  }

  /** Font selection after `gs`. */
  function FontAfterGs(env: Environment, name: Bytes, current: FontSelectionState<real>): FontSelectionState<real> {
    if env.fonts.Disabled? then Indeterminate
    else match ResolveExtGState(env.extGStates, name)
      case None => Indeterminate
      case Some(resource) =>
        match resource.font
        case LeaveUnchanged => current
        case Select(font, Finite(size)) => ResolvedSelection(font, size)
        case Select(_, NonFinite) => Indeterminate
        case UnknownFont => Indeterminate
  }

  function StateAfterGs(env: Environment, name: Bytes, state: Snapshot): Snapshot {
    state.(fontSelection := FontAfterGs(env, name, state.fontSelection),
           extGState := GsEffect(env.extGStates, name, state.extGState))
  }

  // ---- The step ------------------------------------------------------------

  /** Event and state of one record whose operator is known; `operator` is kept for error reports. */
  function EventKind(env: Environment, source: Bytes, operator: Bytes, instruction: Instruction,
                     record: OperatorRecord, w: WalkerState): Fallible<(PaintOpKind, WalkerState)> {
    match instruction
    case ColorInstruction(c) =>
      var color :- EstablishedColor(env, source, operator, record, c, SideColor(w.state, c.side));
      Ok((SetColor(c.side, color), w.(state := WithColor(w.state, c.side, color))))
    case SaveInstruction =>
      var _ :- ExpectOperands(operator, record, 0);
      Ok((Save, w.(stack := w.stack + [w.state])))
    case RestoreInstruction =>
      var _ :- ExpectOperands(operator, record, 0);
      if w.stack == [] then Err(GraphicsWalkError(GraphicsStateStackUnderflow, record.range))
      else Ok((Restore, WalkerState(w.stack[|w.stack| - 1], w.stack[..|w.stack| - 1])))
    case MatrixInstruction =>
      var matrix :- MatrixOperand(env.floats, source, operator, record);
      Ok((SetMatrix(matrix), w.(state := w.state.(ctm := ConcatMatrix(matrix, w.state.ctm)))))
    case TextModeInstruction =>
      var value :- IntegerOperand(env.floats, source, operator, record);
      Ok((SetTextRenderingMode(ModeFromPdf(value)), w.(state := w.state.(textRenderingMode := ModeFromPdf(value)))))
    case FontInstruction =>
      var (name, size) :- FontOperands(env.floats, source, operator, record);
      Ok((SetFont(name, size), w.(state := w.state.(fontSelection := FontAfterTf(env, name, size)))))
    case PaintInstruction(paint) =>
      var _ :- ExpectOperands(operator, record, 0);
      Ok((PathPaint(paint), w))
    case ShowInstruction(show, operands) =>
      var _ :- ExpectOperands(operator, record, operands);
      Ok((TextShow(show, w.state.textRenderingMode), w))
    case InvokeInstruction =>
      var name :- NameOperand(source, operator, record);
      Ok((XObjectInvoke(name), w))
    case GsInstruction =>
      var name :- NameOperand(source, operator, record);
      Ok((SetExtGState(name), w.(state := StateAfterGs(env, name, w.state))))
    case OtherInstruction =>
      Ok((NoOp, w))
  }

  /** Bytes of the operator token, once both ranges of the record are known to address the source. */
  function OperatorBytes(source: Bytes, record: OperatorRecord): Fallible<Bytes> {
    var _ :- CheckedSource(source, record.range, record.range);
    CheckedSource(source, record.operator, record.range)
  }

  function Step(env: Environment, source: Bytes, index: nat, record: OperatorRecord,
                w: WalkerState): Fallible<(PaintOp, WalkerState)> {
    var operator :- OperatorBytes(source, record);
    var (kind, after) :- EventKind(env, source, operator, InstructionOf(operator), record, w);
    Ok((PaintOp(index, record.operator, record.range, kind, after.state), after))
  }

  // ---- Programs ------------------------------------------------------------

  /** Replayable descriptor of a paint program: it carries no walk state. */
  datatype PaintProgram = PaintProgram(source: Bytes, records: seq<OperatorRecord>, env: Environment)

  type Item = Fallible<PaintOp>

  /** What the fused iterator yields from record `index` on: ops, then at most one error, then nothing. */
  function Items(program: PaintProgram, index: nat, w: WalkerState): (items: seq<Item>)
    decreases |program.records| - index
  {
    if index >= |program.records| then []
    else match Step(program.env, program.source, index, program.records[index], w)
      case Err(e) => [Err(e)]
      case Ok((op, after)) => [Ok(op)] + Items(program, index + 1, after)
  }

  /** A fresh walk: local save stack empty, state supplied by the caller. */
  function ItemsFrom(program: PaintProgram, seed: Snapshot): seq<Item> {
    Items(program, 0, WalkerState(seed, []))
  }

  /** A stream of items as one result: all the ops, or the error that ends the stream. */
  function Collected(items: seq<Item>): Fallible<seq<PaintOp>> {
    if items == [] then Ok([])
    else
      var first :- items[0];
      var rest :- Collected(items[1..]);
      Ok([first] + rest)
  }

  /** The state after the first `count` records, or the error that stops the walk before that. */
  function Run(program: PaintProgram, seed: Snapshot, count: nat): Fallible<WalkerState>
    requires count <= |program.records|
  {
    if count == 0 then Ok(WalkerState(seed, []))
    else
      var before :- Run(program, seed, count - 1);
      var (op, after) :- Step(program.env, program.source, count - 1, program.records[count - 1], before);
      Ok(after)
  }
}
