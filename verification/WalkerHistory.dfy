/** What a walk's state means in terms of the operators that no `Q` has undone. */
module WalkerHistory {
  import opened Basics
  import opened PaintTypes
  import opened FontEnvs
  import opened ExtGStates
  import opened Operands
  import opened Walker
  import opened SaveNesting

  // ---- Operators as nesting moves ------------------------------------------

  function Opcode(p: PaintProgram, i: nat): Bytes
    requires i < |p.records|
  {
    match OperatorBytes(p.source, p.records[i])
    case Ok(bytes) => bytes
    case Err(_) => []
  }

  function InstructionAt(p: PaintProgram, i: nat): Instruction
    requires i < |p.records|
  {
    InstructionOf(Opcode(p, i))
  }

  function MoveAt(p: PaintProgram, i: nat): Move
    requires i < |p.records|
  {
    match InstructionAt(p, i)
    case SaveInstruction => Push
    case RestoreInstruction => Pop
    case _ => Stay
  }

  /** `q` as push, `Q` as pop, everything else as a plain move. */
  function Moves(p: PaintProgram): (moves: seq<Move>)
    ensures |moves| == |p.records|
  {
    seq(|p.records|, i requires 0 <= i < |p.records| => MoveAt(p, i))
  }

  /** Effect of one record on a snapshot, as if it stood alone. */
  function Effect(p: PaintProgram, i: nat, state: Snapshot): Snapshot
    requires i < |p.records|
  {
    match EventKind(p.env, p.source, Opcode(p, i), InstructionAt(p, i), p.records[i], WalkerState(state, []))
    case Ok((_, after)) => after.state
    case Err(_) => state
  }

  /** Effects of a list of records, applied in order. */
  function Effects(p: PaintProgram, seed: Snapshot, indices: seq<nat>): Snapshot
    requires forall i | 0 <= i < |indices| :: indices[i] < |p.records|
  {
    if indices == [] then seed
    else Effect(p, indices[|indices| - 1], Effects(p, seed, indices[..|indices| - 1]))
  }

  // ---- The save stack ------------------------------------------------------

  /** How the last record moved the state and the save stack. */
  lemma LastStep(p: PaintProgram, seed: Snapshot, n: nat)
    requires 0 < n <= |p.records| && Run(p, seed, n).Ok?
    ensures Run(p, seed, n - 1).Ok?
    ensures var before, after := Run(p, seed, n - 1).value, Run(p, seed, n).value;
      match MoveAt(p, n - 1)
      case Push => after == WalkerState(before.state, before.stack + [before.state])
      case Pop => before == WalkerState(before.state, after.stack + [after.state])
      case Stay => after == WalkerState(Effect(p, n - 1, before.state), before.stack)
  {
    hide EventKind, InstructionOf, Effect, MoveAt;
    var before := Run(p, seed, n - 1).value;
    EventKindMoves(p, n - 1, before);
  }

  lemma EventKindMoves(p: PaintProgram, i: nat, w: WalkerState)
    requires i < |p.records|
    ensures var event := EventKind(p.env, p.source, Opcode(p, i), InstructionAt(p, i), p.records[i], w);
      event.Ok? ==>
        var after := event.value.1;
        match MoveAt(p, i)
        case Push => after == WalkerState(w.state, w.stack + [w.state])
        case Pop => w == WalkerState(w.state, after.stack + [after.state])
        case Stay => after == WalkerState(Effect(p, i, w.state), w.stack)
  {
  }

  ghost function EffectOf(p: PaintProgram): (nat, Snapshot) -> Snapshot {
    (i: nat, state: Snapshot) => if i < |p.records| then Effect(p, i, state) else state
  }

  /** The walker states of a successful walk, one more than its records. */
  ghost function WalkHistory(p: PaintProgram, seed: Snapshot, n: nat): seq<Saved<Snapshot>>
    requires n <= |p.records|
  {
    seq(n + 1, m requires 0 <= m <= n =>
      if Run(p, seed, m).Ok? then AsSaved(Run(p, seed, m).value) else Saved(seed, []))
  }

  lemma {:induction false} RunsBefore(p: PaintProgram, seed: Snapshot, n: nat, m: nat)
    requires m <= n <= |p.records| && Run(p, seed, n).Ok?
    ensures Run(p, seed, m).Ok? && WalkHistory(p, seed, n)[m] == AsSaved(Run(p, seed, m).value)
    decreases n
  {
    hide Step;
    if m < n {
      RunsBefore(p, seed, n - 1, m);
    }
  }

  function AsSaved(w: WalkerState): Saved<Snapshot> { Saved(w.state, w.stack) }

  /** Walks are instances of the general save-and-restore theory. */
  lemma WalkIsHistory(p: PaintProgram, seed: Snapshot, n: nat)
    requires n <= |p.records| && Run(p, seed, n).Ok?
    ensures History(Moves(p), EffectOf(p), WalkHistory(p, seed, n))
    ensures forall m: nat | m <= n ::
      Run(p, seed, m).Ok? && WalkHistory(p, seed, n)[m] == AsSaved(Run(p, seed, m).value)
    ensures WalkHistory(p, seed, n)[0] == Saved(seed, [])
  {
    hide Step, Effect, MoveAt;
    var history := WalkHistory(p, seed, n);
    forall m: nat | m <= n ensures Run(p, seed, m).Ok? && history[m] == AsSaved(Run(p, seed, m).value) {
      RunsBefore(p, seed, n, m);
    }
    assert Run(p, seed, 0) == Ok(WalkerState(seed, []));
    forall i | 0 <= i < n ensures Follows(Moves(p)[i], i, EffectOf(p), history[i], history[i + 1]) {
      LastStep(p, seed, i + 1);
    }
  }

  /** A block between a `q` and its matching `Q`, whatever it does inside, leaves the walker as it was. */
  lemma BalancedBlockRestores(p: PaintProgram, seed: Snapshot, a: nat, b: nat)
    requires b <= |p.records| && Run(p, seed, b).Ok? && Matched(Moves(p), a, b)
    ensures Run(p, seed, a).Ok? && Run(p, seed, b).value == Run(p, seed, a).value
  {
    WalkIsHistory(p, seed, b);
    var history := WalkHistory(p, seed, b);
    PopReturns(Moves(p), EffectOf(p), history, b);
    MatchedOnce(Moves(p), a, SavePoint(Moves(p), b - 1), b);
    assert history[a] == history[b];
  }

  /** Underflow happens at record `n` of a walk that got there exactly when it is a well-formed, unmatched `Q`. */
  lemma UnderflowExactly(p: PaintProgram, seed: Snapshot, n: nat)
    requires n < |p.records| && Run(p, seed, n).Ok?
    ensures Depth(Moves(p), n) >= 0
    ensures var step := Step(p.env, p.source, n, p.records[n], Run(p, seed, n).value);
      step.Err? && step.error.kind.GraphicsStateStackUnderflow?
      <==> InstructionAt(p, n).RestoreInstruction? && p.records[n].operands == [] && Depth(Moves(p), n) == 0
  {
    WalkIsHistory(p, seed, n);
    StackHeightIsDepth(Moves(p), EffectOf(p), WalkHistory(p, seed, n), n);
    assert AtLeast(Moves(p), n, 0);
    OnlyRestoreUnderflows(p.env, p.source, Opcode(p, n), InstructionAt(p, n), p.records[n], Run(p, seed, n).value);
  }

  lemma OnlyRestoreUnderflows(env: Environment, source: Bytes, operator: Bytes, instruction: Instruction,
                              record: OperatorRecord, w: WalkerState)
    ensures var step := EventKind(env, source, operator, instruction, record, w);
      step.Err? && step.error.kind.GraphicsStateStackUnderflow?
      <==> instruction.RestoreInstruction? && record.operands == [] && w.stack == []
  {
    NumbersNeverUnderflow(env.floats, source, operator, record, 0);
    ColorOperandsNeverUnderflow(env.floats, source, operator, record, 0);
  }

  lemma NumbersNeverUnderflow(floats: Floats, source: Bytes, operator: Bytes, record: OperatorRecord, index: nat)
    requires index <= |record.operands|
    ensures var numbers := NumbersFrom(floats, source, operator, record, index);
      numbers.Err? ==> !numbers.error.kind.GraphicsStateStackUnderflow?
    decreases |record.operands| - index
  {
  }

  lemma ColorOperandsNeverUnderflow(floats: Floats, source: Bytes, operator: Bytes, record: OperatorRecord, index: nat)
    requires index <= |record.operands|
    ensures var operands := ColorOperandsFrom(floats, source, operator, record, index);
      operands.Err? ==> !operands.error.kind.GraphicsStateStackUnderflow?
    decreases |record.operands| - index
  {
  }

  /**
   * Main result on `q`/`Q`: at every point of every successful walk the state is the seed with the
   * operators still in force applied in order; everything inside closed `q`...`Q` blocks is void.
   */
  lemma StateIsEffectsInForce(p: PaintProgram, seed: Snapshot, n: nat)
    requires n <= |p.records| && Run(p, seed, n).Ok?
    ensures Run(p, seed, n).value.state == Effects(p, seed, InForce(Moves(p), n))
  {
    WalkIsHistory(p, seed, n);
    StateIsReplay(Moves(p), EffectOf(p), WalkHistory(p, seed, n), n);
    ReplayIsEffects(p, seed, InForce(Moves(p), n));
  }

  lemma {:induction false} ReplayIsEffects(p: PaintProgram, seed: Snapshot, indices: seq<nat>)
    requires forall i | 0 <= i < |indices| :: indices[i] < |p.records|
    ensures Replay(EffectOf(p), seed, indices) == Effects(p, seed, indices)
    decreases |indices|
  {
    if indices != [] {
      ReplayIsEffects(p, seed, indices[..|indices| - 1]);
    }
  }

  // ---- Colours: which operator in force decides which field ----------------

  function LowerByte(b: Byte): Byte {
    if 'A' <= b <= 'Z' then (b as int + 32) as char else b
  }

  function Lower(operator: Bytes): Bytes {
    seq(|operator|, i requires 0 <= i < |operator| => LowerByte(operator[i]))
  }

  function OnSide(c: ColorOperator, side: Side): ColorOperator {
    match c
    case Device(space, count, _) => Device(space, count, side)
    case SelectSpace(_) => SelectSpace(side)
    case SetComponents(_) => SetComponents(side)
  }

  /** Upper-case colour operators set the stroking colour; their lower-case forms do the same to the other side. */
  lemma CaseSelectsSide(operator: Bytes)
    requires InstructionOf(operator).ColorInstruction?
    ensures InstructionOf(operator).color.side == Nonstroking <==> Lower(operator) == operator
    ensures InstructionOf(Lower(operator)) == ColorInstruction(OnSide(InstructionOf(operator).color, Nonstroking))
  {
    assert |Lower(operator)| == |operator|;
    assert forall i | 0 <= i < |operator| :: Lower(operator)[i] == LowerByte(operator[i]);
    if |operator| == 1 {
      assert Lower(operator) == [LowerByte(operator[0])];
    } else if |operator| == 2 {
      assert Lower(operator) == [LowerByte(operator[0]), LowerByte(operator[1])];
    } else {
      assert Lower(operator) == [LowerByte(operator[0]), LowerByte(operator[1]), LowerByte(operator[2])];
    }
  }

  ghost predicate SetsComponents(p: PaintProgram, i: nat, side: Side)
    requires i < |p.records|
  {
    InstructionAt(p, i).ColorInstruction? && InstructionAt(p, i).color.side == side && OwnColor(p, i).Some?
  }

  ghost predicate SetsSpace(p: PaintProgram, i: nat, side: Side)
    requires i < |p.records|
  {
    SetsComponents(p, i, side) && !InstructionAt(p, i).color.SetComponents?
  }

  /** `sc`/`scn` sets the resource name only when its last operand is a pattern name. */
  ghost predicate SetsResourceName(p: PaintProgram, i: nat, side: Side)
    requires i < |p.records|
  {
    SetsSpace(p, i, side) || (SetsComponents(p, i, side) && OwnColor(p, i).value.resourceName.Some?)
  }

  /** The colour a colour operator would establish over a colourless state. */
  function OwnColor(p: PaintProgram, i: nat): Option<GraphicsColor>
    requires i < |p.records|
  {
    if !InstructionAt(p, i).ColorInstruction? then None
    else match EstablishedColor(p.env, p.source, Opcode(p, i), p.records[i], InstructionAt(p, i).color, DEFAULT_COLOR)
      case Ok(color) => Some(color)
      case Err(_) => None
  }

  datatype Field = SpaceField | ComponentsField | ResourceNameField

  ghost predicate Decides(p: PaintProgram, i: nat, side: Side, field: Field)
    requires i < |p.records|
  {
    match field
    case SpaceField => SetsSpace(p, i, side)
    case ComponentsField => SetsComponents(p, i, side)
    case ResourceNameField => SetsResourceName(p, i, side)
  }

  /** Colour of the last operator in the list that decides the field, else the seed's. */
  ghost function LastDeciding(p: PaintProgram, seed: GraphicsColor, side: Side, field: Field,
                              indices: seq<nat>): GraphicsColor
    requires forall i | 0 <= i < |indices| :: indices[i] < |p.records|
  {
    if indices == [] then seed
    else
      var last := indices[|indices| - 1];
      if Decides(p, last, side, field) then OwnColor(p, last).value
      else LastDeciding(p, seed, side, field, indices[..|indices| - 1])
  }

  /** Field by field, which operator the colour of one side comes from. */
  ghost predicate ColorComesFrom(p: PaintProgram, seed: GraphicsColor, side: Side, indices: seq<nat>,
                                 color: GraphicsColor)
    requires forall i | 0 <= i < |indices| :: indices[i] < |p.records|
  {
    var bySpace := LastDeciding(p, seed, side, SpaceField, indices);
    var byComponents := LastDeciding(p, seed, side, ComponentsField, indices);
    var byName := LastDeciding(p, seed, side, ResourceNameField, indices);
    color == GraphicsColor(bySpace.space, byComponents.components, byName.resourceName,
                           bySpace.spotName, bySpace.spotNames, byComponents.source)
  }

  lemma {:induction false} EffectsColor(p: PaintProgram, seed: Snapshot, side: Side, indices: seq<nat>)
    requires forall i | 0 <= i < |indices| :: indices[i] < |p.records|
    ensures ColorComesFrom(p, SideColor(seed, side), side, indices, SideColor(Effects(p, seed, indices), side))
    decreases |indices|
  {
    if indices != [] {
      var last, before := indices[|indices| - 1], indices[..|indices| - 1];
      EffectsColor(p, seed, side, before);
      EffectOnColor(p, last, Effects(p, seed, before), side);
    }
  }

  lemma EffectOnColor(p: PaintProgram, i: nat, state: Snapshot, side: Side)
    requires i < |p.records|
    ensures var color, after := SideColor(state, side), SideColor(Effect(p, i, state), side);
      if !SetsComponents(p, i, side) then after == color
      else
        var own := OwnColor(p, i).value;
        after == if SetsSpace(p, i, side) then own
                 else color.(components := own.components, source := own.source,
                             resourceName := if own.resourceName.Some? then own.resourceName else color.resourceName)
  {
  }

  /**
   * Effective colour: at every point, the space and spot names of each side come from the last
   * space-setting operator in force, components and source from the last colour operator in force.
   */
  lemma EffectiveColor(p: PaintProgram, seed: Snapshot, n: nat, side: Side)
    requires n <= |p.records| && Run(p, seed, n).Ok?
    ensures ColorComesFrom(p, SideColor(seed, side), side, InForce(Moves(p), n),
                           SideColor(Run(p, seed, n).value.state, side))
  {
    StateIsEffectsInForce(p, seed, n);
    EffectsColor(p, seed, side, InForce(Moves(p), n));
  }

  // ---- Text state: the last deciding operator in force ---------------------

  /** The rendering mode a record sets, whatever state it meets; only a well-formed `Tr` sets one. */
  function OwnMode(p: PaintProgram, i: nat): Option<TextRenderingMode>
    requires i < |p.records|
  {
    if !InstructionAt(p, i).TextModeInstruction? then None
    else match IntegerOperand(p.env.floats, p.source, Opcode(p, i), p.records[i])
      case Ok(value) => Some(ModeFromPdf(value))
      case Err(_) => None
  }

  /** The font a record selects, whatever state it meets: `Tf`, or a `gs` that does not leave the font alone. */
  function OwnFont(p: PaintProgram, i: nat): Option<FontSelectionState<real>>
    requires i < |p.records|
  {
    match InstructionAt(p, i)
    case FontInstruction =>
      (match FontOperands(p.env.floats, p.source, Opcode(p, i), p.records[i])
       case Ok((name, size)) => Some(FontAfterTf(p.env, name, size))
       case Err(_) => None)
    case GsInstruction =>
      (match NameOperand(p.source, Opcode(p, i), p.records[i])
       case Ok(name) => if LeavesFont(p.env, name) then None else Some(FontAfterGs(p.env, name, Unset))
       case Err(_) => None)
    case _ => None
  }

  predicate LeavesFont(env: Environment, name: Bytes) {
    !env.fonts.Disabled? && ResolveExtGState(env.extGStates, name).Some?
    && ResolveExtGState(env.extGStates, name).value.font.LeaveUnchanged?
  }

  /** What the last listed record that decides says, else the seed's. */
  ghost function LastSaid<T>(own: nat -> Option<T>, seed: T, indices: seq<nat>): T {
    if indices == [] then seed
    else if own(indices[|indices| - 1]).Some? then own(indices[|indices| - 1]).value
    else LastSaid(own, seed, indices[..|indices| - 1])
  }

  ghost function ModeOf(p: PaintProgram): nat -> Option<TextRenderingMode> {
    (i: nat) => if i < |p.records| then OwnMode(p, i) else None
  }

  ghost function FontOf(p: PaintProgram): nat -> Option<FontSelectionState<real>> {
    (i: nat) => if i < |p.records| then OwnFont(p, i) else None
  }

  lemma EffectOnText(p: PaintProgram, i: nat, state: Snapshot)
    requires i < |p.records|
    ensures Effect(p, i, state).textRenderingMode
      == if OwnMode(p, i).Some? then OwnMode(p, i).value else state.textRenderingMode
    ensures Effect(p, i, state).fontSelection
      == if OwnFont(p, i).Some? then OwnFont(p, i).value else state.fontSelection
  {
  }

  lemma {:induction false} EffectsText(p: PaintProgram, seed: Snapshot, indices: seq<nat>)
    requires forall i | 0 <= i < |indices| :: indices[i] < |p.records|
    ensures Effects(p, seed, indices).textRenderingMode == LastSaid(ModeOf(p), seed.textRenderingMode, indices)
    ensures Effects(p, seed, indices).fontSelection == LastSaid(FontOf(p), seed.fontSelection, indices)
    decreases |indices|
  {
    hide Effect, OwnMode, OwnFont;
    if indices != [] {
      EffectsText(p, seed, indices[..|indices| - 1]);
      EffectOnText(p, indices[|indices| - 1], Effects(p, seed, indices[..|indices| - 1]));
    }
  }

  /** Text state: mode and font are those of the last record in force that sets them, or the seed's. */
  lemma EffectiveTextState(p: PaintProgram, seed: Snapshot, n: nat)
    requires n <= |p.records| && Run(p, seed, n).Ok?
    ensures Run(p, seed, n).value.state.textRenderingMode
      == LastSaid(ModeOf(p), seed.textRenderingMode, InForce(Moves(p), n))
    ensures Run(p, seed, n).value.state.fontSelection
      == LastSaid(FontOf(p), seed.fontSelection, InForce(Moves(p), n))
  {
    StateIsEffectsInForce(p, seed, n);
    EffectsText(p, seed, InForce(Moves(p), n));
  }

  // ---- Matrix and ExtGState composition ------------------------------------

  /** The matrix a record concatenates; the identity for every other record. */
  function MatrixOf(p: PaintProgram, i: nat): Matrix
    requires i < |p.records|
  {
    if !InstructionAt(p, i).MatrixInstruction? then IDENTITY
    else match MatrixOperand(p.env.floats, p.source, Opcode(p, i), p.records[i])
      case Ok(matrix) => matrix
      case Err(_) => IDENTITY
  }

  /** The ExtGState parameters a record applies; none for every record but a well-formed `gs`. */
  function ParamsOf(p: PaintProgram, i: nat): GsParams
    requires i < |p.records|
  {
    if !InstructionAt(p, i).GsInstruction? then NO_PARAMS
    else match NameOperand(p.source, Opcode(p, i), p.records[i])
      case Ok(name) => GsAsParams(p.env.extGStates, name)
      case Err(_) => NO_PARAMS
  }

  function Product(p: PaintProgram, indices: seq<nat>): Matrix
    requires forall i | 0 <= i < |indices| :: indices[i] < |p.records|
  {
    if indices == [] then IDENTITY
    else ConcatMatrix(MatrixOf(p, indices[|indices| - 1]), Product(p, indices[..|indices| - 1]))
  }

  function Composed(p: PaintProgram, indices: seq<nat>): GsParams
    requires forall i | 0 <= i < |indices| :: indices[i] < |p.records|
  {
    if indices == [] then NO_PARAMS
    else Apply(Composed(p, indices[..|indices| - 1]), ParamsOf(p, indices[|indices| - 1]))
  }

  lemma EffectOnMatrixAndParams(p: PaintProgram, i: nat, state: Snapshot)
    requires i < |p.records|
    ensures Effect(p, i, state).ctm == ConcatMatrix(MatrixOf(p, i), state.ctm)
    ensures Effect(p, i, state).extGState == Apply(state.extGState, ParamsOf(p, i))
  {
    ConcatUnit(state.ctm);
    LayeringLaws(state.extGState, NO_PARAMS, NO_PARAMS);
    if InstructionAt(p, i).GsInstruction? && NameOperand(p.source, Opcode(p, i), p.records[i]).Ok? {
      GsIsApplication(p.env.extGStates, NameOperand(p.source, Opcode(p, i), p.records[i]).value, state.extGState);
    }
  }

  lemma {:induction false} EffectsCompose(p: PaintProgram, seed: Snapshot, indices: seq<nat>)
    requires forall i | 0 <= i < |indices| :: indices[i] < |p.records|
    ensures Effects(p, seed, indices).ctm == ConcatMatrix(Product(p, indices), seed.ctm)
    ensures Effects(p, seed, indices).extGState == Apply(seed.extGState, Composed(p, indices))
    decreases |indices|
  {
    if indices == [] {
      ConcatUnit(seed.ctm);
    } else {
      var last, before := indices[|indices| - 1], indices[..|indices| - 1];
      EffectsCompose(p, seed, before);
      EffectOnMatrixAndParams(p, last, Effects(p, seed, before));
      ConcatAssociates(MatrixOf(p, last), Product(p, before), seed.ctm);
      LayeringLaws(seed.extGState, Composed(p, before), ParamsOf(p, last));
    }
  }

  /**
   * Composition over a whole walk: the matrix is the product of the `cm` operands in force applied to
   * the seed, and the seven parameters are one application of the composed `gs` parameters in force.
   */
  lemma MatrixAndParamsCompose(p: PaintProgram, seed: Snapshot, n: nat)
    requires n <= |p.records| && Run(p, seed, n).Ok?
    ensures Run(p, seed, n).value.state.ctm == ConcatMatrix(Product(p, InForce(Moves(p), n)), seed.ctm)
    ensures Run(p, seed, n).value.state.extGState == Apply(seed.extGState, Composed(p, InForce(Moves(p), n)))
  {
    StateIsEffectsInForce(p, seed, n);
    EffectsCompose(p, seed, InForce(Moves(p), n));
  }

  /** Without `q` and `Q` the whole prefix is in force, so both compositions run over every record. */
  lemma StraightLine(p: PaintProgram, seed: Snapshot, n: nat)
    requires n <= |p.records| && Run(p, seed, n).Ok?
    requires forall i | 0 <= i < n :: MoveAt(p, i) == Stay
    ensures Run(p, seed, n).value.state == Effects(p, seed, seq(n, i => i))
    ensures Run(p, seed, n).value.state.ctm == ConcatMatrix(Product(p, seq(n, i => i)), seed.ctm)
    ensures Run(p, seed, n).value.state.extGState == Apply(seed.extGState, Composed(p, seq(n, i => i)))
  {
    StraightLineInForce(Moves(p), n);
    StateIsEffectsInForce(p, seed, n);
    EffectsCompose(p, seed, seq(n, i => i));
  }
}
