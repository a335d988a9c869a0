/** The walker as it runs: reference-counted snapshots, mutated in place only when unshared. */
module SharedWalker {
  import opened Basics
  import opened PaintTypes
  import opened ExtGStates
  import opened FontEnvs
  import opened Operands
  import opened Walker

  /** One `Rc` allocation: a snapshot and its strong count. */
  class SnapshotCell {
    var strong: nat
    var value: Snapshot

    constructor (value: Snapshot)
      ensures strong == 1 && this.value == value
    {
      this.strong := 1;
      this.value := value;
    }
  }

  type Handles = multiset<SnapshotCell>

  /** Every live handle in the program, whoever holds it: walkers, save stacks, emitted ops, callers. */
  class Ledger {
    ghost var handles: Handles

    constructor ()
      ensures handles == multiset{} && Balanced()
    {
      handles := multiset{};
    }

    /** Each strong count is the number of live handles. */
    ghost predicate Balanced()
      reads this, (set c | c in handles)`strong
    {
      forall c | c in handles :: c.strong == handles[c]
    }

    /** `Rc::clone`. */
    method Share(cell: SnapshotCell)
      requires Balanced() && cell in handles
      modifies this, cell`strong
      ensures Balanced() && handles == old(handles) + multiset{cell}
    {
      cell.strong := cell.strong + 1;
      handles := handles + multiset{cell};
    }

    /** Dropping one handle. */
    method Drop(cell: SnapshotCell)
      requires Balanced() && cell in handles
      modifies this, cell`strong
      ensures Balanced() && handles == old(handles) - multiset{cell}
    {
      cell.strong := cell.strong - 1;
      handles := handles - multiset{cell};
    }

    /** `Rc::new`. */
    method Allocate(value: Snapshot) returns (cell: SnapshotCell)
      requires Balanced()
      modifies this
      ensures Balanced() && fresh(cell) && cell.value == value && handles == old(handles) + multiset{cell}
    {
      cell := new SnapshotCell(value);
      handles := handles + multiset{cell};
    }
  }

  /** An emitted event; its snapshot is shared, not copied. */
  datatype SharedOp = SharedOp(index: nat, operatorRange: ByteRange, recordRange: ByteRange, kind: PaintOpKind,
                               state: SnapshotCell)

  function Observed(op: SharedOp): PaintOp
    reads op.state`value
  {
    PaintOp(op.index, op.operatorRange, op.recordRange, op.kind, op.state.value)
  }

  /** The handles a walker holds: its current state and every saved one. */
  ghost function Held(state: SnapshotCell, stack: seq<SnapshotCell>): Handles {
    multiset{state} + multiset(stack)
  }

  ghost predicate Mirrors(cells: seq<SnapshotCell>, values: seq<Snapshot>)
    reads (set c | c in cells)`value
  {
    |cells| == |values| && forall i | 0 <= i < |cells| :: cells[i].value == values[i]
  }

  lemma HeldMembers(state: SnapshotCell, stack: seq<SnapshotCell>)
    ensures state in Held(state, stack) && forall i | 0 <= i < |stack| :: stack[i] in Held(state, stack)
  {
  }

  /** A cell with one handle in all is held by nobody else and is not on the save stack. */
  lemma SoleHandle(others: Handles, state: SnapshotCell, stack: seq<SnapshotCell>)
    requires (others + Held(state, stack))[state] == 1
    ensures state !in stack && state !in others
  {
    assert Held(state, stack)[state] == 1 + multiset(stack)[state];
  }

  /** A handle nobody held before is counted once. */
  lemma NewHandle(others: Handles, state: SnapshotCell, copy: SnapshotCell, stack: seq<SnapshotCell>)
    requires copy !in others + Held(state, stack)
    ensures (others + Held(copy, stack))[copy] == 1
  {
    assert copy !in others && copy !in Held(state, stack);
    assert Held(copy, stack)[copy] == 1 + multiset(stack)[copy];
    assert multiset(stack)[copy] <= Held(state, stack)[copy];
  }

  lemma PushHandles(others: Handles, state: SnapshotCell, stack: seq<SnapshotCell>)
    ensures others + Held(state, stack) + multiset{state} == others + Held(state, stack + [state])
  {
  }

  lemma PopHandles(others: Handles, state: SnapshotCell, stack: seq<SnapshotCell>)
    requires stack != []
    ensures var n := |stack| - 1;
      others + Held(state, stack) - multiset{state} == others + Held(stack[n], stack[..n])
      && forall c | c in Held(stack[n], stack[..n]) :: c in Held(state, stack)
  {
    var n := |stack| - 1;
    assert stack == stack[..n] + [stack[n]];
  }

  lemma ReplaceHandles(others: Handles, state: SnapshotCell, copy: SnapshotCell,
                       stack: seq<SnapshotCell>)
    ensures others + Held(state, stack) - multiset{state} + multiset{copy} == others + Held(copy, stack)
  {
  }

  lemma EmitHandles(others: Handles, state: SnapshotCell, stack: seq<SnapshotCell>)
    ensures others + Held(state, stack) + multiset{state} == others + multiset{state} + Held(state, stack)
  {
  }

  lemma ReleaseStart(all: Handles, state: SnapshotCell, stack: seq<SnapshotCell>)
    requires Held(state, stack) <= all
    ensures state in all && all - multiset{state} == all - Held(state, stack[..0])
  {
    HeldMembers(state, stack);
  }

  lemma ReleaseNext(all: Handles, state: SnapshotCell, stack: seq<SnapshotCell>, i: nat)
    requires Held(state, stack) <= all && i < |stack|
    ensures stack[i] in all - Held(state, stack[..i])
    ensures all - Held(state, stack[..i]) - multiset{stack[i]} == all - Held(state, stack[..i + 1])
  {
    assert stack[..i + 1] == stack[..i] + [stack[i]] && stack == stack[..i + 1] + stack[i + 1..];
    assert Held(state, stack) == Held(state, stack[..i]) + multiset{stack[i]} + multiset(stack[i + 1..]);
  }

  class GraphicsStateWalker {
    var state: SnapshotCell
    var stack: seq<SnapshotCell>
    const env: Environment
    const ledger: Ledger

    /** The walker's value: what a walker without sharing would hold. */
    ghost var view: WalkerState

    /** Handles held by everyone else. */
    ghost var others: Handles

    ghost function Own(): Handles
      reads this`state, this`stack
    {
      Held(state, stack)
    }

    /** The cells behind those handles. */
    ghost function Cells(): set<SnapshotCell>
      reads this`state, this`stack
    {
      {state} + set c | c in stack
    }

    /** The cells hold the walker's value. */
    ghost predicate Live()
      reads this`state, this`stack, this`view, Cells()`value
    {
      state.value == view.state && Mirrors(stack, view.stack)
    }

    ghost predicate Valid()
      reads this, ledger, Cells(), set c | c in ledger.handles
    {
      ledger.handles == others + Own() && ledger.Balanced() && Live()
    }

    /** Installs a seed by sharing the caller's handle; the save stack starts empty. */
    constructor (seed: SnapshotCell, env: Environment, ledger: Ledger)
      requires ledger.Balanced() && seed in ledger.handles
      modifies ledger, seed`strong
      ensures Valid() && this.ledger == ledger && this.env == env
      ensures view == WalkerState(seed.value, [])
      ensures state == seed && stack == [] && others == old(ledger.handles)
    {
      this.state := seed;
      this.stack := [];
      this.env := env;
      this.ledger := ledger;
      this.view := WalkerState(seed.value, []);
      this.others := ledger.handles;
      new;
      ledger.Share(seed);
    }

    /** `Rc::make_mut`: a copy is made exactly when someone else shares the cell; then the cell is ours alone. */
    method StateMut()
      requires Valid()
      modifies this`state, ledger, state`strong
      ensures Valid() && stack == old(stack) && (state == old(state) || fresh(state))
      ensures state.value == view.state && state !in stack && state !in others
      ensures fresh(state) <==> old(state.strong) != 1
    {
      hide Held, Mirrors;
      HeldMembers(state, stack);
      if state.strong != 1 {
        var copied := state.value;
        ghost var shared := state;
        ledger.Drop(state);
        state := ledger.Allocate(copied);
        ReplaceHandles(others, shared, state, stack);
        NewHandle(others, shared, state, stack);
      }
      SoleHandle(others, state, stack);
    }

    /** An assignment through `state_mut`. */
    method Write(next: Snapshot)
      requires Valid()
      modifies this`state, this`view, ledger, state
      ensures Valid()
      ensures view == old(view).(state := next)
      ensures forall c | c in others :: c.value == old(c.value)
      ensures stack == old(stack) && (state == old(state) || fresh(state))
      ensures fresh(state) <==> old(state.strong) != 1
    {
      hide Held, Mirrors, Ledger.Balanced;
      StateMut();
      assert forall c | c in others :: c != state && c.value == old(c.value);
      state.value := next;
      view := view.(state := next);
    }

    method Push()
      requires Valid()
      modifies this`stack, this`view, ledger, state`strong
      ensures Valid() && state == old(state) && stack == old(stack) + [state]
      ensures view == WalkerState(old(view).state, old(view).stack + [old(view).state])
    {
      hide Held, Ledger.Balanced;
      HeldMembers(state, stack);
      PushHandles(others, state, stack);
      ledger.Share(state);
      stack := stack + [state];
      view := WalkerState(view.state, view.stack + [view.state]);
    }

    method Pop()
      requires Valid() && stack != []
      modifies this`state, this`stack, this`view, ledger, state`strong
      ensures Valid()
      ensures state == old(stack)[|old(stack)| - 1] && stack == old(stack)[..|old(stack)| - 1]
      ensures var n := |old(stack)| - 1; view == WalkerState(old(view).stack[n], old(view).stack[..n])
    {
      hide Held, Ledger.Balanced;
      var n := |stack| - 1;
      HeldMembers(state, stack);
      PopHandles(others, state, stack);
      ledger.Drop(state);
      state := stack[n];
      stack := stack[..n];
      view := WalkerState(view.stack[n], view.stack[..n]);
    }

    method EventKindOf(source: Bytes, operator: Bytes, instruction: Instruction, record: OperatorRecord)
      returns (result: Fallible<PaintOpKind>)
      requires Valid()
      modifies this`state, this`stack, this`view, ledger, Cells()
      ensures Valid()
      ensures forall c | c in others :: c.value == old(c.value)
      ensures forall c | c in Cells() :: c in old(Cells()) || fresh(c)
      ensures match EventKind(env, source, operator, instruction, record, old(view))
              case Err(e) => result == Err(e) && view == old(view)
              case Ok((kind, after)) => result == Ok(kind) && view == after
    {
      hide Held, Mirrors, Ledger.Balanced, EstablishedColor, StateAfterGs, ExpectOperands, NameOperand, MatrixOperand,
           IntegerOperand, FontOperands, ConcatMatrix, FontAfterTf;
      match instruction {
        case ColorInstruction(c) =>
          result := ColorEvent(source, operator, record, c);
        case SaveInstruction =>
          result := StackEvent(source, operator, instruction, record);
        case RestoreInstruction =>
          result := StackEvent(source, operator, instruction, record);
        case PaintInstruction(paint) =>
          var _ :- ExpectOperands(operator, record, 0);
          result := Ok(PathPaint(paint));
        case ShowInstruction(show, operands) =>
          var _ :- ExpectOperands(operator, record, operands);
          result := Ok(TextShow(show, state.value.textRenderingMode));
        case InvokeInstruction =>
          var name :- NameOperand(source, operator, record);
          result := Ok(XObjectInvoke(name));
        case GsInstruction =>
          var name :- NameOperand(source, operator, record);
          ApplyExtGState(name);
          result := Ok(SetExtGState(name));
        case OtherInstruction =>
          result := Ok(NoOp);
        case _ =>
          result := ParameterEvent(source, operator, instruction, record);
      }
    }

    /** `q` and `Q`. */
    method StackEvent(source: Bytes, operator: Bytes, instruction: Instruction, record: OperatorRecord)
      returns (result: Fallible<PaintOpKind>)
      requires Valid() && (instruction.SaveInstruction? || instruction.RestoreInstruction?)
      modifies this`state, this`stack, this`view, ledger, state`strong
      ensures Valid()
      ensures Cells() <= old(Cells())
      ensures match EventKind(env, source, operator, instruction, record, old(view))
              case Err(e) => result == Err(e) && view == old(view)
              case Ok((kind, after)) => result == Ok(kind) && view == after
    {
      hide Held, Ledger.Balanced, ExpectOperands;
      var _ :- ExpectOperands(operator, record, 0);
      if instruction.SaveInstruction? {
        Push();
        return Ok(Save);
      }
      if |stack| == 0 {
        return Err(GraphicsWalkError(GraphicsStateStackUnderflow, record.range));
      }
      Pop();
      return Ok(Restore);
    }

    /** `cm`, `Tr` and `Tf`: one parameter parsed, then one field written. */
    method ParameterEvent(source: Bytes, operator: Bytes, instruction: Instruction, record: OperatorRecord)
      returns (result: Fallible<PaintOpKind>)
      requires Valid()
        && (instruction.MatrixInstruction? || instruction.TextModeInstruction? || instruction.FontInstruction?)
      modifies this`state, this`view, ledger, state
      ensures Valid()
      ensures forall c | c in others :: c.value == old(c.value)
      ensures stack == old(stack) && (state == old(state) || fresh(state))
      ensures match EventKind(env, source, operator, instruction, record, old(view))
              case Err(e) => result == Err(e) && view == old(view)
              case Ok((kind, after)) => result == Ok(kind) && view == after
    {
      match instruction {
        case MatrixInstruction =>
          var matrix :- MatrixOperand(env.floats, source, operator, record);
          Write(state.value.(ctm := ConcatMatrix(matrix, state.value.ctm)));
          result := Ok(SetMatrix(matrix));
        case TextModeInstruction =>
          var value :- IntegerOperand(env.floats, source, operator, record);
          Write(state.value.(textRenderingMode := ModeFromPdf(value)));
          result := Ok(SetTextRenderingMode(ModeFromPdf(value)));
        case FontInstruction =>
          var font :- FontOperands(env.floats, source, operator, record);
          Write(state.value.(fontSelection := FontAfterTf(env, font.0, font.1)));
          result := Ok(SetFont(font.0, font.1));
      }
    }

    method ColorEvent(source: Bytes, operator: Bytes, record: OperatorRecord, c: ColorOperator)
      returns (result: Fallible<PaintOpKind>)
      requires Valid()
      modifies this`state, this`view, ledger, state
      ensures Valid()
      ensures forall c | c in others :: c.value == old(c.value)
      ensures stack == old(stack) && (state == old(state) || fresh(state))
      ensures match EventKind(env, source, operator, ColorInstruction(c), record, old(view))
              case Err(e) => result == Err(e) && view == old(view)
              case Ok((kind, after)) => result == Ok(kind) && view == after
    {
      var color: GraphicsColor;
      match c {
        case Device(space, count, _) =>
          var components :- NumericOperands(env.floats, source, operator, record, count);
          color := GraphicsColor(space, components, None, None, [], Some(record.range));
        case SelectSpace(_) =>
          var name :- NameOperand(source, operator, record);
          color := SelectedColor(env, name, record.range);
        case SetComponents(side) =>
          var operands :- ColorOperands(env.floats, source, operator, record);
          color := SideColor(state.value, side).(components := operands.0);
          if operands.1.Some? {
            color := color.(resourceName := operands.1);
          }
          color := color.(source := Some(record.range));
      }
      Write(WithColor(state.value, c.side, color));
      result := Ok(SetColor(c.side, color));
    }

    method ApplyExtGState(name: Bytes)
      requires Valid()
      modifies this`state, this`view, ledger, state
      ensures Valid()
      ensures forall c | c in others :: c.value == old(c.value)
      ensures stack == old(stack) && (state == old(state) || fresh(state))
      ensures view == old(view).(state := StateAfterGs(env, name, old(view).state))
    {
      hide Held, FontAfterGs, GsEffect, Mirrors;
      ApplyGsFont(name);
      ApplyGsParams(name);
    }

    /** The font effect: every `gs` makes the selection indeterminate unless the resource proves otherwise. */
    method ApplyGsFont(name: Bytes)
      requires Valid()
      modifies this`state, this`view, ledger, state
      ensures Valid()
      ensures forall c | c in others :: c.value == old(c.value)
      ensures stack == old(stack) && (state == old(state) || fresh(state))
      ensures view
        == old(view).(state := old(view).state.(fontSelection := FontAfterGs(env, name, old(view).state.fontSelection)))
    {
      hide Held, Mirrors;
      var selection := Indeterminate;
      if !env.fonts.Disabled? {
        match ResolveExtGState(env.extGStates, name) {
          case Some(resource) =>
            match resource.font {
              case LeaveUnchanged => return;
              case Select(font, Finite(size)) => selection := ResolvedSelection(font, size);
              case Select(_, NonFinite) =>
              case UnknownFont =>
            }
          case None =>
        }
      }
      Write(state.value.(fontSelection := selection));
    }

    /** The seven classified parameters: untouched, layered, or all unresolved. */
    method ApplyGsParams(name: Bytes)
      requires Valid()
      modifies this`state, this`view, ledger, state
      ensures Valid()
      ensures forall c | c in others :: c.value == old(c.value)
      ensures stack == old(stack) && (state == old(state) || fresh(state))
      ensures view
        == old(view).(state := old(view).state.(extGState := GsEffect(env.extGStates, name, old(view).state.extGState)))
    {
      hide Held, Mirrors;
      if env.extGStates == [] {
        return;
      }
      match ResolveExtGState(env.extGStates, name) {
        case Some(resource) => Write(state.value.(extGState := Apply(state.value.extGState, resource.params)));
        case None => Write(state.value.(extGState := ALL_UNRESOLVED));
      }
    }

    /** Drops the walker: its state and every saved one give up their handles. */
    method Release()
      requires ledger.Balanced() && Own() <= ledger.handles
      modifies ledger, Cells()`strong
      ensures ledger.Balanced() && ledger.handles == old(ledger.handles) - Own()
    {
      hide Ledger.Balanced, Held;
      ghost var all := ledger.handles;
      ReleaseStart(all, state, stack);
      ledger.Drop(state);
      for i := 0 to |stack|
        invariant ledger.Balanced() && ledger.handles == all - Held(state, stack[..i])
      {
        ReleaseNext(all, state, stack, i);
        ledger.Drop(stack[i]);
      }
      assert stack[..|stack|] == stack;
    }

    /**
     * One record. The event and the new state are those of the value semantics; a failed record changes
     * nothing; and no snapshot anyone else holds (an earlier op, a seed, another walker) changes its value.
     */
    method Step(source: Bytes, index: nat, record: OperatorRecord) returns (result: Fallible<SharedOp>)
      requires Valid()
      modifies this, ledger, Cells()
      ensures Valid()
      ensures forall c | c in old(others) :: c.value == old(c.value)
      ensures forall c | c in Cells() :: c in old(Cells()) || fresh(c)
      ensures match Walker.Step(env, source, index, record, old(view))
              case Err(e) => result == Err(e) && view == old(view) && others == old(others)
              case Ok((op, after)) =>
                result.Ok? && Observed(result.value) == op && view == after
                && result.value.state in Cells() && others == old(others) + multiset{result.value.state}
    {
      hide EventKind, InstructionOf, OperatorBytes, Walker.Step, Held, Mirrors, Ledger.Balanced;
      StepInParts(env, source, index, record, view);
      var operator :- OperatorBytes(source, record);
      var event := EventKindOf(source, operator, InstructionOf(operator), record);
      var kind :- event;
      Emit();
      return Ok(SharedOp(index, record.operator, record.range, kind, state));
    }

    /** A handle on the current snapshot for an op: `Rc::clone`. */
    method Emit()
      requires Valid()
      modifies this`others, ledger, state`strong
      ensures Valid() && others == old(others) + multiset{state}
    {
      hide Held, Mirrors, Ledger.Balanced;
      HeldMembers(state, stack);
      EmitHandles(others, state, stack);
      ledger.Share(state);
      others := others + multiset{state};
    }
  }

  lemma StepInParts(env: Environment, source: Bytes, index: nat, record: OperatorRecord, w: WalkerState)
    ensures Walker.Step(env, source, index, record, w) ==
      match OperatorBytes(source, record)
      case Err(e) => Err(e)
      case Ok(operator) =>
        match EventKind(env, source, operator, InstructionOf(operator), record, w)
        case Err(e) => Err(e)
        case Ok((kind, after)) => Ok((PaintOp(index, record.operator, record.range, kind, after.state), after))
  {
    hide EventKind, InstructionOf, OperatorBytes;
  }

  // ---- Whole walks ---------------------------------------------------------

  /** The handle an item brings with it. */
  ghost function Emitted(item: Option<Fallible<SharedOp>>): Handles {
    if item.Some? && item.value.Ok? then multiset{item.value.value.state} else multiset{}
  }

  /** What one `next` hands out, in terms of what was to be yielded before it and after it. */
  ghost predicate Yields(before: seq<Item>, item: Option<Fallible<SharedOp>>, after: seq<Item>)
    reads if item.Some? && item.value.Ok? then {item.value.value.state} else {}
  {
    match item
    case None => before == [] && after == []
    case Some(Err(error)) => before == [Err(error)] && after == []
    case Some(Ok(op)) => before == [Ok(Observed(op))] + after
  }

  /** The fused iterator over one program. */
  class PaintOps {
    const walker: GraphicsStateWalker
    const program: PaintProgram
    var index: nat
    var done: bool

    ghost predicate Valid()
      reads this, walker, walker.ledger, walker.Cells(), set c | c in walker.ledger.handles
    {
      walker.Valid() && walker.env == program.env
    }

    /** Everything still to be yielded. */
    ghost function Remaining(): seq<Item>
      reads this`index, this`done, walker`view
    {
      if done then [] else Items(program, index, walker.view)
    }

    constructor (program: PaintProgram, seed: SnapshotCell, ledger: Ledger)
      requires ledger.Balanced() && seed in ledger.handles
      modifies ledger, seed`strong
      ensures Valid() && fresh(walker) && walker.ledger == ledger && walker.others == old(ledger.handles)
      ensures walker.Cells() == {seed} && this.program == program
      ensures Remaining() == ItemsFrom(program, seed.value)
    {
      hide Items;
      this.program := program;
      this.walker := new GraphicsStateWalker(seed, program.env, ledger);
      this.index := 0;
      this.done := false;
    }

    /** Yields the items in order, at most one error, then nothing for ever. */
    method Next() returns (item: Option<Fallible<SharedOp>>)
      requires Valid()
      modifies this, walker, walker.ledger, walker.Cells()
      ensures Valid()
      ensures forall c | c in old(walker.others) :: c.value == old(c.value)
      ensures forall c | c in walker.Cells() :: c in old(walker.Cells()) || fresh(c)
      ensures Yields(old(Remaining()), item, Remaining())
      ensures walker.others == old(walker.others) + Emitted(item)
      ensures forall c | c in Emitted(item) :: c in walker.Cells()
    {
      hide Walker.Step, Held, Mirrors;
      if done || index >= |program.records| {
        return None;
      }
      var result := walker.Step(program.source, index, program.records[index]);
      index := index + 1;
      if result.Err? {
        done := true;
      }
      return Some(result);
    }
  }

  /** Handles held by a list of retained ops. */
  ghost function HandlesOf(ops: seq<SharedOp>): Handles {
    if ops == [] then multiset{} else HandlesOf(ops[..|ops| - 1]) + multiset{ops[|ops| - 1].state}
  }

  lemma {:induction false} HandlesOfMembers(ops: seq<SharedOp>)
    ensures forall i | 0 <= i < |ops| :: ops[i].state in HandlesOf(ops)
    decreases |ops|
  {
    if ops != [] {
      HandlesOfMembers(ops[..|ops| - 1]);
    }
  }

  /** `goal` is what is already collected followed by what is left. */
  ghost predicate Continues(goal: Fallible<seq<PaintOp>>, seen: seq<PaintOp>, items: seq<Item>) {
    goal == match Collected(items) case Err(e) => Err(e) case Ok(rest) => Ok(seen + rest)
  }

  lemma ContinuesStart(items: seq<Item>)
    ensures Continues(Collected(items), [], items)
  {
    assert Collected(items).Ok? ==> [] + Collected(items).value == Collected(items).value;
  }

  lemma ContinuesOver(goal: Fallible<seq<PaintOp>>, seen: seq<PaintOp>, items: seq<Item>)
    requires Continues(goal, seen, items)
    ensures items == [] ==> goal == Ok(seen)
    ensures items != [] && items[0].Err? ==> goal == Err(items[0].error)
    ensures items != [] && items[0].Ok? ==> Continues(goal, seen + [items[0].value], items[1..])
  {
    if items == [] {
      assert seen + [] == seen;
    } else if items[0].Ok? && Collected(items[1..]).Ok? {
      var rest := Collected(items[1..]).value;
      assert seen + ([items[0].value] + rest) == seen + [items[0].value] + rest;
    }
  }

  lemma RetainedHandles(others: Handles, events: seq<SharedOp>, op: SharedOp)
    ensures others + HandlesOf(events) + multiset{op.state} == others + HandlesOf(events + [op])
  {
    assert (events + [op])[..|events|] == events;
  }

  /** The ops show, now, what the value semantics gives them. */
  ghost predicate AllObserved(events: seq<SharedOp>, seen: seq<PaintOp>)
    reads (set i | 0 <= i < |events| :: events[i].state)`value
  {
    |events| == |seen| && forall i | 0 <= i < |events| :: Observed(events[i]) == seen[i]
  }

  lemma NothingObserved()
    ensures AllObserved([], [])
  {
  }

  lemma ObservedAppend(events: seq<SharedOp>, seen: seq<PaintOp>, op: SharedOp)
    requires AllObserved(events, seen)
    ensures AllObserved(events + [op], seen + [Observed(op)])
  {
  }

  /** `Next`, seen by someone who keeps the handles of earlier events: those events show what they showed. */
  method NextSparing(ops: PaintOps, ghost events: seq<SharedOp>,
                     ghost seen: seq<PaintOp>) returns (item: Option<Fallible<SharedOp>>)
    requires ops.Valid() && AllObserved(events, seen) && HandlesOf(events) <= ops.walker.others
    modifies ops, ops.walker, ops.walker.ledger, ops.walker.Cells()
    ensures ops.Valid() && AllObserved(events, seen)
    ensures forall c | c in old(ops.walker.others) :: c.value == old(c.value)
    ensures forall c | c in ops.walker.Cells() :: c in old(ops.walker.Cells()) || fresh(c)
    ensures Yields(old(ops.Remaining()), item, ops.Remaining())
    ensures ops.walker.others == old(ops.walker.others) + Emitted(item)
  {
    hide Items, Held, Mirrors, GraphicsStateWalker.Valid;
    HandlesOfMembers(events);
    assert forall i | 0 <= i < |events| :: events[i].state in ops.walker.others;
    item := ops.Next();
    assert forall i | 0 <= i < |events| :: events[i].state.value == old(events[i].state.value);
  }

  /**
   * Materialising walk over a started iterator: every event is retained. At the end each retained event
   * still shows the snapshot the value semantics gives it, whatever later records did.
   */
  method Collect(ops: PaintOps) returns (result: Fallible<seq<SharedOp>>)
    requires ops.Valid()
    modifies ops, ops.walker, ops.walker.ledger, ops.walker.Cells()
    ensures ops.Valid()
    ensures forall c | c in old(ops.walker.others) :: c.value == old(c.value)
    ensures match Collected(old(ops.Remaining()))
            case Err(e) => result == Err(e)
            case Ok(expected) => result.Ok? && AllObserved(result.value, expected)
  {
    hide Items, Held, Mirrors, Collected, GraphicsStateWalker.Valid, Continues, AllObserved;
    ghost var goal := Collected(ops.Remaining());
    var events: seq<SharedOp> := [];
    ghost var seen: seq<PaintOp> := [];
    ContinuesStart(ops.Remaining());
    NothingObserved();
    while true
      invariant ops.Valid()
      invariant ops.walker.others == old(ops.walker.others) + HandlesOf(events)
      invariant forall c | c in ops.walker.Cells() :: c in old(ops.walker.Cells()) || fresh(c)
      invariant forall c | c in old(ops.walker.others) :: c.value == old(c.value)
      invariant AllObserved(events, seen)
      invariant Continues(goal, seen, ops.Remaining())
      decreases |ops.Remaining()|
    {
      ContinuesOver(goal, seen, ops.Remaining());
      var item := NextSparing(ops, events, seen);
      if item.None? {
        return Ok(events);
      }
      var op :- item.value;
      ObservedAppend(events, seen, op);
      RetainedHandles(old(ops.walker.others), events, op);
      seen := seen + [Observed(op)];
      events := events + [op];
    }
  }
}
