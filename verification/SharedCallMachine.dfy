/** The call machine as it runs: an explicit stack of live iterators over shared snapshots (call_machine.rs). */
module SharedCallMachine {
  import opened Basics
  import opened PaintTypes
  import opened Operands
  import opened Walker
  import opened SharedWalker
  import opened SharedIterators
  import opened CallMachine
  import opened TraversalMeaning

  /** One open program: its live iterator and its next form ordinal. */
  datatype SharedFrame = SharedFrame(program: SubProgram, ops: PaintOps, nextFormOrdinal: nat, popPathOnReturn: bool)

  function Iterators(stack: seq<SharedFrame>): seq<PaintOps> {
    seq(|stack|, i requires 0 <= i < |stack| => stack[i].ops)
  }

  /** The frames hold the programs and counters of the value frames, and yield what those have left. */
  ghost predicate Represents(stack: seq<SharedFrame>, frames: seq<WalkFrame>)
    reads (set f | f in stack :: f.ops), set f | f in stack :: f.ops.walker
  {
    |stack| == |frames|
    && forall i | 0 <= i < |stack| ::
         stack[i].program == frames[i].program && stack[i].ops.Remaining() == frames[i].ops
         && stack[i].nextFormOrdinal == frames[i].nextFormOrdinal
         && stack[i].popPathOnReturn == frames[i].popPathOnReturn
  }

  /** The ops the visitor was given and kept show, now, what the log says they showed. */
  ghost predicate Shows(visits: seq<SharedOp>, log: Log)
    reads (set i | 0 <= i < |visits| :: visits[i].state)`value
  {
    |visits| == |Visits(log)| && forall i | 0 <= i < |visits| :: Observed(visits[i]) == Visits(log)[i].1
  }

  function Top(stack: seq<SharedFrame>): SharedFrame
    requires stack != []
  {
    stack[|stack| - 1]
  }

  /** The top frame's `next`, under a visitor that keeps every op. */
  method AdvanceTop(stack: seq<SharedFrame>, ledger: Ledger, ghost frames: seq<WalkFrame>,
                    ghost visits: seq<SharedOp>, ghost log: Log) returns (item: Option<Fallible<SharedOp>>)
    requires stack != [] && Represents(stack, frames) && Shows(visits, log)
    requires Coherent(Iterators(stack), HandlesOf(visits), ledger)
    modifies Top(stack).ops, Top(stack).ops.walker, ledger, Top(stack).ops.walker.Cells()
    ensures Coherent(Iterators(stack), HandlesOf(visits) + Emitted(item), ledger) && Shows(visits, log)
    ensures forall c | c in Top(stack).ops.walker.Cells() :: c in old(Top(stack).ops.walker.Cells()) || fresh(c)
    ensures forall c | c in Emitted(item) :: c in Top(stack).ops.walker.Cells()
    ensures var n := |stack| - 1;
      Yields(frames[n].ops, item, stack[n].ops.Remaining())
      && Represents(stack, frames[n := frames[n].(ops := stack[n].ops.Remaining())])
  {
    hide Coherent, Yields, Emitted, Visits, Items, Ledger.Balanced;
    var iters, n := Iterators(stack), |stack| - 1;
    HandlesOfMembers(visits);
    item := Advance(iters, n, ledger, HandlesOf(visits));
    forall i | 0 <= i < n
      ensures stack[i].ops.Remaining() == frames[i].ops
    {
      assert iters[i] == stack[i].ops;
    }
  }

  /** A page: one snapshot in the default state, moved into the root's iterator. */
  method OpenRoot(program: PaintProgram) returns (ledger: Ledger, ops: PaintOps)
    ensures fresh(ledger) && fresh(ops) && fresh(ops.walker) && forall c | c in ops.walker.Cells() :: fresh(c)
    ensures Coherent([ops], multiset{}, ledger) && ops.Remaining() == ItemsFrom(program, PAGE_DEFAULT)
  {
    hide Items, ItemsFrom, Held, Mirrors, Ledger.Balanced, Coherent;
    ledger := new Ledger();
    var seed := ledger.Allocate(PAGE_DEFAULT);
    NoIterators(ledger, multiset{seed});
    ops := Open([], program, seed, ledger, multiset{seed});
    assert [] + [ops] == [ops] && multiset{seed} - multiset{seed} == multiset{};
    Discard([ops], seed, ledger, multiset{seed});
  }

  lemma FramesPopped(stack: seq<SharedFrame>, frames: seq<WalkFrame>)
    requires stack != [] && Represents(stack, frames)
    ensures var n := |stack| - 1;
      Represents(stack[..n], frames[..n]) && Iterators(stack[..n]) == Iterators(stack)[..n]
  {
  }

  lemma FramePushed(stack: seq<SharedFrame>, frames: seq<WalkFrame>, callee: SubProgram, ops: PaintOps, seed: Snapshot)
    requires Represents(stack, frames) && ops.Remaining() == ItemsFrom(callee.program, seed)
    ensures Represents(stack + [SharedFrame(callee, ops, 0, true)], frames + [CalleeFrame(callee, seed)])
    ensures Iterators(stack + [SharedFrame(callee, ops, 0, true)]) == Iterators(stack) + [ops]
  {
    hide ItemsFrom;
  }

  /** The top frame counts a form call. */
  function Counted(stack: seq<SharedFrame>): seq<SharedFrame>
    requires stack != []
  {
    stack[..|stack| - 1] + [Top(stack).(nextFormOrdinal := NextOrdinal(Top(stack).nextFormOrdinal))]
  }

  lemma FrameTook(stack: seq<SharedFrame>, frames: seq<WalkFrame>, rest: seq<Item>)
    requires stack != [] && |frames| == |stack| && frames[|stack| - 1].ops != []
    requires rest == frames[|stack| - 1].ops[1..]
    requires Represents(stack, frames[|stack| - 1 := frames[|stack| - 1].(ops := rest)])
    ensures Represents(stack, Taken(frames, false)) && Represents(Counted(stack), Taken(frames, true))
    ensures Iterators(Counted(stack)) == Iterators(stack)
  {
  }

  lemma ShowsMore(visits: seq<SharedOp>, log: Log, path: InvocationPath, op: SharedOp)
    requires Shows(visits, log)
    ensures Shows(visits + [op], log + [Visited(path, Observed(op))])
    ensures HandlesOf(visits + [op]) == HandlesOf(visits) + Emitted(Some(Ok(op)))
  {
    var last := Visited(path, Observed(op));
    assert (log + [last])[..|log|] == log && (visits + [op])[..|visits|] == visits;
  }

  lemma ShowsAlso(visits: seq<SharedOp>, log: Log, last: Interaction)
    requires Shows(visits, log) && !last.Visited?
    ensures Shows(visits, log + [last])
  {
    assert (log + [last])[..|log|] == log;
  }

  lemma {:induction false} VisitsConcat(a: Log, b: Log)
    ensures Visits(a + b) == Visits(a) + Visits(b)
    decreases |b|
  {
    if b == [] {
      assert a + b == a;
    } else {
      var n := |b| - 1;
      VisitsConcat(a, b[..n]);
      assert (a + b)[..|a + b| - 1] == a + b[..n];
    }
  }

  lemma {:induction false} UnwindingVisitsNothing<S>(r: Resolver<S>, path: InvocationPath, s: S)
    ensures Visits(Unwind(r, path, s).0) == []
    decreases |path|
  {
    if path != [] {
      var log := Unwind(r, path[..|path| - 1], r.onReturn(s, path)).0;
      UnwindingVisitsNothing(r, path[..|path| - 1], r.onReturn(s, path));
      VisitsConcat([Returned(path)], log);
      assert [Returned(path)][..0] == [];
    }
  }

  lemma ShowsUnwound<S>(visits: seq<SharedOp>, log: Log, r: Resolver<S>, path: InvocationPath, s: S)
    requires Shows(visits, log)
    ensures Shows(visits, log + Unwind(r, path, s).0)
  {
    UnwindingVisitsNothing(r, path, s);
    VisitsConcat(log, Unwind(r, path, s).0);
  }

  /** The root frame is the only one without a path entry. */
  ghost predicate Aligned(stack: seq<SharedFrame>, path: InvocationPath) {
    |stack| == |path| + 1 && forall i | 0 <= i < |stack| :: stack[i].popPathOnReturn <==> i > 0
  }

  /** Every handle of the open frames is given back; every open descent gets its hook, innermost first. */
  method UnwindOpenFrames<S>(stack: seq<SharedFrame>, path: InvocationPath, ledger: Ledger, ghost outside: Handles,
                             r: Resolver<S>, s0: S) returns (log: Log, s: S)
    requires Aligned(stack, path) && Coherent(Iterators(stack), outside, ledger)
    modifies ledger, (set f, c | f in stack && c in f.ops.walker.Cells() :: c)`strong
    ensures (log, s) == Unwind(r, path, s0) && Coherent([], outside, ledger)
  {
    hide Coherent, Ledger.Balanced;
    ghost var goal := Unwind(r, path, s0);
    var open, here := stack, path;
    log, s := [], s0;
    assert [] + goal.0 == goal.0;
    while |open| > 0
      invariant open <= stack && Coherent(Iterators(open), outside, ledger)
      invariant if open == [] then (log, s) == goal && here == [] else Aligned(open, here)
      invariant open != [] ==> goal == (log + Unwind(r, here, s).0, Unwind(r, here, s).1)
      decreases |open|
    {
      var frame := Top(open);
      assert frame in stack;
      Close(Iterators(open), ledger, outside);
      assert Iterators(open[..|open| - 1]) == Iterators(open)[..|open| - 1];
      open := open[..|open| - 1];
      if frame.popPathOnReturn {
        ghost var rest := Unwind(r, here[..|here| - 1], r.onReturn(s, here)).0;
        assert log + ([Returned(here)] + rest) == log + [Returned(here)] + rest;
        log := log + [Returned(here)];
        s := r.onReturn(s, here);
        here := here[..|here| - 1];
      } else {
        assert log + [] == log;
      }
    }
    assert Iterators(open) == [];
  }

  /** The iterators of the open programs, their walkers and the cells those hold. */
  ghost function Footprint(stack: seq<SharedFrame>): set<object>
    reads set f | f in stack :: f.ops.walker
  {
    (set f | f in stack :: f.ops) + (set f | f in stack :: f.ops.walker)
    + set f, c | f in stack && c in f.ops.walker.Cells() :: c
  }

  /** The machine between two steps, seen as value frames, with the ops its visitor kept. */
  ghost predicate Standing(stack: seq<SharedFrame>, path: InvocationPath, frames: seq<WalkFrame>,
                           visits: seq<SharedOp>, log: Log, ledger: Ledger)
    reads *
  {
    Aligned(stack, path) && |frames| == |stack| && Represents(stack, frames) && Shows(visits, log)
    && Coherent(Iterators(stack), HandlesOf(visits), ledger)
  }

  lemma TopStands(stack: seq<SharedFrame>, path: InvocationPath, frames: seq<WalkFrame>, visits: seq<SharedOp>,
                  log: Log, ledger: Ledger)
    requires Standing(stack, path, frames, visits, log, ledger)
    ensures |frames| == |stack| == |path| + 1 && (Top(stack).popPathOnReturn <==> path != [])
    ensures var top := frames[|stack| - 1];
      top.program == Top(stack).program && top.nextFormOrdinal == Top(stack).nextFormOrdinal
  {
    hide Coherent, HandlesOf, Shows;
  }

  lemma StandsAlso(stack: seq<SharedFrame>, path: InvocationPath, frames: seq<WalkFrame>, visits: seq<SharedOp>,
                   log: Log, ledger: Ledger, last: Interaction)
    requires Standing(stack, path, frames, visits, log, ledger) && !last.Visited?
    ensures Standing(stack, path, frames, visits, log + [last], ledger)
  {
    hide Coherent, HandlesOf, Represents;
    ShowsAlso(visits, log, last);
  }

  /** What one `next` of the innermost program leaves. */
  ghost predicate Pulled(stack: seq<SharedFrame>, path: InvocationPath, frames: seq<WalkFrame>,
                         visits: seq<SharedOp>, log: Log, ledger: Ledger, item: Option<Fallible<SharedOp>>)
    requires stack != [] && |frames| == |stack|
    reads *
  {
    var top := frames[|stack| - 1];
    match item
    case None => top.ops == [] && Standing(stack, path, frames, visits, log, ledger)
    case Some(Err(error)) =>
      top.ops != [] && top.ops[0] == Err(error)
      && Standing(stack, path, frames[|stack| - 1 := top.(ops := [])], visits, log, ledger)
    case Some(Ok(op)) =>
      var seen := log + [Visited(path, Observed(op))];
      top.ops != [] && top.ops[0] == Ok(Observed(op)) && op.state in Footprint(stack)
      && Standing(stack, path, Taken(frames, false), visits + [op], seen, ledger)
      && Standing(Counted(stack), path, Taken(frames, true), visits + [op], seen, ledger)
  }

  /** One `next` of the innermost program, under a visitor that keeps every op. */
  method Pull(stack: seq<SharedFrame>, ghost path: InvocationPath, ghost frames: seq<WalkFrame>,
              ghost visits: seq<SharedOp>, ghost log: Log, ledger: Ledger) returns (item: Option<Fallible<SharedOp>>)
    requires Standing(stack, path, frames, visits, log, ledger) && stack != [] && |frames| == |stack|
    modifies ledger, Footprint(stack)
    ensures forall o | o in Footprint(stack) :: o in old(Footprint(stack)) || fresh(o)
    ensures Pulled(stack, path, frames, visits, log, ledger, item)
  {
    hide Coherent, Represents, Shows, Yields, Taken, Counted, HandlesOf, PaintOps.Remaining, Iterators;
    var n := |stack| - 1;
    item := AdvanceTop(stack, ledger, frames, visits, log);
    YieldCases(frames[n].ops, item, stack[n].ops.Remaining());
    match item {
      case Some(Ok(op)) =>
        FrameTook(stack, frames, stack[n].ops.Remaining());
        ShowsMore(visits, log, path, op);
        CountedKeeps(stack, path);
      case Some(Err(_)) =>
        assert HandlesOf(visits) + multiset{} == HandlesOf(visits);
      case None =>
        assert HandlesOf(visits) + multiset{} == HandlesOf(visits);
        assert frames[n := frames[n].(ops := [])] == frames;
    }
  }

  lemma CountedKeeps(stack: seq<SharedFrame>, path: InvocationPath)
    requires stack != []
    ensures |Counted(stack)| == |stack| && (Aligned(stack, path) ==> Aligned(Counted(stack), path))
    ensures Footprint(Counted(stack)) == Footprint(stack)
  {
  }

  /** A finished program: its frame goes, with all its handles. */
  method Leave(stack: seq<SharedFrame>, ghost path: InvocationPath, ghost frames: seq<WalkFrame>,
               ghost visits: seq<SharedOp>, ghost log: Log, ledger: Ledger) returns (left: seq<SharedFrame>)
    requires Standing(stack, path, frames, visits, log, ledger) && stack != []
    modifies ledger, Footprint(stack)
    ensures left == stack[..|stack| - 1] && Footprint(left) <= old(Footprint(stack)) && Shows(visits, log)
    ensures path != [] ==> Standing(left, path[..|path| - 1], frames[..|left|], visits, log, ledger)
  {
    hide Coherent, Visits, HandlesOf, Iterators;
    FramesPopped(stack, frames);
    IteratorsAre(stack);
    Close(Iterators(stack), ledger, HandlesOf(visits));
    left := stack[..|stack| - 1];
  }

  lemma IteratorsAre(stack: seq<SharedFrame>)
    ensures |Iterators(stack)| == |stack| && forall i | 0 <= i < |stack| :: Iterators(stack)[i] == stack[i].ops
  {
  }

  /** A descent from a visited op: a frame over its shared snapshot. */
  method Enter(stack: seq<SharedFrame>, callee: SubProgram, op: SharedOp, frame: InvocationFrame,
               ghost path: InvocationPath, ghost frames: seq<WalkFrame>, ghost visits: seq<SharedOp>, ghost log: Log,
               ledger: Ledger) returns (entered: seq<SharedFrame>)
    requires Standing(stack, path, frames, visits, log, ledger) && op in visits
    modifies ledger, op.state
    ensures forall o | o in Footprint(entered) :: o in old(Footprint(stack)) || o == op.state || fresh(o)
    ensures |entered| == |stack| + 1
    ensures Observed(op) == old(Observed(op))
    ensures var called := frames + [CalleeFrame(callee, op.state.value)];
      Standing(entered, path + [frame], called, visits, log, ledger)
  {
    hide Coherent, Visits, HandlesOf, Iterators, ItemsFrom;
    HandlesOfMembers(visits);
    var ops := Open(Iterators(stack), callee.program, op.state, ledger, HandlesOf(visits));
    FramePushed(stack, frames, callee, ops, op.state.value);
    entered := stack + [SharedFrame(callee, ops, 0, true)];
  }

  /** A failure: all frames go, and the log ends with the hooks of the open descents. */
  method Abort<S>(stack: seq<SharedFrame>, path: InvocationPath, ghost frames: seq<WalkFrame>,
                  ghost visits: seq<SharedOp>, log0: Log, ledger: Ledger, r: Resolver<S>, s0: S)
    returns (log: Log, s: S)
    requires Standing(stack, path, frames, visits, log0, ledger)
    modifies ledger, Footprint(stack)
    ensures log == log0 + Unwind(r, path, s0).0 && s == Unwind(r, path, s0).1
    ensures Shows(visits, log)
  {
    hide Coherent, Visits, Unwind, HandlesOf, Iterators;
    var unwound;
    ShowsUnwound(visits, log0, r, path, s0);
    unwound, s := UnwindOpenFrames(stack, path, ledger, HandlesOf(visits), r, s0);
    log := log0 + unwound;
  }

  /** A traversal starts with the root's frame alone. */
  method Begin(root: SubProgram) returns (stack: seq<SharedFrame>, ledger: Ledger)
    ensures fresh(ledger) && fresh(Footprint(stack)) && |stack| == 1
    ensures Standing(stack, [], [RootFrame(root)], [], [], ledger)
  {
    hide Coherent, ItemsFrom;
    var ops;
    ledger, ops := OpenRoot(root.program);
    stack := [SharedFrame(root, ops, 0, false)];
    assert Iterators(stack) == [ops];
  }

  /**
   * `CallMachine::walk`: an explicit stack of live iterators instead of recursion. On every resolver for
   * which calls nest no deeper than some `depth`, it terminates and does exactly what the recursion over
   * values does; and a visitor that keeps every op it is given sees, at the end, each of them still showing
   * the snapshot it was visited with, whatever callers and callees did to theirs since.
   */
  method Walk<S>(root: SubProgram, r: Resolver<S>, s0: S, ghost depth: nat)
    returns (log: Log, visits: seq<SharedOp>, s: S, result: Fallible<()>)
    requires !ExpandRoot(r, root, s0, depth).outcome.TooDeep?
    ensures var e := ExpandRoot(r, root, s0, depth);
      log == e.log && s == e.resolver
      && (e.outcome.Finished? ==> result.Ok?) && (e.outcome.Failed? ==> result == Err(e.outcome.error))
    ensures Shows(visits, log)
  {
    hide Expand, Finish, Resume, ItemsFrom, Unwind, Standing, Footprint, Shows, Counted;
    ghost var goal := ExpandRoot(r, root, s0, depth);
    var path: InvocationPath := [];
    var stack, ledger := Begin(root);
    ghost var frames := [RootFrame(root)];
    log, visits, s := [], [], s0;
    BeforeTwice([], [], goal);
    RootResumes(r, root, s0, depth);
    while true
      invariant fresh(ledger) && fresh(Footprint(stack))
      invariant Standing(stack, path, frames, visits, log, ledger)
      invariant |frames| == |stack| == |path| + 1 <= depth + 1
      invariant Before(log, Resume(r, frames, path, s, depth)) == goal
      decreases |goal.log| - |log|, |stack|
    {
      TopStands(stack, path, frames, visits, log, ledger);
      var frame := Top(stack);
      var item := Pull(stack, path, frames, visits, log, ledger);
      if item.None? {
        ExhaustedResumes(r, frames, path, s, depth);
        stack := Leave(stack, path, frames, visits, log, ledger);
        frames := frames[..|frames| - 1];
        if !frame.popPathOnReturn {
          assert log + [] == log;
          return log, visits, s, Ok(());
        }
        s := r.onReturn(s, path);
        BeforeTwice(log, [Returned(path)], Resume(r, frames, path[..|path| - 1], s, depth));
        StandsAlso(stack, path[..|path| - 1], frames, visits, log, ledger, Returned(path));
        log := log + [Returned(path)];
        path := path[..|path| - 1];
        continue;
      }
      if item.value.Err? {
        ErrorResumes(r, frames, path, s, depth);
        log, s := Abort(stack, path, frames[|stack| - 1 := frames[|stack| - 1].(ops := [])], visits, log, ledger, r, s);
        return log, visits, s, Err(item.value.error);
      }
      var event := item.value.value;
      var op := Observed(event);
      visits := visits + [event];
      var name := FormInvocationName(op, frame.program);
      if name.None? {
        PlainOpResumes(r, frames, path, s, depth);
        BeforeTwice(log, [Visited(path, op)], Resume(r, Taken(frames, false), path, s, depth));
        log := log + [Visited(path, op)];
        frames := Taken(frames, false);
        continue;
      }
      CallResumes(r, frames, path, s, depth, name.value);
      var ordinal := frame.nextFormOrdinal;
      var site := CallSite(path, ordinal, name.value, op);
      var (s', decision) := r.resolve(s, site);
      ghost var call := [Visited(path, op), Resolved(site, decision)];
      ghost var before := log;
      CountedKeeps(stack, path);
      stack := Counted(stack);
      frames := Taken(frames, true);
      s := s';
      log := log + [Visited(path, op)];
      StandsAlso(stack, path, frames, visits, log, ledger, Resolved(site, decision));
      log := log + [Resolved(site, decision)];
      assert log == before + call;
      match decision {
        case Refuse(error) =>
          BeforeTwice(before, call, Expansion(Unwind(r, path, s).0, Unwind(r, path, s).1, Failed(error)));
          log, s := Abort(stack, path, frames, visits, log, ledger, r, s);
          return log, visits, s, Err(error);
        case Skip =>
          BeforeTwice(before, call, Resume(r, frames, path, s, depth));
        case Descend(callee) =>
          var called := InvocationFrame(ordinal, name.value);
          stack := Enter(stack, callee, event, called, path, frames, visits, log, ledger);
          path := path + [called];
          frames := frames + [CalleeFrame(callee, op.state)];
          BeforeTwice(before, call, Resume(r, frames, path, s, depth));
      }
    }
  }

  method FlatCallEvents<S>(root: SubProgram, r: Resolver<S>, s0: S, ghost depth: nat) returns (sink: seq<FlatItem>)
    requires !ExpandRoot(r, root, s0, depth).outcome.TooDeep?
    ensures var e := ExpandRoot(r, root, s0, depth); Delivers(sink, e.log, e.outcome)
    ensures sink == Flat(ExpandRoot(r, root, s0, depth))
  {
    hide Expand, ItemsFrom, Delivers;
    var log, visits, s, result := Walk(root, r, s0, depth);
    sink := [];
    for i := 0 to |log|
      invariant sink == Yielded(Visits(log[..i]))
    {
      assert log[..i + 1][..i] == log[..i];
      if log[i].Visited? {
        sink := sink + [Ok((log[i].path, log[i].op))];
      }
    }
    assert log[..|log|] == log;
    if result.Err? {
      sink := sink + [Err(result.error)];
    }
    ghost var e := ExpandRoot(r, root, s0, depth);
    assert sink == Flat(e);
    FlatDelivers(e);
  }
}
