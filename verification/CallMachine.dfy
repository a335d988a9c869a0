/** Depth-first call/return traversal over paint programs (call_machine.rs, flat_projection.rs). */
module CallMachine {
  import opened Basics
  import opened PaintTypes
  import opened Operands
  import opened Walker

  /** Descriptor of one sub-program; the resolver hands these out, the machine only replays them. */
  datatype SubProgram = SubProgram(
    program: PaintProgram, imageNames: seq<Bytes>, formNames: seq<Bytes>, scope: ContentScope)

  /** Form call presented to a resolver. */
  datatype CallSite = CallSite(callerPath: InvocationPath, ordinal: nat, name: Bytes, event: PaintOp)

  datatype Decision = Descend(callee: SubProgram) | Skip | Refuse(error: GraphicsWalkError)

  /** A resolver with state of type `S`: any policy whatever may live in it. */
  datatype Resolver<!S> = Resolver(resolve: (S, CallSite) -> (S, Decision), onReturn: (S, InvocationPath) -> S)

  /** Everything the outside sees of a traversal, in order. */
  datatype Interaction =
    | Visited(path: InvocationPath, op: PaintOp)
    | Resolved(site: CallSite, decision: Decision)
    | Returned(child: InvocationPath)

  type Log = seq<Interaction>

  datatype Outcome = Finished | Failed(error: GraphicsWalkError) | TooDeep

  datatype Expansion<S> = Expansion(log: Log, resolver: S, outcome: Outcome)

  /** Name of the form a `Do` invokes; image names win over form names. */
  function FormInvocationName(op: PaintOp, p: SubProgram): Option<Bytes> {
    if op.kind.XObjectInvoke? && op.kind.name !in p.imageNames && op.kind.name in p.formNames
    then Some(op.kind.name)
    else None
  }

  /** `saturating_add(1)` on the 32-bit ordinal. */
  function NextOrdinal(ordinal: nat): nat {
    if ordinal < U32_MAX then ordinal + 1 else U32_MAX
  }

  function ChildPath(site: CallSite): InvocationPath {
    site.callerPath + [InvocationFrame(site.ordinal, site.name)]
  }

  // ---- The recursive depth-first expansion ---------------------------------

  function Before<S>(log: Log, rest: Expansion<S>): Expansion<S> {
    rest.(log := log + rest.log)
  }

  /**
   * Reference semantics: each op, then the whole expansion of the form it calls, then the next op.
   * `depth` bounds how deeply calls may still nest; running out is reported, never guessed past.
   */
  function Expand<S>(r: Resolver<S>, p: SubProgram, items: seq<Item>, ordinal: nat, path: InvocationPath, s: S,
                     depth: nat): Expansion<S>
    decreases depth, |items|
  {
    if items == [] then Expansion([], s, Finished)
    else if items[0].Err? then Expansion([], s, Failed(items[0].error))
    else
      var op := items[0].value;
      var name := FormInvocationName(op, p);
      if name.None? then Before([Visited(path, op)], Expand(r, p, items[1..], ordinal, path, s, depth))
      else
        var site := CallSite(path, ordinal, name.value, op);
        var (s', decision) := r.resolve(s, site);
        var call := [Visited(path, op), Resolved(site, decision)];
        match decision
        case Refuse(error) => Expansion(call, s', Failed(error))
        case Skip => Before(call, Expand(r, p, items[1..], NextOrdinal(ordinal), path, s', depth))
        case Descend(callee) =>
          if depth == 0 then Expansion(call, s', TooDeep)
          else
            var inner := ExpandCallee(r, callee, site, s', depth - 1);
            if !inner.outcome.Finished? then Before(call, inner)
            else Before(call + inner.log, Expand(r, p, items[1..], NextOrdinal(ordinal), path, inner.resolver, depth))
  }

  /** One descent: the callee from the exact state of its `Do` event, then the return hook, error or not. */
  function ExpandCallee<S>(r: Resolver<S>, callee: SubProgram, site: CallSite, s: S, depth: nat): Expansion<S>
    decreases depth, |ItemsFrom(callee.program, site.event.state)| + 1
  {
    var child := ChildPath(site);
    var body := Expand(r, callee, ItemsFrom(callee.program, site.event.state), 0, child, s, depth);
    if body.outcome.TooDeep? then body
    else Expansion(body.log + [Returned(child)], r.onReturn(body.resolver, child), body.outcome)
  }

  function ExpandRoot<S>(r: Resolver<S>, root: SubProgram, s: S, depth: nat): Expansion<S> {
    Expand(r, root, ItemsFrom(root.program, PAGE_DEFAULT), 0, [], s, depth)
  }

  // ---- The machine ---------------------------------------------------------

  /** One open program: what its iterator has still to yield, and its next form ordinal. */
  datatype WalkFrame = WalkFrame(program: SubProgram, ops: seq<Item>, nextFormOrdinal: nat, popPathOnReturn: bool)

  function RootFrame(root: SubProgram): WalkFrame {
    WalkFrame(root, ItemsFrom(root.program, PAGE_DEFAULT), 0, false)
  }

  function CalleeFrame(callee: SubProgram, seed: Snapshot): WalkFrame {
    WalkFrame(callee, ItemsFrom(callee.program, seed), 0, true)
  }

  /** Return hooks for every open frame, innermost first. */
  ghost function Unwind<S>(r: Resolver<S>, path: InvocationPath, s: S): (Log, S) {
    if path == [] then ([], s)
    else
      var (log, s') := Unwind(r, path[..|path| - 1], r.onReturn(s, path));
      ([Returned(path)] + log, s')
  }

  /** What follows once the innermost program has been expanded to `e`, over the frames `below` it. */
  ghost function Finish<S>(r: Resolver<S>, below: seq<WalkFrame>, path: InvocationPath, e: Expansion<S>,
                           depth: nat): Expansion<S>
    requires |below| == |path| <= depth
    decreases |below|, 0
  {
    match e.outcome
    case TooDeep => e
    case Failed(error) =>
      var (log, s') := Unwind(r, path, e.resolver);
      Expansion(e.log + log, s', e.outcome)
    case Finished =>
      if path == [] then e
      else Before(e.log + [Returned(path)], Resume(r, below, path[..|path| - 1], r.onReturn(e.resolver, path), depth))
  }

  /** What is left to happen when the innermost frame is about to be advanced; the root may nest `depth` deep. */
  ghost function Resume<S>(r: Resolver<S>, stack: seq<WalkFrame>, path: InvocationPath, s: S, depth: nat): Expansion<S>
    requires |stack| == |path| + 1 && |path| <= depth
    decreases |path|, 1
  {
    var top := stack[|path|];
    Finish(r, stack[..|path|], path,
           Expand(r, top.program, top.ops, top.nextFormOrdinal, path, s, depth - |path|), depth)
  }

  // ---- One machine step against the recursion ------------------------------

  lemma BeforeTwice<S>(first: Log, second: Log, e: Expansion<S>)
    ensures Before(first, Before(second, e)) == Before(first + second, e)
    ensures Before([], e) == e
  {
    assert first + (second + e.log) == first + second + e.log;
    assert [] + e.log == e.log;
  }

  lemma FinishBefore<S>(r: Resolver<S>, below: seq<WalkFrame>, path: InvocationPath, log: Log, e: Expansion<S>,
                        depth: nat)
    requires |below| == |path| <= depth
    ensures Finish(r, below, path, Before(log, e), depth) == Before(log, Finish(r, below, path, e, depth))
  {
    match e.outcome {
      case TooDeep =>
      case Failed(error) =>
        var rest := Unwind(r, path, e.resolver).0;
        assert log + e.log + rest == log + (e.log + rest);
      case Finished =>
        if path != [] {
          var rest := Resume(r, below, path[..|path| - 1], r.onReturn(e.resolver, path), depth);
          assert log + e.log + [Returned(path)] == log + (e.log + [Returned(path)]);
          BeforeTwice(log, e.log + [Returned(path)], rest);
        }
    }
  }

  lemma RootResumes<S>(r: Resolver<S>, root: SubProgram, s: S, depth: nat)
    ensures Resume(r, [RootFrame(root)], [], s, depth) == ExpandRoot(r, root, s, depth)
  {
    var e := ExpandRoot(r, root, s, depth);
    assert e.log + [] == e.log;
  }

  /** An exhausted program: the return hook, then its caller goes on; the root just ends. */
  lemma ExhaustedResumes<S>(r: Resolver<S>, stack: seq<WalkFrame>, path: InvocationPath, s: S, depth: nat)
    requires |stack| == |path| + 1 && |path| <= depth && stack[|path|].ops == []
    ensures Resume(r, stack, path, s, depth) ==
      if path == [] then Expansion([], s, Finished)
      else Before([Returned(path)], Resume(r, stack[..|path|], path[..|path| - 1], r.onReturn(s, path), depth))
  {
  }

  lemma ErrorResumes<S>(r: Resolver<S>, stack: seq<WalkFrame>, path: InvocationPath, s: S, depth: nat)
    requires |stack| == |path| + 1 && |path| <= depth && stack[|path|].ops != [] && stack[|path|].ops[0].Err?
    ensures var (log, s') := Unwind(r, path, s);
      Resume(r, stack, path, s, depth) == Expansion(log, s', Failed(stack[|path|].ops[0].error))
  {
  }

  /** The stack after the innermost frame took one op, counting it as a form call or not. */
  function Taken(stack: seq<WalkFrame>, counts: bool): seq<WalkFrame>
    requires stack != [] && stack[|stack| - 1].ops != []
  {
    var top := stack[|stack| - 1];
    stack[..|stack| - 1] + [WalkFrame(top.program, top.ops[1..],
                                      if counts then NextOrdinal(top.nextFormOrdinal) else top.nextFormOrdinal,
                                      top.popPathOnReturn)]
  }

  lemma PlainOpResumes<S>(r: Resolver<S>, stack: seq<WalkFrame>, path: InvocationPath, s: S, depth: nat)
    requires |stack| == |path| + 1 && |path| <= depth && stack[|path|].ops != [] && stack[|path|].ops[0].Ok?
    requires FormInvocationName(stack[|path|].ops[0].value, stack[|path|].program).None?
    ensures Resume(r, stack, path, s, depth) ==
      Before([Visited(path, stack[|path|].ops[0].value)], Resume(r, Taken(stack, false), path, s, depth))
  {
    var top, below := stack[|path|], stack[..|path|];
    var e := Expand(r, top.program, top.ops[1..], top.nextFormOrdinal, path, s, depth - |path|);
    FinishBefore(r, below, path, [Visited(path, top.ops[0].value)], e, depth);
    assert Taken(stack, false)[..|path|] == below;
  }

  /** A form call, whatever the resolver answers. */
  lemma CallResumes<S>(r: Resolver<S>, stack: seq<WalkFrame>, path: InvocationPath, s: S, depth: nat, name: Bytes)
    requires |stack| == |path| + 1 && |path| <= depth && stack[|path|].ops != [] && stack[|path|].ops[0].Ok?
    requires FormInvocationName(stack[|path|].ops[0].value, stack[|path|].program) == Some(name)
    ensures var top := stack[|path|];
      var site := CallSite(path, top.nextFormOrdinal, name, top.ops[0].value);
      var (s', decision) := r.resolve(s, site);
      var call := [Visited(path, top.ops[0].value), Resolved(site, decision)];
      match decision
      case Refuse(error) =>
        var (log, s'') := Unwind(r, path, s');
        Resume(r, stack, path, s, depth) == Before(call, Expansion(log, s'', Failed(error)))
      case Skip => Resume(r, stack, path, s, depth) == Before(call, Resume(r, Taken(stack, true), path, s', depth))
      case Descend(callee) =>
        if |path| == depth then Resume(r, stack, path, s, depth).outcome.TooDeep?
        else Resume(r, stack, path, s, depth) ==
             Before(call, Resume(r, Taken(stack, true) + [CalleeFrame(callee, top.ops[0].value.state)],
                                 ChildPath(site), s', depth))
  {
    hide ItemsFrom;
    var top, below, rest := stack[|path|], stack[..|path|], Taken(stack, true);
    var site := CallSite(path, top.nextFormOrdinal, name, top.ops[0].value);
    var (s', decision) := r.resolve(s, site);
    var call := [Visited(path, top.ops[0].value), Resolved(site, decision)];
    assert rest[..|path|] == below;
    match decision {
      case Refuse(error) =>
      case Skip =>
        var e := Expand(r, top.program, top.ops[1..], NextOrdinal(top.nextFormOrdinal), path, s', depth - |path|);
        FinishBefore(r, below, path, call, e, depth);
      case Descend(callee) =>
        if |path| < depth {
          DescendResumes(r, rest, site, callee, s', depth);
          var inner := ExpandCallee(r, callee, site, s', depth - |path| - 1);
          if inner.outcome.Finished? {
            var e := Expand(r, top.program, top.ops[1..], NextOrdinal(top.nextFormOrdinal), path, inner.resolver,
                            depth - |path|);
            FinishBefore(r, below, path, call + inner.log, e, depth);
            BeforeTwice(call, inner.log, Resume(r, rest, path, inner.resolver, depth));
          } else {
            FinishBefore(r, below, path, call, inner, depth);
          }
        }
    }
  }

  /** Running the callee on top of the stack: its recursion, then either the caller's rest or the unwinding. */
  lemma DescendResumes<S>(r: Resolver<S>, rest: seq<WalkFrame>, site: CallSite, callee: SubProgram, s: S, depth: nat)
    requires |rest| == |site.callerPath| + 1 && |site.callerPath| < depth
    ensures var path := site.callerPath;
      var inner := ExpandCallee(r, callee, site, s, depth - |path| - 1);
      Resume(r, rest + [CalleeFrame(callee, site.event.state)], ChildPath(site), s, depth) ==
      if inner.outcome.Finished? then Before(inner.log, Resume(r, rest, path, inner.resolver, depth))
      else Finish(r, rest[..|path|], path, inner, depth)
  {
    hide ItemsFrom;
    var path, child := site.callerPath, ChildPath(site);
    var body := Expand(r, callee, ItemsFrom(callee.program, site.event.state), 0, child, s, depth - |path| - 1);
    assert (rest + [CalleeFrame(callee, site.event.state)])[..|child|] == rest;
    assert child[..|child| - 1] == path;
    if body.outcome.Failed? {
      var log := Unwind(r, path, r.onReturn(body.resolver, child)).0;
      assert body.log + ([Returned(child)] + log) == body.log + [Returned(child)] + log;
    }
  }

  // ---- The flat projection -------------------------------------------------

  type FlatItem = Fallible<(InvocationPath, PaintOp)>

  /** The visits of a log in order, without the resolver's side of the conversation. */
  function Visits(log: Log): seq<(InvocationPath, PaintOp)> {
    if log == [] then []
    else
      var last := log[|log| - 1];
      Visits(log[..|log| - 1]) + if last.Visited? then [(last.path, last.op)] else []
  }

  function Yielded(visits: seq<(InvocationPath, PaintOp)>): seq<FlatItem> {
    seq(|visits|, i requires 0 <= i < |visits| => Ok(visits[i]))
  }

  /** One flat stream: every visit of the recursion in order, and its error, if any, last. */
  function Flat<S>(e: Expansion<S>): seq<FlatItem> {
    Yielded(Visits(e.log)) + if e.outcome.Failed? then [Err(e.outcome.error)] else []
  }
}
