/** What a traversal's log says: who is asked, what the resolver makes of it, and why a traversal fails. */
module TraversalMeaning {
  import opened Basics
  import opened PaintTypes
  import opened Operands
  import opened Walker
  import opened CallMachine
  import opened CallMachineProperties

  // ---- The resolver's side -------------------------------------------------

  /** The resolver's state after it has seen a log, asked and notified in the log's order. */
  function Replay<S>(r: Resolver<S>, s: S, log: Log): S {
    if log == [] then s
    else
      var before := Replay(r, s, log[..|log| - 1]);
      match log[|log| - 1]
      case Visited(_, _) => before
      case Resolved(site, _) => r.resolve(before, site).0
      case Returned(child) => r.onReturn(before, child)
  }

  /** Every answer in the log is the one the resolver gives in the state it has there. */
  ghost predicate Answered<S>(r: Resolver<S>, s: S, log: Log) {
    forall i | 0 <= i < |log| && log[i].Resolved? ::
      log[i].decision == r.resolve(Replay(r, s, log[..i]), log[i].site).1
  }

  lemma {:induction false} ReplayConcat<S>(r: Resolver<S>, s: S, a: Log, b: Log)
    ensures Replay(r, s, a + b) == Replay(r, Replay(r, s, a), b)
    decreases |b|
  {
    if b == [] {
      assert a + b == a;
    } else {
      ReplayConcat(r, s, a, b[..|b| - 1]);
      assert (a + b)[..|a + b| - 1] == a + b[..|b| - 1];
    }
  }

  lemma AnsweredConcat<S>(r: Resolver<S>, s: S, a: Log, b: Log)
    requires Answered(r, s, a) && Answered(r, Replay(r, s, a), b)
    ensures Answered(r, s, a + b) && Replay(r, s, a + b) == Replay(r, Replay(r, s, a), b)
  {
    ReplayConcat(r, s, a, b);
    forall i | 0 <= i < |a + b| && (a + b)[i].Resolved?
      ensures (a + b)[i].decision == r.resolve(Replay(r, s, (a + b)[..i]), (a + b)[i].site).1
    {
      if i < |a| {
        assert (a + b)[..i] == a[..i];
      } else {
        assert (a + b)[..i] == a + b[..i - |a|];
        ReplayConcat(r, s, a, b[..i - |a|]);
      }
    }
  }

  lemma OneVisit<S>(r: Resolver<S>, s: S, path: InvocationPath, op: PaintOp)
    ensures Answered(r, s, [Visited(path, op)]) && Replay(r, s, [Visited(path, op)]) == s
  {
    assert [Visited(path, op)][..0] == [];
  }

  lemma OneCall<S>(r: Resolver<S>, s: S, path: InvocationPath, op: PaintOp, site: CallSite)
    ensures var (s', decision) := r.resolve(s, site);
      var call := [Visited(path, op), Resolved(site, decision)];
      Answered(r, s, call) && Replay(r, s, call) == s'
  {
    var decision := r.resolve(s, site).1;
    var call := [Visited(path, op), Resolved(site, decision)];
    OneVisit(r, s, path, op);
    assert call[..1] == [Visited(path, op)];
  }

  /**
   * The resolver is asked and told exactly what the log shows, in that order: its final state is the log
   * replayed from its first state, and every decision is its answer there.
   */
  lemma {:induction false} ResolverSeesTheLog<S>(r: Resolver<S>, p: SubProgram, items: seq<Item>, ordinal: nat,
                                                 path: InvocationPath, s: S, depth: nat)
    ensures var e := Expand(r, p, items, ordinal, path, s, depth);
      Answered(r, s, e.log) && Replay(r, s, e.log) == e.resolver
    decreases depth, |items|
  {
    hide ItemsFrom;
    if items != [] && items[0].Ok? {
      var op := items[0].value;
      var name := FormInvocationName(op, p);
      if name.None? {
        var rest := Expand(r, p, items[1..], ordinal, path, s, depth);
        OneVisit(r, s, path, op);
        ResolverSeesTheLog(r, p, items[1..], ordinal, path, s, depth);
        AnsweredConcat(r, s, [Visited(path, op)], rest.log);
      } else {
        var site := CallSite(path, ordinal, name.value, op);
        var (s', decision) := r.resolve(s, site);
        var call := [Visited(path, op), Resolved(site, decision)];
        OneCall(r, s, path, op, site);
        match decision {
          case Refuse(_) =>
          case Skip =>
            var rest := Expand(r, p, items[1..], NextOrdinal(ordinal), path, s', depth);
            ResolverSeesTheLog(r, p, items[1..], NextOrdinal(ordinal), path, s', depth);
            AnsweredConcat(r, s, call, rest.log);
          case Descend(callee) =>
            if depth > 0 {
              var inner := ExpandCallee(r, callee, site, s', depth - 1);
              CalleeSeesTheLog(r, callee, site, s', depth - 1);
              AnsweredConcat(r, s, call, inner.log);
              if inner.outcome.Finished? {
                var rest := Expand(r, p, items[1..], NextOrdinal(ordinal), path, inner.resolver, depth);
                ResolverSeesTheLog(r, p, items[1..], NextOrdinal(ordinal), path, inner.resolver, depth);
                AnsweredConcat(r, s, call + inner.log, rest.log);
              }
            }
        }
      }
    }
  }

  lemma {:induction false} CalleeSeesTheLog<S>(r: Resolver<S>, callee: SubProgram, site: CallSite, s: S, depth: nat)
    ensures var e := ExpandCallee(r, callee, site, s, depth);
      Answered(r, s, e.log) && Replay(r, s, e.log) == e.resolver
    decreases depth, |ItemsFrom(callee.program, site.event.state)| + 1
  {
    hide ItemsFrom;
    var child := ChildPath(site);
    var items := ItemsFrom(callee.program, site.event.state);
    var body := Expand(r, callee, items, 0, child, s, depth);
    ResolverSeesTheLog(r, callee, items, 0, child, s, depth);
    if !body.outcome.TooDeep? {
      assert [Returned(child)][..0] == [];
      AnsweredConcat(r, s, body.log, [Returned(child)]);
    }
  }

  // ---- Which ops are asked about -------------------------------------------

  /** The op invokes a name listed as a form and not as an image. */
  predicate InvokesForm(p: SubProgram, op: PaintOp) {
    op.kind.XObjectInvoke? && op.kind.name in p.formNames && !(op.kind.name in p.imageNames)
  }

  /** The question asked at position `i` is about this op of the program at `path`, by the name it invokes. */
  ghost predicate AskedAbout(log: Log, i: nat, path: InvocationPath, op: PaintOp) {
    i < |log| && log[i].Resolved? && log[i].site.callerPath == path && log[i].site.event == op
    && op.kind.XObjectInvoke? && log[i].site.name == op.kind.name
  }

  /** Each op shown under `path` is followed by a question about it exactly when it invokes a form. */
  ghost predicate AsksExactly(log: Log, p: SubProgram, path: InvocationPath) {
    forall i | 0 <= i < |log| && log[i].Visited? && log[i].path == path ::
      if InvokesForm(p, log[i].op) then AskedAbout(log, i + 1, path, log[i].op) else !AsksAt(log, i + 1)
  }

  ghost predicate AsksAt(log: Log, i: nat) { i < |log| && log[i].Resolved? }

  lemma AsksConcat(a: Log, b: Log, p: SubProgram, path: InvocationPath)
    requires AsksExactly(a, p, path) && AsksExactly(b, p, path) && !AsksAt(b, 0)
    ensures AsksExactly(a + b, p, path)
  {
    var log := a + b;
    forall i | 0 <= i < |log| && log[i].Visited? && log[i].path == path
      ensures if InvokesForm(p, log[i].op) then AskedAbout(log, i + 1, path, log[i].op) else !AsksAt(log, i + 1)
    {
      if i < |a| {
        assert log[i] == a[i];
        assert InvokesForm(p, a[i].op) ==> AskedAbout(a, i + 1, path, a[i].op);
        assert !InvokesForm(p, a[i].op) ==> !AsksAt(a, i + 1);
      } else {
        assert log[i] == b[i - |a|];
        assert InvokesForm(p, b[i - |a|].op) ==> AskedAbout(b, i - |a| + 1, path, b[i - |a|].op);
        assert !InvokesForm(p, b[i - |a|].op) ==> !AsksAt(b, i - |a| + 1);
      }
    }
  }

  lemma AvoidedAsksNothing(log: Log, p: SubProgram, path: InvocationPath)
    requires Avoids(log, path)
    ensures AsksExactly(log, p, path)
  {
  }

  /** Whatever the calls do: a program's op is asked about exactly when it invokes one of its forms. */
  lemma {:induction false} FormsAreAskedAbout<S>(r: Resolver<S>, p: SubProgram, items: seq<Item>, ordinal: nat,
                                                 path: InvocationPath, s: S, depth: nat)
    ensures var log := Expand(r, p, items, ordinal, path, s, depth).log; AsksExactly(log, p, path) && !AsksAt(log, 0)
    decreases |items|
  {
    hide ItemsFrom, AsksExactly, Avoids;
    NothingAsked(p, path);
    if items != [] && items[0].Ok? {
      var op := items[0].value;
      var name := FormInvocationName(op, p);
      OpAsks(op, p, path, ordinal);
      if name.None? {
        FormsAreAskedAbout(r, p, items[1..], ordinal, path, s, depth);
        AsksConcat([Visited(path, op)], Expand(r, p, items[1..], ordinal, path, s, depth).log, p, path);
      } else {
        var site := CallSite(path, ordinal, name.value, op);
        var (s', decision) := r.resolve(s, site);
        var call := [Visited(path, op), Resolved(site, decision)];
        CallAsks(op, p, site, decision);
        match decision {
          case Refuse(_) =>
          case Skip =>
            FormsAreAskedAbout(r, p, items[1..], NextOrdinal(ordinal), path, s', depth);
            AsksConcat(call, Expand(r, p, items[1..], NextOrdinal(ordinal), path, s', depth).log, p, path);
          case Descend(callee) =>
            if depth > 0 {
              var inner := ExpandCallee(r, callee, site, s', depth - 1);
              CalleeStarts(r, callee, site, s', depth - 1);
              CalleeAvoids(r, callee, site, s', depth - 1);
              AvoidedAsksNothing(inner.log, p, path);
              AsksConcat(call, inner.log, p, path);
              if inner.outcome.Finished? {
                FormsAreAskedAbout(r, p, items[1..], NextOrdinal(ordinal), path, inner.resolver, depth);
                AsksConcat(call + inner.log,
                           Expand(r, p, items[1..], NextOrdinal(ordinal), path, inner.resolver, depth).log, p, path);
              }
            }
        }
      }
    }
  }

  lemma NothingAsked(p: SubProgram, path: InvocationPath)
    ensures AsksExactly([], p, path)
  {
  }

  lemma CalleeAvoids<S>(r: Resolver<S>, callee: SubProgram, site: CallSite, s: S, depth: nat)
    ensures Avoids(ExpandCallee(r, callee, site, s, depth).log, site.callerPath)
  {
    hide ItemsFrom;
    DescentIsLocal(r, callee, site, s, depth);
  }

  lemma OpAsks(op: PaintOp, p: SubProgram, path: InvocationPath, ordinal: nat)
    ensures FormInvocationName(op, p).Some? <==> InvokesForm(p, op)
    ensures InvokesForm(p, op) ==> FormInvocationName(op, p) == Some(op.kind.name)
    ensures !InvokesForm(p, op) ==> AsksExactly([Visited(path, op)], p, path)
  {
  }

  lemma CallAsks(op: PaintOp, p: SubProgram, site: CallSite, decision: Decision)
    requires InvokesForm(p, op) && site.event == op && site.name == op.kind.name
    ensures AsksExactly([Visited(site.callerPath, op), Resolved(site, decision)], p, site.callerPath)
  {
    var call := [Visited(site.callerPath, op), Resolved(site, decision)];
    assert AskedAbout(call, 1, site.callerPath, op);
  }

  /** A descent's log starts with a visit or a return, never with a question. */
  lemma CalleeStarts<S>(r: Resolver<S>, callee: SubProgram, site: CallSite, s: S, depth: nat)
    ensures !AsksAt(ExpandCallee(r, callee, site, s, depth).log, 0)
  {
    hide ItemsFrom;
  }

  /** The root plays its program from the state a page starts in, whatever its calls do. */
  lemma RootPlaysThePage<S>(r: Resolver<S>, root: SubProgram, s: S, depth: nat)
    ensures var e := ExpandRoot(r, root, s, depth);
      Plays(VisitedAt(e.log, []), ItemsFrom(root.program, PAGE_DEFAULT), e.outcome.Finished?)
      && AsksExactly(e.log, root, [])
  {
    hide ItemsFrom, AsksExactly;
    OwnOps(r, root, ItemsFrom(root.program, PAGE_DEFAULT), 0, [], s, depth);
    FormsAreAskedAbout(r, root, ItemsFrom(root.program, PAGE_DEFAULT), 0, [], s, depth);
  }

  // ---- Why a traversal fails -----------------------------------------------

  ghost predicate Fails(items: seq<Item>, error: GraphicsWalkError) { Err(error) in items }

  ghost predicate NeverFails(items: seq<Item>) { forall i | 0 <= i < |items| :: items[i].Ok? }

  /** The interaction is a refusal, or a descent into a program whose own walk fails. */
  ghost predicate Blames(i: Interaction, error: GraphicsWalkError) {
    i.Resolved?
    && match i.decision
       case Refuse(e) => e == error
       case Skip => false
       case Descend(callee) => Fails(ItemsFrom(callee.program, i.site.event.state), error)
  }

  /** No refusal, and no descent into a program whose own walk fails. */
  ghost predicate Blameless(log: Log) {
    forall i, error | 0 <= i < |log| :: !Blames(log[i], error)
  }

  ghost predicate SomeBlame(log: Log, error: GraphicsWalkError) {
    exists i | 0 <= i < |log| :: Blames(log[i], error)
  }

  lemma BlameConcat(a: Log, b: Log)
    ensures Blameless(a + b) <==> Blameless(a) && Blameless(b)
    ensures forall error | SomeBlame(a, error) || SomeBlame(b, error) :: SomeBlame(a + b, error)
  {
    var log := a + b;
    assert forall i | 0 <= i < |a| :: log[i] == a[i];
    assert forall i | 0 <= i < |b| :: log[|a| + i] == b[i];
    forall i, error | 0 <= i < |log| && Blameless(a) && Blameless(b) ensures !Blames(log[i], error) {
      if i < |a| {
        assert log[i] == a[i];
      } else {
        assert log[i] == b[i - |a|];
      }
    }
    forall i, error | 0 <= i < |a| && Blames(a[i], error) ensures Blames(log[i], error) {
    }
    forall i, error | 0 <= i < |b| && Blames(b[i], error) ensures Blames(log[|a| + i], error) {
    }
  }

  /** What an ended traversal says about failures. */
  ghost predicate Explained<S>(e: Expansion<S>, items: seq<Item>) {
    match e.outcome
    case TooDeep => true
    case Finished => NeverFails(items) && Blameless(e.log)
    case Failed(error) => Fails(items, error) || SomeBlame(e.log, error)
  }

  /**
   * A traversal that ends fails with an error exactly when something in it can: the error is a refusal's, or
   * that of the walk of the root or of a program descended into; and it finishes only when there is none.
   */
  lemma {:induction false} FailuresAreExplained<S>(r: Resolver<S>, p: SubProgram, items: seq<Item>, ordinal: nat,
                                                   path: InvocationPath, s: S, depth: nat)
    ensures Explained(Expand(r, p, items, ordinal, path, s, depth), items)
    decreases depth, |items|
  {
    hide ItemsFrom, Blameless, SomeBlame;
    NoneToBlame();
    if items != [] && items[0].Ok? {
      var op := items[0].value;
      var name := FormInvocationName(op, p);
      VisitsAreBlameless(path, op);
      if name.None? {
        var rest := Expand(r, p, items[1..], ordinal, path, s, depth);
        FailuresAreExplained(r, p, items[1..], ordinal, path, s, depth);
        ExplainedBefore([Visited(path, op)], rest, items);
      } else {
        var site := CallSite(path, ordinal, name.value, op);
        var (s', decision) := r.resolve(s, site);
        var call := [Visited(path, op), Resolved(site, decision)];
        CallBlames(path, op, site, decision);
        match decision {
          case Refuse(error) =>
          case Skip =>
            var rest := Expand(r, p, items[1..], NextOrdinal(ordinal), path, s', depth);
            FailuresAreExplained(r, p, items[1..], NextOrdinal(ordinal), path, s', depth);
            ExplainedBefore(call, rest, items);
          case Descend(callee) =>
            if depth > 0 {
              var inner := ExpandCallee(r, callee, site, s', depth - 1);
              CalleeFailuresAreExplained(r, callee, site, s', depth - 1);
              BlameConcat(call, inner.log);
              if inner.outcome.Finished? {
                var rest := Expand(r, p, items[1..], NextOrdinal(ordinal), path, inner.resolver, depth);
                FailuresAreExplained(r, p, items[1..], NextOrdinal(ordinal), path, inner.resolver, depth);
                ExplainedBefore(call + inner.log, rest, items);
              }
            }
        }
      }
    }
  }

  lemma {:induction false} CalleeFailuresAreExplained<S>(r: Resolver<S>, callee: SubProgram, site: CallSite, s: S,
                                                         depth: nat)
    ensures Explained(ExpandCallee(r, callee, site, s, depth), ItemsFrom(callee.program, site.event.state))
    decreases depth, |ItemsFrom(callee.program, site.event.state)| + 1
  {
    hide ItemsFrom, Blameless, SomeBlame;
    var child := ChildPath(site);
    var items := ItemsFrom(callee.program, site.event.state);
    var body := Expand(r, callee, items, 0, child, s, depth);
    FailuresAreExplained(r, callee, items, 0, child, s, depth);
    ReturnsAreBlameless(child);
    BlameConcat(body.log, [Returned(child)]);
  }

  lemma NoneToBlame()
    ensures Blameless([])
  {
  }

  lemma VisitsAreBlameless(path: InvocationPath, op: PaintOp)
    ensures Blameless([Visited(path, op)])
  {
  }

  lemma ReturnsAreBlameless(child: InvocationPath)
    ensures Blameless([Returned(child)])
  {
  }

  lemma CallBlames(path: InvocationPath, op: PaintOp, site: CallSite, decision: Decision)
    ensures var call := [Visited(path, op), Resolved(site, decision)];
      match decision
      case Refuse(error) => SomeBlame(call, error)
      case Skip => Blameless(call)
      case Descend(callee) =>
        var items := ItemsFrom(callee.program, site.event.state);
        (NeverFails(items) ==> Blameless(call)) && forall error | Fails(items, error) :: SomeBlame(call, error)
  {
    hide ItemsFrom;
    var call := [Visited(path, op), Resolved(site, decision)];
    match decision {
      case Refuse(error) => assert Blames(call[1], error);
      case Skip =>
      case Descend(callee) =>
        var items := ItemsFrom(callee.program, site.event.state);
        forall error | Fails(items, error) ensures SomeBlame(call, error) {
          assert Blames(call[1], error);
        }
    }
  }

  lemma ExplainedBefore<S>(log: Log, rest: Expansion<S>, items: seq<Item>)
    requires items != [] && items[0].Ok? && Explained(rest, items[1..]) && Blameless(log)
    ensures Explained(Before(log, rest), items)
  {
    hide Blameless, SomeBlame;
    BlameConcat(log, rest.log);
    assert items == [items[0]] + items[1..];
  }

  /** After a refusal nothing happens but the return hooks, and its error is the traversal's. */
  ghost predicate RefusalsLast<S>(e: Expansion<S>) {
    forall i | 0 <= i < |e.log| && e.log[i].Resolved? && e.log[i].decision.Refuse? ::
      e.outcome == Failed(e.log[i].decision.error) && OnlyReturnsFrom(e.log, i + 1)
  }

  ghost predicate OnlyReturnsFrom(log: Log, i: nat) { forall j | i <= j < |log| :: log[j].Returned? }

  ghost predicate RefusesNothing(log: Log) {
    forall i | 0 <= i < |log| && log[i].Resolved? :: !log[i].decision.Refuse?
  }

  lemma RefusalsStayLast<S>(log: Log, rest: Expansion<S>)
    requires RefusesNothing(log) && RefusalsLast(rest)
    ensures RefusalsLast(Before(log, rest))
  {
    var all := log + rest.log;
    forall i | 0 <= i < |all| && all[i].Resolved? && all[i].decision.Refuse?
      ensures rest.outcome == Failed(all[i].decision.error) && OnlyReturnsFrom(all, i + 1)
    {
      assert i >= |log| && all[i] == rest.log[i - |log|];
      assert OnlyReturnsFrom(rest.log, i - |log| + 1);
      forall j | i + 1 <= j < |all| ensures all[j].Returned? {
        assert all[j] == rest.log[j - |log|];
      }
    }
  }

  lemma {:induction false} RefusalsEndTraversals<S>(r: Resolver<S>, p: SubProgram, items: seq<Item>, ordinal: nat,
                                                    path: InvocationPath, s: S, depth: nat)
    ensures RefusalsLast(Expand(r, p, items, ordinal, path, s, depth))
    decreases depth, |items|
  {
    hide ItemsFrom, RefusalsLast;
    NothingRefused(Expand(r, p, [], ordinal, path, s, depth));
    if items != [] && items[0].Err? {
      NothingRefused(Expand(r, p, items, ordinal, path, s, depth));
    } else if items != [] {
      var op := items[0].value;
      var name := FormInvocationName(op, p);
      if name.None? {
        RefusalsEndTraversals(r, p, items[1..], ordinal, path, s, depth);
        RefusalsStayLast([Visited(path, op)], Expand(r, p, items[1..], ordinal, path, s, depth));
      } else {
        var site := CallSite(path, ordinal, name.value, op);
        var (s', decision) := r.resolve(s, site);
        var call := [Visited(path, op), Resolved(site, decision)];
        match decision {
          case Refuse(error) => RefusedCall(path, op, site, error, s');
          case Skip =>
            RefusalsEndTraversals(r, p, items[1..], NextOrdinal(ordinal), path, s', depth);
            RefusalsStayLast(call, Expand(r, p, items[1..], NextOrdinal(ordinal), path, s', depth));
          case Descend(callee) =>
            if depth == 0 {
              NothingRefused(Expansion(call, s', TooDeep));
            } else {
              var inner := ExpandCallee(r, callee, site, s', depth - 1);
              CalleeRefusalsEnd(r, callee, site, s', depth - 1);
              RefusalsStayLast(call, inner);
              if inner.outcome.Finished? {
                var rest := Expand(r, p, items[1..], NextOrdinal(ordinal), path, inner.resolver, depth);
                RefusalsEndTraversals(r, p, items[1..], NextOrdinal(ordinal), path, inner.resolver, depth);
                FinishedRefusesNothing(inner);
                assert RefusesNothing(call + inner.log);
                RefusalsStayLast(call + inner.log, rest);
              }
            }
        }
      }
    }
  }

  lemma NothingRefused<S>(e: Expansion<S>)
    requires RefusesNothing(e.log)
    ensures RefusalsLast(e)
  {
  }

  lemma FinishedRefusesNothing<S>(e: Expansion<S>)
    requires RefusalsLast(e) && e.outcome.Finished?
    ensures RefusesNothing(e.log)
  {
  }

  lemma RefusedCall<S>(path: InvocationPath, op: PaintOp, site: CallSite, error: GraphicsWalkError, s: S)
    ensures RefusalsLast(Expansion([Visited(path, op), Resolved(site, Refuse(error))], s, Failed(error)))
  {
  }

  lemma {:induction false} CalleeRefusalsEnd<S>(r: Resolver<S>, callee: SubProgram, site: CallSite, s: S, depth: nat)
    ensures RefusalsLast(ExpandCallee(r, callee, site, s, depth))
    decreases depth, |ItemsFrom(callee.program, site.event.state)| + 1
  {
    hide ItemsFrom;
    var child := ChildPath(site);
    var items := ItemsFrom(callee.program, site.event.state);
    var body := Expand(r, callee, items, 0, child, s, depth);
    RefusalsEndTraversals(r, callee, items, 0, child, s, depth);
    if !body.outcome.TooDeep? {
      var log := body.log + [Returned(child)];
      forall i | 0 <= i < |log| && log[i].Resolved? && log[i].decision.Refuse?
        ensures body.outcome == Failed(log[i].decision.error) && OnlyReturnsFrom(log, i + 1)
      {
        assert log[i] == body.log[i] && OnlyReturnsFrom(body.log, i + 1);
      }
    }
  }

  // ---- The flat stream -----------------------------------------------------

  /** Visits before position `n` of the log. */
  function VisitCount(log: Log, n: nat): nat
    requires n <= |log|
  {
    if n == 0 then 0 else VisitCount(log, n - 1) + if log[n - 1].Visited? then 1 else 0
  }

  /** The visit at position `i` of the log has `j` visits before it. */
  ghost predicate IsVisit(log: Log, i: nat, j: nat) {
    i < |log| && log[i].Visited? && VisitCount(log, i) == j
  }

  /** Item `j` of the stream is that visit with its path. */
  ghost predicate FromVisit(stream: seq<FlatItem>, log: Log, i: nat, j: nat) {
    IsVisit(log, i, j) && j < |stream| && stream[j] == Ok((log[i].path, log[i].op))
  }

  /**
   * The stream a flat projection owes its sink: the visits of the log, all of them, in order, each with its
   * path; then, exactly when the traversal failed, its error.
   */
  ghost predicate Delivers(stream: seq<FlatItem>, log: Log, outcome: Outcome) {
    var visits := VisitCount(log, |log|);
    |stream| == visits + (if outcome.Failed? then 1 else 0)
    && (forall i: nat, j: nat | IsVisit(log, i, j) :: FromVisit(stream, log, i, j))
    && (forall j: nat | j < visits :: SomeVisit(log, |log|, j))
    && (outcome.Failed? ==> stream[visits] == Err(outcome.error))
  }

  ghost predicate SomeVisit(log: Log, n: nat, j: nat) {
    exists i: nat :: i < n && IsVisit(log, i, j)
  }

  lemma {:induction false} VisitsAreCounted(log: Log, n: nat)
    requires n <= |log|
    ensures |Visits(log[..n])| == VisitCount(log, n)
    ensures forall i: nat, j: nat | i < n && IsVisit(log, i, j) ::
      j < VisitCount(log, n) && Visits(log[..n])[j] == (log[i].path, log[i].op)
    ensures forall j: nat | j < VisitCount(log, n) :: SomeVisit(log, n, j)
    decreases n
  {
    if n > 0 {
      VisitsAreCounted(log, n - 1);
      assert log[..n][..n - 1] == log[..n - 1];
      forall j: nat | j < VisitCount(log, n) ensures SomeVisit(log, n, j) {
        if j < VisitCount(log, n - 1) {
          assert SomeVisit(log, n - 1, j);
          var i: nat :| i < n - 1 && IsVisit(log, i, j);
        } else {
          assert IsVisit(log, n - 1, j);
        }
      }
    }
  }

  lemma FlatDelivers<S>(e: Expansion<S>)
    ensures Delivers(Flat(e), e.log, e.outcome)
  {
    hide Visits, VisitCount;
    var log, stream, n := e.log, Flat(e), |e.log|;
    VisitsAreCounted(log, n);
    assert log[..n] == log;
    forall i: nat, j: nat | IsVisit(log, i, j) ensures FromVisit(stream, log, i, j) {
      assert i < n;
    }
  }

  /** Such a stream has no error but its last item, and that one exactly when the traversal failed with it. */
  lemma ErrorsComeLast(stream: seq<FlatItem>, log: Log, outcome: Outcome, j: nat, error: GraphicsWalkError)
    requires Delivers(stream, log, outcome) && j < |stream|
    ensures stream[j] == Err(error) <==> j == |stream| - 1 && outcome == Failed(error)
  {
    if j < VisitCount(log, |log|) {
      assert SomeVisit(log, |log|, j);
      var i: nat :| i < |log| && IsVisit(log, i, j);
      assert FromVisit(stream, log, i, j);
    }
  }
}
