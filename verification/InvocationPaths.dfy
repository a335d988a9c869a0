/** Invocation paths: which calls they name, when they are distinct, and what runs under them. */
module InvocationPaths {
  import opened Basics
  import opened PaintTypes
  import opened Operands
  import opened Walker
  import opened WalkerHistory
  import opened CallMachine
  import opened CallMachineProperties

  // ---- Ordinals ------------------------------------------------------------

  /** Ordinal of call number `k` of a program, counting from zero. */
  function OrdinalOfCall(k: nat): nat {
    if k == 0 then 0 else NextOrdinal(OrdinalOfCall(k - 1))
  }

  lemma {:induction false} OrdinalSaturates(k: nat)
    ensures OrdinalOfCall(k) == if k < U32_MAX then k else U32_MAX
  {
    if k > 0 {
      OrdinalSaturates(k - 1);
    }
  }

  /** Two calls of one program share an ordinal exactly when both lie past the last 32-bit value. */
  lemma OrdinalsCollideExactly(j: nat, k: nat)
    ensures OrdinalOfCall(j) == OrdinalOfCall(k) <==> j == k || (j >= U32_MAX && k >= U32_MAX)
  {
    OrdinalSaturates(j);
    OrdinalSaturates(k);
  }

  // ---- Call numbers --------------------------------------------------------

  /** Form calls made so far by the program now open at `path`; a descent that opens the path starts afresh. */
  function CallNumber(log: Log, path: InvocationPath): nat {
    if log == [] then 0
    else
      var before := CallNumber(log[..|log| - 1], path);
      match log[|log| - 1]
      case Resolved(site, decision) =>
        if site.callerPath == path then before + 1
        else if decision.Descend? && ChildPath(site) == path then 0
        else before
      case _ => before
  }

  /** A question carries the ordinal of its number among the calls of its program. */
  ghost predicate Numbered(log: Log, i: nat) {
    i < |log| && log[i].Resolved? ==> log[i].site.ordinal == OrdinalOfCall(CallNumber(log[..i], log[i].site.callerPath))
  }

  ghost predicate NumberedFrom(log: Log, from: nat) {
    forall i: nat | from <= i < |log| :: Numbered(log, i)
  }

  lemma NumberedChain(pre: Log, a: Log, b: Log)
    requires NumberedFrom(pre + a, |pre|) && NumberedFrom(pre + a + b, |pre + a|)
    ensures NumberedFrom(pre + (a + b), |pre|)
  {
    var log := pre + (a + b);
    assert log == pre + a + b;
    forall i: nat | |pre| <= i < |log| ensures Numbered(log, i) {
      if i < |pre + a| {
        assert Numbered(pre + a, i);
        assert log[..i] == (pre + a)[..i];
      }
    }
  }

  /** No call of the program at `path`, and no descent to it. */
  ghost predicate LeavesAlone(log: Log, path: InvocationPath) {
    forall i | 0 <= i < |log| && log[i].Resolved? :: log[i].site.callerPath != path && ChildPath(log[i].site) != path
  }

  lemma {:induction false} CallNumberSkips(a: Log, b: Log, path: InvocationPath)
    requires LeavesAlone(b, path)
    ensures CallNumber(a + b, path) == CallNumber(a, path)
    decreases |b|
  {
    if b == [] {
      assert a + b == a;
    } else {
      var shorter := b[..|b| - 1];
      assert (a + b)[..|a + b| - 1] == a + shorter;
      forall i | 0 <= i < |shorter| && shorter[i].Resolved?
        ensures shorter[i].site.callerPath != path && ChildPath(shorter[i].site) != path
      {
        assert b[i] == shorter[i];
      }
      CallNumberSkips(a, shorter, path);
    }
  }

  lemma CallNumberLast(log: Log, last: Interaction, path: InvocationPath)
    ensures CallNumber(log + [last], path) ==
      match last
      case Resolved(site, decision) =>
        if site.callerPath == path then CallNumber(log, path) + 1
        else if decision.Descend? && ChildPath(site) == path then 0
        else CallNumber(log, path)
      case _ => CallNumber(log, path)
  {
    assert (log + [last])[..|log|] == log;
  }

  lemma CallCounts(pre: Log, op: PaintOp, site: CallSite, decision: Decision)
    requires site.ordinal == OrdinalOfCall(CallNumber(pre, site.callerPath))
    ensures var next := pre + [Visited(site.callerPath, op), Resolved(site, decision)];
      NumberedFrom(next, |pre|) && CallNumber(next, site.callerPath) == CallNumber(pre, site.callerPath) + 1
      && (decision.Descend? ==> CallNumber(next, ChildPath(site)) == 0)
  {
    hide CallNumber, OrdinalOfCall;
    var visit, question := Visited(site.callerPath, op), Resolved(site, decision);
    var seen := pre + [visit];
    var next := pre + [visit, question];
    CallNumberLast(pre, visit, site.callerPath);
    CallNumberLast(seen, question, site.callerPath);
    CallNumberLast(seen, question, ChildPath(site));
    assert next == seen + [question];
    forall i: nat | |pre| <= i < |next| ensures Numbered(next, i) {
      if i == |pre| + 1 {
        assert next[..i] == seen;
      }
    }
  }

  lemma CalleeLeavesCallerAlone<S>(r: Resolver<S>, callee: SubProgram, site: CallSite, s: S, depth: nat)
    ensures LeavesAlone(ExpandCallee(r, callee, site, s, depth).log, site.callerPath)
  {
    hide ItemsFrom, Expand;
    var child := ChildPath(site);
    var body := Expand(r, callee, ItemsFrom(callee.program, site.event.state), 0, child, s, depth);
    ExpansionIsLocal(r, callee, ItemsFrom(callee.program, site.event.state), 0, child, s, depth);
    forall i | 0 <= i < |body.log| && body.log[i].Resolved?
      ensures body.log[i].site.callerPath != site.callerPath && ChildPath(body.log[i].site) != site.callerPath
    {
      assert UnderCall(KeyOf(body.log[i]), child, 0);
    }
  }

  /** Call number `k` of every program carries ordinal `k`, saturated. */
  lemma {:induction false} OrdinalsFollow<S>(pre: Log, r: Resolver<S>, p: SubProgram, items: seq<Item>, ordinal: nat,
                                             path: InvocationPath, s: S, depth: nat)
    requires ordinal == OrdinalOfCall(CallNumber(pre, path))
    ensures NumberedFrom(pre + Expand(r, p, items, ordinal, path, s, depth).log, |pre|)
    decreases depth, |items|
  {
    hide ItemsFrom, CallNumber, NumberedFrom;
    if items == [] || items[0].Err? {
      NothingToNumber(pre);
    } else {
      var op := items[0].value;
      var name := FormInvocationName(op, p);
      if name.None? {
        var visit := [Visited(path, op)];
        CallNumberSkips(pre, visit, path);
        VisitNeedsNoNumber(pre, path, op);
        OrdinalsFollow(pre + visit, r, p, items[1..], ordinal, path, s, depth);
        NumberedChain(pre, visit, Expand(r, p, items[1..], ordinal, path, s, depth).log);
      } else {
        var site := CallSite(path, ordinal, name.value, op);
        var (s', decision) := r.resolve(s, site);
        var call := [Visited(path, op), Resolved(site, decision)];
        CallCounts(pre, op, site, decision);
        NextOrdinalCounts(CallNumber(pre, path));
        match decision {
          case Refuse(_) =>
          case Skip =>
            OrdinalsFollow(pre + call, r, p, items[1..], NextOrdinal(ordinal), path, s', depth);
            NumberedChain(pre, call, Expand(r, p, items[1..], NextOrdinal(ordinal), path, s', depth).log);
          case Descend(callee) =>
            if depth > 0 {
              var inner := ExpandCallee(r, callee, site, s', depth - 1);
              CalleeOrdinalsFollow(pre + call, r, callee, site, s', depth - 1);
              NumberedChain(pre, call, inner.log);
              if inner.outcome.Finished? {
                CalleeLeavesCallerAlone(r, callee, site, s', depth - 1);
                CallNumberSkips(pre + call, inner.log, path);
                assert pre + (call + inner.log) == pre + call + inner.log;
                OrdinalsFollow(pre + (call + inner.log), r, p, items[1..], NextOrdinal(ordinal), path,
                               inner.resolver, depth);
                NumberedChain(pre, call + inner.log,
                              Expand(r, p, items[1..], NextOrdinal(ordinal), path, inner.resolver, depth).log);
              }
            }
        }
      }
    }
  }

  lemma NextOrdinalCounts(k: nat)
    ensures NextOrdinal(OrdinalOfCall(k)) == OrdinalOfCall(k + 1)
  {
  }

  lemma NothingToNumber(pre: Log)
    ensures NumberedFrom(pre + [], |pre|)
  {
  }

  lemma VisitNeedsNoNumber(pre: Log, path: InvocationPath, op: PaintOp)
    ensures NumberedFrom(pre + [Visited(path, op)], |pre|)
  {
  }

  lemma {:induction false} CalleeOrdinalsFollow<S>(pre: Log, r: Resolver<S>, callee: SubProgram, site: CallSite, s: S,
                                                   depth: nat)
    requires CallNumber(pre, ChildPath(site)) == 0
    ensures NumberedFrom(pre + ExpandCallee(r, callee, site, s, depth).log, |pre|)
    decreases depth, |ItemsFrom(callee.program, site.event.state)| + 1
  {
    hide ItemsFrom, CallNumber, NumberedFrom;
    var items, child := ItemsFrom(callee.program, site.event.state), ChildPath(site);
    OrdinalsFollow(pre, r, callee, items, 0, child, s, depth);
    var body := Expand(r, callee, items, 0, child, s, depth);
    if !body.outcome.TooDeep? {
      ReturnNeedsNoNumber(pre + body.log, child);
      NumberedChain(pre, body.log, [Returned(child)]);
    }
  }

  lemma ReturnNeedsNoNumber(pre: Log, child: InvocationPath)
    ensures NumberedFrom(pre + [Returned(child)], |pre|)
  {
  }

  /** In every traversal, call number `k` of each program it runs carries the ordinal `k`, as far as 32 bits reach. */
  lemma OrdinalsCountCalls<S>(r: Resolver<S>, root: SubProgram, s: S, depth: nat, i: nat)
    requires i < |ExpandRoot(r, root, s, depth).log| && ExpandRoot(r, root, s, depth).log[i].Resolved?
    ensures var log := ExpandRoot(r, root, s, depth).log;
      var number := CallNumber(log[..i], log[i].site.callerPath);
      log[i].site.ordinal == if number < U32_MAX then number else U32_MAX
  {
    hide ItemsFrom, Expand;
    var log := ExpandRoot(r, root, s, depth).log;
    OrdinalsFollow([], r, root, ItemsFrom(root.program, PAGE_DEFAULT), 0, [], s, depth);
    assert [] + log == log;
    assert Numbered(log, i);
    OrdinalSaturates(CallNumber(log[..i], log[i].site.callerPath));
  }

  // ---- Programs with few calls ---------------------------------------------

  /** Record `i` is a `Do` that names one of the program's forms. */
  predicate CallsForm(p: SubProgram, i: nat)
    requires i < |p.program.records|
  {
    InstructionAt(p.program, i).InvokeInstruction?
    && match NameOperand(p.program.source, Opcode(p.program, i), p.program.records[i])
       case Err(_) => false
       case Ok(name) => name !in p.imageNames && name in p.formNames
  }

  function FormCallRecords(p: SubProgram, index: nat): nat
    decreases |p.program.records| - index
  {
    if index >= |p.program.records| then 0
    else (if CallsForm(p, index) then 1 else 0) + FormCallRecords(p, index + 1)
  }

  /** Read off the program alone: at most 2^32 of its records call a form. */
  predicate FewCalls(p: SubProgram) { FormCallRecords(p, 0) <= U32_COUNT }

  /** Every callee the resolver can hand out, in whatever state, has few calls. */
  ghost predicate HandsOutFewCalls<S(!new)>(r: Resolver<S>) {
    forall s, site :: r.resolve(s, site).1.Descend? ==> FewCalls(r.resolve(s, site).1.callee)
  }

  function CallsIn(p: SubProgram, items: seq<Item>): nat {
    if items == [] then 0
    else (if items[0].Ok? && FormInvocationName(items[0].value, p).Some? then 1 else 0) + CallsIn(p, items[1..])
  }

  lemma FormCallsComeFromRecords(p: SubProgram, i: nat, w: WalkerState)
    requires i < |p.program.records|
    ensures var step := Step(p.program.env, p.program.source, i, p.program.records[i], w);
      step.Ok? && FormInvocationName(step.value.0, p).Some? ==> CallsForm(p, i)
  {
  }

  /** A walk makes no more form calls than the program has records for, whatever state it starts in. */
  lemma {:induction false} CallsAreRecords(p: SubProgram, index: nat, w: WalkerState)
    ensures CallsIn(p, Items(p.program, index, w)) <= FormCallRecords(p, index)
    decreases |p.program.records| - index
  {
    hide Step, CallsForm, FormInvocationName;
    if index < |p.program.records| {
      FormCallsComeFromRecords(p, index, w);
      match Step(p.program.env, p.program.source, index, p.program.records[index], w) {
        case Err(e) =>
          assert Items(p.program, index, w)[1..] == [];
        case Ok((op, after)) =>
          CallsAreRecords(p, index + 1, after);
          assert Items(p.program, index, w)[1..] == Items(p.program, index + 1, after);
      }
    }
  }

  /** From position `start` on, every question is call number 2^32 - 1 of its program at most. */
  ghost predicate NumbersFit(log: Log, start: nat) {
    forall i: nat | start <= i < |log| && log[i].Resolved? :: CallNumber(log[..i], log[i].site.callerPath) <= U32_MAX
  }

  lemma FitChain(pre: Log, a: Log, b: Log)
    requires NumbersFit(pre + a, |pre|) && NumbersFit(pre + a + b, |pre + a|)
    ensures NumbersFit(pre + (a + b), |pre|)
  {
    var log := pre + (a + b);
    assert log == pre + a + b;
    forall i: nat | |pre| <= i < |log| && log[i].Resolved?
      ensures CallNumber(log[..i], log[i].site.callerPath) <= U32_MAX
    {
      if i < |pre + a| {
        assert log[..i] == (pre + a)[..i] && log[i] == (pre + a)[i];
      }
    }
  }

  lemma OneFits(pre: Log, last: Interaction)
    requires last.Resolved? ==> CallNumber(pre, last.site.callerPath) <= U32_MAX
    ensures NumbersFit(pre + [last], |pre|)
  {
    assert (pre + [last])[..|pre|] == pre;
  }

  lemma NoneFit(pre: Log)
    ensures NumbersFit(pre + [], |pre|)
  {
  }

  lemma CallFits(pre: Log, op: PaintOp, site: CallSite, decision: Decision)
    requires CallNumber(pre, site.callerPath) <= U32_MAX
    ensures var next := pre + [Visited(site.callerPath, op), Resolved(site, decision)];
      NumbersFit(next, |pre|) && CallNumber(next, site.callerPath) == CallNumber(pre, site.callerPath) + 1
      && (decision.Descend? ==> CallNumber(next, ChildPath(site)) == 0)
  {
    hide CallNumber;
    var visit, question := Visited(site.callerPath, op), Resolved(site, decision);
    CallNumberLast(pre, visit, site.callerPath);
    CallNumberLast(pre + [visit], question, site.callerPath);
    CallNumberLast(pre + [visit], question, ChildPath(site));
    OneFits(pre, visit);
    OneFits(pre + [visit], question);
    FitChain(pre, [visit], [question]);
    assert [visit] + [question] == [visit, question] && pre + [visit] + [question] == pre + [visit, question];
  }

  lemma {:induction false} NumbersStayBelow<S(!new)>(pre: Log, r: Resolver<S>, p: SubProgram, items: seq<Item>,
                                                     ordinal: nat, path: InvocationPath, s: S, depth: nat)
    requires HandsOutFewCalls(r) && CallNumber(pre, path) + CallsIn(p, items) <= U32_COUNT
    ensures NumbersFit(pre + Expand(r, p, items, ordinal, path, s, depth).log, |pre|)
    decreases depth, |items|
  {
    hide ItemsFrom, CallNumber, NumbersFit, FewCalls;
    if items == [] || items[0].Err? {
      NoneFit(pre);
    } else {
      var op := items[0].value;
      var name := FormInvocationName(op, p);
      if name.None? {
        CallNumberLast(pre, Visited(path, op), path);
        OneFits(pre, Visited(path, op));
        NumbersStayBelow(pre + [Visited(path, op)], r, p, items[1..], ordinal, path, s, depth);
        FitChain(pre, [Visited(path, op)], Expand(r, p, items[1..], ordinal, path, s, depth).log);
      } else {
        var site := CallSite(path, ordinal, name.value, op);
        var (s', decision) := r.resolve(s, site);
        var call := [Visited(path, op), Resolved(site, decision)];
        CallFits(pre, op, site, decision);
        match decision {
          case Refuse(_) =>
          case Skip =>
            NumbersStayBelow(pre + call, r, p, items[1..], NextOrdinal(ordinal), path, s', depth);
            FitChain(pre, call, Expand(r, p, items[1..], NextOrdinal(ordinal), path, s', depth).log);
          case Descend(callee) =>
            if depth > 0 {
              var inner := ExpandCallee(r, callee, site, s', depth - 1);
              assert FewCalls(r.resolve(s, site).1.callee);
              CalleeStaysBelow(pre + call, r, callee, site, s', depth - 1);
              FitChain(pre, call, inner.log);
              if inner.outcome.Finished? {
                CalleeLeavesCallerAlone(r, callee, site, s', depth - 1);
                CallNumberSkips(pre + call, inner.log, path);
                assert pre + (call + inner.log) == pre + call + inner.log;
                NumbersStayBelow(pre + (call + inner.log), r, p, items[1..], NextOrdinal(ordinal), path,
                                 inner.resolver, depth);
                FitChain(pre, call + inner.log,
                         Expand(r, p, items[1..], NextOrdinal(ordinal), path, inner.resolver, depth).log);
              }
            }
        }
      }
    }
  }

  lemma {:induction false} CalleeStaysBelow<S(!new)>(pre: Log, r: Resolver<S>, callee: SubProgram, site: CallSite, s: S,
                                                     depth: nat)
    requires HandsOutFewCalls(r) && FewCalls(callee) && CallNumber(pre, ChildPath(site)) == 0
    ensures NumbersFit(pre + ExpandCallee(r, callee, site, s, depth).log, |pre|)
    decreases depth, |ItemsFrom(callee.program, site.event.state)| + 1
  {
    hide ItemsFrom, CallNumber, NumbersFit, FewCalls;
    var items, child := ItemsFrom(callee.program, site.event.state), ChildPath(site);
    FewCallsFromAnyState(callee, site.event.state);
    NumbersStayBelow(pre, r, callee, items, 0, child, s, depth);
    var body := Expand(r, callee, items, 0, child, s, depth);
    if !body.outcome.TooDeep? {
      OneFits(pre + body.log, Returned(child));
      FitChain(pre, body.log, [Returned(child)]);
    }
  }

  lemma FewCallsFromAnyState(p: SubProgram, seed: Snapshot)
    requires FewCalls(p)
    ensures CallsIn(p, ItemsFrom(p.program, seed)) <= U32_COUNT
  {
    hide Items, FormCallRecords;
    CallsAreRecords(p, 0, WalkerState(seed, []));
  }

  /** Under the bound a caller can check before the walk, ordinals are call numbers: none is ever saturated away. */
  lemma FewCallsNumberExactly<S(!new)>(r: Resolver<S>, root: SubProgram, s: S, depth: nat, i: nat)
    requires FewCalls(root) && HandsOutFewCalls(r)
    requires i < |ExpandRoot(r, root, s, depth).log| && ExpandRoot(r, root, s, depth).log[i].Resolved?
    ensures var log := ExpandRoot(r, root, s, depth).log;
      log[i].site.ordinal == CallNumber(log[..i], log[i].site.callerPath) <= U32_MAX
  {
    hide ItemsFrom, Expand, FewCalls, CallNumber;
    var log := ExpandRoot(r, root, s, depth).log;
    FewCallsFromAnyState(root, PAGE_DEFAULT);
    NoCallsYet();
    NumbersStayBelow([], r, root, ItemsFrom(root.program, PAGE_DEFAULT), 0, [], s, depth);
    assert [] + log == log;
    OrdinalsCountCalls(r, root, s, depth, i);
  }

  lemma NoCallsYet()
    ensures forall path :: CallNumber([], path) == 0
  {
  }

  // ---- Programs are opened before anything runs in them --------------------

  ghost predicate Opens(log: Log, key: InvocationPath) {
    exists k | 0 <= k < |log| :: IsDescent(log[k]) && KeyOf(log[k]) == key
  }

  /** Something runs below `path`: an op is seen under another path, or a descent is made. */
  predicate RunsBelow(i: Interaction, path: InvocationPath) {
    (i.Visited? && i.path != path) || IsDescent(i)
  }

  /** Whatever runs below `path` runs under a call of that program which some descent opened. */
  ghost predicate CallsOpened(log: Log, path: InvocationPath) {
    forall i | 0 <= i < |log| && RunsBelow(log[i], path) ::
      |KeyOf(log[i])| > |path| && Opens(log, KeyOf(log[i])[..|path| + 1])
  }

  lemma OpensConcat(a: Log, b: Log, key: InvocationPath)
    requires Opens(a, key) || Opens(b, key)
    ensures Opens(a + b, key)
  {
    if k :| 0 <= k < |a| && IsDescent(a[k]) && KeyOf(a[k]) == key {
      assert (a + b)[k] == a[k];
    } else {
      var k :| 0 <= k < |b| && IsDescent(b[k]) && KeyOf(b[k]) == key;
      assert (a + b)[|a| + k] == b[k];
    }
  }

  lemma OpenedConcat(a: Log, b: Log, path: InvocationPath)
    requires CallsOpened(a, path) && CallsOpened(b, path)
    ensures CallsOpened(a + b, path)
  {
    var log := a + b;
    forall i | 0 <= i < |log| && RunsBelow(log[i], path)
      ensures |KeyOf(log[i])| > |path| && Opens(log, KeyOf(log[i])[..|path| + 1])
    {
      if i < |a| {
        assert log[i] == a[i];
      } else {
        assert log[i] == b[i - |a|];
      }
      OpensConcat(a, b, KeyOf(log[i])[..|path| + 1]);
    }
  }

  lemma DescentOpens(op: PaintOp, site: CallSite, callee: SubProgram, inner: Log)
    requires forall i | 0 <= i < |inner| :: ChildPath(site) <= KeyOf(inner[i])
    ensures CallsOpened([Visited(site.callerPath, op), Resolved(site, Descend(callee))] + inner, site.callerPath)
  {
    var log, path := [Visited(site.callerPath, op), Resolved(site, Descend(callee))] + inner, site.callerPath;
    assert IsDescent(log[1]) && KeyOf(log[1]) == ChildPath(site);
    forall i | 0 <= i < |log| && RunsBelow(log[i], path)
      ensures |KeyOf(log[i])| > |path| && Opens(log, KeyOf(log[i])[..|path| + 1])
    {
      assert ChildPath(site) <= KeyOf(log[i]) by {
        if i >= 2 {
          assert log[i] == inner[i - 2];
        }
      }
      assert KeyOf(log[i])[..|path| + 1] == ChildPath(site);
    }
  }

  lemma {:induction false} CallsAreOpened<S>(r: Resolver<S>, p: SubProgram, items: seq<Item>, ordinal: nat,
                                             path: InvocationPath, s: S, depth: nat)
    ensures CallsOpened(Expand(r, p, items, ordinal, path, s, depth).log, path)
    decreases |items|
  {
    hide ItemsFrom, ExpandCallee;
    if items != [] && items[0].Ok? {
      var op := items[0].value;
      var name := FormInvocationName(op, p);
      if name.None? {
        CallsAreOpened(r, p, items[1..], ordinal, path, s, depth);
        OpenedConcat([Visited(path, op)], Expand(r, p, items[1..], ordinal, path, s, depth).log, path);
      } else {
        var site := CallSite(path, ordinal, name.value, op);
        var (s', decision) := r.resolve(s, site);
        match decision {
          case Refuse(_) =>
          case Skip =>
            CallsAreOpened(r, p, items[1..], NextOrdinal(ordinal), path, s', depth);
            OpenedConcat([Visited(path, op), Resolved(site, decision)],
                         Expand(r, p, items[1..], NextOrdinal(ordinal), path, s', depth).log, path);
          case Descend(callee) =>
            DescentOpens(op, site, callee, []);
            assert [Visited(path, op), Resolved(site, decision)] + [] == [Visited(path, op), Resolved(site, decision)];
            if depth > 0 {
              var inner := ExpandCallee(r, callee, site, s', depth - 1);
              DescentIsLocal(r, callee, site, s', depth - 1);
              DescentOpens(op, site, callee, inner.log);
              if inner.outcome.Finished? {
                CallsAreOpened(r, p, items[1..], NextOrdinal(ordinal), path, inner.resolver, depth);
                OpenedConcat([Visited(path, op), Resolved(site, decision)] + inner.log,
                             Expand(r, p, items[1..], NextOrdinal(ordinal), path, inner.resolver, depth).log, path);
              }
            }
        }
      }
    }
  }

  // ---- When two descents share a path --------------------------------------

  ghost predicate DistinctDescents(log: Log) {
    forall i, j | 0 <= i < j < |log| ::
      IsDescent(log[i]) && IsDescent(log[j]) ==> KeyOf(log[i]) != KeyOf(log[j])
  }

  lemma DistinctConcat(a: Log, b: Log)
    requires DistinctDescents(a) && DistinctDescents(b)
    requires forall i, j | 0 <= i < |a| && 0 <= j < |b| ::
      IsDescent(a[i]) && IsDescent(b[j]) ==> KeyOf(a[i]) != KeyOf(b[j])
    ensures DistinctDescents(a + b)
  {
    var log := a + b;
    forall i, j | 0 <= i < j < |log| && IsDescent(log[i]) && IsDescent(log[j])
      ensures KeyOf(log[i]) != KeyOf(log[j])
    {
      assert log[i] == (if i < |a| then a[i] else b[i - |a|]);
      assert log[j] == (if j < |a| then a[j] else b[j - |a|]);
    }
  }

  /** Two questions of one program: the same caller path, not opened again in between. */
  ghost predicate SameProgram(log: Log, i: nat, j: nat) {
    i < j < |log| && log[i].Resolved? && log[j].Resolved? && log[i].site.callerPath == log[j].site.callerPath
    && forall k | i < k < j :: !(IsDescent(log[k]) && KeyOf(log[k]) == log[j].site.callerPath)
  }

  /** Two descents of one program that open the same path. */
  ghost predicate Siblings(log: Log, i: nat, j: nat) {
    SameProgram(log, i, j) && IsDescent(log[i]) && IsDescent(log[j]) && KeyOf(log[i]) == KeyOf(log[j])
  }

  ghost predicate NoSiblings(log: Log) {
    forall i: nat, j: nat :: !Siblings(log, i, j)
  }

  lemma SiblingsInside(a: Log, b: Log, c: Log, i: nat, j: nat)
    requires Siblings(b, i, j)
    ensures Siblings(a + b + c, |a| + i, |a| + j)
  {
    var log := a + b + c;
    assert log[|a| + i] == b[i] && log[|a| + j] == b[j];
    forall k | |a| + i < k < |a| + j ensures !(IsDescent(log[k]) && KeyOf(log[k]) == log[|a| + j].site.callerPath) {
      assert log[k] == b[k - |a|];
    }
  }

  lemma NoSiblingsInside(a: Log, b: Log, c: Log)
    requires NoSiblings(a + b + c)
    ensures NoSiblings(b)
  {
    forall i: nat, j: nat | Siblings(b, i, j) ensures Siblings(a + b + c, |a| + i, |a| + j) {
      SiblingsInside(a, b, c, i, j);
    }
  }

  lemma NoSiblingsInParts(a: Log, b: Log)
    requires NoSiblings(a + b)
    ensures NoSiblings(a) && NoSiblings(b)
  {
    assert [] + a + b == a + b == a + b + [];
    NoSiblingsInside([], a, b);
    NoSiblingsInside(a, b, []);
  }

  /** Nothing is seen and nothing is opened at or below `child`. */
  ghost predicate Clear(log: Log, child: InvocationPath) {
    forall i | 0 <= i < |log| && (log[i].Visited? || IsDescent(log[i])) :: !(child <= KeyOf(log[i]))
  }

  /** After a descent the caller never comes back to its path, or two of its own descents share it. */
  lemma RestIsClear(call: Log, inner: Log, rest: Log, site: CallSite)
    requires |call| == 2 && call[0].Visited? && IsDescent(call[1]) && call[1].site == site
    requires forall i | 0 <= i < |inner| :: ChildPath(site) <= KeyOf(inner[i])
    requires CallsOpened(rest, site.callerPath) && Local(rest, site.callerPath, 0)
    requires NoSiblings(call + inner + rest)
    ensures Clear(rest, ChildPath(site))
  {
    var log, path, child := call + inner + rest, site.callerPath, ChildPath(site);
    forall i | 0 <= i < |rest| && (rest[i].Visited? || IsDescent(rest[i])) ensures !(child <= KeyOf(rest[i])) {
      if child <= KeyOf(rest[i]) {
        assert RunsBelow(rest[i], path);
        assert KeyOf(rest[i])[..|path| + 1] == child;
        var k :| 0 <= k < |rest| && IsDescent(rest[k]) && KeyOf(rest[k]) == child;
        SecondOpening(call, inner, rest, site, k);
      }
    }
  }

  lemma SecondOpening(call: Log, inner: Log, rest: Log, site: CallSite, k: nat)
    requires |call| == 2 && call[0].Visited? && IsDescent(call[1]) && call[1].site == site
    requires forall i | 0 <= i < |inner| :: ChildPath(site) <= KeyOf(inner[i])
    requires Local(rest, site.callerPath, 0)
    requires k < |rest| && IsDescent(rest[k]) && KeyOf(rest[k]) == ChildPath(site)
    ensures Siblings(call + inner + rest, 1, |call| + |inner| + k)
  {
    var log, path, j := call + inner + rest, site.callerPath, |call| + |inner| + k;
    assert log[1] == call[1] && log[j] == rest[k];
    assert ChildPath(rest[k].site)[..|path|] == rest[k].site.callerPath;
    assert ChildPath(site)[..|path|] == path;
    forall m | 1 < m < j ensures !(IsDescent(log[m]) && KeyOf(log[m]) == path) {
      if m < |call| + |inner| {
        assert log[m] == inner[m - |call|];
      } else {
        assert log[m] == rest[m - |call| - |inner|];
      }
    }
  }

  /** Either two descents of one program share a path, or no two descents of the traversal do. */
  lemma {:induction false} DistinctUnlessSiblings<S>(r: Resolver<S>, p: SubProgram, items: seq<Item>, ordinal: nat,
                                                     path: InvocationPath, s: S, depth: nat)
    requires ordinal <= U32_MAX && NoSiblings(Expand(r, p, items, ordinal, path, s, depth).log)
    ensures DistinctDescents(Expand(r, p, items, ordinal, path, s, depth).log)
    decreases depth, |items|
  {
    hide ItemsFrom, NoSiblings;
    if items != [] && items[0].Ok? {
      var op := items[0].value;
      var name := FormInvocationName(op, p);
      if name.None? {
        var rest := Expand(r, p, items[1..], ordinal, path, s, depth);
        NoSiblingsInParts([Visited(path, op)], rest.log);
        DistinctUnlessSiblings(r, p, items[1..], ordinal, path, s, depth);
        DistinctConcat([Visited(path, op)], rest.log);
      } else {
        var site := CallSite(path, ordinal, name.value, op);
        var (s', decision) := r.resolve(s, site);
        var call := [Visited(path, op), Resolved(site, decision)];
        match decision {
          case Refuse(_) =>
          case Skip =>
            var rest := Expand(r, p, items[1..], NextOrdinal(ordinal), path, s', depth);
            NoSiblingsInParts(call, rest.log);
            DistinctUnlessSiblings(r, p, items[1..], NextOrdinal(ordinal), path, s', depth);
            DistinctConcat(call, rest.log);
          case Descend(callee) =>
            if depth > 0 {
              var inner := ExpandCallee(r, callee, site, s', depth - 1);
              if inner.outcome.Finished? {
                var rest := Expand(r, p, items[1..], NextOrdinal(ordinal), path, inner.resolver, depth);
                NoSiblingsInParts(call + inner.log, rest.log);
                NoSiblingsInParts(call, inner.log);
                CalleeDescentsDistinct(r, callee, site, s', depth - 1, call);
                DistinctUnlessSiblings(r, p, items[1..], NextOrdinal(ordinal), path, inner.resolver, depth);
                DescentIsLocal(r, callee, site, s', depth - 1);
                CallsAreOpened(r, p, items[1..], NextOrdinal(ordinal), path, inner.resolver, depth);
                RestIsLocal(r, p, items[1..], NextOrdinal(ordinal), path, inner.resolver, depth);
                RestIsClear(call, inner.log, rest.log, site);
                ClearDiffers(call + inner.log, rest.log, ChildPath(site));
                DistinctConcat(call + inner.log, rest.log);
              } else {
                NoSiblingsInParts(call, inner.log);
                CalleeDescentsDistinct(r, callee, site, s', depth - 1, call);
              }
            }
        }
      }
    }
  }

  lemma RestIsLocal<S>(r: Resolver<S>, p: SubProgram, items: seq<Item>, ordinal: nat, path: InvocationPath, s: S,
                       depth: nat)
    requires ordinal <= U32_MAX
    ensures Local(Expand(r, p, items, ordinal, path, s, depth).log, path, 0)
  {
    hide Expand;
    ExpansionIsLocal(r, p, items, ordinal, path, s, depth);
  }

  lemma ClearDiffers(before: Log, rest: Log, child: InvocationPath)
    requires Clear(rest, child) && forall i | 0 <= i < |before| && IsDescent(before[i]) :: child <= KeyOf(before[i])
    ensures forall i, j | 0 <= i < |before| && 0 <= j < |rest| ::
      IsDescent(before[i]) && IsDescent(rest[j]) ==> KeyOf(before[i]) != KeyOf(rest[j])
  {
  }

  lemma {:induction false} CalleeDescentsDistinct<S>(r: Resolver<S>, callee: SubProgram, site: CallSite, s: S,
                                                     depth: nat, call: Log)
    requires |call| == 2 && call[0].Visited? && call[1] == Resolved(site, Descend(callee))
    requires NoSiblings(ExpandCallee(r, callee, site, s, depth).log)
    ensures DistinctDescents(call + ExpandCallee(r, callee, site, s, depth).log)
    decreases depth, |ItemsFrom(callee.program, site.event.state)| + 1
  {
    hide ItemsFrom, NoSiblings;
    var items, child := ItemsFrom(callee.program, site.event.state), ChildPath(site);
    var body := Expand(r, callee, items, 0, child, s, depth);
    var tail := if body.outcome.TooDeep? then [] else [Returned(child)];
    assert ExpandCallee(r, callee, site, s, depth).log == body.log + tail;
    NoSiblingsInParts(body.log, tail);
    DistinctUnlessSiblings(r, callee, items, 0, child, s, depth);
    ExpansionIsLocal(r, callee, items, 0, child, s, depth);
    DistinctConcat(body.log, tail);
    DistinctConcat(call, body.log + tail);
  }

  /** Two descents of one program that are both past the last ordinal, by the same name. */
  ghost predicate SaturatedPair(log: Log, i: nat, j: nat) {
    SameProgram(log, i, j) && IsDescent(log[i]) && IsDescent(log[j]) && log[i].site.name == log[j].site.name
    && CallNumber(log[..i], log[i].site.callerPath) >= U32_MAX
    && CallNumber(log[..j], log[j].site.callerPath) >= U32_MAX
  }

  lemma {:induction false} CallNumberRises(log: Log, i: nat, j: nat)
    requires i < j <= |log| && log[i].Resolved?
    requires forall k | i < k < j :: !(IsDescent(log[k]) && KeyOf(log[k]) == log[i].site.callerPath)
    ensures CallNumber(log[..j], log[i].site.callerPath) > CallNumber(log[..i], log[i].site.callerPath)
    decreases j
  {
    var path := log[i].site.callerPath;
    assert log[..j] == log[..j - 1] + [log[j - 1]];
    CallNumberLast(log[..j - 1], log[j - 1], path);
    if i < j - 1 {
      CallNumberRises(log, i, j - 1);
    }
  }

  /**
   * Two descents of one program share a path exactly when they use one name and are both calls number 2^32 - 1
   * or later.
   */
  lemma SharedPathExactly<S>(r: Resolver<S>, root: SubProgram, s: S, depth: nat, i: nat, j: nat)
    requires var log := ExpandRoot(r, root, s, depth).log;
      SameProgram(log, i, j) && IsDescent(log[i]) && IsDescent(log[j])
    ensures var log := ExpandRoot(r, root, s, depth).log; Siblings(log, i, j) <==> SaturatedPair(log, i, j)
  {
    hide ItemsFrom, Expand, ExpandRoot, CallNumber;
    var log := ExpandRoot(r, root, s, depth).log;
    OrdinalsCountCalls(r, root, s, depth, i);
    OrdinalsCountCalls(r, root, s, depth, j);
    CallNumberRises(log, i, j);
    ChildPathsEqual(log[i].site, log[j].site);
  }

  lemma ChildPathsEqual(a: CallSite, b: CallSite)
    requires a.callerPath == b.callerPath
    ensures ChildPath(a) == ChildPath(b) <==> a.ordinal == b.ordinal && a.name == b.name
  {
    assert ChildPath(a)[|a.callerPath|] == InvocationFrame(a.ordinal, a.name);
    assert ChildPath(b)[|b.callerPath|] == InvocationFrame(b.ordinal, b.name);
  }

  /**
   * The exact condition, for a whole traversal: some two descents share a path if and only if some program
   * descends twice by one name in calls number 2^32 - 1 or later.
   */
  lemma PathsCollideExactly<S>(r: Resolver<S>, root: SubProgram, s: S, depth: nat)
    ensures var log := ExpandRoot(r, root, s, depth).log;
      !DistinctDescents(log) <==> exists i: nat, j: nat :: SaturatedPair(log, i, j)
  {
    hide ItemsFrom, Expand, CallNumber;
    var log := ExpandRoot(r, root, s, depth).log;
    if !NoSiblings(log) {
      var i: nat, j: nat :| Siblings(log, i, j);
      SharedPathExactly(r, root, s, depth, i, j);
    } else {
      DistinctUnlessSiblings(r, root, ItemsFrom(root.program, PAGE_DEFAULT), 0, [], s, depth);
      forall i: nat, j: nat | SaturatedPair(log, i, j) ensures false {
        SharedPathExactly(r, root, s, depth, i, j);
      }
    }
  }

  /** While the root and every callee have few calls, no two descents of a traversal open the same path. */
  lemma DescentPathsDistinct<S(!new)>(r: Resolver<S>, root: SubProgram, s: S, depth: nat)
    requires FewCalls(root) && HandsOutFewCalls(r)
    ensures DistinctDescents(ExpandRoot(r, root, s, depth).log)
  {
    hide ItemsFrom, Expand, CallNumber, FewCalls, HandsOutFewCalls, ExpandRoot;
    var log := ExpandRoot(r, root, s, depth).log;
    PathsCollideExactly(r, root, s, depth);
    forall i: nat, j: nat | SaturatedPair(log, i, j) ensures false {
      FewCallsNumberExactly(r, root, s, depth, j);
      CallNumberRises(log, i, j);
    }
  }

  // ---- Non-interference ----------------------------------------------------

  /** Every descent in the log shows, under its own path, its program run alone from the state of its `Do`. */
  ghost predicate DescentsPlay(log: Log, whole: bool) {
    forall i | 0 <= i < |log| :: IsDescent(log[i]) ==> DescentPlays(log, log[i], whole)
  }

  ghost predicate DescentPlays(log: Log, call: Interaction, whole: bool)
    requires IsDescent(call)
  {
    Plays(VisitedAt(log, ChildPath(call.site)), ItemsFrom(call.decision.callee.program, call.site.event.state), whole)
  }

  lemma PlaysInside(before: Log, log: Log, after: Log, call: Interaction, whole: bool)
    requires IsDescent(call) && DescentPlays(log, call, whole)
    requires Avoids(before, ChildPath(call.site)) && Avoids(after, ChildPath(call.site))
    ensures DescentPlays(before + log + after, call, whole)
  {
    var path := ChildPath(call.site);
    VisitedConcat(before + log, after, path);
    VisitedConcat(before, log, path);
    AvoidsNone(before, path);
    AvoidsNone(after, path);
  }

  lemma ClearAvoids(log: Log, child: InvocationPath, path: InvocationPath)
    requires Clear(log, child) && child <= path
    ensures Avoids(log, path)
  {
  }

  /** Combining one descent with what the caller does afterwards. */
  lemma DescentsCombine(call: Log, inner: Log, rest: Log, site: CallSite, callee: SubProgram, op: PaintOp,
                        whole: bool, innerWhole: bool)
    requires call == [Visited(site.callerPath, op), Resolved(site, Descend(callee))]
    requires DescentPlays(inner, call[1], innerWhole) && DescentsPlay(inner, innerWhole) && DescentsPlay(rest, whole)
    requires whole ==> innerWhole
    requires forall i | 0 <= i < |inner| :: ChildPath(site) <= KeyOf(inner[i])
    requires Clear(rest, ChildPath(site)) && Local(rest, site.callerPath, 0)
    ensures DescentsPlay(call + inner + rest, whole)
  {
    hide DescentPlays, Clear;
    var log := call + inner + rest;
    forall i | 0 <= i < |log| && IsDescent(log[i])
      ensures DescentPlays(log, log[i], whole)
    {
      if i < |call| + |inner| {
        assert log[i] == call[1] || log[i] == inner[i - |call|];
        EarlierDescentPlays(call, inner, rest, site, log[i], whole, innerWhole);
      } else {
        assert log[i] == rest[i - |call| - |inner|];
        assert UnderCall(KeyOf(log[i]), site.callerPath, 0);
        LaterDescentPlays(call, inner, rest, site, i - |call| - |inner|, whole);
      }
    }
  }

  /** A descent at or below `site`: the caller stays out of its way before and after. */
  lemma EarlierDescentPlays(call: Log, inner: Log, rest: Log, site: CallSite, descent: Interaction, whole: bool,
                            innerWhole: bool)
    requires IsDescent(descent) && DescentPlays(inner, descent, innerWhole) && (whole ==> innerWhole)
    requires ChildPath(site) <= KeyOf(descent) && Clear(rest, ChildPath(site))
    requires forall i | 0 <= i < |call| :: call[i].Visited? ==> call[i].path == site.callerPath
    ensures DescentPlays(call + inner + rest, descent, whole)
  {
    ClearAvoids(rest, ChildPath(site), KeyOf(descent));
    PlaysInside(call, inner, rest, descent, innerWhole);
  }

  /** A descent of a later call: the earlier call and everything under it stays out of its way. */
  lemma LaterDescentPlays(call: Log, inner: Log, rest: Log, site: CallSite, k: nat, whole: bool)
    requires k < |rest| && IsDescent(rest[k]) && DescentPlays(rest, rest[k], whole)
    requires Clear(rest, ChildPath(site)) && KeyOf(rest[k]) != site.callerPath
    requires forall i | 0 <= i < |call| :: call[i].Visited? ==> call[i].path == site.callerPath
    requires forall i | 0 <= i < |inner| :: ChildPath(site) <= KeyOf(inner[i])
    ensures DescentPlays(call + inner + rest, rest[k], whole)
  {
    LaterDescentAvoids(call, inner, site, KeyOf(rest[k]));
    PlaysInside(call + inner, rest, [], rest[k], whole);
    assert call + inner + rest + [] == call + inner + rest;
  }

  lemma LaterDescentAvoids(call: Log, inner: Log, site: CallSite, key: InvocationPath)
    requires forall i | 0 <= i < |call| :: call[i].Visited? ==> call[i].path == site.callerPath
    requires forall i | 0 <= i < |inner| :: ChildPath(site) <= KeyOf(inner[i])
    requires !(ChildPath(site) <= key) && key != site.callerPath
    ensures Avoids(call + inner, key)
  {
    var log := call + inner;
    forall j | 0 <= j < |log| ensures !(log[j].Visited? && log[j].path == key) {
      if j >= |call| {
        assert log[j] == inner[j - |call|];
      }
    }
  }

  lemma PlainThen(before: Log, rest: Log, path: InvocationPath, ordinal: nat, whole: bool)
    requires forall i | 0 <= i < |before| :: !IsDescent(before[i])
    requires forall i | 0 <= i < |before| :: before[i].Visited? ==> before[i].path == path
    requires Local(rest, path, ordinal) && DescentsPlay(rest, whole)
    ensures DescentsPlay(before + rest, whole)
  {
    var log := before + rest;
    forall i | 0 <= i < |log| && IsDescent(log[i])
      ensures DescentPlays(log, log[i], whole)
    {
      assert log[i] == rest[i - |before|];
      assert UnderCall(KeyOf(log[i]), path, ordinal);
      PlaysInside(before, rest, [], log[i], whole);
      assert before + rest + [] == log;
    }
  }

  lemma {:induction false} UndisturbedUnlessSiblings<S>(r: Resolver<S>, p: SubProgram, items: seq<Item>, ordinal: nat,
                                                        path: InvocationPath, s: S, depth: nat)
    requires ordinal <= U32_MAX && NoSiblings(Expand(r, p, items, ordinal, path, s, depth).log)
    requires !Expand(r, p, items, ordinal, path, s, depth).outcome.TooDeep?
    ensures var e := Expand(r, p, items, ordinal, path, s, depth); DescentsPlay(e.log, e.outcome.Finished?)
    decreases depth, |items|
  {
    hide ItemsFrom, NoSiblings, Local;
    if items != [] && items[0].Ok? {
      var op := items[0].value;
      var name := FormInvocationName(op, p);
      if name.None? {
        var rest := Expand(r, p, items[1..], ordinal, path, s, depth);
        NoSiblingsInParts([Visited(path, op)], rest.log);
        UndisturbedUnlessSiblings(r, p, items[1..], ordinal, path, s, depth);
        ExpansionIsLocal(r, p, items[1..], ordinal, path, s, depth);
        PlainThen([Visited(path, op)], rest.log, path, ordinal, rest.outcome.Finished?);
      } else {
        CallIsUndisturbed(r, p, items, ordinal, path, s, depth, name.value);
      }
    }
  }

  lemma {:induction false} CallIsUndisturbed<S>(r: Resolver<S>, p: SubProgram, items: seq<Item>, ordinal: nat,
                                                path: InvocationPath, s: S, depth: nat, name: Bytes)
    requires ordinal <= U32_MAX && NoSiblings(Expand(r, p, items, ordinal, path, s, depth).log)
    requires !Expand(r, p, items, ordinal, path, s, depth).outcome.TooDeep?
    requires items != [] && items[0].Ok? && FormInvocationName(items[0].value, p) == Some(name)
    ensures var e := Expand(r, p, items, ordinal, path, s, depth); DescentsPlay(e.log, e.outcome.Finished?)
    decreases depth, |items|, 0
  {
    hide ItemsFrom, NoSiblings, Local, DescentPlays, CallsOpened, Clear;
    var op := items[0].value;
    var site := CallSite(path, ordinal, name, op);
    var (s', decision) := r.resolve(s, site);
    var call := [Visited(path, op), Resolved(site, decision)];
    match decision {
      case Refuse(_) =>
      case Skip =>
        var rest := Expand(r, p, items[1..], NextOrdinal(ordinal), path, s', depth);
        NoSiblingsInParts(call, rest.log);
        UndisturbedUnlessSiblings(r, p, items[1..], NextOrdinal(ordinal), path, s', depth);
        ExpansionIsLocal(r, p, items[1..], NextOrdinal(ordinal), path, s', depth);
        PlainThen(call, rest.log, path, NextOrdinal(ordinal), rest.outcome.Finished?);
      case Descend(callee) =>
        var inner := ExpandCallee(r, callee, site, s', depth - 1);
        DescentIsLocal(r, callee, site, s', depth - 1);
        if inner.outcome.Finished? {
          var rest := Expand(r, p, items[1..], NextOrdinal(ordinal), path, inner.resolver, depth);
          NoSiblingsInParts(call + inner.log, rest.log);
          NoSiblingsInParts(call, inner.log);
          DescentIsUndisturbed(r, callee, site, s', depth - 1);
          UndisturbedUnlessSiblings(r, p, items[1..], NextOrdinal(ordinal), path, inner.resolver, depth);
          CallsAreOpened(r, p, items[1..], NextOrdinal(ordinal), path, inner.resolver, depth);
          RestIsLocal(r, p, items[1..], NextOrdinal(ordinal), path, inner.resolver, depth);
          RestIsClear(call, inner.log, rest.log, site);
          DescentsCombine(call, inner.log, rest.log, site, callee, op, rest.outcome.Finished?, true);
        } else {
          NoSiblingsInParts(call, inner.log);
          DescentIsUndisturbed(r, callee, site, s', depth - 1);
          NothingAfter(site);
          DescentsCombine(call, inner.log, [], site, callee, op, false, false);
          assert call + inner.log + [] == call + inner.log;
        }
    }
  }

  lemma NothingAfter(site: CallSite)
    ensures Clear([], ChildPath(site)) && Local([], site.callerPath, 0) && DescentsPlay([], false)
  {
  }

  lemma {:induction false} DescentIsUndisturbed<S>(r: Resolver<S>, callee: SubProgram, site: CallSite, s: S, depth: nat)
    requires NoSiblings(ExpandCallee(r, callee, site, s, depth).log)
    requires !ExpandCallee(r, callee, site, s, depth).outcome.TooDeep?
    ensures var e := ExpandCallee(r, callee, site, s, depth);
      DescentsPlay(e.log, e.outcome.Finished?)
      && DescentPlays(e.log, Resolved(site, Descend(callee)), e.outcome.Finished?)
    decreases depth, |ItemsFrom(callee.program, site.event.state)| + 1
  {
    hide ItemsFrom, NoSiblings;
    var items, child := ItemsFrom(callee.program, site.event.state), ChildPath(site);
    var body := Expand(r, callee, items, 0, child, s, depth);
    NoSiblingsInParts(body.log, [Returned(child)]);
    UndisturbedUnlessSiblings(r, callee, items, 0, child, s, depth);
    OwnOps(r, callee, items, 0, child, s, depth);
    assert [] + body.log + [Returned(child)] == body.log + [Returned(child)];
    var whole := body.outcome.Finished?;
    PlaysInside([], body.log, [Returned(child)], Resolved(site, Descend(callee)), whole);
    forall i | 0 <= i < |body.log| && IsDescent(body.log[i])
      ensures DescentPlays(body.log + [Returned(child)], body.log[i], whole)
    {
      PlaysInside([], body.log, [Returned(child)], body.log[i], whole);
    }
  }

  /** Non-interference wherever paths tell descents apart, with no bound on calls. */
  lemma UndisturbedWherePathsDiffer<S>(r: Resolver<S>, root: SubProgram, s: S, depth: nat)
    requires !ExpandRoot(r, root, s, depth).outcome.TooDeep? && DistinctDescents(ExpandRoot(r, root, s, depth).log)
    ensures var e := ExpandRoot(r, root, s, depth); DescentsPlay(e.log, e.outcome.Finished?)
  {
    hide ItemsFrom, Expand;
    UndisturbedUnlessSiblings(r, root, ItemsFrom(root.program, PAGE_DEFAULT), 0, [], s, depth);
  }

  /**
   * Non-interference: while the root and every callee have few calls, the ops seen under the path of any
   * descent are a prefix of that program run alone from the exact state of its `Do` event, and all of it
   * when nothing failed. What the callee's own calls, its callers, or other descents do makes no difference.
   */
  lemma DescentsAreUndisturbed<S(!new)>(r: Resolver<S>, root: SubProgram, s: S, depth: nat)
    requires FewCalls(root) && HandsOutFewCalls(r)
    requires !ExpandRoot(r, root, s, depth).outcome.TooDeep?
    ensures var e := ExpandRoot(r, root, s, depth); DescentsPlay(e.log, e.outcome.Finished?)
  {
    hide ItemsFrom, Expand, FewCalls, HandsOutFewCalls;
    DescentPathsDistinct(r, root, s, depth);
    UndisturbedWherePathsDiffer(r, root, s, depth);
  }

  // ---- The bound is sharp --------------------------------------------------

  const CALLS_F: Bytes := ['/', 'F', ' ', 'D', 'o']

  const CALLS_F_RECORD := OperatorRecord(ByteRange(3, 5), [OperandRecord(1, ByteRange(0, 2))], ByteRange(0, 5))

  /** The program `/F Do`, `n` times over. */
  function Repeated(n: nat, env: Environment): SubProgram {
    SubProgram(PaintProgram(CALLS_F, seq(n, _ => CALLS_F_RECORD), env), [], [['F']], Page)
  }

  function Nothing(env: Environment): SubProgram { SubProgram(PaintProgram([], [], env), [], [], Page) }

  /** Descends into the empty program at every call. */
  function AlwaysDescends(env: Environment): Resolver<int> {
    Resolver((s, site) => (s, Descend(Nothing(env))), (s, path) => s)
  }

  predicate CallsF(item: Item) { item.Ok? && item.value.kind == XObjectInvoke(['F']) }

  lemma StepCallsF(env: Environment, index: nat, w: WalkerState)
    ensures var step := Step(env, CALLS_F, index, CALLS_F_RECORD, w);
      step.Ok? && step.value.0.kind == XObjectInvoke(['F']) && step.value.1 == w
  {
    assert CALLS_F[3..5] == ['D', 'o'] && CALLS_F[0..2] == ['/', 'F'] && CALLS_F[0..2][1..] == ['F'];
    assert OperatorBytes(CALLS_F, CALLS_F_RECORD) == Ok(['D', 'o']);
    assert InstructionOf(['D', 'o']) == InvokeInstruction;
    assert NameOperand(CALLS_F, ['D', 'o'], CALLS_F_RECORD) == Ok(['F']);
  }

  lemma {:induction false} RepeatedItems(n: nat, env: Environment, index: nat, w: WalkerState)
    requires index <= n
    ensures var items := Items(Repeated(n, env).program, index, w);
      |items| == n - index && forall i | 0 <= i < |items| :: CallsF(items[i])
    decreases n - index
  {
    hide Step;
    if index < n {
      StepCallsF(env, index, w);
      RepeatedItems(n, env, index + 1, w);
    }
  }

  /** What one call of the resolver leaves in the log. */
  function CallOf(env: Environment, path: InvocationPath, ordinal: nat, op: PaintOp): Log {
    var site := CallSite(path, ordinal, ['F'], op);
    [Visited(path, op), Resolved(site, Descend(Nothing(env))), Returned(ChildPath(site))]
  }

  lemma ExpandCallsF(n: nat, env: Environment, items: seq<Item>, ordinal: nat, s: int)
    requires items != [] && CallsF(items[0])
    ensures var rest := Expand(AlwaysDescends(env), Repeated(n, env), items[1..], NextOrdinal(ordinal), [], s, 1);
      Expand(AlwaysDescends(env), Repeated(n, env), items, ordinal, [], s, 1)
      == Before(CallOf(env, [], ordinal, items[0].value), rest)
  {
    var r, op := AlwaysDescends(env), items[0].value;
    var site := CallSite([], ordinal, ['F'], op);
    assert FormInvocationName(op, Repeated(n, env)) == Some(['F']);
    assert ItemsFrom(Nothing(env).program, op.state) == [];
    var inner := ExpandCallee(r, Nothing(env), site, s, 0);
    assert Expand(r, Nothing(env), [], 0, ChildPath(site), s, 0) == Expansion([], s, Finished);
    assert [] + [Returned(ChildPath(site))] == [Returned(ChildPath(site))];
    assert inner == Expansion([Returned(ChildPath(site))], s, Finished);
    assert [Visited([], op), Resolved(site, Descend(Nothing(env)))] + inner.log == CallOf(env, [], ordinal, op);
  }

  lemma {:induction false} LateCallsCollide(n: nat, env: Environment, items: seq<Item>, ordinal: nat, s: int)
    requires (forall i | 0 <= i < |items| :: CallsF(items[i])) && ordinal <= U32_MAX && |items| + ordinal > U32_COUNT
    ensures !DistinctDescents(Expand(AlwaysDescends(env), Repeated(n, env), items, ordinal, [], s, 1).log)
    decreases |items|
  {
    hide Expand, Repeated;
    ExpandCallsF(n, env, items, ordinal, s);
    var first, later := CallOf(env, [], ordinal, items[0].value), items[1..];
    var rest := Expand(AlwaysDescends(env), Repeated(n, env), later, NextOrdinal(ordinal), [], s, 1).log;
    if ordinal < U32_MAX {
      LateCallsCollide(n, env, later, ordinal + 1, s);
      CollisionStays(first, rest);
    } else {
      ExpandCallsF(n, env, later, ordinal, s);
      CallsCollide(env, ordinal, items[0].value, items[1].value,
                   Expand(AlwaysDescends(env), Repeated(n, env), later[1..], NextOrdinal(ordinal), [], s, 1).log);
    }
  }

  lemma CollisionStays(first: Log, rest: Log)
    requires !DistinctDescents(rest)
    ensures !DistinctDescents(first + rest)
  {
    var i, j :| 0 <= i < j < |rest| && IsDescent(rest[i]) && IsDescent(rest[j]) && KeyOf(rest[i]) == KeyOf(rest[j]);
    assert (first + rest)[|first| + i] == rest[i] && (first + rest)[|first| + j] == rest[j];
  }

  lemma CallsCollide(env: Environment, ordinal: nat, a: PaintOp, b: PaintOp, rest: Log)
    ensures !DistinctDescents(CallOf(env, [], ordinal, a) + (CallOf(env, [], ordinal, b) + rest))
  {
    var log := CallOf(env, [], ordinal, a) + (CallOf(env, [], ordinal, b) + rest);
    assert log[1] == CallOf(env, [], ordinal, a)[1] && log[4] == CallOf(env, [], ordinal, b)[1];
    assert IsDescent(log[1]) && IsDescent(log[4]) && KeyOf(log[1]) == KeyOf(log[4]);
  }

  /**
   * The bound on calls cannot be raised: the same form called `n` times in a row collides exactly when `n`
   * exceeds it.
   */
  lemma BoundIsSharp(n: nat, env: Environment)
    ensures DistinctDescents(ExpandRoot(AlwaysDescends(env), Repeated(n, env), 0, 1).log) <==> n <= U32_COUNT
  {
    hide Expand, Items, CallNumber;
    var root := Repeated(n, env);
    if n > U32_COUNT {
      RepeatedItems(n, env, 0, WalkerState(PAGE_DEFAULT, []));
      LateCallsCollide(n, env, ItemsFrom(root.program, PAGE_DEFAULT), 0, 0);
    } else {
      RecordsBound(root, 0);
      RecordsBound(Nothing(env), 0);
      DescentPathsDistinct(AlwaysDescends(env), root, 0, 1);
    }
  }

  lemma {:induction false} RecordsBound(p: SubProgram, index: nat)
    requires index <= |p.program.records|
    ensures FormCallRecords(p, index) <= |p.program.records| - index
    decreases |p.program.records| - index
  {
    hide CallsForm;
    if index < |p.program.records| {
      RecordsBound(p, index + 1);
    }
  }
}
