/** What every traversal guarantees, for every resolver. */
module CallMachineProperties {
  import opened Basics
  import opened PaintTypes
  import opened Operands
  import opened Walker
  import opened CallMachine

  // ---- How deep calls may nest ---------------------------------------------

  /** Allowing deeper nesting changes nothing once the traversal fits. */
  lemma {:induction false} DeeperIsSame<S>(r: Resolver<S>, p: SubProgram, items: seq<Item>, ordinal: nat,
                                           path: InvocationPath, s: S, depth: nat, more: nat)
    requires depth <= more && !Expand(r, p, items, ordinal, path, s, depth).outcome.TooDeep?
    ensures Expand(r, p, items, ordinal, path, s, more) == Expand(r, p, items, ordinal, path, s, depth)
    decreases depth, |items|
  {
    hide ItemsFrom;
    if items != [] && items[0].Ok? {
      var op := items[0].value;
      var name := FormInvocationName(op, p);
      if name.None? {
        DeeperIsSame(r, p, items[1..], ordinal, path, s, depth, more);
      } else {
        var site := CallSite(path, ordinal, name.value, op);
        var (s', decision) := r.resolve(s, site);
        match decision {
          case Refuse(_) =>
          case Skip => DeeperIsSame(r, p, items[1..], NextOrdinal(ordinal), path, s', depth, more);
          case Descend(callee) =>
            if depth > 0 {
              DeeperIsSame(r, callee, ItemsFrom(callee.program, op.state), 0, ChildPath(site), s', depth - 1, more - 1);
              var inner := ExpandCallee(r, callee, site, s', depth - 1);
              if inner.outcome.Finished? {
                DeeperIsSame(r, p, items[1..], NextOrdinal(ordinal), path, inner.resolver, depth, more);
              }
            }
        }
      }
    }
  }

  /**
   * Well-founded descents: an invariant relating resolver state and open path that every answer keeps,
   * and a rank of the path that every descent lowers. Depth limits, budgets and cycle policies fit.
   */
  ghost predicate WellFounded<S(!new)>(r: Resolver<S>, inv: (S, InvocationPath) -> bool, rank: InvocationPath -> nat) {
    (forall s, site: CallSite | inv(s, site.callerPath) :: Answers(r, inv, rank, s, site))
    && (forall s, path | path != [] && inv(s, path) :: inv(r.onReturn(s, path), path[..|path| - 1]))
  }

  ghost predicate Answers<S>(r: Resolver<S>, inv: (S, InvocationPath) -> bool, rank: InvocationPath -> nat, s: S,
                             site: CallSite) {
    var (s', decision) := r.resolve(s, site);
    if decision.Descend? then inv(s', ChildPath(site)) && rank(ChildPath(site)) < rank(site.callerPath)
    else inv(s', site.callerPath)
  }

  /** A well-founded resolver never exhausts the depth its rank allows, so `Walk` terminates on it. */
  lemma {:induction false} WellFoundedFits<S(!new)>(
      r: Resolver<S>, inv: (S, InvocationPath) -> bool, rank: InvocationPath -> nat,
      p: SubProgram, items: seq<Item>, ordinal: nat, path: InvocationPath, s: S, depth: nat)
    requires WellFounded(r, inv, rank) && inv(s, path) && rank(path) <= depth
    ensures var e := Expand(r, p, items, ordinal, path, s, depth);
      !e.outcome.TooDeep? && inv(e.resolver, path)
    decreases depth, |items|
  {
    hide ItemsFrom;
    if items != [] && items[0].Ok? {
      var op := items[0].value;
      var name := FormInvocationName(op, p);
      if name.None? {
        WellFoundedFits(r, inv, rank, p, items[1..], ordinal, path, s, depth);
      } else {
        var site := CallSite(path, ordinal, name.value, op);
        assert Answers(r, inv, rank, s, site);
        var (s', decision) := r.resolve(s, site);
        match decision {
          case Refuse(_) =>
          case Skip => WellFoundedFits(r, inv, rank, p, items[1..], NextOrdinal(ordinal), path, s', depth);
          case Descend(callee) =>
            WellFoundedFits(r, inv, rank, callee, ItemsFrom(callee.program, op.state), 0, ChildPath(site), s',
                            depth - 1);
            var inner := ExpandCallee(r, callee, site, s', depth - 1);
            assert ChildPath(site)[..|ChildPath(site)| - 1] == path;
            if inner.outcome.Finished? {
              WellFoundedFits(r, inv, rank, p, items[1..], NextOrdinal(ordinal), path, inner.resolver, depth);
            }
        }
      }
    }
  }

  lemma WellFoundedResolversTerminate<S(!new)>(
      r: Resolver<S>, inv: (S, InvocationPath) -> bool, rank: InvocationPath -> nat, root: SubProgram, s: S)
    requires WellFounded(r, inv, rank) && inv(s, [])
    ensures !ExpandRoot(r, root, s, rank([])).outcome.TooDeep?
  {
    WellFoundedFits(r, inv, rank, root, ItemsFrom(root.program, PAGE_DEFAULT), 0, [], s, rank([]));
  }

  // ---- Bracketing ----------------------------------------------------------

  /** Follows a log with the path that should be open; stops at the first interaction that does not fit it. */
  function Follow(log: Log, path: InvocationPath): Option<InvocationPath> {
    if log == [] then Some(path)
    else match log[0]
      case Visited(p, _) => if p == path then Follow(log[1..], path) else None
      case Resolved(site, decision) =>
        if site.callerPath != path then None
        else Follow(log[1..], if decision.Descend? then ChildPath(site) else path)
      case Returned(child) =>
        if path == [] || child != path then None else Follow(log[1..], path[..|path| - 1])
  }

  lemma {:induction false} FollowConcat(a: Log, b: Log, path: InvocationPath)
    requires Follow(a, path).Some?
    ensures Follow(a + b, path) == Follow(b, Follow(a, path).value)
    decreases |a|
  {
    if a == [] {
      assert a + b == b;
    } else {
      assert (a + b)[1..] == a[1..] + b;
      match a[0] {
        case Visited(_, _) => FollowConcat(a[1..], b, path);
        case Resolved(site, decision) => FollowConcat(a[1..], b, if decision.Descend? then ChildPath(site) else path);
        case Returned(_) => FollowConcat(a[1..], b, path[..|path| - 1]);
      }
    }
  }

  predicate IsDescent(i: Interaction) { i.Resolved? && i.decision.Descend? }

  function Descents(log: Log): nat {
    if log == [] then 0
    else Descents(log[1..]) + if IsDescent(log[0]) then 1 else 0
  }

  function Returns(log: Log): nat {
    if log == [] then 0 else Returns(log[1..]) + if log[0].Returned? then 1 else 0
  }

  /** The open path is as long as the descents not yet returned from. */
  lemma {:induction false} PathLengthIsOpenDescents(log: Log, path: InvocationPath)
    requires Follow(log, path).Some?
    ensures |Follow(log, path).value| + Returns(log) == |path| + Descents(log)
    decreases |log|
  {
    if log != [] {
      match log[0] {
        case Visited(_, _) => PathLengthIsOpenDescents(log[1..], path);
        case Resolved(site, decision) =>
          PathLengthIsOpenDescents(log[1..], if decision.Descend? then ChildPath(site) else path);
        case Returned(_) => PathLengthIsOpenDescents(log[1..], path[..|path| - 1]);
      }
    }
  }

  /** Nothing goes unbracketed on the way: what can be followed can be followed up to any moment. */
  lemma {:induction false} EveryPrefixFollows(log: Log, path: InvocationPath, n: nat)
    requires n <= |log| && Follow(log, path).Some?
    ensures Follow(log[..n], path).Some?
    decreases n
  {
    if n > 0 {
      assert log[..n][1..] == log[1..][..n - 1];
      match log[0] {
        case Visited(_, _) => EveryPrefixFollows(log[1..], path, n - 1);
        case Resolved(site, decision) =>
          EveryPrefixFollows(log[1..], if decision.Descend? then ChildPath(site) else path, n - 1);
        case Returned(_) => EveryPrefixFollows(log[1..], path[..|path| - 1], n - 1);
      }
    }
  }

  /** Programs open after a log: the root, and every descent not yet returned from. */
  function OpenPrograms(log: Log): int { 1 + Descents(log) - Returns(log) }

  lemma FollowCall(path: InvocationPath, op: PaintOp, site: CallSite, decision: Decision)
    requires site.callerPath == path
    ensures Follow([Visited(path, op), Resolved(site, decision)], path)
         == Some(if decision.Descend? then ChildPath(site) else path)
  {
    var log := [Visited(path, op), Resolved(site, decision)];
    assert log[1..] == [Resolved(site, decision)];
    var open := if decision.Descend? then ChildPath(site) else path;
    assert Follow([], open) == Some(open);
    assert Follow([Resolved(site, decision)], path) == Follow([Resolved(site, decision)][1..], open);
  }

  /**
   * Bracketing: however a traversal ends, its log opens and closes descents in last-in first-out order,
   * each with its own child path, every visit and every question happens at the open path, and at the
   * end the path is what it was at the start.
   */
  lemma {:induction false} TraversalsAreBracketed<S>(r: Resolver<S>, p: SubProgram, items: seq<Item>, ordinal: nat,
                                                     path: InvocationPath, s: S, depth: nat)
    requires !Expand(r, p, items, ordinal, path, s, depth).outcome.TooDeep?
    ensures Follow(Expand(r, p, items, ordinal, path, s, depth).log, path) == Some(path)
    decreases depth, |items|
  {
    hide ItemsFrom;
    if items != [] && items[0].Ok? {
      var op := items[0].value;
      var name := FormInvocationName(op, p);
      if name.None? {
        TraversalsAreBracketed(r, p, items[1..], ordinal, path, s, depth);
        FollowConcat([Visited(path, op)], Expand(r, p, items[1..], ordinal, path, s, depth).log, path);
      } else {
        var site := CallSite(path, ordinal, name.value, op);
        var (s', decision) := r.resolve(s, site);
        var call := [Visited(path, op), Resolved(site, decision)];
        FollowCall(path, op, site, decision);
        match decision {
          case Refuse(_) =>
          case Skip =>
            TraversalsAreBracketed(r, p, items[1..], NextOrdinal(ordinal), path, s', depth);
            FollowConcat(call, Expand(r, p, items[1..], NextOrdinal(ordinal), path, s', depth).log, path);
          case Descend(callee) =>
            if depth > 0 {
              DescentIsBracketed(r, callee, site, s', depth - 1);
              var inner := ExpandCallee(r, callee, site, s', depth - 1);
              FollowConcat(call, inner.log, path);
              if inner.outcome.Finished? {
                var rest := Expand(r, p, items[1..], NextOrdinal(ordinal), path, inner.resolver, depth);
                TraversalsAreBracketed(r, p, items[1..], NextOrdinal(ordinal), path, inner.resolver, depth);
                FollowConcat(call + inner.log, rest.log, path);
              }
            }
        }
      }
    }
  }

  lemma {:induction false} DescentIsBracketed<S>(r: Resolver<S>, callee: SubProgram, site: CallSite, s: S, depth: nat)
    requires !ExpandCallee(r, callee, site, s, depth).outcome.TooDeep?
    ensures Follow(ExpandCallee(r, callee, site, s, depth).log, ChildPath(site)) == Some(site.callerPath)
    decreases depth, |ItemsFrom(callee.program, site.event.state)| + 1
  {
    hide ItemsFrom;
    var child := ChildPath(site);
    var body := Expand(r, callee, ItemsFrom(callee.program, site.event.state), 0, child, s, depth);
    TraversalsAreBracketed(r, callee, ItemsFrom(callee.program, site.event.state), 0, child, s, depth);
    FollowConcat(body.log, [Returned(child)], child);
    assert [Returned(child)][1..] == [] && child[..|child| - 1] == site.callerPath;
  }

  /** At every moment of every traversal there is an open path, one shorter than the number of open programs. */
  lemma OpenPathAtEveryMoment<S>(r: Resolver<S>, root: SubProgram, s: S, depth: nat, n: nat)
    requires !ExpandRoot(r, root, s, depth).outcome.TooDeep? && n <= |ExpandRoot(r, root, s, depth).log|
    ensures var before := ExpandRoot(r, root, s, depth).log[..n];
      Follow(before, []).Some? && |Follow(before, []).value| == OpenPrograms(before) - 1
  {
    hide ItemsFrom, Expand;
    var log := ExpandRoot(r, root, s, depth).log;
    TraversalsAreBracketed(r, root, ItemsFrom(root.program, PAGE_DEFAULT), 0, [], s, depth);
    EveryPrefixFollows(log, [], n);
    PathLengthIsOpenDescents(log[..n], []);
  }

  // ---- Where interactions belong -------------------------------------------

  /** The path an interaction is about; for a question, the path a descent there would open. */
  function KeyOf(i: Interaction): InvocationPath {
    match i
    case Visited(path, _) => path
    case Resolved(site, _) => ChildPath(site)
    case Returned(child) => child
  }

  /** `key` is at or below a call that program `path` made with an ordinal of at least `ordinal`. */
  predicate UnderCall(key: InvocationPath, path: InvocationPath, ordinal: nat) {
    |key| > |path| && key[..|path|] == path && key[|path|].ordinal >= ordinal
  }

  /** Everything in the log is the program's own visit or lies under one of its later calls. */
  ghost predicate Local(log: Log, path: InvocationPath, ordinal: nat) {
    forall i | 0 <= i < |log| :: (log[i].Visited? && log[i].path == path) || UnderCall(KeyOf(log[i]), path, ordinal)
  }

  lemma LocalConcat(a: Log, b: Log, path: InvocationPath, ordinal: nat, later: nat)
    requires Local(a, path, ordinal) && Local(b, path, later) && ordinal <= later
    ensures Local(a + b, path, ordinal)
  {
    forall i | 0 <= i < |a + b|
      ensures ((a + b)[i].Visited? && (a + b)[i].path == path) || UnderCall(KeyOf((a + b)[i]), path, ordinal)
    {
      assert i >= |a| ==> (a + b)[i] == b[i - |a|];
    }
  }

  lemma LocalOfChild(log: Log, child: InvocationPath, path: InvocationPath, ordinal: nat)
    requires UnderCall(child, path, ordinal) && Local(log, child, 0)
    ensures Local(log, path, ordinal)
  {
    forall i | 0 <= i < |log|
      ensures (log[i].Visited? && log[i].path == path) || UnderCall(KeyOf(log[i]), path, ordinal)
    {
      var key := KeyOf(log[i]);
      if !(log[i].Visited? && log[i].path == child) {
        assert key[..|path|] == key[..|child|][..|path|];
        assert key[|path|] == key[..|child|][|path|];
      }
    }
  }

  lemma {:induction false} ExpansionIsLocal<S>(r: Resolver<S>, p: SubProgram, items: seq<Item>, ordinal: nat,
                                               path: InvocationPath, s: S, depth: nat)
    requires ordinal <= U32_MAX
    ensures Local(Expand(r, p, items, ordinal, path, s, depth).log, path, ordinal)
    decreases depth, |items|
  {
    hide ItemsFrom;
    if items != [] && items[0].Ok? {
      var op := items[0].value;
      var name := FormInvocationName(op, p);
      if name.None? {
        ExpansionIsLocal(r, p, items[1..], ordinal, path, s, depth);
        LocalConcat([Visited(path, op)], Expand(r, p, items[1..], ordinal, path, s, depth).log, path, ordinal, ordinal);
      } else {
        var site := CallSite(path, ordinal, name.value, op);
        var (s', decision) := r.resolve(s, site);
        var call := [Visited(path, op), Resolved(site, decision)];
        assert UnderCall(ChildPath(site), path, ordinal);
        assert Local(call, path, ordinal);
        match decision {
          case Refuse(_) =>
          case Skip =>
            ExpansionIsLocal(r, p, items[1..], NextOrdinal(ordinal), path, s', depth);
            LocalConcat(call, Expand(r, p, items[1..], NextOrdinal(ordinal), path, s', depth).log, path, ordinal,
                        NextOrdinal(ordinal));
          case Descend(callee) =>
            if depth > 0 {
              DescentIsLocal(r, callee, site, s', depth - 1);
              var inner := ExpandCallee(r, callee, site, s', depth - 1);
              LocalConcat(call, inner.log, path, ordinal, ordinal);
              if inner.outcome.Finished? {
                ExpansionIsLocal(r, p, items[1..], NextOrdinal(ordinal), path, inner.resolver, depth);
                var rest := Expand(r, p, items[1..], NextOrdinal(ordinal), path, inner.resolver, depth);
                LocalConcat(call + inner.log, rest.log, path, ordinal, NextOrdinal(ordinal));
              }
            }
        }
      }
    }
  }

  lemma {:induction false} DescentIsLocal<S>(r: Resolver<S>, callee: SubProgram, site: CallSite, s: S, depth: nat)
    ensures Local(ExpandCallee(r, callee, site, s, depth).log, site.callerPath, site.ordinal)
    ensures forall i | 0 <= i < |ExpandCallee(r, callee, site, s, depth).log| ::
      ChildPath(site) <= KeyOf(ExpandCallee(r, callee, site, s, depth).log[i])
    decreases depth, |ItemsFrom(callee.program, site.event.state)| + 1
  {
    hide ItemsFrom;
    var child := ChildPath(site);
    var body := Expand(r, callee, ItemsFrom(callee.program, site.event.state), 0, child, s, depth);
    ExpansionIsLocal(r, callee, ItemsFrom(callee.program, site.event.state), 0, child, s, depth);
    assert UnderCall(child, site.callerPath, site.ordinal);
    LocalOfChild(body.log, child, site.callerPath, site.ordinal);
    if !body.outcome.TooDeep? {
      assert KeyOf(Returned(child)) == child;
      assert Local([Returned(child)], site.callerPath, site.ordinal);
      LocalConcat(body.log, [Returned(child)], site.callerPath, site.ordinal, site.ordinal);
    }
  }

  // ---- Non-interference ----------------------------------------------------

  /** The ops seen under one exact path, in order. */
  function VisitedAt(log: Log, path: InvocationPath): seq<PaintOp> {
    if log == [] then []
    else (if log[0].Visited? && log[0].path == path then [log[0].op] else []) + VisitedAt(log[1..], path)
  }

  /** `seen` is a prefix of what the stream yields before any error; the whole of an error-free stream if `whole`. */
  ghost predicate Plays(seen: seq<PaintOp>, items: seq<Item>, whole: bool) {
    |seen| <= |items| && (forall k | 0 <= k < |seen| :: items[k] == Ok(seen[k])) && (whole ==> |seen| == |items|)
  }

  ghost predicate Avoids(log: Log, path: InvocationPath) {
    forall i | 0 <= i < |log| :: !(log[i].Visited? && log[i].path == path)
  }

  lemma {:induction false} VisitedConcat(a: Log, b: Log, path: InvocationPath)
    ensures VisitedAt(a + b, path) == VisitedAt(a, path) + VisitedAt(b, path)
    decreases |a|
  {
    if a == [] {
      assert a + b == b;
    } else {
      assert (a + b)[1..] == a[1..] + b;
      VisitedConcat(a[1..], b, path);
    }
  }

  lemma {:induction false} AvoidsNone(log: Log, path: InvocationPath)
    requires Avoids(log, path)
    ensures VisitedAt(log, path) == []
    decreases |log|
  {
    if log != [] {
      assert !(log[0].Visited? && log[0].path == path);
      forall i | 0 <= i < |log| - 1 ensures !(log[1..][i].Visited? && log[1..][i].path == path) {
        assert log[1..][i] == log[i + 1];
      }
      AvoidsNone(log[1..], path);
    }
  }

  lemma PlaysNext(op: PaintOp, items: seq<Item>, seen: seq<PaintOp>, whole: bool)
    requires items != [] && items[0] == Ok(op) && Plays(seen, items[1..], whole)
    ensures Plays([op] + seen, items, whole)
  {
    forall k | 0 <= k < |seen| + 1 ensures items[k] == Ok(([op] + seen)[k]) {
      if k > 0 {
        assert items[1..][k - 1] == Ok(seen[k - 1]);
      }
    }
  }

  /** What a program shows under its own path never depends on what its calls do. */
  lemma {:induction false} OwnOps<S>(r: Resolver<S>, p: SubProgram, items: seq<Item>, ordinal: nat,
                                     path: InvocationPath, s: S, depth: nat)
    ensures var e := Expand(r, p, items, ordinal, path, s, depth);
      Plays(VisitedAt(e.log, path), items, e.outcome.Finished?)
    decreases |items|
  {
    hide ItemsFrom;
    if items != [] && items[0].Ok? {
      var op := items[0].value;
      var name := FormInvocationName(op, p);
      if name.None? {
        OwnOps(r, p, items[1..], ordinal, path, s, depth);
        var rest := Expand(r, p, items[1..], ordinal, path, s, depth);
        OwnStep(path, op, [Visited(path, op)], rest.log);
        PlaysNext(op, items, VisitedAt(rest.log, path), rest.outcome.Finished?);
      } else {
        var site := CallSite(path, ordinal, name.value, op);
        var (s', decision) := r.resolve(s, site);
        var call := [Visited(path, op), Resolved(site, decision)];
        OwnStep(path, op, call, []);
        assert call + [] == call;
        PlaysNext(op, items, [], false);
        match decision {
          case Refuse(_) =>
          case Skip =>
            OwnOps(r, p, items[1..], NextOrdinal(ordinal), path, s', depth);
            var rest := Expand(r, p, items[1..], NextOrdinal(ordinal), path, s', depth);
            OwnStep(path, op, call, rest.log);
            PlaysNext(op, items, VisitedAt(rest.log, path), rest.outcome.Finished?);
          case Descend(callee) =>
            if depth > 0 {
              DescentIsLocal(r, callee, site, s', depth - 1);
              var inner := ExpandCallee(r, callee, site, s', depth - 1);
              assert Avoids(inner.log, path);
              AvoidsNone(inner.log, path);
              OwnStep(path, op, call, inner.log);
              if inner.outcome.Finished? {
                OwnOps(r, p, items[1..], NextOrdinal(ordinal), path, inner.resolver, depth);
                var rest := Expand(r, p, items[1..], NextOrdinal(ordinal), path, inner.resolver, depth);
                VisitedConcat(call + inner.log, rest.log, path);
                PlaysNext(op, items, VisitedAt(rest.log, path), rest.outcome.Finished?);
              }
            }
        }
      }
    }
  }

  lemma OwnStep(path: InvocationPath, op: PaintOp, call: Log, rest: Log)
    requires call != [] && call[0] == Visited(path, op) && Avoids(call[1..], path)
    ensures VisitedAt(call + rest, path) == [op] + VisitedAt(rest, path)
  {
    VisitedConcat(call, rest, path);
    AvoidsNone(call[1..], path);
  }

  /** The root's own ops do not depend on the resolver at all. */
  lemma CallerUnaffected<S, T>(r1: Resolver<S>, s1: S, d1: nat, r2: Resolver<T>, s2: T, d2: nat, root: SubProgram)
    requires ExpandRoot(r1, root, s1, d1).outcome.Finished? && ExpandRoot(r2, root, s2, d2).outcome.Finished?
    ensures VisitedAt(ExpandRoot(r1, root, s1, d1).log, []) == VisitedAt(ExpandRoot(r2, root, s2, d2).log, [])
  {
    hide ItemsFrom;
    var items := ItemsFrom(root.program, PAGE_DEFAULT);
    OwnOps(r1, root, items, 0, [], s1, d1);
    OwnOps(r2, root, items, 0, [], s2, d2);
    var a, b := VisitedAt(ExpandRoot(r1, root, s1, d1).log, []), VisitedAt(ExpandRoot(r2, root, s2, d2).log, []);
    forall k | 0 <= k < |a| ensures a[k] == b[k] {
      assert items[k] == Ok(a[k]) && items[k] == Ok(b[k]);
    }
  }
}
