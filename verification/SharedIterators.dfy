/**
 * Any number of started walks side by side, all of them, and whoever keeps emitted ops, sharing one set of
 * reference-counted snapshots (paint_program.rs, walker.rs).
 */
module SharedIterators {
  import opened Basics
  import opened PaintTypes
  import opened Operands
  import opened Walker
  import opened SharedWalker

  // ---- Handles of many holders ---------------------------------------------

  ghost function Sum(owns: seq<Handles>): Handles {
    if owns == [] then multiset{} else Sum(owns[..|owns| - 1]) + owns[|owns| - 1]
  }

  /** What everyone but holder `k` holds. */
  ghost function SumBut(owns: seq<Handles>, k: nat): Handles
    requires k < |owns|
  {
    Sum(owns[k := multiset{}])
  }

  lemma {:induction false} SumUpdate(owns: seq<Handles>, k: nat, own: Handles)
    requires k < |owns|
    ensures Sum(owns[k := own]) == SumBut(owns, k) + own
    decreases |owns|
  {
    var n := |owns| - 1;
    if k == n {
      assert owns[k := own][..n] == owns[..n] == owns[k := multiset{}][..n];
    } else {
      assert owns[k := own][..n] == owns[..n][k := own];
      assert owns[k := multiset{}][..n] == owns[..n][k := multiset{}];
      SumUpdate(owns[..n], k, own);
    }
  }

  lemma {:induction false} SumHas(owns: seq<Handles>, j: nat)
    requires j < |owns|
    ensures owns[j] <= Sum(owns)
    decreases |owns|
  {
    if j < |owns| - 1 {
      SumHas(owns[..|owns| - 1], j);
    }
  }

  lemma OthersHold(owns: seq<Handles>, k: nat, j: nat)
    requires k < |owns| && j < |owns| && j != k
    ensures owns[j] <= SumBut(owns, k)
  {
    SumHas(owns[k := multiset{}], j);
  }

  // ---- Live iterators over one ledger --------------------------------------

  /** What each iterator's walker holds. */
  ghost function Owns(iters: seq<PaintOps>): seq<Handles>
    reads set o | o in iters :: o.walker
  {
    seq(|iters|, i requires 0 <= i < |iters| reads set o | o in iters :: o.walker => iters[i].walker.Own())
  }

  ghost predicate Distinct(iters: seq<PaintOps>) {
    forall i, j | 0 <= i < j < |iters| :: iters[i] != iters[j] && iters[i].walker != iters[j].walker
  }

  /** An iterator over this ledger whose cells show its walker's value. */
  ghost predicate Running(o: PaintOps, ledger: Ledger)
    reads o.walker`state, o.walker`stack, o.walker`view, o.walker.Cells()`value
  {
    o.walker.ledger == ledger && o.walker.env == o.program.env && o.walker.Live()
  }

  /** All handles there are: those of the iterators' walkers, and those `outside`. */
  ghost predicate Coherent(iters: seq<PaintOps>, outside: Handles, ledger: Ledger)
    reads ledger, (set c | c in ledger.handles), (set o | o in iters :: o.walker),
          (set o, c | o in iters && c in o.walker.Cells() :: c)`value
  {
    Distinct(iters) && (forall o | o in iters :: Running(o, ledger)) && ledger.Balanced()
    && ledger.handles == outside + Sum(Owns(iters))
  }

  /** What the cells behind some handles show. */
  ghost function ValuesOf(held: Handles): (shown: map<SnapshotCell, Snapshot>)
    reads (set c | c in held)`value
    ensures shown.Keys == set c | c in held
    ensures forall c | c in held :: c in shown && shown[c] == c.value
    ensures forall c | c in shown :: c in held
  {
    map c: SnapshotCell | c in held :: c.value
  }

  /** The iterator's walker fits its ledger, and the recorded values of its cells are its own value. */
  ghost predicate Recorded(o: PaintOps, ledger: Ledger, shown: map<SnapshotCell, Snapshot>)
    reads o.walker
  {
    var w := o.walker;
    w.ledger == ledger && w.env == o.program.env && w.state in shown && shown[w.state] == w.view.state
    && |w.stack| == |w.view.stack|
    && forall i | 0 <= i < |w.stack| :: w.stack[i] in shown && shown[w.stack[i]] == w.view.stack[i]
  }

  /** All iterators but number `k` are recorded, with what they hold. */
  ghost predicate OthersRecorded(iters: seq<PaintOps>, k: nat, ledger: Ledger, owns: seq<Handles>,
                                 shown: map<SnapshotCell, Snapshot>)
    reads set j | 0 <= j < |iters| && j != k :: iters[j].walker
  {
    |owns| == |iters|
    && forall j | 0 <= j < |iters| && j != k ::
         Recorded(iters[j], ledger, shown) && iters[j].walker.Own() == owns[j]
  }

  lemma Record(iters: seq<PaintOps>, k: nat, outside: Handles, ledger: Ledger, shown: map<SnapshotCell, Snapshot>)
    requires k < |iters| && Coherent(iters, outside, ledger)
    requires forall c | c in outside + SumBut(Owns(iters), k) :: c in shown && shown[c] == c.value
    ensures OthersRecorded(iters, k, ledger, Owns(iters), shown)
    ensures ledger.handles == outside + SumBut(Owns(iters), k) + iters[k].walker.Own()
  {
    hide Sum, SumBut, Held, Mirrors, Recorded, Ledger.Balanced;
    var owns := Owns(iters);
    SumUpdate(owns, k, owns[k]);
    assert owns[k := owns[k]] == owns;
    forall j | 0 <= j < |iters| && j != k
      ensures Recorded(iters[j], ledger, shown)
    {
      OthersHold(owns, k, j);
      assert forall c | c in owns[j] :: c in SumBut(owns, k);
      RecordOne(iters[j], ledger, shown);
    }
  }

  lemma RecordOne(o: PaintOps, ledger: Ledger, shown: map<SnapshotCell, Snapshot>)
    requires Running(o, ledger)
    requires forall c | c in o.walker.Own() :: c in shown && shown[c] == c.value
    ensures Recorded(o, ledger, shown)
  {
    hide Held;
    HeldMembers(o.walker.state, o.walker.stack);
  }

  /** Iterator `k` has moved, emitting some handles; nothing on record changed its value. */
  lemma CoherentAgain(iters: seq<PaintOps>, k: nat, outside: Handles, ledger: Ledger, owns: seq<Handles>,
                      shown: map<SnapshotCell, Snapshot>, emitted: Handles)
    requires k < |iters| && Distinct(iters) && OthersRecorded(iters, k, ledger, owns, shown)
    requires forall c | c in shown :: c.value == shown[c]
    requires Running(iters[k], ledger) && ledger.Balanced()
    requires ledger.handles == outside + SumBut(owns, k) + emitted + iters[k].walker.Own()
    ensures Coherent(iters, outside + emitted, ledger)
  {
    hide SumBut, Ledger.Balanced;
    forall j | 0 <= j < |iters|
      ensures Running(iters[j], ledger)
    {
      assert j != k ==> Recorded(iters[j], ledger, shown);
    }
    var own := iters[k].walker.Own();
    SumUpdate(owns, k, own);
    assert Owns(iters) == owns[k := own];
    assert outside + SumBut(owns, k) + emitted + own == outside + emitted + (SumBut(owns, k) + own);
  }

  /**
   * Advancing any one iterator: it yields what the value semantics says, every other iterator keeps its value,
   * save stack and pending items, and nothing outside changes what it shows.
   */
  method Advance(iters: seq<PaintOps>, k: nat, ledger: Ledger, ghost outside: Handles)
    returns (item: Option<Fallible<SharedOp>>)
    requires k < |iters| && Coherent(iters, outside, ledger)
    modifies iters[k], iters[k].walker, ledger, iters[k].walker.Cells()
    ensures Coherent(iters, outside + Emitted(item), ledger)
    ensures forall j | 0 <= j < |iters| && j != k ::
      iters[j].walker.view == old(iters[j].walker.view) && iters[j].Remaining() == old(iters[j].Remaining())
    ensures forall c | c in outside :: c.value == old(c.value)
    ensures forall c | c in iters[k].walker.Cells() :: c in old(iters[k].walker.Cells()) || fresh(c)
    ensures forall c | c in Emitted(item) :: c in iters[k].walker.Cells()
    ensures Yields(old(iters[k].Remaining()), item, iters[k].Remaining())
  {
    hide Emitted, Yields, Sum, SumBut, Items, Held, Mirrors, Ledger.Balanced, OthersRecorded, ValuesOf;
    var ops := iters[k];
    ghost var owns, rest := Owns(iters), SumBut(Owns(iters), k);
    ghost var shown := ValuesOf(outside + rest);
    Record(iters, k, outside, ledger, shown);
    ops.walker.others := outside + rest;
    assert Running(ops, ledger);
    item := ops.Next();
    assert forall c | c in shown :: c.value == shown[c];
    CoherentAgain(iters, k, outside, ledger, owns, shown, Emitted(item));
  }

  lemma YieldCases(before: seq<Item>, item: Option<Fallible<SharedOp>>, after: seq<Item>)
    requires Yields(before, item, after)
    ensures match item
            case None => before == [] == after
            case Some(Err(error)) => before != [] && before[0] == Err(error) && after == []
            case Some(Ok(op)) => before != [] && before[0] == Ok(Observed(op)) && after == before[1..]
    ensures item.Some? ==> |after| < |before|
  {
  }

  /** The same for one iterator on its own, case by case. */
  method AdvanceAlone(ops: PaintOps, ledger: Ledger, ghost outside: Handles)
    returns (item: Option<Fallible<SharedOp>>)
    requires Coherent([ops], outside, ledger)
    modifies ops, ops.walker, ledger, ops.walker.Cells()
    ensures forall c | c in outside :: c.value == old(c.value)
    ensures forall c | c in ops.walker.Cells() :: c in old(ops.walker.Cells()) || fresh(c)
    ensures match item
            case None => old(ops.Remaining()) == [] && Coherent([ops], outside, ledger)
            case Some(Err(error)) => old(ops.Remaining()) == [Err(error)] && Coherent([ops], outside, ledger)
            case Some(Ok(op)) =>
              old(ops.Remaining()) == [Ok(Observed(op))] + ops.Remaining() && op.state in ops.walker.Cells()
              && Coherent([ops], outside + multiset{op.state}, ledger)
  {
    hide Coherent, Items;
    item := Advance([ops], 0, ledger, outside);
    assert outside + multiset{} == outside;
  }

  lemma SplitLast(iters: seq<PaintOps>)
    requires iters != []
    ensures var n := |iters| - 1;
      Sum(Owns(iters)) == Sum(Owns(iters[..n])) + iters[n].walker.Own()
  {
    var n := |iters| - 1;
    assert Owns(iters)[..n] == Owns(iters[..n]);
  }

  lemma NoIterators(ledger: Ledger, outside: Handles)
    requires ledger.Balanced() && ledger.handles == outside
    ensures Coherent([], outside, ledger)
  {
  }

  /** A new iterator on top, seeded with a handle held outside: `Rc::clone` and no copy. */
  method Open(iters: seq<PaintOps>, program: PaintProgram, seed: SnapshotCell, ledger: Ledger,
              ghost outside: Handles) returns (ops: PaintOps)
    requires Coherent(iters, outside, ledger) && seed in outside
    modifies ledger, seed`strong
    ensures fresh(ops) && fresh(ops.walker) && ops.walker.Cells() == {seed}
    ensures ops.Remaining() == ItemsFrom(program, seed.value)
    ensures Coherent(iters + [ops], outside, ledger)
  {
    hide Sum, Items, ItemsFrom, Held, Mirrors, Ledger.Balanced;
    ops := new PaintOps(program, seed, ledger);
    SplitLast(iters + [ops]);
    assert (iters + [ops])[..|iters|] == iters;
  }

  /** The top iterator is dropped, and with it its handles. */
  method Close(iters: seq<PaintOps>, ledger: Ledger, ghost outside: Handles)
    requires iters != [] && Coherent(iters, outside, ledger)
    modifies ledger, iters[|iters| - 1].walker.Cells()`strong
    ensures Coherent(iters[..|iters| - 1], outside, ledger)
  {
    hide Sum, Held, Mirrors, Ledger.Balanced;
    SplitLast(iters);
    var last, below := iters[|iters| - 1], iters[..|iters| - 1];
    assert Running(last, ledger) && forall i | 0 <= i < |below| :: below[i] == iters[i] && Running(below[i], ledger);
    ghost var all, own := outside + Sum(Owns(below)), last.walker.Own();
    assert ledger.handles == all + own;
    last.walker.Release();
    assert all + own - own == all;
    assert Distinct(below);
    assert forall i | 0 <= i < |below| :: Running(below[i], ledger);
    assert ledger.handles == all;
  }

  lemma HandlesWithout(others: Handles, own: Handles, cell: SnapshotCell)
    requires cell in others
    ensures others + own - multiset{cell} == others - multiset{cell} + own
  {
  }

  /** A handle held outside is dropped. */
  method Discard(iters: seq<PaintOps>, cell: SnapshotCell, ledger: Ledger, ghost outside: Handles)
    requires Coherent(iters, outside, ledger) && cell in outside
    modifies ledger, cell`strong
    ensures Coherent(iters, outside - multiset{cell}, ledger)
  {
    hide Sum, Held, Mirrors, Ledger.Balanced;
    assert forall i | 0 <= i < |iters| :: Running(iters[i], ledger);
    HandlesWithout(outside, Sum(Owns(iters)), cell);
    ledger.Drop(cell);
    assert forall i | 0 <= i < |iters| :: Running(iters[i], ledger);
  }

  /** Advances an iterator and drops the op it yields, if any. */
  method Skim(iters: seq<PaintOps>, k: nat, ledger: Ledger, ghost outside: Handles) returns (more: bool)
    requires k < |iters| && Coherent(iters, outside, ledger)
    modifies iters[k], iters[k].walker, ledger, iters[k].walker.Cells()
    ensures Coherent(iters, outside, ledger)
    ensures forall j | 0 <= j < |iters| && j != k ::
      iters[j].walker.view == old(iters[j].walker.view) && iters[j].Remaining() == old(iters[j].Remaining())
    ensures forall c | c in outside :: c.value == old(c.value)
    ensures forall c | c in iters[k].walker.Cells() :: c in old(iters[k].walker.Cells()) || fresh(c)
    ensures if more then |iters[k].Remaining()| < |old(iters[k].Remaining())| else iters[k].Remaining() == []
  {
    hide Coherent, Yields, Items, Held, Mirrors, Ledger.Balanced, PaintOps.Remaining;
    var item := Advance(iters, k, ledger, outside);
    YieldCases(old(iters[k].Remaining()), item, iters[k].Remaining());
    more := item.Some?;
    if more && item.value.Ok? {
      var cell := item.value.value.state;
      assert outside + multiset{cell} - multiset{cell} == outside;
      Discard(iters, cell, ledger, outside + multiset{cell});
    } else {
      assert outside + multiset{} == outside;
    }
  }

  /**
   * A callee started from an op someone keeps and run to its end over any stack of started iterators:
   * all of them keep their value, save stack and pending items, and so does whatever is kept outside.
   */
  method RunCallee(iters: seq<PaintOps>, program: PaintProgram, seed: SnapshotCell, ledger: Ledger,
                   ghost outside: Handles)
    requires Coherent(iters, outside, ledger) && seed in outside
    modifies ledger, seed
    ensures Coherent(iters, outside, ledger)
    ensures forall o | o in iters :: o.walker.view == old(o.walker.view) && o.Remaining() == old(o.Remaining())
    ensures forall c | c in outside :: c.value == old(c.value)
  {
    hide Coherent, Items, ItemsFrom, Held, Mirrors, Ledger.Balanced;
    var ops := Open(iters, program, seed, ledger, outside);
    var open, more := iters + [ops], true;
    while more
      invariant Coherent(open, outside, ledger)
      invariant forall c | c in ops.walker.Cells() :: c == seed || fresh(c)
      invariant forall o | o in iters :: o.walker.view == old(o.walker.view) && o.Remaining() == old(o.Remaining())
      invariant forall c | c in outside :: c.value == old(c.value)
      decreases more, |ops.Remaining()|
    {
      more := Skim(open, |iters|, ledger, outside);
    }
    assert open[..|iters|] == iters;
    Close(open, ledger, outside);
  }
}
