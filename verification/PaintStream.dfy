/** The streamed walk against the materialised one (paint_program.rs, `walk_graphics_state`). */
module PaintStream {
  import opened Basics
  import opened Operands
  import opened Walker

  /** The materialising walk: map every record through the walker, stopping at the first error. */
  function WalkAll(p: PaintProgram, index: nat, w: WalkerState): Fallible<seq<PaintOp>>
    decreases |p.records| - index
  {
    if index >= |p.records| then Ok([])
    else
      var (op, after) :- Step(p.env, p.source, index, p.records[index], w);
      var rest :- WalkAll(p, index + 1, after);
      Ok([op] + rest)
  }

  /** Collecting the stream is the materialising walk. */
  lemma {:induction false} StreamingIsMaterialising(p: PaintProgram, index: nat, w: WalkerState)
    ensures Collected(Items(p, index, w)) == WalkAll(p, index, w)
    decreases |p.records| - index
  {
    if index < |p.records| {
      var items := Items(p, index, w);
      match Step(p.env, p.source, index, p.records[index], w) {
        case Err(e) =>
        case Ok((op, after)) =>
          StreamingIsMaterialising(p, index + 1, after);
          assert items[1..] == Items(p, index + 1, after);
      }
    }
  }

  /**
   * Shape of the fused stream: item `i` is the event of record `i` with the state the walk has after it;
   * an error can only be the last item, and a stream without one covers every record.
   */
  lemma ItemsFollowRun(p: PaintProgram, seed: Snapshot, i: nat)
    requires i < |ItemsFrom(p, seed)|
    ensures |ItemsFrom(p, seed)| <= |p.records| && Run(p, seed, i).Ok?
    ensures match Step(p.env, p.source, i, p.records[i], Run(p, seed, i).value)
            case Err(e) => ItemsFrom(p, seed)[i] == Err(e) && i == |ItemsFrom(p, seed)| - 1
            case Ok((op, after)) =>
              ItemsFrom(p, seed)[i] == Ok(op) && Run(p, seed, i + 1) == Ok(after) && op.state == after.state
              && (i == |ItemsFrom(p, seed)| - 1 ==> |ItemsFrom(p, seed)| == |p.records|)
  {
    hide EventKind, OperatorBytes;
    ItemsFromMiddle(p, seed, 0, i);
  }

  lemma {:induction false} ItemsFromMiddle(p: PaintProgram, seed: Snapshot, start: nat, i: nat)
    requires start <= |p.records| && Run(p, seed, start).Ok?
    requires i < |Items(p, start, Run(p, seed, start).value)|
    ensures var items := Items(p, start, Run(p, seed, start).value);
      start + |items| <= |p.records| && Run(p, seed, start + i).Ok?
      && match Step(p.env, p.source, start + i, p.records[start + i], Run(p, seed, start + i).value)
         case Err(e) => items[i] == Err(e) && i == |items| - 1
         case Ok((op, after)) =>
           items[i] == Ok(op) && Run(p, seed, start + i + 1) == Ok(after) && op.state == after.state
           && (i == |items| - 1 ==> start + |items| == |p.records|)
    decreases |p.records| - start
  {
    hide EventKind, OperatorBytes;
    var w := Run(p, seed, start).value;
    var items := Items(p, start, w);
    match Step(p.env, p.source, start, p.records[start], w) {
      case Err(e) =>
      case Ok((op, after)) =>
        var rest := Items(p, start + 1, after);
        assert items[1..] == rest;
        assert Run(p, seed, start + 1) == Ok(after);
        if rest != [] {
          ItemsFromMiddle(p, seed, start + 1, if i == 0 then 0 else i - 1);
        } else {
          assert start + 1 >= |p.records|;
        }
    }
  }
}
