/** Save/restore nesting, counted on the moves alone and independent of any state. */
module SaveNesting {

  datatype Move = Push | Pop | Stay

  function Change(move: Move): int {
    match move
    case Push => 1
    case Pop => -1
    case Stay => 0
  }

  /** Pushes minus pops among the first `n` moves. */
  function Depth(moves: seq<Move>, n: nat): int
    requires n <= |moves|
  {
    if n == 0 then 0 else Depth(moves, n - 1) + Change(moves[n - 1])
  }

  ghost predicate AtLeast(moves: seq<Move>, m: nat, depth: int)
    requires m <= |moves|
  {
    Depth(moves, m) >= depth
  }

  ghost predicate Above(moves: seq<Move>, m: nat, depth: int)
    requires m <= |moves|
  {
    Depth(moves, m) > depth
  }

  /** No pop among the first `n` moves lacks a push before it. */
  ghost predicate NeverBelow(moves: seq<Move>, n: nat)
    requires n <= |moves|
  {
    forall m | 0 <= m <= n :: AtLeast(moves, m, 0)
  }

  /** Moves `b` and `n - 1` are a push and the pop that closes it. */
  ghost predicate Matched(moves: seq<Move>, b: nat, n: nat)
    requires n <= |moves|
  {
    b + 1 < n && moves[b] == Push && moves[n - 1] == Pop && Depth(moves, b) == Depth(moves, n)
    && forall m | b < m < n :: Above(moves, m, Depth(moves, b))
  }

  /** Move `a` is the push that a pop right after move `n - 1` would close. */
  ghost predicate Open(moves: seq<Move>, a: nat, n: nat)
    requires n <= |moves|
  {
    a < n && moves[a] == Push && Depth(moves, n) == Depth(moves, a) + 1
    && forall m | a < m <= n :: Above(moves, m, Depth(moves, a))
  }

  function SavePoint(moves: seq<Move>, n: nat): (a: nat)
    requires n <= |moves|
    ensures n > 0 ==> a < n
    decreases n
  {
    if n == 0 then 0
    else match moves[n - 1]
      case Push => n - 1
      case Pop => SavePoint(moves, SavePoint(moves, n - 1))
      case Stay => SavePoint(moves, n - 1)
  }

  lemma {:induction false} SavePointIsOpen(moves: seq<Move>, n: nat)
    requires n <= |moves| && NeverBelow(moves, n) && Depth(moves, n) > 0
    ensures Open(moves, SavePoint(moves, n), n)
    decreases n
  {
    var before := n - 1;
    assert AtLeast(moves, before, 0);
    match moves[before] {
      case Push =>
      case Stay => SavePointIsOpen(moves, before);
      case Pop =>
        SavePointIsOpen(moves, before);
        var b := SavePoint(moves, before);
        SavePointIsOpen(moves, b);
        var a := SavePoint(moves, b);
        forall m | a < m <= n ensures Above(moves, m, Depth(moves, a)) {
          if b < m < n {
            assert Above(moves, m, Depth(moves, b));
          }
        }
    }
  }

  lemma PopClosesSavePoint(moves: seq<Move>, n: nat)
    requires 0 < n <= |moves| && NeverBelow(moves, n) && moves[n - 1] == Pop
    ensures Depth(moves, n - 1) > 0 && Matched(moves, SavePoint(moves, n - 1), n)
  {
    assert AtLeast(moves, n, 0);
    SavePointIsOpen(moves, n - 1);
  }

  /** A pop closes one push only. */
  lemma MatchedOnce(moves: seq<Move>, a: nat, b: nat, n: nat)
    requires n <= |moves| && Matched(moves, a, n) && Matched(moves, b, n)
    ensures a == b
  {
    assert a < b ==> Above(moves, b, Depth(moves, a));
    assert b < a ==> Above(moves, a, Depth(moves, b));
  }

  // ---- Moves still in force ------------------------------------------------

  /** No pop before `n` has undone what move `i` did: the depth never fell below its own. */
  ghost predicate Unrestored(moves: seq<Move>, i: nat, n: nat)
    requires i < n <= |moves|
  {
    forall m | i < m <= n :: AtLeast(moves, m, Depth(moves, i))
  }

  /** Indices below `k`, in order, of the plain moves still in force at `n`. */
  ghost function InForceBelow(moves: seq<Move>, n: nat, k: nat): (indices: seq<nat>)
    requires k <= n <= |moves|
    ensures forall i | 0 <= i < |indices| :: indices[i] < k
  {
    if k == 0 then []
    else InForceBelow(moves, n, k - 1) + if moves[k - 1] == Stay && Unrestored(moves, k - 1, n) then [k - 1] else []
  }

  ghost function InForce(moves: seq<Move>, n: nat): (indices: seq<nat>)
    requires n <= |moves|
    ensures forall i | 0 <= i < |indices| :: indices[i] < n
  {
    InForceBelow(moves, n, n)
  }

  lemma {:induction false} InForceAgrees(moves: seq<Move>, m: nat, n: nat, k: nat)
    requires k <= m <= n <= |moves|
    requires forall i | 0 <= i < k :: Unrestored(moves, i, m) <==> Unrestored(moves, i, n)
    ensures InForceBelow(moves, m, k) == InForceBelow(moves, n, k)
    decreases k
  {
    if k > 0 {
      InForceAgrees(moves, m, n, k - 1);
    }
  }

  lemma {:induction false} NothingInForce(moves: seq<Move>, n: nat, a: nat, k: nat)
    requires a <= k <= n <= |moves|
    requires forall i | a <= i < k :: moves[i] == Stay ==> !Unrestored(moves, i, n)
    ensures InForceBelow(moves, n, k) == InForceBelow(moves, n, a)
    decreases k
  {
    if a < k {
      NothingInForce(moves, n, a, k - 1);
      assert moves[k - 1] == Stay ==> !Unrestored(moves, k - 1, n);
    }
  }

  /** What is in force after a move that is not a pop. */
  lemma InForceGrows(moves: seq<Move>, n: nat)
    requires 0 < n <= |moves| && moves[n - 1] != Pop
    ensures InForce(moves, n) == InForce(moves, n - 1) + if moves[n - 1] == Stay then [n - 1] else []
  {
    forall i | 0 <= i < n - 1 ensures Unrestored(moves, i, n - 1) <==> Unrestored(moves, i, n) {
      assert Unrestored(moves, i, n - 1) ==> AtLeast(moves, n - 1, Depth(moves, i));
    }
    InForceAgrees(moves, n - 1, n, n - 1);
    assert Unrestored(moves, n - 1, n);
  }

  /** A pop reinstates what was in force at the push it closes. */
  lemma InForceReturns(moves: seq<Move>, b: nat, n: nat)
    requires n <= |moves| && Matched(moves, b, n)
    ensures InForce(moves, n) == InForce(moves, b)
  {
    forall i | b <= i < n ensures moves[i] == Stay ==> !Unrestored(moves, i, n) {
      if b < i {
        assert Above(moves, i, Depth(moves, b));
        assert !AtLeast(moves, n, Depth(moves, i));
      }
    }
    NothingInForce(moves, n, b, n);
    forall i | 0 <= i < b ensures Unrestored(moves, i, b) <==> Unrestored(moves, i, n) {
      UnrestoredAcross(moves, i, b, n);
    }
    InForceAgrees(moves, b, n, b);
  }

  lemma UnrestoredAcross(moves: seq<Move>, i: nat, b: nat, n: nat)
    requires i < b && n <= |moves| && Matched(moves, b, n)
    ensures Unrestored(moves, i, b) <==> Unrestored(moves, i, n)
  {
    if Unrestored(moves, i, b) {
      assert AtLeast(moves, b, Depth(moves, i));
      forall m | i < m <= n ensures AtLeast(moves, m, Depth(moves, i)) {
        if b < m < n {
          assert Above(moves, m, Depth(moves, b));
        }
      }
    } else {
      var m :| i < m <= b && !AtLeast(moves, m, Depth(moves, i));
      assert !AtLeast(moves, m, Depth(moves, i));
    }
  }

  /** Without pushes and pops every move is in force, in order. */
  lemma {:induction false} StraightLineInForce(moves: seq<Move>, n: nat)
    requires n <= |moves| && forall i | 0 <= i < n :: moves[i] == Stay
    ensures InForce(moves, n) == seq(n, i => i)
    decreases n
  {
    if n > 0 {
      StraightLineInForce(moves, n - 1);
      InForceGrows(moves, n);
    }
  }

  // ---- A state with a save stack, following the moves ----------------------

  datatype Saved<T> = Saved(state: T, stack: seq<T>)

  /** One move: a push saves the state, a pop restores it, a plain move applies its own effect. */
  ghost predicate Follows<T>(move: Move, i: nat, effect: (nat, T) -> T, before: Saved<T>, after: Saved<T>) {
    match move
    case Push => after == Saved(before.state, before.stack + [before.state])
    case Pop => before.stack == after.stack + [after.state]
    case Stay => after == Saved(effect(i, before.state), before.stack)
  }

  /** `history[n]` is where `n` moves lead from a state with an empty save stack. */
  ghost predicate History<T>(moves: seq<Move>, effect: (nat, T) -> T, history: seq<Saved<T>>) {
    0 < |history| <= |moves| + 1 && history[0].stack == []
    && forall i | 0 <= i < |history| - 1 :: Follows(moves[i], i, effect, history[i], history[i + 1])
  }

  lemma {:induction false} StackHeightIsDepth<T>(moves: seq<Move>, effect: (nat, T) -> T, history: seq<Saved<T>>,
                                                 n: nat)
    requires History(moves, effect, history) && n < |history|
    ensures |history[n].stack| == Depth(moves, n) && NeverBelow(moves, n)
    decreases n
  {
    if n > 0 {
      StackHeightIsDepth(moves, effect, history, n - 1);
      assert Follows(moves[n - 1], n - 1, effect, history[n - 1], history[n - 1 + 1]);
    }
  }

  /** The top of the save stack is the state at the innermost open push, over the stack it found. */
  lemma {:induction false} StackTopIsSavePoint<T>(moves: seq<Move>, effect: (nat, T) -> T, history: seq<Saved<T>>,
                                                  n: nat)
    requires History(moves, effect, history) && n < |history| && Depth(moves, n) > 0
    ensures var a := SavePoint(moves, n); a < n && history[n].stack == history[a].stack + [history[a].state]
    decreases n
  {
    assert Follows(moves[n - 1], n - 1, effect, history[n - 1], history[n - 1 + 1]);
    match moves[n - 1] {
      case Push =>
      case Stay => StackTopIsSavePoint(moves, effect, history, n - 1);
      case Pop =>
        PopReturns(moves, effect, history, n);
        StackTopIsSavePoint(moves, effect, history, SavePoint(moves, n - 1));
    }
  }

  /** A pop puts back exactly what the push it closes found, stack included. */
  lemma {:induction false} PopReturns<T>(moves: seq<Move>, effect: (nat, T) -> T, history: seq<Saved<T>>, n: nat)
    requires History(moves, effect, history) && 0 < n < |history| && moves[n - 1] == Pop
    ensures var b := SavePoint(moves, n - 1); Matched(moves, b, n) && history[n] == history[b]
    decreases n, 0
  {
    StackHeightIsDepth(moves, effect, history, n);
    PopClosesSavePoint(moves, n);
    StackTopIsSavePoint(moves, effect, history, n - 1);
    assert Follows(moves[n - 1], n - 1, effect, history[n - 1], history[n - 1 + 1]);
    var before, after, saved := history[n - 1], history[n], history[SavePoint(moves, n - 1)];
    assert before.stack[..|before.stack| - 1] == saved.stack == after.stack;
    assert before.stack[|before.stack| - 1] == saved.state == after.state;
  }

  /** The effects of the listed moves, applied in order. */
  ghost function Replay<T>(effect: (nat, T) -> T, seed: T, indices: seq<nat>): T {
    if indices == [] then seed else effect(indices[|indices| - 1], Replay(effect, seed, indices[..|indices| - 1]))
  }

  /** Only moves in force matter: the state is the first state with exactly their effects, in order. */
  lemma {:induction false} StateIsReplay<T>(moves: seq<Move>, effect: (nat, T) -> T, history: seq<Saved<T>>, n: nat)
    requires History(moves, effect, history) && n < |history|
    ensures history[n].state == Replay(effect, history[0].state, InForce(moves, n))
    decreases n
  {
    if n > 0 {
      assert Follows(moves[n - 1], n - 1, effect, history[n - 1], history[n - 1 + 1]);
      if moves[n - 1] == Pop {
        PopReturns(moves, effect, history, n);
        InForceReturns(moves, SavePoint(moves, n - 1), n);
        StateIsReplay(moves, effect, history, SavePoint(moves, n - 1));
      } else {
        InForceGrows(moves, n);
        StateIsReplay(moves, effect, history, n - 1);
        var list, shorter := InForce(moves, n), InForce(moves, n - 1);
        if moves[n - 1] == Stay {
          assert list[..|list| - 1] == shorter;
        } else {
          assert list == shorter;
        }
      }
    }
  }
}
