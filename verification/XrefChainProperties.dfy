/** What a built chain means, and every way building one can stop. */
module XrefChainProperties {
  import opened Basics
  import opened XrefChain

  // ---- Outcomes ------------------------------------------------------------

  /** The first `n` sections are all merged. */
  ghost predicate AllMerged(doc: Document, start: nat, n: nat) {
    forall k: nat | k < n :: PathAt(doc, start, k).Some? && StopReason(doc, start, k).None?
  }

  /** What it takes for a section to be merged. */
  lemma MergedSection(doc: Document, start: nat, k: nat)
    requires PathAt(doc, start, k).Some? && StopReason(doc, start, k).None?
    ensures var offset := PathAt(doc, start, k).value;
      k < MAX_CHAIN_SECTIONS && offset < doc.byteLen && offset !in Path(doc, start, k)
      && doc.sectionAt(offset).Table? && !doc.sectionAt(offset).prev.UnreadablePrev?
      && (k == 0 ==> doc.sectionAt(offset).root.Some?)
      && PathAt(doc, start, k + 1) == match doc.sectionAt(offset).prev case PrevAt(prev) => Some(prev) case _ => None
  {
  }

  lemma TooManySections(doc: Document, start: nat, k: nat)
    requires PathAt(doc, start, k).Some?
    ensures k >= MAX_CHAIN_SECTIONS <==> StopReason(doc, start, k) == Some(SectionLimitExceeded)
  {
    hide PathAt, Path, EntriesOf, Merge;
  }

  lemma {:induction false} ChainSkipsMerged(doc: Document, start: nat, k: nat, n: nat)
    requires k <= n && AllMerged(doc, start, n)
    ensures ChainFrom(doc, start, k) == ChainFrom(doc, start, n)
    decreases n - k
  {
    hide StopReason, PathAt;
    if k < n {
      ChainSkipsMerged(doc, start, k + 1, n);
    }
  }

  lemma {:induction false} ChainReaches(doc: Document, start: nat, k: nat) returns (n: nat)
    requires AllMerged(doc, start, k)
    ensures AllMerged(doc, start, n)
    ensures match ChainFrom(doc, start, k)
            case Ok(length) => length == n && PathAt(doc, start, n).None?
            case Err(reason) => PathAt(doc, start, n).Some? && StopReason(doc, start, n) == Some(reason)
    decreases if k < MAX_CHAIN_SECTIONS then MAX_CHAIN_SECTIONS - k else 0
  {
    hide StopReason, PathAt;
    if PathAt(doc, start, k).None? || StopReason(doc, start, k).Some? {
      n := k;
    } else {
      TooManySections(doc, start, k);
      n := ChainReaches(doc, start, k + 1);
    }
  }

  ghost predicate StopsAt(doc: Document, start: nat, n: nat, reason: Rejection) {
    AllMerged(doc, start, n) && PathAt(doc, start, n).Some? && StopReason(doc, start, n) == Some(reason)
  }

  /**
   * Exactly one stop for every `/Prev` graph: a chain of `n` sections when all of them merge and the last
   * has no link, a rejection when some section is reached that does not merge.
   */
  lemma OutcomeExactly(doc: Document, start: nat)
    ensures forall n: nat ::
      (ChainFrom(doc, start, 0) == Ok(n) <==> AllMerged(doc, start, n) && PathAt(doc, start, n).None?)
    ensures forall reason ::
      (ChainFrom(doc, start, 0) == Err(reason) <==> exists n: nat :: StopsAt(doc, start, n, reason))
  {
    hide StopReason, PathAt;
    var m := ChainReaches(doc, start, 0);
    forall n: nat | AllMerged(doc, start, n) ensures ChainFrom(doc, start, 0) == ChainFrom(doc, start, n) {
      ChainSkipsMerged(doc, start, 0, n);
    }
    if reason :| ChainFrom(doc, start, 0) == Err(reason) {
      assert StopsAt(doc, start, m, reason);
    }
  }

  lemma FromStart(doc: Document, start: nat)
    ensures PathAt(doc, start, 0) == Some(start)
  {
  }

  /** A successful chain has at most the bounded number of sections, and at least one. */
  lemma ChainIsBounded(doc: Document, start: nat, n: nat)
    requires AllMerged(doc, start, n)
    ensures n <= MAX_CHAIN_SECTIONS
    ensures PathAt(doc, start, n).None? ==> n > 0 && RootAt(doc, start).Some?
  {
    hide StopReason, PathAt;
    if n > 0 {
      MergedSection(doc, start, n - 1);
      MergedSection(doc, start, 0);
    }
    FromStart(doc, start);
  }

  lemma {:induction false} PathIsPrefix(doc: Document, start: nat, n: nat, k: nat)
    requires k < n && AllMerged(doc, start, n)
    ensures |Path(doc, start, n)| == n && PathAt(doc, start, k) == Some(Path(doc, start, n)[k])
    decreases n
  {
    hide StopReason, PathAt;
    if n > 1 {
      PathIsPrefix(doc, start, n - 1, if k < n - 1 then k else 0);
    } else {
      assert Path(doc, start, 0) == [];
    }
  }

  /** Section `k` points at its successor, and the last at nothing. */
  ghost predicate Linked(doc: Document, offsets: seq<nat>, k: nat)
    requires k < |offsets| && doc.sectionAt(offsets[k]).Table?
  {
    doc.sectionAt(offsets[k]).prev == if k + 1 < |offsets| then PrevAt(offsets[k + 1]) else NoPrev
  }

  /** A successful chain lists distinct in-bounds offsets, each the `/Prev` of the one before, and the last has none. */
  lemma SectionsAreLinked(doc: Document, start: nat, n: nat)
    requires ChainFrom(doc, start, 0) == Ok(n)
    ensures var offsets := Path(doc, start, n);
      0 < |offsets| == n <= MAX_CHAIN_SECTIONS && offsets[0] == start
      && (forall k | 0 <= k < n :: offsets[k] < doc.byteLen && doc.sectionAt(offsets[k]).Table?)
      && (forall j, k | 0 <= j < k < n :: offsets[j] != offsets[k])
      && forall k | 0 <= k < n :: Linked(doc, offsets, k)
  {
    hide StopReason, PathAt, Path, ChainFrom;
    OutcomeExactly(doc, start);
    ChainIsBounded(doc, start, n);
    FromStart(doc, start);
    var offsets := Path(doc, start, n);
    PathIsPrefix(doc, start, n, 0);
    forall k: nat | k < n
      ensures offsets[k] < doc.byteLen && doc.sectionAt(offsets[k]).Table? && Linked(doc, offsets, k)
    {
      PathIsPrefix(doc, start, n, k);
      MergedSection(doc, start, k);
      if k + 1 < n {
        PathIsPrefix(doc, start, n, k + 1);
      }
    }
    forall j: nat, k: nat | j < k < n ensures offsets[j] != offsets[k] {
      PathIsPrefix(doc, start, n, j);
      PathIsPrefix(doc, start, n, k);
      MergedSection(doc, start, k);
      EarlierIsOnPath(doc, start, n, j, k);
    }
  }

  lemma EarlierIsOnPath(doc: Document, start: nat, n: nat, j: nat, k: nat)
    requires j < k < n && AllMerged(doc, start, n)
    ensures PathAt(doc, start, j).value in Path(doc, start, k)
  {
    assert AllMerged(doc, start, k);
    PathIsPrefix(doc, start, k, j);
  }

  /** Each rejection says what it seems to: the bound, the missing bytes, or a section already on the chain. */
  lemma RejectionsAreExplained(doc: Document, start: nat)
    ensures match ChainFrom(doc, start, 0)
            case Err(OffsetOutOfBounds(offset)) => offset >= doc.byteLen
            case Err(Cycle(offset)) =>
              exists j: nat, k: nat :: j < k < MAX_CHAIN_SECTIONS
                && PathAt(doc, start, j) == Some(offset) == PathAt(doc, start, k)
            case Err(SectionLimitExceeded) =>
              AllMerged(doc, start, MAX_CHAIN_SECTIONS) && PathAt(doc, start, MAX_CHAIN_SECTIONS).Some?
            case _ => true
  {
    hide StopReason, PathAt, ChainFrom, Path;
    var n := ChainReaches(doc, start, 0);
    match ChainFrom(doc, start, 0) {
      case Err(reason) =>
        ReasonAt(doc, start, n);
        if reason.Cycle? {
          var j := WhereOnPath(doc, start, n, reason.offset);
          assert PathAt(doc, start, j) == Some(reason.offset) == PathAt(doc, start, n);
        } else if reason.SectionLimitExceeded? {
          ChainIsBounded(doc, start, n);
        }
      case Ok(_) =>
    }
  }

  /** What a reason says about the section it stops at. */
  lemma ReasonAt(doc: Document, start: nat, k: nat)
    requires PathAt(doc, start, k).Some?
    ensures match StopReason(doc, start, k)
            case Some(OffsetOutOfBounds(offset)) => PathAt(doc, start, k) == Some(offset) && offset >= doc.byteLen
            case Some(Cycle(offset)) => k < MAX_CHAIN_SECTIONS && PathAt(doc, start, k) == Some(offset)
              && offset in Path(doc, start, k)
            case Some(SectionLimitExceeded) => k >= MAX_CHAIN_SECTIONS
            case _ => true
  {
    hide PathAt, Path;
  }

  lemma {:induction false} WhereOnPath(doc: Document, start: nat, n: nat, offset: nat) returns (j: nat)
    requires offset in Path(doc, start, n)
    ensures j < n && PathAt(doc, start, j) == Some(offset)
    decreases n
  {
    hide PathAt;
    if PathAt(doc, start, n - 1).Some? && PathAt(doc, start, n - 1).value == offset {
      j := n - 1;
    } else {
      j := WhereOnPath(doc, start, n - 1, offset);
    }
  }

  /**
   * The builder's last branch, a finished chain without a root reference, has nothing to report: every finished
   * chain has a root, and the rejection it would give is given exactly for a start offset past the end.
   */
  lemma MissingRootUnreachable(doc: Document, start: nat)
    ensures ChainFrom(doc, start, 0).Ok? ==> RootAt(doc, start).Some?
    ensures ChainFrom(doc, start, 0) == Err(OffsetOutOfBounds(start)) <==> start >= doc.byteLen
  {
    hide StopReason, PathAt, ChainFrom, AllMerged;
    OutcomeExactly(doc, start);
    RejectionsAreExplained(doc, start);
    if ChainFrom(doc, start, 0).Ok? {
      ChainIsBounded(doc, start, ChainFrom(doc, start, 0).value);
    }
    if start >= doc.byteLen {
      StopsPastTheEnd(doc, start);
    }
  }

  lemma StopsPastTheEnd(doc: Document, start: nat)
    requires start >= doc.byteLen
    ensures StopsAt(doc, start, 0, OffsetOutOfBounds(start))
  {
  }

  // ---- Newest wins ---------------------------------------------------------

  lemma {:induction false} InsertKeepsFirst(merged: seq<Entry>, e: Entry, number: nat)
    requires StrictlyAscending(merged)
    ensures FirstMatch(InsertIfAbsent(merged, e), number)
      == if FirstMatch(merged, number).None? && e.number == number then Some(e) else FirstMatch(merged, number)
    decreases |merged|
  {
    if merged != [] {
      var rest, after := merged[1..], InsertIfAbsent(merged, e);
      assert forall i | 0 <= i < |rest| :: rest[i] == merged[i + 1];
      if merged[0].number < e.number {
        InsertKeepsFirst(rest, e, number);
        assert after[1..] == InsertIfAbsent(rest, e);
      } else if merged[0].number > e.number {
        assert after[1..] == merged;
        if number == e.number {
          NoMatch(merged, number);
        }
      }
    } else {
      assert InsertIfAbsent(merged, e)[1..] == [];
    }
  }

  lemma {:induction false} FirstMatchAppends(entries: seq<Entry>, e: Entry, number: nat)
    ensures FirstMatch(entries + [e], number)
      == if FirstMatch(entries, number).None? && e.number == number then Some(e) else FirstMatch(entries, number)
    decreases |entries|
  {
    if entries == [] {
      assert (entries + [e])[1..] == [];
    } else {
      assert (entries + [e])[1..] == entries[1..] + [e];
      FirstMatchAppends(entries[1..], e, number);
    }
  }

  /** Looking up the merged map is finding the first entry in the list it was merged from. */
  lemma {:induction false} MergeKeepsFirst(entries: seq<Entry>, number: nat)
    ensures FirstMatch(Merge(entries), number) == FirstMatch(entries, number)
    decreases |entries|
  {
    if entries != [] {
      var shorter, last := entries[..|entries| - 1], entries[|entries| - 1];
      MergeKeepsFirst(shorter, number);
      MergeIsOrdered(shorter);
      InsertKeepsFirst(Merge(shorter), last, number);
      FirstMatchAppends(shorter, last, number);
      assert shorter + [last] == entries;
    }
  }

  /**
   * Newest wins: the entries of a built chain are strictly ascending, and looking any number up in them
   * is the first match over all its sections from newest to oldest in source order, so that a newer free
   * entry hides an older entry in use.
   */
  lemma NewestWins(doc: Document, start: nat, n: nat, root: RootReference, number: nat)
    requires ChainFrom(doc, start, 0) == Ok(n)
    ensures var chain := ChainOf(doc, start, n, root);
      StrictlyAscending(chain.entries)
      && FirstMatch(chain.entries, number) == FirstMatch(EntriesOf(doc, chain.offsets), number)
  {
    MergeIsOrdered(EntriesOf(doc, Path(doc, start, n)));
    MergeKeepsFirst(EntriesOf(doc, Path(doc, start, n)), number);
  }

  /** A section decides every number it mentions first, whatever older sections say. */
  lemma {:induction false} NewerShadowsOlder(newer: seq<Entry>, older: seq<Entry>, number: nat)
    ensures FirstMatch(newer + older, number)
      == if FirstMatch(newer, number).Some? then FirstMatch(newer, number) else FirstMatch(older, number)
    decreases |newer|
  {
    if newer == [] {
      assert newer + older == older;
    } else {
      assert (newer + older)[1..] == newer[1..] + older;
      NewerShadowsOlder(newer[1..], older, number);
    }
  }

  function Numbers(entries: seq<Entry>): set<nat> {
    set e | e in entries :: e.number
  }

  /**
   * The merged size counts distinct object numbers, so the entry limit stops the chain exactly when there are
   * too many.
   */
  lemma {:induction false} MergeCountsNumbers(entries: seq<Entry>)
    ensures |Merge(entries)| == |Numbers(entries)|
    decreases |entries|
  {
    if entries != [] {
      var shorter, last := entries[..|entries| - 1], entries[|entries| - 1];
      MergeCountsNumbers(shorter);
      MergeIsOrdered(shorter);
      InsertIsOrdered(Merge(shorter), last);
      assert entries == shorter + [last];
      assert Numbers(entries) == Numbers(shorter) + {last.number};
      assert Mentions(Merge(shorter), last.number) <==> last.number in Numbers(shorter) by {
        assert Mentions(shorter, last.number) <==> last.number in Numbers(shorter);
      }
    }
  }

  lemma EntryLimitExactly(doc: Document, start: nat)
    ensures ChainFrom(doc, start, 0) == Err(EntryLimitExceeded)
      <==> exists n: nat :: AllMerged(doc, start, n) && StopsOnEntries(doc, start, n)
  {
    hide AllMerged, PathAt, ChainFrom, StopReason, StopsOnEntries;
    OutcomeExactly(doc, start);
    forall n: nat
      ensures StopsAt(doc, start, n, EntryLimitExceeded) <==> AllMerged(doc, start, n) && StopsOnEntries(doc, start, n)
    {
      StopsOnEntriesExactly(doc, start, n);
    }
  }

  lemma StopsOnEntriesExactly(doc: Document, start: nat, n: nat)
    ensures StopsOnEntries(doc, start, n)
      <==> PathAt(doc, start, n).Some? && StopReason(doc, start, n) == Some(EntryLimitExceeded)
  {
    hide PathAt, Path, EntriesOf, Merge;
    MergeCountsNumbers(EntriesOf(doc, Path(doc, start, n + 1)));
  }

  /** Section `n` is sound in itself, but with it the chain has more distinct numbers than the bound. */
  ghost predicate StopsOnEntries(doc: Document, start: nat, n: nat) {
    n < MAX_CHAIN_SECTIONS && PathAt(doc, start, n).Some?
    && var offset := PathAt(doc, start, n).value;
       offset < doc.byteLen && offset !in Path(doc, start, n)
       && doc.sectionAt(offset).Table? && !doc.sectionAt(offset).prev.UnreadablePrev?
       && (n == 0 ==> doc.sectionAt(offset).root.Some?)
       && |Numbers(EntriesOf(doc, Path(doc, start, n + 1)))| > MAX_CHAIN_ENTRIES
  }
}
