/** The newest-wins object map along a `/Prev` chain (classic_xref_chain.rs). */
module XrefChain {
  import opened Basics

  const MAX_CHAIN_SECTIONS: nat := 64
  const MAX_CHAIN_ENTRIES: nat := 1_000_000

  datatype EntryState = InUse | Free

  /** For a free entry `byteOffset` is the next free object number. */
  datatype Entry = Entry(number: nat, generation: nat, byteOffset: nat, state: EntryState)

  datatype RootReference = RootReference(objectNumber: nat, generation: nat)

  datatype PrevLink = NoPrev | PrevAt(offset: nat) | UnreadablePrev

  /** What classification and inspection find at one offset; `None` for a `/Root` that cannot be read. */
  datatype Section =
    | Unclassified
    | StreamSection
    | BrokenTable
    | Table(subsections: seq<seq<Entry>>, root: Option<RootReference>, prev: PrevLink, size: Option<nat>)

  datatype Document = Document(byteLen: nat, sectionAt: nat -> Section)

  datatype Rejection =
    | OffsetOutOfBounds(offset: nat)
    | Cycle(offset: nat)
    | SectionLimitExceeded
    | EntryLimitExceeded
    | SectionUnclassified(offset: nat)
    | SectionNotClassic(offset: nat)
    | SectionTable(offset: nat)
    | TrailerRoot(offset: nat)
    | TrailerPrev(offset: nat)

  datatype Chain = Chain(start: nat, offsets: seq<nat>, root: RootReference, effectiveSize: nat, entries: seq<Entry>)

  datatype Location =
    | InUseAt(number: nat, generation: nat, byteOffset: nat)
    | FreeEntry(number: nat, generation: nat, nextFree: nat)
    | NotFound(number: nat)

  // ---- The merged map ------------------------------------------------------

  /** `entry(number).or_insert(e)` on a map kept as its values in key order. */
  function InsertIfAbsent(merged: seq<Entry>, e: Entry): seq<Entry> {
    if merged == [] then [e]
    else if merged[0].number < e.number then [merged[0]] + InsertIfAbsent(merged[1..], e)
    else if merged[0].number == e.number then merged
    else [e] + merged
  }

  /** All entries merged, first come first kept. */
  function Merge(entries: seq<Entry>): seq<Entry> {
    if entries == [] then []
    else InsertIfAbsent(Merge(entries[..|entries| - 1]), entries[|entries| - 1])
  }

  predicate Mentions(entries: seq<Entry>, number: nat) {
    exists i | 0 <= i < |entries| :: entries[i].number == number
  }

  function Flatten(subsections: seq<seq<Entry>>): seq<Entry> {
    if subsections == [] then [] else Flatten(subsections[..|subsections| - 1]) + subsections[|subsections| - 1]
  }

  // ---- The chain as a path -------------------------------------------------

  /** The section reached after following `k` links from the start. */
  function PathAt(doc: Document, start: nat, k: nat): Option<nat> {
    if k == 0 then Some(start)
    else match PathAt(doc, start, k - 1)
      case None => None
      case Some(offset) =>
        match doc.sectionAt(offset)
        case Table(_, _, PrevAt(prev), _) => Some(prev)
        case _ => None
  }

  function EntriesAt(doc: Document, offset: nat): seq<Entry> {
    match doc.sectionAt(offset)
    case Table(subsections, _, _, _) => Flatten(subsections)
    case _ => []
  }

  function SizeAt(doc: Document, offset: nat): nat {
    match doc.sectionAt(offset)
    case Table(_, _, _, Some(size)) => size
    case _ => 0
  }

  /** The first `n` offsets of the path. */
  function Path(doc: Document, start: nat, n: nat): seq<nat> {
    if n == 0 || PathAt(doc, start, n - 1).None? then []
    else Path(doc, start, n - 1) + [PathAt(doc, start, n - 1).value]
  }

  /** All entries of the sections, newest section first, in source order within a section. */
  function EntriesOf(doc: Document, offsets: seq<nat>): seq<Entry> {
    if offsets == [] then []
    else EntriesOf(doc, offsets[..|offsets| - 1]) + EntriesAt(doc, offsets[|offsets| - 1])
  }

  function LargestSize(doc: Document, offsets: seq<nat>): nat {
    if offsets == [] then 0
    else
      var before, last := LargestSize(doc, offsets[..|offsets| - 1]), SizeAt(doc, offsets[|offsets| - 1]);
      if last > before then last else before
  }

  /** Why the chain stops at its `k`-th section; `None` when that section is merged. */
  function StopReason(doc: Document, start: nat, k: nat): Option<Rejection>
    requires PathAt(doc, start, k).Some?
  {
    var offset := PathAt(doc, start, k).value;
    if k >= MAX_CHAIN_SECTIONS then Some(SectionLimitExceeded)
    else if offset >= doc.byteLen then Some(OffsetOutOfBounds(offset))
    else if offset in Path(doc, start, k) then Some(Cycle(offset))
    else match doc.sectionAt(offset)
      case Unclassified => Some(SectionUnclassified(offset))
      case StreamSection => Some(SectionNotClassic(offset))
      case BrokenTable => Some(SectionTable(offset))
      case Table(subsections, root, prev, _) =>
        if k == 0 && root.None? then Some(TrailerRoot(offset))
        else if prev.UnreadablePrev? then Some(TrailerPrev(offset))
        else if |Merge(EntriesOf(doc, Path(doc, start, k + 1)))| > MAX_CHAIN_ENTRIES then Some(EntryLimitExceeded)
        else None
  }

  /** Number of sections of the chain from its `k`-th on, or the reason it stops. */
  function ChainFrom(doc: Document, start: nat, k: nat): Result<nat, Rejection>
    decreases if k < MAX_CHAIN_SECTIONS then MAX_CHAIN_SECTIONS - k else 0
  {
    if PathAt(doc, start, k).None? then Ok(k)
    else match StopReason(doc, start, k)
      case Some(reason) => Err(reason)
      case None => ChainFrom(doc, start, k + 1)
  }

  function ChainOf(doc: Document, start: nat, n: nat, root: RootReference): Chain {
    var offsets := Path(doc, start, n);
    Chain(start, offsets, root, LargestSize(doc, offsets), Merge(EntriesOf(doc, offsets)))
  }

  function RootAt(doc: Document, offset: nat): Option<RootReference> {
    match doc.sectionAt(offset)
    case Table(_, root, _, _) => root
    case _ => None
  }

  // ---- Merging one section -------------------------------------------------

  lemma {:induction false} InsertKeepsOthers(merged: seq<Entry>, e: Entry)
    ensures |InsertIfAbsent(merged, e)| <= |merged| + 1
    ensures |merged| <= |InsertIfAbsent(merged, e)|
    decreases |merged|
  {
    if merged != [] && merged[0].number < e.number {
      InsertKeepsOthers(merged[1..], e);
    }
  }

  lemma {:induction false} MergeGrows(entries: seq<Entry>, n: nat)
    requires n <= |entries|
    ensures |Merge(entries[..n])| <= |Merge(entries)|
    decreases |entries|
  {
    if n == |entries| {
      assert entries[..n] == entries;
    } else {
      var shorter := entries[..|entries| - 1];
      assert shorter[..n] == entries[..n];
      MergeGrows(shorter, n);
      InsertKeepsOthers(Merge(shorter), entries[|entries| - 1]);
    }
  }

  predicate StrictlyAscending(entries: seq<Entry>) {
    forall i, j | 0 <= i < j < |entries| :: entries[i].number < entries[j].number
  }

  /** Inserting keeps key order and adds a number exactly when it was absent. */
  lemma {:induction false} InsertIsOrdered(merged: seq<Entry>, e: Entry)
    requires StrictlyAscending(merged)
    ensures StrictlyAscending(InsertIfAbsent(merged, e))
    ensures forall x :: Mentions(InsertIfAbsent(merged, e), x) <==> Mentions(merged, x) || x == e.number
    ensures |InsertIfAbsent(merged, e)| == |merged| + if Mentions(merged, e.number) then 0 else 1
    decreases |merged|
  {
    if merged == [] {
      assert InsertIfAbsent(merged, e)[0] == e;
    } else {
      var rest := merged[1..];
      assert forall i | 0 <= i < |rest| :: rest[i] == merged[i + 1];
      MentionsUnfolds(merged);
      if merged[0].number < e.number {
        InsertIsOrdered(rest, e);
        var after := InsertIfAbsent(merged, e);
        MentionsUnfolds(after);
        assert after[1..] == InsertIfAbsent(rest, e);
        forall i, j | 0 <= i < j < |after| ensures after[i].number < after[j].number {
          assert after[j] == after[1..][j - 1];
          if i == 0 {
            assert Mentions(after[1..], after[j].number);
            assert Mentions(rest, after[j].number) || after[j].number == e.number;
          } else {
            assert after[i] == after[1..][i - 1];
          }
        }
      } else if merged[0].number > e.number {
        var after := InsertIfAbsent(merged, e);
        MentionsUnfolds(after);
        assert after[1..] == merged;
      } else {
        assert Mentions(merged, e.number);
      }
    }
  }

  lemma MentionsUnfolds(entries: seq<Entry>)
    requires entries != []
    ensures forall x :: Mentions(entries, x) <==> entries[0].number == x || Mentions(entries[1..], x)
  {
    forall x ensures Mentions(entries, x) <==> entries[0].number == x || Mentions(entries[1..], x) {
      if i :| 0 <= i < |entries| && entries[i].number == x {
        assert i > 0 ==> entries[1..][i - 1] == entries[i];
      }
      if i :| 0 <= i < |entries[1..]| && entries[1..][i].number == x {
        assert entries[i + 1] == entries[1..][i];
      }
    }
  }

  lemma {:induction false} MergeIsOrdered(entries: seq<Entry>)
    ensures StrictlyAscending(Merge(entries))
    ensures forall x :: Mentions(Merge(entries), x) <==> Mentions(entries, x)
    decreases |entries|
  {
    if entries != [] {
      var shorter, last := entries[..|entries| - 1], entries[|entries| - 1];
      MergeIsOrdered(shorter);
      InsertIsOrdered(Merge(shorter), last);
      forall x ensures Mentions(entries, x) <==> Mentions(shorter, x) || x == last.number {
        if i :| 0 <= i < |entries| && entries[i].number == x {
          assert i < |shorter| ==> shorter[i] == entries[i];
        }
        if i :| 0 <= i < |shorter| && shorter[i].number == x {
          assert entries[i] == shorter[i];
        }
        assert entries[|shorter|] == last;
      }
    }
  }

  /** Merges one section; `before` are the entries merged so far. */
  method MergeSectionEntries(ghost before: seq<Entry>, merged: seq<Entry>, subsections: seq<seq<Entry>>)
    returns (result: Result<seq<Entry>, Rejection>)
    requires merged == Merge(before) && |merged| <= MAX_CHAIN_ENTRIES
    ensures var all := before + Flatten(subsections);
      result == if |Merge(all)| > MAX_CHAIN_ENTRIES then Err(EntryLimitExceeded) else Ok(Merge(all))
  {
    hide Merge, InsertIfAbsent;
    var current := merged;
    ghost var seen := before;
    assert before + [] == before;
    for i := 0 to |subsections|
      invariant seen == before + Flatten(subsections[..i])
      invariant current == Merge(seen) && |current| <= MAX_CHAIN_ENTRIES
    {
      var entries := subsections[i];
      ghost var start := seen;
      assert start + [] == start;
      assert subsections[..i + 1][..i] == subsections[..i];
      for j := 0 to |entries|
        invariant seen == start + entries[..j]
        invariant current == Merge(seen) && |current| <= MAX_CHAIN_ENTRIES
      {
        ghost var longer := seen + [entries[j]];
        MergeOneMore(seen, entries[j]);
        assert longer == start + entries[..j + 1];
        if !Mentions(current, entries[j].number) && |current| >= MAX_CHAIN_ENTRIES {
          PrefixOfSections(before, subsections, i, start, j + 1);
          return Err(EntryLimitExceeded);
        }
        current := InsertIfAbsent(current, entries[j]);
        seen := longer;
      }
      assert entries[..|entries|] == entries;
      assert seen == before + Flatten(subsections[..i + 1]);
    }
    assert subsections[..|subsections|] == subsections;
    return Ok(current);
  }

  lemma MergeOneMore(seen: seq<Entry>, e: Entry)
    ensures Merge(seen + [e]) == InsertIfAbsent(Merge(seen), e)
    ensures |Merge(seen + [e])| == |Merge(seen)| + if Mentions(Merge(seen), e.number) then 0 else 1
  {
    assert (seen + [e])[..|seen|] == seen;
    MergeIsOrdered(seen);
    InsertIsOrdered(Merge(seen), e);
  }

  lemma PrefixOfSections(before: seq<Entry>, subsections: seq<seq<Entry>>, i: nat, start: seq<Entry>, j: nat)
    requires i < |subsections| && j <= |subsections[i]| && start == before + Flatten(subsections[..i])
    ensures |Merge(start + subsections[i][..j])| <= |Merge(before + Flatten(subsections))|
  {
    FlattenSplits(subsections, i);
    var all, part := before + Flatten(subsections), start + subsections[i][..j];
    assert all[..|part|] == part;
    MergeGrows(all, |part|);
  }

  lemma {:induction false} FlattenSplits(subsections: seq<seq<Entry>>, i: nat)
    requires i < |subsections|
    ensures Flatten(subsections[..i]) + subsections[i] <= Flatten(subsections)
    decreases |subsections|
  {
    var shorter := subsections[..|subsections| - 1];
    if i < |shorter| {
      FlattenSplits(shorter, i);
      assert shorter[..i] == subsections[..i];
    }
  }

  // ---- Building the chain --------------------------------------------------

  /** Bounds, then cycles, then classification, then the table itself. */
  method OpenChainSection(doc: Document, byteOffset: nat, visited: set<nat>)
    returns (result: Result<Section, Rejection>, visitedAfter: set<nat>)
    ensures visitedAfter == if byteOffset < doc.byteLen then visited + {byteOffset} else visited
    ensures result ==
      if byteOffset >= doc.byteLen then Err(OffsetOutOfBounds(byteOffset))
      else if byteOffset in visited then Err(Cycle(byteOffset))
      else match doc.sectionAt(byteOffset)
        case Unclassified => Err(SectionUnclassified(byteOffset))
        case StreamSection => Err(SectionNotClassic(byteOffset))
        case BrokenTable => Err(SectionTable(byteOffset))
        case Table(_, _, _, _) => Ok(doc.sectionAt(byteOffset))
  {
    visitedAfter := visited;
    if byteOffset >= doc.byteLen {
      return Err(OffsetOutOfBounds(byteOffset)), visited;
    }
    visitedAfter := visited + {byteOffset};
    if byteOffset in visited {
      return Err(Cycle(byteOffset)), visitedAfter;
    }
    match doc.sectionAt(byteOffset) {
      case Unclassified => return Err(SectionUnclassified(byteOffset)), visitedAfter;
      case StreamSection => return Err(SectionNotClassic(byteOffset)), visitedAfter;
      case BrokenTable => return Err(SectionTable(byteOffset)), visitedAfter;
      case Table(_, _, _, _) => return Ok(doc.sectionAt(byteOffset)), visitedAfter;
    }
  }

  lemma NoSections(doc: Document, start: nat)
    ensures Path(doc, start, 0) == [] && EntriesOf(doc, []) == [] && LargestSize(doc, []) == 0 && Merge([]) == []
  {
  }

  lemma OneMoreSection(doc: Document, start: nat, offsets: seq<nat>)
    requires offsets == Path(doc, start, |offsets|) && PathAt(doc, start, |offsets|).Some?
    ensures var offset := PathAt(doc, start, |offsets|).value;
      var longer := offsets + [offset];
      Path(doc, start, |offsets| + 1) == longer
      && EntriesOf(doc, longer) == EntriesOf(doc, offsets) + EntriesAt(doc, offset)
      && LargestSize(doc, longer)
         == (if SizeAt(doc, offset) > LargestSize(doc, offsets) then SizeAt(doc, offset) else LargestSize(doc, offsets))
  {
    hide PathAt;
    assert (offsets + [PathAt(doc, start, |offsets|).value])[..|offsets|] == offsets;
  }

  method BuildClassicXrefChain(doc: Document, start: nat) returns (result: Result<Chain, Rejection>)
    ensures match ChainFrom(doc, start, 0)
            case Err(reason) => result == Err(reason)
            case Ok(n) => RootAt(doc, start).Some? && result == Ok(ChainOf(doc, start, n, RootAt(doc, start).value))
  {
    hide Path, EntriesOf, LargestSize, Merge, Flatten;
    NoSections(doc, start);
    var visited: set<nat> := {};
    var offsets: seq<nat> := [];
    var merged: seq<Entry> := [];
    var nextOffset: Option<nat> := Some(start);
    var root: Option<RootReference> := None;
    var effectiveSize := 0;
    while nextOffset.Some?
      invariant offsets == Path(doc, start, |offsets|) && nextOffset == PathAt(doc, start, |offsets|)
      invariant |offsets| <= MAX_CHAIN_SECTIONS && visited == set o | o in offsets
      invariant merged == Merge(EntriesOf(doc, offsets)) && |merged| <= MAX_CHAIN_ENTRIES
      invariant effectiveSize == LargestSize(doc, offsets)
      invariant if offsets == [] then root == None else root.Some? && root == RootAt(doc, start)
      invariant ChainFrom(doc, start, 0) == ChainFrom(doc, start, |offsets|)
      decreases MAX_CHAIN_SECTIONS - |offsets|, nextOffset.Some?
    {
      var byteOffset := nextOffset.value;
      if |offsets| >= MAX_CHAIN_SECTIONS {
        return Err(SectionLimitExceeded);
      }
      var section: Result<Section, Rejection>;
      section, visited := OpenChainSection(doc, byteOffset, visited);
      var table :- section;
      if root.None? {
        if table.root.None? {
          return Err(TrailerRoot(byteOffset));
        }
        root := table.root;
      }
      if table.prev.UnreadablePrev? {
        return Err(TrailerPrev(byteOffset));
      }
      if table.size.Some? && table.size.value > effectiveSize {
        effectiveSize := table.size.value;
      }
      OneMoreSection(doc, start, offsets);
      var after := MergeSectionEntries(EntriesOf(doc, offsets), merged, table.subsections);
      merged :- after;
      offsets := offsets + [byteOffset];
      nextOffset := match table.prev case PrevAt(prev) => Some(prev) case _ => None;
    }
    assert root.Some?;
    if root.None? {
      return Err(OffsetOutOfBounds(start));
    }
    return Ok(Chain(start, offsets, root.value, effectiveSize, merged));
  }

  // ---- Looking up ----------------------------------------------------------

  /** Entry `i` is the first for the number. */
  ghost predicate IsFirst(entries: seq<Entry>, number: nat, i: nat) {
    i < |entries| && entries[i].number == number && forall j | 0 <= j < i :: entries[j].number != number
  }

  /** The location is that of the number's first entry: in use or free as the entry is, absent when there is none. */
  ghost predicate Locates(entries: seq<Entry>, number: nat, location: Location) {
    location.number == number
    && match location
       case NotFound(_) => !Mentions(entries, number)
       case InUseAt(_, generation, byteOffset) =>
         exists i: nat :: IsFirst(entries, number, i) && entries[i] == Entry(number, generation, byteOffset, InUse)
       case FreeEntry(_, generation, nextFree) =>
         exists i: nat :: IsFirst(entries, number, i) && entries[i] == Entry(number, generation, nextFree, Free)
  }

  /** Linear search: the first entry for the number. */
  function FirstMatch(entries: seq<Entry>, number: nat): Option<Entry> {
    if entries == [] then None
    else if entries[0].number == number then Some(entries[0])
    else FirstMatch(entries[1..], number)
  }

  lemma {:induction false} NoMatch(entries: seq<Entry>, number: nat)
    requires forall i | 0 <= i < |entries| :: entries[i].number != number
    ensures FirstMatch(entries, number) == None
    decreases |entries|
  {
    if entries != [] {
      NoMatch(entries[1..], number);
    }
  }

  /** Binary search over the key-ordered entries. */
  method ResolveChainObject(chain: Chain, number: nat) returns (location: Location)
    requires StrictlyAscending(chain.entries)
    ensures Locates(chain.entries, number, location)
  {
    var entries := chain.entries;
    var low, high := 0, |entries|;
    while low < high
      invariant low <= high <= |entries|
      invariant forall i | 0 <= i < low :: entries[i].number < number
      invariant forall i | high <= i < |entries| :: entries[i].number > number
    {
      var mid := (low + high) / 2;
      if entries[mid].number < number {
        low := mid + 1;
      } else if entries[mid].number > number {
        high := mid;
      } else {
        assert IsFirst(entries, number, mid);
        match entries[mid].state {
          case InUse => return InUseAt(number, entries[mid].generation, entries[mid].byteOffset);
          case Free => return FreeEntry(number, entries[mid].generation, entries[mid].byteOffset);
        }
      }
    }
    return NotFound(number);
  }
}
