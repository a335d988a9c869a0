/** Building and looking up a `/Prev` chain, said of the sections and entries of the document themselves. */
module XrefChainMeaning {
  import opened Basics
  import opened XrefChain
  import opened XrefChainProperties

  // ---- Lookup --------------------------------------------------------------

  /** Entry `k` of subsection `j` is the first for the number, subsection by subsection. */
  ghost predicate FirstIn(subsections: seq<seq<Entry>>, number: nat, j: nat, k: nat) {
    j < |subsections| && IsFirst(subsections[j], number, k)
    && forall i | 0 <= i < j :: !Mentions(subsections[i], number)
  }

  ghost predicate SectionMentions(doc: Document, offset: nat, number: nat) {
    doc.sectionAt(offset).Table?
    && exists j | 0 <= j < |doc.sectionAt(offset).subsections| :: Mentions(doc.sectionAt(offset).subsections[j], number)
  }

  /** The newest word on a number: the first entry for it in the first section that mentions it. */
  ghost predicate NewestWord(doc: Document, offsets: seq<nat>, number: nat, i: nat, j: nat, k: nat) {
    i < |offsets| && doc.sectionAt(offsets[i]).Table?
    && FirstIn(doc.sectionAt(offsets[i]).subsections, number, j, k)
    && forall m | 0 <= m < i :: !SectionMentions(doc, offsets[m], number)
  }

  lemma {:induction false} FirstMatchExactly(entries: seq<Entry>, number: nat)
    ensures FirstMatch(entries, number).None? <==> !Mentions(entries, number)
    ensures forall i: nat | IsFirst(entries, number, i) :: FirstMatch(entries, number) == Some(entries[i])
    ensures FirstMatch(entries, number).Some? ==>
      exists i: nat :: IsFirst(entries, number, i) && FirstMatch(entries, number) == Some(entries[i])
    decreases |entries|
  {
    if entries != [] {
      var rest := entries[1..];
      FirstMatchExactly(rest, number);
      MentionsUnfolds(entries);
      if entries[0].number == number {
        assert IsFirst(entries, number, 0);
        forall i: nat | IsFirst(entries, number, i) ensures i == 0 {
        }
      } else {
        forall i: nat | IsFirst(entries, number, i)
          ensures i > 0 && IsFirst(rest, number, i - 1) && rest[i - 1] == entries[i]
        {
          assert forall j | 0 <= j < i - 1 :: rest[j] == entries[j + 1];
        }
        forall i: nat | IsFirst(rest, number, i)
          ensures IsFirst(entries, number, i + 1) && entries[i + 1] == rest[i]
        {
          assert forall j | 1 <= j <= i :: entries[j] == rest[j - 1];
        }
      }
    }
  }

  lemma {:induction false} FlattenedFirst(subsections: seq<seq<Entry>>, number: nat)
    ensures Mentions(Flatten(subsections), number)
      <==> exists j | 0 <= j < |subsections| :: Mentions(subsections[j], number)
    ensures forall j: nat, k: nat | FirstIn(subsections, number, j, k) ::
      FirstMatch(Flatten(subsections), number) == Some(subsections[j][k])
    ensures Mentions(Flatten(subsections), number) ==> exists j: nat, k: nat :: FirstIn(subsections, number, j, k)
    decreases |subsections|
  {
    if subsections != [] {
      var n := |subsections| - 1;
      var before, last := subsections[..n], subsections[n];
      FlattenedFirst(before, number);
      FirstMatchExactly(Flatten(before), number);
      FirstMatchExactly(last, number);
      FirstMatchExactly(Flatten(subsections), number);
      NewerShadowsOlder(Flatten(before), last, number);
      forall j: nat, k: nat | FirstIn(before, number, j, k) ensures FirstIn(subsections, number, j, k) {
        assert forall i | 0 <= i < j :: subsections[i] == before[i];
      }
      forall j: nat, k: nat | FirstIn(subsections, number, j, k)
        ensures FirstMatch(Flatten(subsections), number) == Some(subsections[j][k])
      {
        if j < n {
          assert FirstIn(before, number, j, k) && Mentions(before[j], number);
        } else {
          assert forall i | 0 <= i < n :: !Mentions(before[i], number);
        }
      }
      if Mentions(Flatten(subsections), number) && !Mentions(Flatten(before), number) {
        var k: nat :| IsFirst(last, number, k);
        assert FirstIn(subsections, number, n, k);
      }
      forall j | 0 <= j < n && Mentions(before[j], number) ensures Mentions(subsections[j], number) {
      }
      assert forall j | 0 <= j < n :: before[j] == subsections[j];
    }
  }

  lemma {:induction false} NewestInSections(doc: Document, offsets: seq<nat>, number: nat)
    ensures Mentions(EntriesOf(doc, offsets), number)
      <==> exists i | 0 <= i < |offsets| :: SectionMentions(doc, offsets[i], number)
    ensures forall i: nat, j: nat, k: nat | NewestWord(doc, offsets, number, i, j, k) ::
      FirstMatch(EntriesOf(doc, offsets), number) == Some(doc.sectionAt(offsets[i]).subsections[j][k])
    ensures Mentions(EntriesOf(doc, offsets), number) ==>
      exists i: nat, j: nat, k: nat :: NewestWord(doc, offsets, number, i, j, k)
    decreases |offsets|
  {
    hide Flatten, FirstMatch, Mentions, EntriesAt, SectionMentions;
    NothingMentioned(number);
    if offsets != [] {
      var n := |offsets| - 1;
      var before, last := offsets[..n], offsets[n];
      NewestInSections(doc, before, number);
      FirstMatchExactly(EntriesOf(doc, before), number);
      FirstMatchExactly(EntriesAt(doc, last), number);
      FirstMatchExactly(EntriesOf(doc, offsets), number);
      NewerShadowsOlder(EntriesOf(doc, before), EntriesAt(doc, last), number);
      SectionFirst(doc, last, number);
      assert forall m | 0 <= m < n :: before[m] == offsets[m];
      if i :| 0 <= i < |offsets| && SectionMentions(doc, offsets[i], number) {
        assert i < n ==> SectionMentions(doc, before[i], number);
      }
      forall i: nat, j: nat, k: nat | NewestWord(doc, before, number, i, j, k)
        ensures NewestWord(doc, offsets, number, i, j, k)
      {
      }
      forall i: nat, j: nat, k: nat | NewestWord(doc, offsets, number, i, j, k)
        ensures FirstMatch(EntriesOf(doc, offsets), number) == Some(doc.sectionAt(offsets[i]).subsections[j][k])
      {
        if i < n {
          assert NewestWord(doc, before, number, i, j, k);
        }
      }
      if Mentions(EntriesOf(doc, offsets), number) && !Mentions(EntriesOf(doc, before), number) {
        var j: nat, k: nat :| FirstIn(doc.sectionAt(last).subsections, number, j, k);
        assert NewestWord(doc, offsets, number, n, j, k);
      }
    }
  }

  lemma NothingMentioned(number: nat)
    ensures !Mentions([], number)
  {
  }

  lemma SectionFirst(doc: Document, offset: nat, number: nat)
    ensures Mentions(EntriesAt(doc, offset), number) <==> SectionMentions(doc, offset, number)
    ensures SectionMentions(doc, offset, number) ==>
      doc.sectionAt(offset).Table?
      && (exists j: nat, k: nat :: FirstIn(doc.sectionAt(offset).subsections, number, j, k))
      && forall j: nat, k: nat | FirstIn(doc.sectionAt(offset).subsections, number, j, k) ::
           FirstMatch(EntriesAt(doc, offset), number) == Some(doc.sectionAt(offset).subsections[j][k])
    ensures doc.sectionAt(offset).Table? ==>
      forall j: nat, k: nat | FirstIn(doc.sectionAt(offset).subsections, number, j, k) ::
        SectionMentions(doc, offset, number)
  {
    hide Flatten, FirstMatch, IsFirst;
    if doc.sectionAt(offset).Table? {
      FlattenedFirst(doc.sectionAt(offset).subsections, number);
      forall j: nat, k: nat | FirstIn(doc.sectionAt(offset).subsections, number, j, k)
        ensures SectionMentions(doc, offset, number)
      {
        FirstMentions(doc.sectionAt(offset).subsections[j], number, k);
      }
    }
  }

  lemma FirstMentions(entries: seq<Entry>, number: nat, k: nat)
    requires IsFirst(entries, number, k)
    ensures Mentions(entries, number)
  {
  }

  /**
   * Newest wins, entry by entry: in a built chain a number is located in use or free exactly as the first entry
   * for it in the newest section that mentions it says, and is absent exactly when no section mentions it.
   */
  lemma LookupExactly(doc: Document, start: nat, n: nat, root: RootReference, number: nat, location: Location)
    requires ChainFrom(doc, start, 0) == Ok(n) && location.number == number
    ensures var chain := ChainOf(doc, start, n, root);
      StrictlyAscending(chain.entries)
      && (Locates(chain.entries, number, location) <==>
            match location
            case NotFound(_) => forall m | 0 <= m < |chain.offsets| :: !SectionMentions(doc, chain.offsets[m], number)
            case InUseAt(_, generation, byteOffset) =>
              NewestSays(doc, chain.offsets, Entry(number, generation, byteOffset, InUse))
            case FreeEntry(_, generation, nextFree) =>
              NewestSays(doc, chain.offsets, Entry(number, generation, nextFree, Free)))
  {
    hide ChainFrom, Path, EntriesOf, Merge, FirstMatch, IsFirst, NewestWord, SectionMentions, Mentions;
    var chain := ChainOf(doc, start, n, root);
    NewestWins(doc, start, n, root, number);
    FirstMatchExactly(chain.entries, number);
    FirstMatchExactly(EntriesOf(doc, chain.offsets), number);
    NewestInSections(doc, chain.offsets, number);
    match location {
      case NotFound(_) =>
      case InUseAt(_, generation, byteOffset) =>
        SaysExactly(doc, chain.offsets, Entry(number, generation, byteOffset, InUse));
      case FreeEntry(_, generation, nextFree) =>
        SaysExactly(doc, chain.offsets, Entry(number, generation, nextFree, Free));
    }
  }

  /** The newest word on the entry's number is this entry. */
  ghost predicate NewestSays(doc: Document, offsets: seq<nat>, e: Entry) {
    exists i: nat, j: nat, k: nat ::
      NewestWord(doc, offsets, e.number, i, j, k) && doc.sectionAt(offsets[i]).subsections[j][k] == e
  }

  lemma SaysExactly(doc: Document, offsets: seq<nat>, e: Entry)
    ensures NewestSays(doc, offsets, e) <==> FirstMatch(EntriesOf(doc, offsets), e.number) == Some(e)
  {
    hide EntriesOf, FirstMatch, SectionMentions, Mentions, FirstIn;
    NewestInSections(doc, offsets, e.number);
    FirstMatchExactly(EntriesOf(doc, offsets), e.number);
    if FirstMatch(EntriesOf(doc, offsets), e.number) == Some(e) {
      var i: nat, j: nat, k: nat :| NewestWord(doc, offsets, e.number, i, j, k);
    }
  }

  // ---- Building ------------------------------------------------------------

  /** Object numbers a section mentions. */
  ghost function SectionNumbers(doc: Document, offset: nat): set<nat> {
    if !doc.sectionAt(offset).Table? then {}
    else
      var subsections := doc.sectionAt(offset).subsections;
      set j, k | 0 <= j < |subsections| && 0 <= k < |subsections[j]| :: subsections[j][k].number
  }

  ghost function NumbersIn(doc: Document, offsets: seq<nat>): set<nat> {
    if offsets == [] then {}
    else NumbersIn(doc, offsets[..|offsets| - 1]) + SectionNumbers(doc, offsets[|offsets| - 1])
  }

  /** After the listed sections the chain goes on to `next`: it starts there, or the last one's `/Prev` names it. */
  ghost predicate GoesOnTo(doc: Document, start: nat, offsets: seq<nat>, next: nat) {
    if offsets == [] then next == start
    else
      var last := doc.sectionAt(offsets[|offsets| - 1]);
      last.Table? && last.prev == PrevAt(next)
  }

  /** The section at `next` can join the listed ones. */
  ghost predicate Joins(doc: Document, offsets: seq<nat>, next: nat) {
    |offsets| < 64 && next < doc.byteLen && next !in offsets
    && doc.sectionAt(next).Table? && (offsets == [] ==> doc.sectionAt(next).root.Some?)
    && !doc.sectionAt(next).prev.UnreadablePrev? && |NumbersIn(doc, offsets + [next])| <= 1_000_000
  }

  /** A chain so far: each section is where the ones before it lead, and could join them. */
  ghost predicate GoodChain(doc: Document, start: nat, offsets: seq<nat>) {
    forall k | 0 <= k < |offsets| ::
      GoesOnTo(doc, start, offsets[..k], offsets[k]) && Joins(doc, offsets[..k], offsets[k])
  }

  /** Why the section at `next` cannot join the listed ones; what is tested first counts. */
  ghost predicate CannotJoin(doc: Document, offsets: seq<nat>, next: nat, reason: Rejection) {
    if |offsets| >= 64 then reason == SectionLimitExceeded
    else if next >= doc.byteLen then reason == OffsetOutOfBounds(next)
    else if next in offsets then reason == Cycle(next)
    else match doc.sectionAt(next)
      case Unclassified => reason == SectionUnclassified(next)
      case StreamSection => reason == SectionNotClassic(next)
      case BrokenTable => reason == SectionTable(next)
      case Table(_, root, prev, _) =>
        if offsets == [] && root.None? then reason == TrailerRoot(next)
        else if prev.UnreadablePrev? then reason == TrailerPrev(next)
        else |NumbersIn(doc, offsets + [next])| > 1_000_000 && reason == EntryLimitExceeded
  }

  lemma {:induction false} NumbersAreThoseOfEntries(doc: Document, offsets: seq<nat>)
    ensures NumbersIn(doc, offsets) == Numbers(EntriesOf(doc, offsets))
    decreases |offsets|
  {
    if offsets != [] {
      var last := offsets[|offsets| - 1];
      NumbersAreThoseOfEntries(doc, offsets[..|offsets| - 1]);
      SectionNumbersAreThoseOfEntries(doc, last);
      NumbersOfBoth(EntriesOf(doc, offsets[..|offsets| - 1]), EntriesAt(doc, last));
    }
  }

  lemma NumbersOfBoth(a: seq<Entry>, b: seq<Entry>)
    ensures Numbers(a + b) == Numbers(a) + Numbers(b)
  {
  }

  lemma SectionNumbersAreThoseOfEntries(doc: Document, offset: nat)
    ensures SectionNumbers(doc, offset) == Numbers(EntriesAt(doc, offset))
  {
    if doc.sectionAt(offset).Table? {
      FlattenedNumbers(doc.sectionAt(offset).subsections);
    }
  }

  lemma {:induction false} FlattenedNumbers(subsections: seq<seq<Entry>>)
    ensures (set j, k | 0 <= j < |subsections| && 0 <= k < |subsections[j]| :: subsections[j][k].number)
      == Numbers(Flatten(subsections))
    decreases |subsections|
  {
    if subsections != [] {
      var n := |subsections| - 1;
      var before, last := subsections[..n], subsections[n];
      FlattenedNumbers(before);
      NumbersOfBoth(Flatten(before), last);
      var all := set j, k | 0 <= j < |subsections| && 0 <= k < |subsections[j]| :: subsections[j][k].number;
      var earlier := set j, k | 0 <= j < n && 0 <= k < |before[j]| :: before[j][k].number;
      forall x ensures x in all <==> x in earlier || x in Numbers(last) {
        if j, k :| 0 <= j < |subsections| && 0 <= k < |subsections[j]| && subsections[j][k].number == x {
          if j < n {
            assert before[j][k].number == x;
          } else {
            assert last[k] in last;
          }
        }
        if j, k :| 0 <= j < n && 0 <= k < |before[j]| && before[j][k].number == x {
          assert subsections[j][k].number == x;
        }
        if e :| e in last && e.number == x {
          var k :| 0 <= k < |last| && last[k] == e;
          assert subsections[n][k].number == x;
        }
      }
    }
  }

  /** One section of the path: it joins the ones before it, or it stops the chain for the reason given. */
  lemma StopReasonExactly(doc: Document, start: nat, k: nat)
    requires PathAt(doc, start, k).Some? && |Path(doc, start, k)| == k
    ensures var before, next := Path(doc, start, k), PathAt(doc, start, k).value;
      match StopReason(doc, start, k)
      case None => Joins(doc, before, next)
      case Some(reason) => CannotJoin(doc, before, next, reason)
  {
    hide PathAt, Path, EntriesOf, Merge, NumbersIn;
    var before, next := Path(doc, start, k), PathAt(doc, start, k).value;
    NumbersAreThoseOfEntries(doc, before + [next]);
    MergeCountsNumbers(EntriesOf(doc, before + [next]));
    OneMoreSection(doc, start, before);
  }

  /** A section joins or has one reason not to. */
  lemma OneReason(doc: Document, offsets: seq<nat>, next: nat, reason: Rejection, other: Rejection)
    requires CannotJoin(doc, offsets, next, reason)
    ensures !Joins(doc, offsets, next) && (CannotJoin(doc, offsets, next, other) ==> other == reason)
  {
    hide NumbersIn;
  }

  /** The path goes on where its last section says. */
  lemma PathGoesOn(doc: Document, start: nat, n: nat, next: nat)
    requires AllMerged(doc, start, n) && |Path(doc, start, n)| == n
    ensures PathAt(doc, start, n) == Some(next) <==> GoesOnTo(doc, start, Path(doc, start, n), next)
  {
    hide StopReason, Path;
    if n > 0 {
      PathIsPrefix(doc, start, n, n - 1);
    }
  }

  /** Merged sections are a chain so far. */
  lemma {:induction false} MergedIsGood(doc: Document, start: nat, n: nat)
    requires AllMerged(doc, start, n)
    ensures |Path(doc, start, n)| == n && GoodChain(doc, start, Path(doc, start, n))
    decreases n
  {
    hide StopReason, Joins, PathAt, GoesOnTo;
    if n > 0 {
      MergedIsGood(doc, start, n - 1);
      var before, next := Path(doc, start, n - 1), PathAt(doc, start, n - 1).value;
      var offsets := Path(doc, start, n);
      assert offsets == before + [next];
      StopReasonExactly(doc, start, n - 1);
      PathGoesOn(doc, start, n - 1, next);
      LongerIsGood(doc, start, before, next);
    }
  }

  lemma LongerIsGood(doc: Document, start: nat, before: seq<nat>, next: nat)
    requires GoodChain(doc, start, before) && GoesOnTo(doc, start, before, next) && Joins(doc, before, next)
    ensures GoodChain(doc, start, before + [next])
  {
    hide Joins, GoesOnTo;
    var offsets := before + [next];
    forall k | 0 <= k < |offsets|
      ensures GoesOnTo(doc, start, offsets[..k], offsets[k]) && Joins(doc, offsets[..k], offsets[k])
    {
      assert offsets[..k] == before[..k];
    }
  }

  /** A chain so far is the path, all merged. */
  lemma {:induction false} GoodIsMerged(doc: Document, start: nat, offsets: seq<nat>)
    requires GoodChain(doc, start, offsets)
    ensures AllMerged(doc, start, |offsets|) && Path(doc, start, |offsets|) == offsets
    decreases |offsets|
  {
    hide StopReason, Joins, GoesOnTo, PathAt, CannotJoin;
    if offsets != [] {
      var n := |offsets| - 1;
      var before, next := offsets[..n], offsets[n];
      assert forall k | 0 <= k < n :: before[..k] == offsets[..k] && before[k] == offsets[k];
      GoodIsMerged(doc, start, before);
      PathGoesOn(doc, start, n, next);
      StopReasonExactly(doc, start, n);
      if StopReason(doc, start, n).Some? {
        OneReason(doc, before, next, StopReason(doc, start, n).value, SectionLimitExceeded);
      }
      assert before + [next] == offsets;
    }
  }

  /** The last section of the list has no `/Prev`. */
  ghost predicate Ends(doc: Document, offsets: seq<nat>) {
    offsets != [] && doc.sectionAt(offsets[|offsets| - 1]).Table?
    && doc.sectionAt(offsets[|offsets| - 1]).prev == NoPrev
  }

  /**
   * Success, exactly: these sections are built into a chain if and only if they are a chain of at most 64 sound
   * sections with at most a million distinct numbers, and the last one has no `/Prev`.
   */
  lemma BuiltExactly(doc: Document, start: nat, offsets: seq<nat>)
    ensures ChainFrom(doc, start, 0) == Ok(|offsets|) && Path(doc, start, |offsets|) == offsets
      <==> GoodChain(doc, start, offsets) && Ends(doc, offsets)
  {
    hide StopReason, ChainFrom;
    OutcomeExactly(doc, start);
    var n := |offsets|;
    if ChainFrom(doc, start, 0) == Ok(n) && Path(doc, start, n) == offsets {
      MergedIsGood(doc, start, n);
      EndsExactly(doc, start, offsets);
    }
    if GoodChain(doc, start, offsets) && Ends(doc, offsets) {
      GoodIsMerged(doc, start, offsets);
      MergedIsGood(doc, start, n);
      EndsExactly(doc, start, offsets);
    }
  }

  lemma EndsExactly(doc: Document, start: nat, offsets: seq<nat>)
    requires GoodChain(doc, start, offsets) && AllMerged(doc, start, |offsets|)
    requires Path(doc, start, |offsets|) == offsets
    ensures PathAt(doc, start, |offsets|).None? <==> Ends(doc, offsets)
  {
    hide StopReason, Path;
    var n := |offsets|;
    if n > 0 {
      assert Joins(doc, offsets[..n - 1], offsets[n - 1]);
      PathIsPrefix(doc, start, n, n - 1);
    }
  }

  /**
   * Rejection, exactly: the builder stops for a reason if and only if some chain so far goes on to a section
   * that cannot join it for that reason.
   */
  lemma StoppedExactly(doc: Document, start: nat, reason: Rejection)
    ensures ChainFrom(doc, start, 0) == Err(reason)
      <==> exists offsets, next ::
             GoodChain(doc, start, offsets) && GoesOnTo(doc, start, offsets, next)
             && CannotJoin(doc, offsets, next, reason)
  {
    hide StopReason, ChainFrom, GoodChain, CannotJoin, Path;
    OutcomeExactly(doc, start);
    if ChainFrom(doc, start, 0) == Err(reason) {
      var n: nat :| StopsAt(doc, start, n, reason);
      MergedIsGood(doc, start, n);
      StopReasonExactly(doc, start, n);
      PathGoesOn(doc, start, n, PathAt(doc, start, n).value);
    }
    if offsets, next :| GoodChain(doc, start, offsets) && GoesOnTo(doc, start, offsets, next)
                        && CannotJoin(doc, offsets, next, reason) {
      var n := |offsets|;
      GoodIsMerged(doc, start, offsets);
      PathGoesOn(doc, start, n, next);
      StopReasonExactly(doc, start, n);
      var stop := StopReason(doc, start, n);
      OneReason(doc, offsets, next, reason, if stop.Some? then stop.value else reason);
      assert StopsAt(doc, start, n, reason);
    }
  }

  /** The section is a table whose trailer gives this `/Size`. */
  ghost predicate Sized(doc: Document, offset: nat, size: nat) {
    doc.sectionAt(offset).Table? && doc.sectionAt(offset).size == Some(size)
  }

  /** A finished chain carries the root of the section it starts at and the largest `/Size` any section has. */
  lemma RootAndSize(doc: Document, start: nat, n: nat, root: RootReference)
    requires ChainFrom(doc, start, 0) == Ok(n)
    ensures doc.sectionAt(start).Table? && RootAt(doc, start).Some? && RootAt(doc, start) == doc.sectionAt(start).root
    ensures var chain := ChainOf(doc, start, n, root);
      (forall k, size: nat | 0 <= k < |chain.offsets| && Sized(doc, chain.offsets[k], size) ::
         size <= chain.effectiveSize)
      && (chain.effectiveSize == 0
          || exists k | 0 <= k < |chain.offsets| :: Sized(doc, chain.offsets[k], chain.effectiveSize))
  {
    hide ChainFrom, StopReason, PathAt, Path, EntriesOf, Merge;
    MissingRootUnreachable(doc, start);
    SizeIsLargest(doc, Path(doc, start, n));
  }

  lemma {:induction false} SizeIsLargest(doc: Document, offsets: seq<nat>)
    ensures forall k, size: nat | 0 <= k < |offsets| && Sized(doc, offsets[k], size) ::
      size <= LargestSize(doc, offsets)
    ensures LargestSize(doc, offsets) == 0
      || exists k | 0 <= k < |offsets| :: Sized(doc, offsets[k], LargestSize(doc, offsets))
    decreases |offsets|
  {
    if offsets != [] {
      var before := offsets[..|offsets| - 1];
      SizeIsLargest(doc, before);
      if k :| 0 <= k < |before| && Sized(doc, before[k], LargestSize(doc, before)) {
        assert offsets[k] == before[k];
      }
      forall k, size: nat | 0 <= k < |offsets| && Sized(doc, offsets[k], size)
        ensures size <= LargestSize(doc, offsets)
      {
        assert k < |before| ==> Sized(doc, before[k], size);
      }
    }
  }
}
