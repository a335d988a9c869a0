/** What a plan promises, down to the content stream it was planned for. */
module ActionProperties {
  import opened Basics
  import opened PaintTypes
  import opened Operands
  import opened Walker
  import opened OperatorMeanings
  import opened Inventories
  import opened InventoryProperties
  import opened Actions

  // ---- Colour conversion, entry by entry -----------------------------------

  /** Colour `i` is sourced and the entry's only process colour. */
  predicate SoleProcessColor(colors: seq<SourceColor>, i: nat) {
    IsSourcedAt(colors, i) && forall j: nat | j < |colors| && j != i :: !IsProcessAt(colors, j)
  }

  /** A conversion may edit the source record of colour `i` exactly when that is the sole process colour. */
  lemma ConvertibleExactly(entry: InventoryEntry, action: Action)
    ensures ConvertBoundary(entry, action).Ok? <==> exists i: nat :: SoleProcessColor(entry.colors, i)
    ensures forall i: nat | SoleProcessColor(entry.colors, i) ::
      ConvertBoundary(entry, action)
      == Ok(ContentStreamOperand(entry.provenance.page, entry.provenance.scope, entry.colors[i].source.value, action))
  {
    var n := |entry.colors|;
    if ConvertBoundary(entry, action).Ok? {
      var k: nat :| IsSourcedAt(entry.colors, k) && entry.colors[k].source == FirstSourced(entry.colors, 0);
      forall j: nat | j < n && j != k ensures !IsProcessAt(entry.colors, j) {
        if IsProcessAt(entry.colors, j) {
          assert !IsUnsourcedAt(entry.colors, j) && IsSourcedAt(entry.colors, j);
        }
      }
      assert SoleProcessColor(entry.colors, k);
    }
    forall i: nat | SoleProcessColor(entry.colors, i)
      ensures ConvertBoundary(entry, action)
        == Ok(ContentStreamOperand(entry.provenance.page, entry.provenance.scope, entry.colors[i].source.value, action))
    {
      assert forall j: nat | IsSourcedAt(entry.colors, j) :: IsProcessAt(entry.colors, j) && j == i;
      assert forall j: nat | IsUnsourcedAt(entry.colors, j) :: IsProcessAt(entry.colors, j) && j == i;
    }
  }

  /** The last branch of the planner, a process colour that is neither sourced nor unsourced, never runs. */
  lemma MissingSourceExactly(entry: InventoryEntry, action: Action)
    ensures ConvertBoundary(entry, action) == Err(MissingColorSource)
      <==> exists i: nat :: IsUnsourcedAt(entry.colors, i)
  {
    var colors := entry.colors;
    if AnyProcess(colors, |colors|) && !AnyUnsourced(colors, |colors|) {
      var i: nat :| i < |colors| && IsProcessAt(colors, i);
      assert !IsUnsourcedAt(colors, i) && IsSourcedAt(colors, i);
    }
    if i: nat :| IsUnsourcedAt(colors, i) {
      assert IsProcessAt(colors, i);
    }
  }

  /** The spaces whose colours may be converted are those a device-colour operator can set. */
  lemma ProcessSpacesAreDeviceSpaces(space: ColorSpace)
    ensures IsProcessSpace(space) <==> exists d :: d in DEVICE_OPERATORS && d.space == space
  {
    assert DEVICE_OPERATORS[0] in DEVICE_OPERATORS;
    assert DEVICE_OPERATORS[2] in DEVICE_OPERATORS;
    assert DEVICE_OPERATORS[4] in DEVICE_OPERATORS;
    assert DEVICE_OPERATORS[0].space == DeviceGray && DEVICE_OPERATORS[2].space == DeviceRgb
      && DEVICE_OPERATORS[4].space == DeviceCmyk;
  }

  ghost predicate Process(colors: seq<SourceColor>, i: nat) {
    i < |colors| && colors[i].space in {DeviceGray, DeviceRgb, DeviceCmyk}
  }

  /** Why a conversion has nothing to edit: no process colour, one that no operator set, or more than one. */
  lemma UnconvertibleExactly(entry: InventoryEntry, action: Action)
    ensures ConvertBoundary(entry, action) == Err(NonProcessColor) <==> forall i: nat :: !Process(entry.colors, i)
    ensures ConvertBoundary(entry, action) == Err(MissingColorSource)
      <==> exists i: nat :: Process(entry.colors, i) && entry.colors[i].source.None?
    ensures ConvertBoundary(entry, action) == Err(AmbiguousColorSource)
      <==> (forall i: nat | Process(entry.colors, i) :: entry.colors[i].source.Some?)
           && exists i: nat, j: nat :: i < j && Process(entry.colors, i) && Process(entry.colors, j)
    ensures ConvertBoundary(entry, action).Ok?
      ==> exists i: nat :: Process(entry.colors, i) && entry.colors[i].source.Some?
            && (forall j: nat | Process(entry.colors, j) :: j == i)
            && ConvertBoundary(entry, action).value
               == ContentStreamOperand(entry.provenance.page, entry.provenance.scope, entry.colors[i].source.value,
                                       action)
  {
    var colors := entry.colors;
    forall i: nat ensures IsProcessAt(colors, i) <==> Process(colors, i) {
    }
    MissingSourceExactly(entry, action);
    ConvertibleExactly(entry, action);
    if ConvertBoundary(entry, action).Ok? {
      var i: nat :| SoleProcessColor(colors, i);
      assert Process(colors, i) && forall j: nat | Process(colors, j) :: IsProcessAt(colors, j) && j == i;
    }
    if i: nat, j: nat :| i < j && Process(colors, i) && Process(colors, j) {
      assert IsProcessAt(colors, i) && IsProcessAt(colors, j);
      if forall k: nat | Process(colors, k) :: colors[k].source.Some? {
        forall k: nat ensures !IsUnsourcedAt(colors, k) {
        }
        assert IsSourcedAt(colors, i) && IsSourcedAt(colors, j);
      }
    }
    if TwoSourced(colors, |colors|) {
      var i: nat, j: nat :| i < j < |colors| && IsSourcedAt(colors, i) && IsSourcedAt(colors, j);
      assert Process(colors, i) && Process(colors, j);
    }
    if !AnyUnsourced(colors, |colors|) {
      forall k: nat | Process(colors, k) ensures colors[k].source.Some? {
        assert !IsUnsourcedAt(colors, k);
      }
    }
  }

  /** What a step makes of one entry: nothing unless selected, and then by the capability first. */
  lemma VerdictExactly(step: RecipeStep, entry: InventoryEntry)
    requires !step.action.SetPageBox?
    ensures var required := if step.action.ConvertColor? then RewriteColorOperand
                            else if step.action.SpreadText? then AddTextSpreadStroke else AdjustStrokeWidth;
      var verdict := VerdictOn(step, required, entry);
      step.action.RequiredCapability() == Some(required)
      && if !step.select(entry) then verdict == NotMatched
         else if required !in entry.capabilities then verdict == Skip(UnsupportedCapability(required))
         else if !step.action.ConvertColor? then verdict == Target(None)
         else match ConvertBoundary(entry, step.action)
           case Err(reason) => verdict == Skip(reason)
           case Ok(boundary) => verdict == Target(Some(PlannedPatch(entry.id, required, boundary)))
  {
    hide ConvertBoundary;
  }

  /** Page-box edits select no entries. */
  lemma PageBoxPlansAreEmpty(step: RecipeStep, entries: seq<InventoryEntry>)
    requires step.action.SetPageBox?
    ensures StepPlan(step, entries) == ActionPlan(step.action, [], [], [])
  {
  }

  /** Where the verdict on entry `i` goes: to the end of its list, which later entries only extend. */
  lemma {:induction false} EveryEntryIsJudged(step: RecipeStep, required: EditCapability,
                                              entries: seq<InventoryEntry>, i: nat)
    requires i < |entries|
    ensures var verdict, id := VerdictOn(step, required, entries[i]), entries[i].id;
      Targets(step, required, entries[..i]) + (if verdict.Target? then [id] else [])
        <= Targets(step, required, entries)
      && Patches(step, required, entries[..i])
         + (if verdict.Target? && verdict.patch.Some? then [verdict.patch.value] else [])
         <= Patches(step, required, entries)
      && Skips(step, required, entries[..i])
         + (if verdict.Skip? then [SkippedTarget(id, verdict.reason)] else []) <= Skips(step, required, entries)
    decreases |entries|
  {
    hide VerdictOn;
    var shorter := entries[..|entries| - 1];
    if i < |shorter| {
      EveryEntryIsJudged(step, required, shorter, i);
      assert shorter[..i] == entries[..i];
    } else {
      assert shorter == entries[..i];
    }
  }

  // ---- Plans ---------------------------------------------------------------

  function Matched(step: RecipeStep, entries: seq<InventoryEntry>): seq<ObjectId> {
    if entries == [] then []
    else
      var last := entries[|entries| - 1];
      Matched(step, entries[..|entries| - 1]) + if step.select(last) then [last.id] else []
  }

  function SkippedIds(skipped: seq<SkippedTarget>): seq<ObjectId> {
    seq(|skipped|, i requires 0 <= i < |skipped| => skipped[i].id)
  }

  /** Nothing matched is lost and nothing is invented: targets and skips together are the matched entries. */
  lemma {:induction false} TargetsAndSkipsPartition(step: RecipeStep, required: EditCapability,
                                                    entries: seq<InventoryEntry>)
    ensures multiset(Targets(step, required, entries)) + multiset(SkippedIds(Skips(step, required, entries)))
         == multiset(Matched(step, entries))
    decreases |entries|
  {
    hide ConvertBoundary, VerdictOn, SkippedIds;
    if entries == [] {
      NothingSkipped();
    } else {
      var last, before := entries[|entries| - 1], entries[..|entries| - 1];
      TargetsAndSkipsPartition(step, required, before);
      MatchedIsJudged(step, required, last);
      match VerdictOn(step, required, last) {
        case Skip(reason) => SkippedAppend(Skips(step, required, before), SkippedTarget(last.id, reason));
        case _ =>
      }
    }
  }

  lemma NothingSkipped()
    ensures SkippedIds([]) == []
  {
  }

  lemma SkippedAppend(skips: seq<SkippedTarget>, skip: SkippedTarget)
    ensures SkippedIds(skips + [skip]) == SkippedIds(skips) + [skip.id]
  {
  }

  lemma MatchedIsJudged(step: RecipeStep, required: EditCapability, entry: InventoryEntry)
    ensures step.select(entry) <==> !VerdictOn(step, required, entry).NotMatched?
    ensures VerdictOn(step, required, entry).Target? ==>
      (VerdictOn(step, required, entry).patch.Some? <==> step.action.ConvertColor?)
  {
  }

  /** Colour conversion plans one patch per target; no other action plans any. */
  lemma {:induction false} OnePatchPerTarget(step: RecipeStep, required: EditCapability, entries: seq<InventoryEntry>)
    ensures |Patches(step, required, entries)|
      == (if step.action.ConvertColor? then |Targets(step, required, entries)| else 0)
    decreases |entries|
  {
    hide VerdictOn;
    if entries != [] {
      MatchedIsJudged(step, required, entries[|entries| - 1]);
      OnePatchPerTarget(step, required, entries[..|entries| - 1]);
    }
  }

  /** A planned patch comes from an entry that advertises the capability and can be converted. */
  lemma {:induction false} PatchOrigin(step: RecipeStep, required: EditCapability, entries: seq<InventoryEntry>,
                                       k: nat) returns (e: nat)
    requires k < |Patches(step, required, entries)|
    ensures e < |entries| && step.select(entries[e]) && required in entries[e].capabilities
    ensures ConvertBoundary(entries[e], step.action).Ok?
    ensures Patches(step, required, entries)[k]
      == PlannedPatch(entries[e].id, required, ConvertBoundary(entries[e], step.action).value)
    decreases |entries|
  {
    hide ConvertBoundary;
    var before := entries[..|entries| - 1];
    if k < |Patches(step, required, before)| {
      e := PatchOrigin(step, required, before, k);
    } else {
      e := |entries| - 1;
    }
  }

  /**
   * The patch belongs to an entry of the inventory and edits the source record of that entry's only process
   * colour: the colour operator of this stream that governs, where the entry paints, the side it uses.
   */
  ghost predicate EditsGoverningRecord(p: PaintProgram, ctx: Context, entry: InventoryEntry, patch: PlannedPatch,
                                       c: nat, n: nat) {
    patch.id == entry.id && patch.capability == RewriteColorOperand && patch.capability in entry.capabilities
    && patch.boundary.page == ctx.page && patch.boundary.scope == ctx.scope
    && SoleProcessColor(entry.colors, c) && entry.colors[c].source == Some(patch.boundary.recordRange)
    && (entry.colors[c].usage.Stroke? || entry.colors[c].usage.Fill?)
    && PaintsAt(p, entry, n) && LocalColorRecord(p, n, SideOf(entry.colors[c].usage), patch.boundary.recordRange)
  }

  /**
   * Provenance soundness, end to end: whatever state the stream was entered with, every patch a recipe
   * step plans from its inventory edits a record of that very stream, in the page and scope of the walk,
   * and that record is the colour operator in force, where the entry paints, for the side on which the
   * entry uses the colour.
   */
  lemma EveryPatchIsLocal(p: PaintProgram, seed: Snapshot, ctx: Context, step: RecipeStep, k: nat)
    returns (e: nat, c: nat, n: nat)
    requires Inventory(p, seed, ctx).Ok?
    requires k < |StepPlan(step, Inventory(p, seed, ctx).value).patches|
    ensures e < |Inventory(p, seed, ctx).value| && step.select(Inventory(p, seed, ctx).value[e])
    ensures EditsGoverningRecord(p, ctx, Inventory(p, seed, ctx).value[e],
                                 StepPlan(step, Inventory(p, seed, ctx).value).patches[k], c, n)
  {
    hide Inventory, ConvertBoundary, LocalColorRecord, CombinedEntry;
    var entries := Inventory(p, seed, ctx).value;
    var required := step.action.RequiredCapability().value;
    e := PatchOrigin(step, required, entries, k);
    OnePatchPerTarget(step, required, entries);
    ConvertibleExactly(entries[e], step.action);
    c :| SoleProcessColor(entries[e].colors, c);
    n := KeptRewriteIsLocal(p, seed, ctx, e, c);
    EntryProvenance(p, seed, ctx, e);
  }

  /** The same for a whole recipe: every patch of every step of the plan. */
  lemma EveryRecipePatchIsLocal(p: PaintProgram, seed: Snapshot, ctx: Context, steps: seq<RecipeStep>, i: nat, k: nat)
    returns (e: nat, c: nat, n: nat)
    requires Inventory(p, seed, ctx).Ok? && i < |steps|
    requires k < |PlanRecipe(steps, Inventory(p, seed, ctx).value)[i].patches|
    ensures e < |Inventory(p, seed, ctx).value| && steps[i].select(Inventory(p, seed, ctx).value[e])
    ensures EditsGoverningRecord(p, ctx, Inventory(p, seed, ctx).value[e],
                                 PlanRecipe(steps, Inventory(p, seed, ctx).value)[i].patches[k], c, n)
  {
    hide Inventory, StepPlan, EditsGoverningRecord;
    e, c, n := EveryPatchIsLocal(p, seed, ctx, steps[i], k);
  }

  lemma EntryProvenance(p: PaintProgram, seed: Snapshot, ctx: Context, k: nat)
    requires Inventory(p, seed, ctx).Ok? && k < |Inventory(p, seed, ctx).value|
    ensures var entry := Inventory(p, seed, ctx).value[k];
      entry.provenance.page == ctx.page && entry.provenance.scope == ctx.scope
      && AdjustStrokeWidth !in entry.capabilities
  {
    hide ItemsFrom, Emitted, GatherStream, InputOf, DigestOf, Observations, AnyInherited;
    var event := EntryOrigin(p, seed, ctx, k);
  }

  /** No inventory entry can have its stroke width adjusted, so such a step plans nothing and skips all it matches. */
  lemma StrokeWidthStepsOnlySkip(p: PaintProgram, seed: Snapshot, ctx: Context, step: RecipeStep)
    requires Inventory(p, seed, ctx).Ok? && step.action.MinimumStrokeWidth?
    ensures StepPlan(step, Inventory(p, seed, ctx).value).targets == []
    ensures multiset(SkippedIds(StepPlan(step, Inventory(p, seed, ctx).value).skipped))
         == multiset(Matched(step, Inventory(p, seed, ctx).value))
  {
    hide Inventory;
    var entries := Inventory(p, seed, ctx).value;
    forall k | 0 <= k < |entries| ensures AdjustStrokeWidth !in entries[k].capabilities {
      EntryProvenance(p, seed, ctx, k);
    }
    NoTargetsWithoutCapability(step, AdjustStrokeWidth, entries);
    TargetsAndSkipsPartition(step, AdjustStrokeWidth, entries);
  }

  lemma {:induction false} NoTargetsWithoutCapability(step: RecipeStep, required: EditCapability,
                                                      entries: seq<InventoryEntry>)
    requires forall k | 0 <= k < |entries| :: required !in entries[k].capabilities
    ensures Targets(step, required, entries) == []
    decreases |entries|
  {
    if entries != [] {
      NoTargetsWithoutCapability(step, required, entries[..|entries| - 1]);
    }
  }
}
