/** Report-only patch planning over an inventory (crate presslint-actions). */
module Actions {
  import opened Basics
  import opened PaintTypes
  import opened Inventories

  datatype Action =
    | ConvertColor(target: Bytes)
    | SpreadText(amount: real, overprint: bool)
    | MinimumStrokeWidth(width: real)
    | SetPageBox(mediaBox: Option<seq<real>>, cropBox: Option<seq<real>>)
  {
    /** Capability an entry must advertise; page-box edits do not select inventory entries at all. */
    function RequiredCapability(): Option<EditCapability> {
      match this
      case ConvertColor(_) => Some(RewriteColorOperand)
      case SpreadText(_, _) => Some(AddTextSpreadStroke)
      case MinimumStrokeWidth(_) => Some(AdjustStrokeWidth)
      case SetPageBox(_, _) => None
    }
  }

  datatype SkipReason =
    | UnsupportedCapability(required: EditCapability)
    | NonProcessColor
    | MissingColorSource
    | AmbiguousColorSource

  /** The one record of one content stream an executor may edit. */
  datatype MutationBoundary = ContentStreamOperand(page: nat, scope: ContentScope, recordRange: ByteRange,
                                                   action: Action)

  datatype PlannedPatch = PlannedPatch(id: ObjectId, capability: EditCapability, boundary: MutationBoundary)

  datatype SkippedTarget = SkippedTarget(id: ObjectId, reason: SkipReason)

  datatype ActionPlan = ActionPlan(
    action: Action, targets: seq<ObjectId>, patches: seq<PlannedPatch>, skipped: seq<SkippedTarget>)

  /** `select` is the evaluated selector. */
  datatype RecipeStep = RecipeStep(select: InventoryEntry -> bool, action: Action)

  // ---- Which record a colour conversion may edit ---------------------------

  predicate IsProcessSpace(space: ColorSpace) {
    space.DeviceGray? || space.DeviceRgb? || space.DeviceCmyk?
  }

  predicate IsProcessAt(colors: seq<SourceColor>, i: nat) {
    i < |colors| && IsProcessSpace(colors[i].space)
  }

  predicate IsSourcedAt(colors: seq<SourceColor>, i: nat) {
    IsProcessAt(colors, i) && colors[i].source.Some?
  }

  predicate IsUnsourcedAt(colors: seq<SourceColor>, i: nat) {
    IsProcessAt(colors, i) && colors[i].source.None?
  }

  predicate AnyProcess(colors: seq<SourceColor>, n: nat) {
    exists i: nat | i < n :: IsProcessAt(colors, i)
  }

  predicate AnyUnsourced(colors: seq<SourceColor>, n: nat) {
    exists i: nat | i < n :: IsUnsourcedAt(colors, i)
  }

  predicate TwoSourced(colors: seq<SourceColor>, n: nat) {
    exists i: nat, j: nat | i < j < n :: IsSourcedAt(colors, i) && IsSourcedAt(colors, j)
  }

  function FirstSourced(colors: seq<SourceColor>, i: nat): (first: Option<ByteRange>)
    ensures first.None? ==> forall k: nat | k >= i :: !IsSourcedAt(colors, k)
    ensures first.Some? ==> exists k: nat | k >= i :: IsSourcedAt(colors, k) && colors[k].source == first
    decreases |colors| - i
  {
    if i >= |colors| then None
    else if IsSourcedAt(colors, i) then colors[i].source
    else FirstSourced(colors, i + 1)
  }

  /** Precedence of the outcomes: no process colour, one without a source, more than one, exactly one. */
  function ConvertBoundary(entry: InventoryEntry, action: Action): Result<MutationBoundary, SkipReason> {
    var n := |entry.colors|;
    if !AnyProcess(entry.colors, n) then Err(NonProcessColor)
    else if AnyUnsourced(entry.colors, n) then Err(MissingColorSource)
    else if TwoSourced(entry.colors, n) then Err(AmbiguousColorSource)
    else match FirstSourced(entry.colors, 0)
      case Some(range) => Ok(ContentStreamOperand(entry.provenance.page, entry.provenance.scope, range, action))
      case None => Err(MissingColorSource)
  }

  method ConvertColorBoundary(entry: InventoryEntry,
                              action: Action) returns (result: Result<MutationBoundary, SkipReason>)
    ensures result == ConvertBoundary(entry, action)
  {
    var hasProcessColor, missingSource, ambiguousSource := false, false, false;
    var source: Option<ByteRange> := None;
    ghost var first := 0;
    for i := 0 to |entry.colors|
      invariant hasProcessColor == AnyProcess(entry.colors, i)
      invariant missingSource == AnyUnsourced(entry.colors, i)
      invariant ambiguousSource == TwoSourced(entry.colors, i)
      invariant if source.None? then FirstSourced(entry.colors, 0) == FirstSourced(entry.colors, i)
                else source == FirstSourced(entry.colors, 0)
      invariant if source.None? then forall k: nat | k < i :: !IsSourcedAt(entry.colors, k)
                else first < i && IsSourcedAt(entry.colors, first)
    {
      var color := entry.colors[i];
      if IsProcessSpace(color.space) {
        assert IsProcessAt(entry.colors, i);
        hasProcessColor := true;
        match color.source {
          case Some(range) =>
            assert IsSourcedAt(entry.colors, i);
            if source.None? { source, first := Some(range), i; } else { ambiguousSource := true; }
          case None =>
            assert IsUnsourcedAt(entry.colors, i);
            missingSource := true;
        }
      }
    }
    if !hasProcessColor {
      return Err(NonProcessColor);
    } else if missingSource {
      return Err(MissingColorSource);
    } else if ambiguousSource {
      return Err(AmbiguousColorSource);
    } else {
      match source {
        case Some(range) =>
          return Ok(ContentStreamOperand(entry.provenance.page, entry.provenance.scope, range, action));
        case None =>
          return Err(MissingColorSource);
      }
    }
  }

  // ---- Planning a step -----------------------------------------------------

  datatype Verdict = NotMatched | Skip(reason: SkipReason) | Target(patch: Option<PlannedPatch>)

  /** What one entry contributes to a step. The capability check precedes per-action eligibility. */
  function VerdictOn(step: RecipeStep, required: EditCapability, entry: InventoryEntry): Verdict {
    if !step.select(entry) then NotMatched
    else if required !in entry.capabilities then Skip(UnsupportedCapability(required))
    else if !step.action.ConvertColor? then Target(None)
    else match ConvertBoundary(entry, step.action)
      case Err(reason) => Skip(reason)
      case Ok(boundary) => Target(Some(PlannedPatch(entry.id, required, boundary)))
  }

  function Targets(step: RecipeStep, required: EditCapability, entries: seq<InventoryEntry>): seq<ObjectId> {
    if entries == [] then []
    else
      var last := entries[|entries| - 1];
      Targets(step, required, entries[..|entries| - 1])
      + if VerdictOn(step, required, last).Target? then [last.id] else []
  }

  function Patches(step: RecipeStep, required: EditCapability, entries: seq<InventoryEntry>): seq<PlannedPatch> {
    if entries == [] then []
    else
      var before := Patches(step, required, entries[..|entries| - 1]);
      match VerdictOn(step, required, entries[|entries| - 1])
      case Target(Some(patch)) => before + [patch]
      case _ => before
  }

  function Skips(step: RecipeStep, required: EditCapability, entries: seq<InventoryEntry>): seq<SkippedTarget> {
    if entries == [] then []
    else
      var before, last := Skips(step, required, entries[..|entries| - 1]), entries[|entries| - 1];
      match VerdictOn(step, required, last)
      case Skip(reason) => before + [SkippedTarget(last.id, reason)]
      case _ => before
  }

  function StepPlan(step: RecipeStep, entries: seq<InventoryEntry>): ActionPlan {
    match step.action.RequiredCapability()
    case None => ActionPlan(step.action, [], [], [])
    case Some(required) =>
      ActionPlan(step.action, Targets(step, required, entries), Patches(step, required, entries),
                 Skips(step, required, entries))
  }

  method PlanPatchForAction(action: Action, entry: InventoryEntry, required: EditCapability)
    returns (result: Result<Option<PlannedPatch>, SkipReason>)
    ensures result == if !action.ConvertColor? then Ok(None)
                      else match ConvertBoundary(entry, action)
                        case Err(reason) => Err(reason)
                        case Ok(boundary) => Ok(Some(PlannedPatch(entry.id, required, boundary)))
  {
    if !action.ConvertColor? {
      return Ok(None);
    }
    var converted := ConvertColorBoundary(entry, action);
    var boundary :- converted;
    return Ok(Some(PlannedPatch(entry.id, required, boundary)));
  }

  method PlanStep(step: RecipeStep, entries: seq<InventoryEntry>) returns (plan: ActionPlan)
    ensures plan == StepPlan(step, entries)
  {
    if step.action.RequiredCapability().None? {
      return ActionPlan(step.action, [], [], []);
    }
    var required := step.action.RequiredCapability().value;
    var targets: seq<ObjectId>, patches: seq<PlannedPatch>, skipped: seq<SkippedTarget> := [], [], [];
    for i := 0 to |entries|
      invariant targets == Targets(step, required, entries[..i])
      invariant patches == Patches(step, required, entries[..i])
      invariant skipped == Skips(step, required, entries[..i])
    {
      hide ConvertBoundary;
      var entry := entries[i];
      assert entries[..i + 1][..i] == entries[..i];
      if !step.select(entry) {
        continue;
      }
      if required !in entry.capabilities {
        skipped := skipped + [SkippedTarget(entry.id, UnsupportedCapability(required))];
        continue;
      }
      var planned := PlanPatchForAction(step.action, entry, required);
      match planned {
        case Err(reason) =>
          skipped := skipped + [SkippedTarget(entry.id, reason)];
        case Ok(patch) =>
          targets := targets + [entry.id];
          if patch.Some? {
            patches := patches + [patch.value];
          }
      }
    }
    assert entries[..|entries|] == entries;
    return ActionPlan(step.action, targets, patches, skipped);
  }

  function PlanRecipe(steps: seq<RecipeStep>, entries: seq<InventoryEntry>): seq<ActionPlan> {
    seq(|steps|, i requires 0 <= i < |steps| => StepPlan(steps[i], entries))
  }
}
