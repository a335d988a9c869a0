/** Page-object inventory over a walked stream, and who may rewrite which colour operand (inventory.rs). */
module Inventories {
  import opened Basics
  import opened PaintTypes
  import opened DigestEncoding
  import opened StableDigests
  import opened Operands
  import opened Walker
  import opened SharedWalker
  import opened SharedIterators

  datatype ObjectId = ObjectId(page: nat, sequence: nat, digest: Bytes)

  datatype Provenance = Provenance(page: nat, scope: ContentScope, range: Option<ByteRange>,
                                   invocation: Option<InvocationPath>)

  type SourceColor = ColorObservation<real>

  datatype InventoryEntry = InventoryEntry(
    id: ObjectId, kind: ObjectKind, provenance: Provenance, colors: seq<SourceColor>, capabilities: seq<EditCapability>)

  /** What every builder is told about the stream; `bits` is `f64::to_bits` for the digest. */
  datatype Context = Context(
    page: nat, scope: ContentScope, imageNames: seq<Bytes>, formNames: seq<Bytes>, bits: real -> nat)

  // ---- Observations and digests --------------------------------------------

  function Observe(color: GraphicsColor, usage: ColorUsage): SourceColor {
    ColorObservation(usage, color.space, color.components, color.spotName, color.spotNames, color.source)
  }

  /** Stroke first, then fill. */
  function Observations(strokes: bool, fills: bool, state: Snapshot): seq<SourceColor> {
    (if strokes then [Observe(state.strokingColor, Stroke)] else [])
    + if fills then [Observe(state.nonstrokingColor, Fill)] else []
  }

  const IMAGE_COLOR: SourceColor := ColorObservation(Image, UnknownSpace, [], None, [], None)

  function Hashed(bits: real -> nat, color: SourceColor): Observation {
    ColorObservation(color.usage, color.space,
                     seq(|color.components|, i requires 0 <= i < |color.components| => bits(color.components[i])),
                     color.spotName, color.spotNames, color.source)
  }

  function HashedColors(bits: real -> nat, colors: seq<SourceColor>): seq<Observation> {
    seq(|colors|, i requires 0 <= i < |colors| => Hashed(bits, colors[i]))
  }

  function HashedFont(bits: real -> nat, font: FontSelectionState<real>): FontSelection {
    match font
    case Unset => Unset
    case Selected(name, size) => Selected(name, bits(size))
    case ResolvedIndirect(number, generation, offset, size) => ResolvedIndirect(number, generation, offset, bits(size))
    case Indeterminate => Indeterminate
  }

  function HeaderOf(page: nat, sequence: nat, scope: ContentScope, path: InvocationPath, event: PaintOp): EventHeader {
    EventHeader(page, sequence, scope, path, event.index, event.recordRange, event.operatorRange)
  }

  /** What the digest of an entry absorbs; `None` when kind and event do not belong together. */
  function InputOf(bits: real -> nat, header: EventHeader, kind: ObjectKind, event: PaintOp,
                   colors: seq<SourceColor>): Option<DigestInput> {
    match (kind, event.kind)
    case (Vector, PathPaint(paint)) => Some(VectorInput(header, paint, HashedColors(bits, colors)))
    case (Text, TextShow(operator, mode)) =>
      Some(TextInput(header, operator, mode, HashedFont(bits, event.state.fontSelection), HashedColors(bits, colors)))
    case (ImageObject, XObjectInvoke(name)) => Some(ImageInput(header, name, HashedColors(bits, colors)))
    case (FormObject, XObjectInvoke(name)) => Some(FormInput(header, name))
    case _ => None
  }

  function DigestOf(input: Option<DigestInput>, otherwise: Bytes): Bytes {
    if input.Some? then ObjectDigest(input.value) else otherwise
  }

  // ---- One entry per event -------------------------------------------------

  function EntryOf(ctx: Context, event: PaintOp, sequence: nat, kind: ObjectKind, colors: seq<SourceColor>,
                   capabilities: seq<EditCapability>): InventoryEntry {
    var input := InputOf(ctx.bits, HeaderOf(ctx.page, sequence, ctx.scope, [], event), kind, event, colors);
    InventoryEntry(ObjectId(ctx.page, sequence, DigestOf(input, [])), kind,
                   Provenance(ctx.page, ctx.scope, Some(event.recordRange), None), colors, capabilities)
  }

  function VectorEntry(ctx: Context, event: PaintOp, sequence: nat): Option<InventoryEntry> {
    if !event.kind.PathPaint? then None
    else
      var colors := Observations(event.kind.paint.UsesStroke(), event.kind.paint.UsesFill(), event.state);
      if colors == [] then None
      else Some(EntryOf(ctx, event, sequence, Vector, colors, [RewriteColorOperand]))
  }

  function TextEntry(ctx: Context, event: PaintOp, sequence: nat): Option<InventoryEntry> {
    if !event.kind.TextShow? then None
    else
      var mode := event.kind.renderingMode;
      var colors := Observations(mode.UsesStroke(), mode.UsesFill(), event.state);
      Some(EntryOf(ctx, event, sequence, Text, colors,
                   if colors == [] then [] else [RewriteColorOperand, AddTextSpreadStroke]))
  }

  function ImageEntry(ctx: Context, event: PaintOp, sequence: nat): Option<InventoryEntry> {
    if event.kind.XObjectInvoke? && event.kind.name in ctx.imageNames
    then Some(EntryOf(ctx, event, sequence, ImageObject, [IMAGE_COLOR], [ReadOnly]))
    else None
  }

  function FormEntry(ctx: Context, event: PaintOp, sequence: nat): Option<InventoryEntry> {
    if event.kind.XObjectInvoke? && event.kind.name in ctx.formNames
    then Some(EntryOf(ctx, event, sequence, FormObject, [], [ReadOnly]))
    else None
  }

  function OrElse(first: Option<InventoryEntry>, second: Option<InventoryEntry>): Option<InventoryEntry> {
    if first.Some? then first else second
  }

  /** Fixed dispatch order; image classification precedes form classification. */
  function CombinedEntry(ctx: Context, event: PaintOp, sequence: nat): Option<InventoryEntry> {
    OrElse(VectorEntry(ctx, event, sequence),
           OrElse(TextEntry(ctx, event, sequence),
                  OrElse(ImageEntry(ctx, event, sequence), FormEntry(ctx, event, sequence))))
  }

  // ---- Withholding inherited colours ---------------------------------------

  /** The observation's colour was carried in by the seed: it has a source and is still the seed's colour. */
  predicate Inherited(color: SourceColor, event: PaintOp, seed: Snapshot) {
    color.source.Some? &&
    match color.usage
    case Stroke => event.state.strokingColor == seed.strokingColor
    case Fill => event.state.nonstrokingColor == seed.nonstrokingColor
    case _ => false
  }

  predicate AnyInherited(colors: seq<SourceColor>, event: PaintOp, seed: Snapshot) {
    exists i | 0 <= i < |colors| :: Inherited(colors[i], event, seed)
  }

  function WithoutRewrite(capabilities: seq<EditCapability>): (kept: seq<EditCapability>)
    ensures forall c :: c in kept <==> c in capabilities && c != RewriteColorOperand
  {
    if capabilities == [] then []
    else (if capabilities[0] == RewriteColorOperand then [] else [capabilities[0]]) + WithoutRewrite(capabilities[1..])
  }

  function WithholdInherited(entry: InventoryEntry, event: PaintOp, seed: Snapshot): InventoryEntry {
    if (entry.kind == Vector || entry.kind == Text) && AnyInherited(entry.colors, event, seed)
    then entry.(capabilities := WithoutRewrite(entry.capabilities))
    else entry
  }

  // ---- Collecting ----------------------------------------------------------

  type Classifier = (PaintOp, nat) -> Option<InventoryEntry>

  /** Entries of the events in order; each is told how many were emitted before it. */
  function Gather(events: seq<PaintOp>, classify: Classifier): seq<InventoryEntry> {
    if events == [] then []
    else
      var before := Gather(events[..|events| - 1], classify);
      var entry := classify(events[|events| - 1], SaturateU32(|before|));
      if entry.Some? then before + [entry.value] else before
  }

  method CollectEntries(events: seq<PaintOp>, classify: Classifier) returns (entries: seq<InventoryEntry>)
    ensures entries == Gather(events, classify)
  {
    entries := [];
    for i := 0 to |events|
      invariant entries == Gather(events[..i], classify)
    {
      assert events[..i + 1][..i] == events[..i];
      var entry := classify(events[i], SaturateU32(|entries|));
      if entry.Some? {
        entries := entries + [entry.value];
      }
    }
    assert events[..|events|] == events;
  }

  /** Entries of a stream: nothing is returned when the stream ends in an error. */
  function GatherStream(items: seq<Item>, classify: Classifier): Fallible<seq<InventoryEntry>> {
    var events :- Collected(items);
    Ok(Gather(events, classify))
  }

  /**
   * Classifies each op as it streams past and drops it; agrees with materialising the events first. The walk
   * is started by the caller and consumed here, and nothing held elsewhere changes what it shows.
   */
  method CollectEntriesFromOps(ops: PaintOps, classify: Classifier, ledger: Ledger, ghost outside: Handles)
    returns (result: Fallible<seq<InventoryEntry>>)
    requires Coherent([ops], outside, ledger)
    modifies ops, ops.walker, ledger, ops.walker.Cells()
    ensures result == GatherStream(old(ops.Remaining()), classify)
    ensures Coherent([], outside, ledger) && forall c | c in outside :: c.value == old(c.value)
  {
    hide Gather, Collected, Coherent, Continues, Items, PaintOps.Remaining, Emitted;
    ghost var goal := Collected(ops.Remaining());
    var entries: seq<InventoryEntry> := [];
    ghost var events: seq<PaintOp> := [];
    ContinuesStart(ops.Remaining());
    NothingGathered(classify);
    while true
      invariant Coherent([ops], outside, ledger)
      invariant forall c | c in ops.walker.Cells() :: c in old(ops.walker.Cells()) || fresh(c)
      invariant forall c | c in outside :: c.value == old(c.value)
      invariant entries == Gather(events, classify)
      invariant Continues(goal, events, ops.Remaining())
      decreases |ops.Remaining()|
    {
      ContinuesOver(goal, events, ops.Remaining());
      var item := AdvanceAlone(ops, ledger, outside);
      if item.None? {
        result := Ok(entries);
        break;
      }
      if item.value.Err? {
        result := Err(item.value.error);
        break;
      }
      var event := item.value.value;
      var entry := classify(Observed(event), SaturateU32(|entries|));
      OneMoreEvent(events, Observed(event), classify);
      events := events + [Observed(event)];
      if entry.Some? {
        entries := entries + [entry.value];
      }
      assert outside + multiset{event.state} - multiset{event.state} == outside;
      Discard([ops], event.state, ledger, outside + multiset{event.state});
    }
    assert [ops][..0] == [];
    Close([ops], ledger, outside);
  }

  lemma NothingGathered(classify: Classifier)
    ensures Gather([], classify) == []
  {
  }

  lemma OneMoreEvent(events: seq<PaintOp>, event: PaintOp, classify: Classifier)
    ensures
      var before := Gather(events, classify);
      var entry := classify(event, SaturateU32(|before|));
      Gather(events + [event], classify) == if entry.Some? then before + [entry.value] else before
  {
    assert (events + [event])[..|events|] == events;
  }

  /** The seeded classifier: combined dispatch, then withholding against the seed. */
  function SeededClassifier(ctx: Context, seed: Snapshot): Classifier {
    (event: PaintOp, sequence: nat) =>
      match CombinedEntry(ctx, event, sequence)
      case Some(entry) => Some(WithholdInherited(entry, event, seed))
      case None => None
  }

  function CombinedClassifier(ctx: Context): Classifier {
    (event: PaintOp, sequence: nat) => CombinedEntry(ctx, event, sequence)
  }

  /** The inventory of one stream walked from a seed. */
  function Inventory(program: PaintProgram, seed: Snapshot, ctx: Context): Fallible<seq<InventoryEntry>> {
    GatherStream(ItemsFrom(program, seed), SeededClassifier(ctx, seed))
  }

  /**
   * The seeded builder: a walk from the caller's snapshot, classified against the same snapshot. The caller's
   * snapshot keeps its value, and every handle taken on the way is given back.
   */
  method BuildInventory(program: PaintProgram, seed: SnapshotCell, ctx: Context, ledger: Ledger)
    returns (result: Fallible<seq<InventoryEntry>>)
    requires ledger.Balanced() && seed in ledger.handles
    modifies ledger, seed
    ensures result == Inventory(program, old(seed.value), ctx)
    ensures seed.value == old(seed.value) && ledger.Balanced() && ledger.handles == old(ledger.handles)
  {
    hide GatherStream, SeededClassifier, ItemsFrom, Items;
    ghost var outside := ledger.handles;
    var capabilitySeed := seed.value;
    NoIterators(ledger, outside);
    var ops := Open([], program, seed, ledger, outside);
    assert [] + [ops] == [ops];
    result := CollectEntriesFromOps(ops, SeededClassifier(ctx, capabilitySeed), ledger, outside);
  }

  // ---- Form-expanded identities --------------------------------------------

  /** What the digest of one paint instance of a classified entry absorbs. */
  function ExpandedInput(bits: real -> nat, template: InventoryEntry, sequence: nat, path: InvocationPath,
                         event: PaintOp): Option<DigestInput> {
    var header := HeaderOf(template.id.page, sequence, template.provenance.scope, path, event);
    InputOf(bits, header, template.kind, event, template.colors)
  }

  /** Final identity of an entry painted through `path`: sequence and path enter the digest once. */
  function ExpandedEntryIdentity(bits: real -> nat, template: InventoryEntry, sequence: nat, path: InvocationPath,
                                 event: PaintOp): InventoryEntry {
    var input := ExpandedInput(bits, template, sequence, path, event);
    template.(id := ObjectId(template.id.page, sequence, DigestOf(input, template.id.digest)),
              provenance := template.provenance.(invocation := if path == [] then None else Some(path)))
  }
}
