/** What holds of every inventory, from every seed. */
module InventoryProperties {
  import opened Basics
  import opened PaintTypes
  import opened DigestEncoding
  import opened StableDigests
  import opened Operands
  import opened Walker
  import opened WalkerHistory
  import opened SaveNesting
  import opened PaintStream
  import opened Inventories

  // ---- Where a colour's source range comes from ----------------------------

  function SideOf(usage: ColorUsage): Side { if usage.Stroke? then Stroking else Nonstroking }

  /** Of the listed records, the one at position `i` is the last colour operator for `side`. */
  ghost predicate Governs(p: PaintProgram, indices: seq<nat>, side: Side, i: nat)
    requires forall k | 0 <= k < |indices| :: indices[k] < |p.records|
  {
    i < |indices| && SetsComponents(p, indices[i], side)
    && forall k | i < k < |indices| :: !SetsComponents(p, indices[k], side)
  }

  /**
   * `range` is the record range of a colour operator for `side` that this walk performed before record `n`,
   * that no `Q` had undone there, and that no later colour operator for that side had replaced.
   */
  ghost predicate LocalColorRecord(p: PaintProgram, n: nat, side: Side, range: ByteRange)
    requires n <= |p.records|
  {
    var indices := InForce(Moves(p), n);
    exists i: nat :: Governs(p, indices, side, i) && p.records[indices[i]].range == range
  }

  lemma OwnColorSource(p: PaintProgram, i: nat)
    requires i < |p.records| && OwnColor(p, i).Some?
    ensures OwnColor(p, i).value.source == Some(p.records[i].range)
  {
    hide InstructionAt, Opcode, NumericOperands, NameOperand, ColorOperandsFrom;
  }

  /** Either a colour operator in the list decided the components, or nothing in it touched the side. */
  lemma {:induction false} DecidedOrSeed(p: PaintProgram, seed: GraphicsColor, side: Side, indices: seq<nat>,
                                         field: Field)
    requires forall i | 0 <= i < |indices| :: indices[i] < |p.records|
    ensures var source := LastDeciding(p, seed, side, ComponentsField, indices).source;
      (exists i: nat :: Governs(p, indices, side, i) && source == Some(p.records[indices[i]].range))
      || LastDeciding(p, seed, side, field, indices) == seed
    decreases |indices|
  {
    hide OwnColor, InstructionAt;
    if indices != [] {
      var n := |indices| - 1;
      if SetsComponents(p, indices[n], side) {
        OwnColorSource(p, indices[n]);
        assert Governs(p, indices, side, n);
      } else {
        DecidedOrSeed(p, seed, side, indices[..n], field);
        var source := LastDeciding(p, seed, side, ComponentsField, indices).source;
        if i: nat :| Governs(p, indices[..n], side, i) && source == Some(p.records[indices[..n][i]].range) {
          assert Governs(p, indices, side, i);
        }
      }
    }
  }

  /**
   * At every point a side's colour is the seed's, or its source is the local colour record that governs the
   * side there.
   */
  lemma ColorIsSeedOrLocal(p: PaintProgram, seed: Snapshot, n: nat, side: Side)
    requires n <= |p.records| && Run(p, seed, n).Ok?
    ensures var color := SideColor(Run(p, seed, n).value.state, side);
      color == SideColor(seed, side) || (color.source.Some? && LocalColorRecord(p, n, side, color.source.value))
  {
    hide Run, LastDeciding, InForce, Governs;
    EffectiveColor(p, seed, n, side);
    DecidedOrSeed(p, SideColor(seed, side), side, InForce(Moves(p), n), SpaceField);
    DecidedOrSeed(p, SideColor(seed, side), side, InForce(Moves(p), n), ComponentsField);
    DecidedOrSeed(p, SideColor(seed, side), side, InForce(Moves(p), n), ResourceNameField);
  }

  // ---- Events behind entries -----------------------------------------------

  /** The event was emitted by this walk. */
  ghost predicate Emitted(p: PaintProgram, seed: Snapshot, event: PaintOp) {
    exists i | 0 <= i < |ItemsFrom(p, seed)| :: ItemsFrom(p, seed)[i] == Ok(event)
  }

  lemma {:induction false} CollectedItems(items: seq<Item>)
    requires Collected(items).Ok?
    ensures |Collected(items).value| == |items|
    ensures forall i | 0 <= i < |items| :: items[i] == Ok(Collected(items).value[i])
    decreases |items|
  {
    if items != [] {
      CollectedItems(items[1..]);
      forall i | 0 <= i < |items| ensures items[i] == Ok(Collected(items).value[i]) {
        assert i > 0 ==> items[i] == items[1..][i - 1];
      }
    }
  }

  /** Every gathered entry was classified from one of the events, with the count so far as its sequence. */
  lemma {:induction false} GatherOrigin(events: seq<PaintOp>, classify: Classifier, k: nat)
    requires k < |Gather(events, classify)|
    ensures exists i | 0 <= i < |events| :: classify(events[i], SaturateU32(k)) == Some(Gather(events, classify)[k])
    decreases |events|
  {
    var shorter := events[..|events| - 1];
    var before := Gather(shorter, classify);
    if k < |before| {
      GatherOrigin(shorter, classify, k);
      var i :| 0 <= i < |shorter| && classify(shorter[i], SaturateU32(k)) == Some(before[k]);
      assert events[i] == shorter[i];
    } else {
      assert classify(events[|events| - 1], SaturateU32(k)) == Some(Gather(events, classify)[k]);
    }
  }

  /** Sequences count the entries from zero, without gaps, as far as 32 bits reach. */
  lemma SequencesAreConsecutive(p: PaintProgram, seed: Snapshot, ctx: Context, k: nat)
    requires Inventory(p, seed, ctx).Ok? && k < |Inventory(p, seed, ctx).value|
    ensures Inventory(p, seed, ctx).value[k].id.sequence == SaturateU32(k)
  {
    hide ItemsFrom;
    GatherOrigin(Collected(ItemsFrom(p, seed)).value, SeededClassifier(ctx, seed), k);
  }

  lemma EntryOrigin(p: PaintProgram, seed: Snapshot, ctx: Context, k: nat) returns (event: PaintOp)
    requires Inventory(p, seed, ctx).Ok? && k < |Inventory(p, seed, ctx).value|
    ensures Emitted(p, seed, event)
    ensures SeededClassifier(ctx, seed)(event, SaturateU32(k)) == Some(Inventory(p, seed, ctx).value[k])
  {
    hide ItemsFrom;
    var items := ItemsFrom(p, seed);
    var events := Collected(items).value;
    GatherOrigin(events, SeededClassifier(ctx, seed), k);
    CollectedItems(items);
    var i :| 0 <= i < |events|
      && SeededClassifier(ctx, seed)(events[i], SaturateU32(k)) == Some(Inventory(p, seed, ctx).value[k]);
    event := events[i];
    assert items[i] == Ok(event);
  }

  lemma EmittedState(p: PaintProgram, seed: Snapshot, event: PaintOp) returns (n: nat)
    requires Emitted(p, seed, event)
    ensures 0 < n <= |p.records| && Run(p, seed, n).Ok? && event.state == Run(p, seed, n).value.state
    ensures event.recordRange == p.records[n - 1].range
  {
    hide Items, Run, Step;
    var i :| 0 <= i < |ItemsFrom(p, seed)| && ItemsFrom(p, seed)[i] == Ok(event);
    ItemsFollowRun(p, seed, i);
    StepKeepsRange(p, i, Run(p, seed, i).value);
    n := i + 1;
  }

  lemma StepKeepsRange(p: PaintProgram, i: nat, w: WalkerState)
    requires i < |p.records|
    ensures var step := Step(p.env, p.source, i, p.records[i], w);
      step.Ok? ==> step.value.0.recordRange == p.records[i].range
  {
    hide EventKind, OperatorBytes;
  }

  // ---- Capability soundness ------------------------------------------------

  /** The colour was set by an operator, and on the side it is used the state shows just what the seed did. */
  ghost predicate CarriedIn(color: SourceColor, event: PaintOp, seed: Snapshot) {
    color.source.Some? && SideColor(event.state, SideOf(color.usage)) == SideColor(seed, SideOf(color.usage))
  }

  /**
   * When an event's entry keeps the rewrite capability, exactly: it paints with some colour, and each colour
   * it observes is unsourced or no longer the seed's colour of that side.
   */
  lemma RewriteKeptExactly(ctx: Context, seed: Snapshot, event: PaintOp, sequence: nat)
    requires CombinedEntry(ctx, event, sequence).Some?
    ensures SeededClassifier(ctx, seed)(event, sequence).Some?
    ensures var entry := SeededClassifier(ctx, seed)(event, sequence).value;
      entry == CombinedEntry(ctx, event, sequence).value.(capabilities := entry.capabilities)
      && (RewriteColorOperand in entry.capabilities
          <==> (entry.kind == Vector || entry.kind == Text) && entry.colors != []
               && forall i | 0 <= i < |entry.colors| :: !CarriedIn(entry.colors[i], event, seed))
      && forall c | c != RewriteColorOperand ::
           c in entry.capabilities <==> c in CombinedEntry(ctx, event, sequence).value.capabilities
  {
    hide InputOf, DigestOf;
    var entry := SeededClassifier(ctx, seed)(event, sequence).value;
    if entry.kind == Vector || entry.kind == Text {
      forall i: nat | i < |entry.colors|
        ensures Inherited(entry.colors[i], event, seed) <==> CarriedIn(entry.colors[i], event, seed)
      {
        ObservedColor(ctx, seed, event, sequence, i);
      }
      assert AnyInherited(entry.colors, event, seed)
        <==> exists i | 0 <= i < |entry.colors| :: CarriedIn(entry.colors[i], event, seed);
    }
  }

  /** The entry paints at record `n - 1` of the stream. */
  ghost predicate PaintsAt(p: PaintProgram, entry: InventoryEntry, n: nat) {
    0 < n <= |p.records| && entry.provenance.range == Some(p.records[n - 1].range)
  }

  /**
   * Provenance soundness: from any seed whatever, a sourced colour of an entry that keeps the rewrite
   * capability points at a record of the walked stream, and that record is the colour operator governing
   * the very side the colour was used on at the record where the entry paints. A range brought in from a
   * calling stream never qualifies.
   */
  lemma KeptRewriteIsLocal(p: PaintProgram, seed: Snapshot, ctx: Context, k: nat, c: nat) returns (n: nat)
    requires Inventory(p, seed, ctx).Ok? && k < |Inventory(p, seed, ctx).value|
    requires c < |Inventory(p, seed, ctx).value[k].colors|
    requires RewriteColorOperand in Inventory(p, seed, ctx).value[k].capabilities
    ensures PaintsAt(p, Inventory(p, seed, ctx).value[k], n)
    ensures var color := Inventory(p, seed, ctx).value[k].colors[c];
      (color.usage.Stroke? || color.usage.Fill?)
      && (color.source.Some? ==> LocalColorRecord(p, n, SideOf(color.usage), color.source.value))
  {
    hide ItemsFrom, LocalColorRecord, Run, Emitted, GatherStream, InputOf, ObjectDigest;
    var entry := Inventory(p, seed, ctx).value[k];
    var event := EntryOrigin(p, seed, ctx, k);
    RewriteKeptExactly(ctx, seed, event, SaturateU32(k));
    n := EmittedState(p, seed, event);
    var color := entry.colors[c];
    ObservedColor(ctx, seed, event, SaturateU32(k), c);
    ColorIsSeedOrLocal(p, seed, n, SideOf(color.usage));
    assert !Inherited(color, event, seed);
  }

  /** Colours of painting entries are observations of the event's own state. */
  lemma ObservedColor(ctx: Context, seed: Snapshot, event: PaintOp, sequence: nat, c: nat)
    requires SeededClassifier(ctx, seed)(event, sequence).Some?
    requires var entry := SeededClassifier(ctx, seed)(event, sequence).value;
      (entry.kind == Vector || entry.kind == Text) && c < |entry.colors|
    ensures var color := SeededClassifier(ctx, seed)(event, sequence).value.colors[c];
      (color.usage.Stroke? || color.usage.Fill?)
      && color == Observe(SideColor(event.state, SideOf(color.usage)), color.usage)
  {
    hide InputOf, DigestOf, AnyInherited, WithoutRewrite;
  }

  /**
   * What the governing record says about a side's colour: that record is its source, so the colour is not the
   * seed's unless the seed's colour names the same range.
   */
  lemma GoverningRecordIsSource(p: PaintProgram, seed: Snapshot, n: nat, side: Side, range: ByteRange)
    requires n <= |p.records| && Run(p, seed, n).Ok? && LocalColorRecord(p, n, side, range)
    ensures SideColor(Run(p, seed, n).value.state, side).source == Some(range)
  {
    hide Run, InForce, OwnColor;
    EffectiveColor(p, seed, n, side);
    var indices := InForce(Moves(p), n);
    var i: nat :| Governs(p, indices, side, i) && p.records[indices[i]].range == range;
    GoverningDecides(p, SideColor(seed, side), side, indices, i);
    OwnColorSource(p, indices[i]);
  }

  lemma {:induction false} GoverningDecides(p: PaintProgram, seed: GraphicsColor, side: Side, indices: seq<nat>,
                                            i: nat)
    requires forall k | 0 <= k < |indices| :: indices[k] < |p.records|
    requires Governs(p, indices, side, i)
    ensures LastDeciding(p, seed, side, ComponentsField, indices) == OwnColor(p, indices[i]).value
    decreases |indices|
  {
    hide OwnColor, InstructionAt;
    if i < |indices| - 1 {
      assert Governs(p, indices[..|indices| - 1], side, i);
      GoverningDecides(p, seed, side, indices[..|indices| - 1], i);
    }
  }

  /** On this side a local colour operator governs whose range or colour is not the seed's. */
  ghost predicate RegainedOn(p: PaintProgram, seed: Snapshot, n: nat, side: Side)
    requires n <= |p.records| && Run(p, seed, n).Ok?
  {
    exists range ::
      LocalColorRecord(p, n, side, range)
      && (SideColor(seed, side).source != Some(range)
          || SideColor(Run(p, seed, n).value.state, side) != SideColor(seed, side))
  }

  /**
   * A local colour operator regains the capability: a painting event of the walk, on each of whose observed
   * sides such an operator governs, keeps it, whatever colours the seed brought in.
   */
  lemma LocalColorsRegainRewrite(p: PaintProgram, seed: Snapshot, ctx: Context, i: nat, sequence: nat)
    requires i < |ItemsFrom(p, seed)| && ItemsFrom(p, seed)[i].Ok? && i < |p.records| && Run(p, seed, i + 1).Ok?
    requires var entry := CombinedEntry(ctx, ItemsFrom(p, seed)[i].value, sequence);
      entry.Some? && (entry.value.kind == Vector || entry.value.kind == Text) && entry.value.colors != []
      && forall c | c in entry.value.colors :: RegainedOn(p, seed, i + 1, SideOf(c.usage))
    ensures SeededClassifier(ctx, seed)(ItemsFrom(p, seed)[i].value, sequence).Some?
    ensures RewriteColorOperand
      in SeededClassifier(ctx, seed)(ItemsFrom(p, seed)[i].value, sequence).value.capabilities
  {
    hide ItemsFrom, Run, LocalColorRecord, InputOf, DigestOf, SeededClassifier, CombinedEntry;
    var event := ItemsFrom(p, seed)[i].value;
    ItemsFollowRun(p, seed, i);
    RewriteKeptExactly(ctx, seed, event, sequence);
    var colors := CombinedEntry(ctx, event, sequence).value.colors;
    forall k: nat | k < |colors| ensures !CarriedIn(colors[k], event, seed) {
      var side := SideOf(colors[k].usage);
      assert colors[k] in colors && RegainedOn(p, seed, i + 1, side);
      var range :| LocalColorRecord(p, i + 1, side, range)
        && (SideColor(seed, side).source != Some(range)
            || SideColor(Run(p, seed, i + 1).value.state, side) != SideColor(seed, side));
      GoverningRecordIsSource(p, seed, i + 1, side, range);
    }
  }

  // ---- What an entry says about its event ----------------------------------

  /** The observation is of this colour, used so. */
  ghost predicate Observes(observed: SourceColor, usage: ColorUsage, color: GraphicsColor) {
    observed.usage == usage && observed.space == color.space && observed.components == color.components
    && observed.spotName == color.spotName && observed.spotNames == color.spotNames && observed.source == color.source
  }

  /** The sides used, stroking first, each at its colour in the event's state. */
  ghost predicate ObservesSides(colors: seq<SourceColor>, strokes: bool, fills: bool, state: Snapshot) {
    |colors| == (if strokes then 1 else 0) + (if fills then 1 else 0)
    && (strokes ==> Observes(colors[0], Stroke, state.strokingColor))
    && (fills ==> Observes(colors[|colors| - 1], Fill, state.nonstrokingColor))
  }

  /** The entry belongs to the walk it was made in and to the event it was made from. */
  ghost predicate LocatedAt(entry: InventoryEntry, ctx: Context, event: PaintOp, sequence: nat) {
    entry.id.page == ctx.page && entry.id.sequence == sequence && entry.provenance.page == ctx.page
    && entry.provenance.scope == ctx.scope && entry.provenance.range == Some(event.recordRange)
    && entry.provenance.invocation == None
  }

  /**
   * The entry of each kind of event: painting observes the colours its kind uses and may have them rewritten;
   * shown text is always listed, with spread strokes where it uses a colour; an invoked image or form is read
   * only; nothing else has an entry.
   */
  lemma EntryMeans(ctx: Context, event: PaintOp, sequence: nat)
    ensures var entry := CombinedEntry(ctx, event, sequence);
      (entry.Some? ==> LocatedAt(entry.value, ctx, event, sequence))
      && match event.kind
         case PathPaint(paint) =>
           (entry.Some? <==> paint.UsesStroke() || paint.UsesFill())
           && (entry.Some? ==>
                 entry.value.kind == Vector && entry.value.capabilities == [RewriteColorOperand]
                 && ObservesSides(entry.value.colors, paint.UsesStroke(), paint.UsesFill(), event.state))
         case TextShow(_, mode) =>
           entry.Some? && entry.value.kind == Text
           && ObservesSides(entry.value.colors, mode.UsesStroke(), mode.UsesFill(), event.state)
           && entry.value.capabilities
              == if mode.UsesStroke() || mode.UsesFill() then [RewriteColorOperand, AddTextSpreadStroke] else []
         case XObjectInvoke(name) =>
           (entry.Some? <==> name in ctx.imageNames || name in ctx.formNames)
           && (entry.Some? ==>
                 entry.value.capabilities == [ReadOnly]
                 && entry.value.kind == (if name in ctx.imageNames then ImageObject else FormObject)
                 && if name in ctx.imageNames
                    then |entry.value.colors| == 1 && Unobserved(entry.value.colors[0])
                    else entry.value.colors == [])
         case _ => entry.None?
  {
    hide InputOf, DigestOf;
  }

  /** An image's colour is not looked into. */
  ghost predicate Unobserved(color: SourceColor) {
    color.usage.Image? && color.space.UnknownSpace? && color.components == [] && color.source.None?
    && color.spotName.None? && color.spotNames == []
  }

  /** The components' bit patterns stand for the colour in the digest, and nothing else changes. */
  ghost predicate Stands(bits: real -> nat, hashed: Observation, color: SourceColor) {
    |hashed.components| == |color.components|
    && (forall i | 0 <= i < |color.components| :: hashed.components[i] == bits(color.components[i]))
    && hashed.usage == color.usage && hashed.space == color.space && hashed.spotName == color.spotName
    && hashed.source == color.source
  }

  ghost predicate StandForAll(bits: real -> nat, hashed: seq<Observation>, colors: seq<SourceColor>) {
    |hashed| == |colors| && forall i | 0 <= i < |colors| :: Stands(bits, hashed[i], colors[i])
  }

  /** What identifies an entry: where its event lies, what it did, and with which colours and font. */
  ghost predicate Identifies(input: DigestInput, entry: InventoryEntry, ctx: Context, event: PaintOp, sequence: nat) {
    input.header.page == ctx.page && input.header.sequence == sequence && input.header.scope == ctx.scope
    && input.header.path == [] && input.header.index == event.index && input.header.recordRange == event.recordRange
    && input.header.operatorRange == event.operatorRange
    && match event.kind
       case PathPaint(paint) =>
         input.VectorInput? && input.paint == paint && StandForAll(ctx.bits, input.colors, entry.colors)
       case TextShow(operator, mode) =>
         input.TextInput? && input.operator == operator && input.mode == mode
         && StandForAll(ctx.bits, input.colors, entry.colors)
         && SameFont(ctx.bits, input.font, event.state.fontSelection)
       case XObjectInvoke(name) =>
         if entry.kind == ImageObject
         then input.ImageInput? && input.name == name && StandForAll(ctx.bits, input.colors, entry.colors)
         else input.FormInput? && input.name == name
       case _ => false
  }

  ghost predicate SameFont(bits: real -> nat, hashed: FontSelection, font: FontSelectionState<real>) {
    match font
    case Unset => hashed == Unset
    case Indeterminate => hashed == Indeterminate
    case Selected(name, size) => hashed == Selected(name, bits(size))
    case ResolvedIndirect(number, generation, offset, size) =>
      hashed.ResolvedIndirect? && hashed.objectNumber == number && hashed.generation == generation
      && hashed.objectByteOffset == offset && hashed.resolvedSize == bits(size)
  }

  /** The digest of an entry is that of exactly its event. */
  lemma EntryIsIdentified(ctx: Context, event: PaintOp, sequence: nat) returns (input: DigestInput)
    requires CombinedEntry(ctx, event, sequence).Some?
    ensures var entry := CombinedEntry(ctx, event, sequence).value;
      Identifies(input, entry, ctx, event, sequence) && entry.id.digest == ObjectDigest(input)
  {
    hide ObjectDigest;
    var entry := CombinedEntry(ctx, event, sequence).value;
    var header := HeaderOf(ctx.page, sequence, ctx.scope, [], event);
    input := InputOf(ctx.bits, header, entry.kind, event, entry.colors).value;
  }

  /** Where event `i` ends up: at the end of what came before it, or nowhere; what came before stays. */
  lemma {:induction false} EveryEventIsClassified(events: seq<PaintOp>, classify: Classifier, i: nat)
    requires i < |events|
    ensures var before := Gather(events[..i], classify);
      var entry := classify(events[i], SaturateU32(|before|));
      Gather(events[..i + 1], classify) == before + (if entry.Some? then [entry.value] else [])
      && Gather(events[..i + 1], classify) <= Gather(events, classify)
    decreases |events|
  {
    assert events[..i + 1][..i] == events[..i];
    if i + 1 < |events| {
      var shorter := events[..|events| - 1];
      EveryEventIsClassified(shorter, classify, i);
      assert shorter[..i] == events[..i] && shorter[..i + 1] == events[..i + 1];
    } else {
      assert events[..i + 1] == events;
    }
  }

  // ---- The combined inventory and the per-kind builders --------------------

  /** An entry without the fields that depend on the shared counter. */
  function Erased(entry: InventoryEntry): InventoryEntry {
    entry.(id := ObjectId(entry.id.page, 0, []))
  }

  function ErasedOfKind(entries: seq<InventoryEntry>, kind: ObjectKind): seq<InventoryEntry> {
    if entries == [] then []
    else
      var last := entries[|entries| - 1];
      ErasedOfKind(entries[..|entries| - 1], kind) + if last.kind == kind then [Erased(last)] else []
  }

  function KindClassifier(ctx: Context, kind: ObjectKind): Classifier {
    (event: PaintOp, sequence: nat) =>
      match kind
      case Vector => VectorEntry(ctx, event, sequence)
      case Text => TextEntry(ctx, event, sequence)
      case ImageObject => ImageEntry(ctx, event, sequence)
      case FormObject => FormEntry(ctx, event, sequence)
  }

  /** The event invokes a name that is listed both as an image and as a form. */
  predicate SharedInvocation(ctx: Context, event: PaintOp) {
    event.kind.XObjectInvoke? && event.kind.name in ctx.imageNames && event.kind.name in ctx.formNames
  }

  function SharedInvocations(ctx: Context, events: seq<PaintOp>): nat {
    if events == [] then 0
    else SharedInvocations(ctx, events[..|events| - 1]) + if SharedInvocation(ctx, events[|events| - 1]) then 1 else 0
  }

  lemma {:induction false} NoneShared(ctx: Context, events: seq<PaintOp>)
    ensures SharedInvocations(ctx, events) == 0 <==> forall i | 0 <= i < |events| :: !SharedInvocation(ctx, events[i])
    decreases |events|
  {
    if events != [] {
      var shorter := events[..|events| - 1];
      NoneShared(ctx, shorter);
      assert forall i | 0 <= i < |shorter| :: shorter[i] == events[i];
    }
  }

  /** One event: the combined dispatch and the kind's own agree, except that a shared name is never a form. */
  lemma OneEventOfKind(ctx: Context, event: PaintOp, s: nat, t: nat, kind: ObjectKind)
    ensures var combined, own := CombinedEntry(ctx, event, s), KindClassifier(ctx, kind)(event, t);
      own.Some? ==> own.value.kind == kind
    ensures var combined, own := CombinedEntry(ctx, event, s), KindClassifier(ctx, kind)(event, t);
      if kind == FormObject && SharedInvocation(ctx, event)
      then own.Some? && combined.Some? && combined.value.kind != kind
      else (own.Some? <==> combined.Some? && combined.value.kind == kind)
           && (own.Some? ==> Erased(own.value) == Erased(combined.value))
  {
    hide InputOf, DigestOf, Observations;
  }

  lemma {:induction false} KindSlices(ctx: Context, events: seq<PaintOp>, kind: ObjectKind)
    ensures var combined := ErasedOfKind(Gather(events, CombinedClassifier(ctx)), kind);
      var own := ErasedOfKind(Gather(events, KindClassifier(ctx, kind)), kind);
      |own| == |combined| + (if kind == FormObject then SharedInvocations(ctx, events) else 0)
      && (kind != FormObject || SharedInvocations(ctx, events) == 0 ==> own == combined)
    ensures |Gather(events, KindClassifier(ctx, kind))|
      == |ErasedOfKind(Gather(events, KindClassifier(ctx, kind)), kind)|
    decreases |events|
  {
    hide InputOf, DigestOf, Observations, CombinedEntry, Erased, KindClassifier, SharedInvocation;
    if events != [] {
      var shorter, last := events[..|events| - 1], events[|events| - 1];
      KindSlices(ctx, shorter, kind);
      var combined, own := Gather(shorter, CombinedClassifier(ctx)), Gather(shorter, KindClassifier(ctx, kind));
      OneEventOfKind(ctx, last, SaturateU32(|combined|), SaturateU32(|own|), kind);
      var c := CombinedEntry(ctx, last, SaturateU32(|combined|));
      var o := KindClassifier(ctx, kind)(last, SaturateU32(|own|));
      assert c.Some? ==> (combined + [c.value])[..|combined|] == combined;
      assert o.Some? ==> (own + [o.value])[..|own|] == own;
    }
  }

  /**
   * The combined inventory restricted to one kind is that kind's own inventory, up to sequence and digest,
   * always for vectors, text and images, and for forms exactly when no event invokes a name listed as both.
   */
  lemma CombinedRestrictsToKind(ctx: Context, events: seq<PaintOp>, kind: ObjectKind)
    ensures ErasedOfKind(Gather(events, CombinedClassifier(ctx)), kind)
         == ErasedOfKind(Gather(events, KindClassifier(ctx, kind)), kind)
      <==> kind != FormObject || forall i | 0 <= i < |events| :: !SharedInvocation(ctx, events[i])
    ensures |Gather(events, KindClassifier(ctx, kind))|
      == |ErasedOfKind(Gather(events, KindClassifier(ctx, kind)), kind)|
  {
    hide KindClassifier, SharedInvocation;
    KindSlices(ctx, events, kind);
    NoneShared(ctx, events);
  }

  /** What happens to a shared name: it is an image to the combined inventory, and a form to the form builder. */
  lemma ImageWinsOverForm(ctx: Context, event: PaintOp, sequence: nat)
    requires SharedInvocation(ctx, event)
    ensures CombinedEntry(ctx, event, sequence).Some? && CombinedEntry(ctx, event, sequence).value.kind == ImageObject
    ensures FormEntry(ctx, event, sequence).Some?
  {
  }

  // ---- The page-default walk -----------------------------------------------

  lemma PageDefaultWithholdsNothing(ctx: Context, event: PaintOp, sequence: nat)
    ensures SeededClassifier(ctx, PAGE_DEFAULT)(event, sequence) == CombinedEntry(ctx, event, sequence)
  {
    hide InputOf, DigestOf;
    var entry := CombinedEntry(ctx, event, sequence);
    if entry.Some? && (entry.value.kind == Vector || entry.value.kind == Text) {
      forall i | 0 <= i < |entry.value.colors| ensures !Inherited(entry.value.colors[i], event, PAGE_DEFAULT) {
        ObservedColor(ctx, PAGE_DEFAULT, event, sequence, i);
      }
    }
  }

  lemma {:induction false} GatherAgrees(events: seq<PaintOp>, f: Classifier, g: Classifier)
    requires forall event, sequence :: f(event, sequence) == g(event, sequence)
    ensures Gather(events, f) == Gather(events, g)
    decreases |events|
  {
    if events != [] {
      GatherAgrees(events[..|events| - 1], f, g);
    }
  }

  /** From the page default the seeded builder is the materialising one: walk everything, then classify. */
  lemma PageDefaultIsMaterialised(p: PaintProgram, ctx: Context)
    ensures Inventory(p, PAGE_DEFAULT, ctx) ==
      match WalkAll(p, 0, WalkerState(PAGE_DEFAULT, []))
      case Ok(events) => Ok(Gather(events, CombinedClassifier(ctx)))
      case Err(e) => Err(e)
  {
    hide Items, WalkAll, Gather, CombinedEntry, WithholdInherited;
    StreamingIsMaterialising(p, 0, WalkerState(PAGE_DEFAULT, []));
    forall event, sequence
      ensures SeededClassifier(ctx, PAGE_DEFAULT)(event, sequence) == CombinedClassifier(ctx)(event, sequence)
    {
      PageDefaultWithholdsNothing(ctx, event, sequence);
    }
    var walked := WalkAll(p, 0, WalkerState(PAGE_DEFAULT, []));
    if walked.Ok? {
      GatherAgrees(walked.value, SeededClassifier(ctx, PAGE_DEFAULT), CombinedClassifier(ctx));
    }
  }

  // ---- Identities ----------------------------------------------------------

  lemma SameStreamSameHeader(a: DigestInput, b: DigestInput)
    requires Fits(a) && Fits(b) && Stream(a) == Stream(b)
    ensures a.header == b.header
  {
    hide Stream;
    StreamInjective(a, b);
    assert IdentityOf(a).header == a.header && IdentityOf(b).header == b.header;
  }

  /**
   * Two paint instances built from one template with different sequences or invocation paths feed the
   * digest different streams.
   */
  lemma ExpandedStreamsDiffer(bits: real -> nat, template: InventoryEntry, event: PaintOp,
                              s: nat, path: InvocationPath, t: nat, other: InvocationPath)
    requires (s, path) != (t, other)
    requires var a := ExpandedInput(bits, template, s, path, event); a.Some? && Fits(a.value)
    requires var b := ExpandedInput(bits, template, t, other, event); b.Some? && Fits(b.value)
    ensures Stream(ExpandedInput(bits, template, s, path, event).value)
      != Stream(ExpandedInput(bits, template, t, other, event).value)
  {
    hide Stream;
    var a := ExpandedInput(bits, template, s, path, event).value;
    var b := ExpandedInput(bits, template, t, other, event).value;
    if Stream(a) == Stream(b) {
      SameStreamSameHeader(a, b);
    }
  }

  /** Expanding a page entry at its own sequence and the empty path changes nothing. */
  lemma ExpansionAtPageLevel(ctx: Context, event: PaintOp, sequence: nat)
    requires CombinedEntry(ctx, event, sequence).Some?
    ensures var entry := CombinedEntry(ctx, event, sequence).value;
      ExpandedEntryIdentity(ctx.bits, entry, sequence, [], event) == entry
  {
    hide ObjectDigest, Observations;
  }

  /**
   * An expanded entry differs from its template only in its sequence, its digest and the path it is painted
   * through, and its digest covers both of these.
   */
  lemma ExpandedEntryMeans(bits: real -> nat, template: InventoryEntry, sequence: nat, path: InvocationPath,
                           event: PaintOp)
    ensures var entry := ExpandedEntryIdentity(bits, template, sequence, path, event);
      entry == template.(id := entry.id, provenance := entry.provenance)
      && entry.id.page == template.id.page && entry.id.sequence == sequence
      && entry.provenance == template.provenance.(invocation := if path == [] then None else Some(path))
    ensures var input := ExpandedInput(bits, template, sequence, path, event);
      var entry := ExpandedEntryIdentity(bits, template, sequence, path, event);
      if input.Some?
      then entry.id.digest == ObjectDigest(input.value) && input.value.header.page == template.id.page
           && input.value.header.sequence == sequence && input.value.header.path == path
           && input.value.header.scope == template.provenance.scope && input.value.header.index == event.index
           && input.value.header.recordRange == event.recordRange
           && input.value.header.operatorRange == event.operatorRange
      else entry.id.digest == template.id.digest
  {
    hide ObjectDigest;
  }
}
