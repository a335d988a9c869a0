/** The mutable digest: four lanes that absorb an object field by field. */
module StableDigests {
  import opened Basics
  import opened PaintTypes
  import opened DigestEncoding
  import opened DigestMixer

  class StableDigest {
    const lanes: array<nat>

    ghost predicate Valid() reads this { lanes.Length == 4 }

    /** The lane values as one sequence. */
    ghost function State(): (state: seq<nat>)
      reads this, lanes
    {
      lanes[..]
    }

    constructor ()
      ensures Valid() && fresh(lanes) && State() == SEED
    {
      lanes := new nat[4](i requires 0 <= i < 4 => SEED[i]);
    }

    method PushU8(value: Byte)
      requires Valid()
      modifies lanes
      ensures State() == Mix(old(State()), value)
    {
      for index := 0 to 4
        invariant forall i | 0 <= i < index :: lanes[i] == MixLane(old(lanes[i]), value, i)
        invariant forall i | index <= i < 4 :: lanes[i] == old(lanes[i])
      {
        lanes[index] := Xor(lanes[index], value as int + 256 * index);
        lanes[index] := (lanes[index] * MULTIPLIER) % U64_COUNT;
        lanes[index] := Xor(lanes[index], ShiftRight(lanes[index], 32));
      }
    }

    /** Absorbs the bytes of a slice, without a length prefix. */
    method PushEach(bytes: Bytes)
      requires Valid()
      modifies lanes
      ensures State() == Absorb(old(State()), bytes)
    {
      for i := 0 to |bytes|
        invariant State() == Absorb(old(State()), bytes[..i])
      {
        AbsorbConcat(old(State()), bytes[..i], [bytes[i]]);
        assert bytes[..i + 1] == bytes[..i] + [bytes[i]];
        ghost var before := State();
        PushU8(bytes[i]);
        assert Absorb(before, [bytes[i]]) == Absorb(Mix(before, bytes[i]), []);
      }
      assert bytes[..|bytes|] == bytes;
    }

    method PushU32(value: nat)
      requires Valid()
      modifies lanes
      ensures State() == Absorb(old(State()), U32(value))
    {
      PushEach(LittleEndian(value, 4));
    }

    method PushU16(value: nat)
      requires Valid()
      modifies lanes
      ensures State() == Absorb(old(State()), U16(value))
    {
      PushEach(LittleEndian(value, 2));
    }

    method PushUsize(value: nat)
      requires Valid()
      modifies lanes
      ensures State() == Absorb(old(State()), U64(value))
    {
      PushEach(LittleEndian(value, 8));
    }

    method PushBytes(bytes: Bytes)
      requires Valid()
      modifies lanes
      ensures State() == Absorb(old(State()), LengthPrefixed(bytes))
    {
      AbsorbConcat(State(), U64(|bytes|), bytes);
      PushUsize(|bytes|);
      PushEach(bytes);
    }

    method PushRange(range: ByteRange)
      requires Valid()
      modifies lanes
      ensures State() == Absorb(old(State()), Range(range))
    {
      AbsorbConcat(State(), U64(range.start), U64(range.end));
      PushUsize(range.start);
      PushUsize(range.end);
    }

    method PushTag(value: nat)
      requires Valid()
      modifies lanes
      ensures State() == Absorb(old(State()), Tag(value))
    {
      PushEach(LittleEndian(value, 1));
    }

    method PushScope(scope: ContentScope)
      requires Valid()
      modifies lanes
      ensures State() == Absorb(old(State()), Scope(scope))
    {
      AbsorbConcat(State(), Tag(ScopeTag(scope)), ScopeTail(scope));
      match scope {
        case Page => PushTag(0);
        case FormXObject(name) =>
          PushTag(1);
          PushBytes(name);
        case AnnotationAppearance => PushTag(2);
      }
    }

    method PushFrames(path: InvocationPath)
      requires Valid()
      modifies lanes
      ensures State() == Absorb(old(State()), Frames(path))
    {
      ghost var goal := Absorb(State(), Frames(path));
      for i := 0 to |path|
        invariant Absorb(State(), Frames(path[i..])) == goal
      {
        var frame, rest := path[i], Frames(path[i + 1..]);
        assert path[i..][1..] == path[i + 1..];
        FramesUnfold(path[i..], []);
        assert Frames(path[i..]) + [] == Frames(path[i..]) && rest + [] == rest;
        AbsorbConcat(State(), U32(frame.ordinal), LengthPrefixed(frame.name) + rest);
        PushU32(frame.ordinal);
        AbsorbConcat(State(), LengthPrefixed(frame.name), rest);
        PushBytes(frame.name);
      }
    }

    method PushEventHeader(h: EventHeader)
      requires Valid()
      modifies lanes
      ensures State() == Absorb(old(State()), Header(h))
    {
      ghost var h7 := Range(h.operatorRange);
      ghost var h6 := Range(h.recordRange) + h7;
      ghost var h5 := U64(h.index) + h6;
      ghost var h4 := Frames(h.path) + h5;
      ghost var h3 := U32(SaturateU32(|h.path|)) + h4;
      ghost var h2 := Scope(h.scope) + h3;
      ghost var h1 := U32(h.sequence) + h2;
      AbsorbConcat(State(), U32(h.page), h1);
      PushU32(h.page);
      AbsorbConcat(State(), U32(h.sequence), h2);
      PushU32(h.sequence);
      AbsorbConcat(State(), Scope(h.scope), h3);
      PushScope(h.scope);
      AbsorbConcat(State(), U32(SaturateU32(|h.path|)), h4);
      PushU32(SaturateU32(|h.path|));
      AbsorbConcat(State(), Frames(h.path), h5);
      PushFrames(h.path);
      AbsorbConcat(State(), U64(h.index), h6);
      PushUsize(h.index);
      AbsorbConcat(State(), Range(h.recordRange), h7);
      PushRange(h.recordRange);
      PushRange(h.operatorRange);
    }

    method PushWords(words: seq<nat>)
      requires Valid()
      modifies lanes
      ensures State() == Absorb(old(State()), Words(words))
    {
      ghost var goal := Absorb(State(), Words(words));
      for i := 0 to |words|
        invariant Absorb(State(), Words(words[i..])) == goal
      {
        assert words[i..][1..] == words[i + 1..];
        AbsorbConcat(State(), U64(words[i]), Words(words[i + 1..]));
        PushUsize(words[i]);
      }
    }

    method PushColorObservation(color: Observation)
      requires Valid()
      modifies lanes
      ensures State() == Absorb(old(State()), Color(color))
    {
      ghost var c4 := OptionalRange(color.source);
      ghost var c3 := OptionalName(color.spotName) + c4;
      ghost var c2 := Components(color.components) + c3;
      ghost var c1 := Space(color.space) + c2;
      AbsorbConcat(State(), Tag(UsageTag(color.usage)), c1);
      PushTag(UsageTag(color.usage));
      AbsorbConcat(State(), Space(color.space), c2);
      AbsorbConcat(State(), Tag(SpaceTag(color.space)), SpaceTail(color.space));
      PushTag(SpaceTag(color.space));
      if color.space.Resource? {
        PushBytes(color.space.name);
      }
      AbsorbConcat(State(), Components(color.components), c3);
      AbsorbConcat(State(), U64(|color.components|), Words(color.components));
      PushUsize(|color.components|);
      PushWords(color.components);
      AbsorbConcat(State(), OptionalName(color.spotName), c4);
      PushOptionalName(color.spotName);
      PushOptionalRange(color.source);
    }

    method PushOptionalName(name: Option<Bytes>)
      requires Valid()
      modifies lanes
      ensures State() == Absorb(old(State()), OptionalName(name))
    {
      match name {
        case Some(bytes) =>
          AbsorbConcat(State(), Tag(1), LengthPrefixed(bytes));
          PushTag(1);
          PushBytes(bytes);
        case None => PushTag(0);
      }
    }

    method PushOptionalRange(range: Option<ByteRange>)
      requires Valid()
      modifies lanes
      ensures State() == Absorb(old(State()), OptionalRange(range))
    {
      match range {
        case Some(r) =>
          AbsorbConcat(State(), Tag(1), Range(r));
          PushTag(1);
          PushRange(r);
        case None => PushTag(0);
      }
    }

    method PushColors(colors: seq<Observation>)
      requires Valid()
      modifies lanes
      ensures State() == Absorb(old(State()), Colors(colors))
    {
      ghost var goal := Absorb(State(), Colors(colors));
      for i := 0 to |colors|
        invariant Absorb(State(), Colors(colors[i..])) == goal
      {
        assert colors[i..][1..] == colors[i + 1..];
        AbsorbConcat(State(), Color(colors[i]), Colors(colors[i + 1..]));
        PushColorObservation(colors[i]);
      }
    }

    method PushI32(value: int)
      requires Valid()
      modifies lanes
      ensures State() == Absorb(old(State()), I32(value))
    {
      PushU32(value % U32_COUNT);
    }

    method PushTextRenderingMode(mode: TextRenderingMode)
      requires Valid()
      modifies lanes
      ensures State() == Absorb(old(State()), RenderingMode(mode))
    {
      match mode {
        case FillText => PushTag(0);
        case StrokeText => PushTag(1);
        case FillThenStrokeText => PushTag(2);
        case InvisibleText => PushTag(3);
        case UnsupportedMode(value) =>
          AbsorbConcat(State(), Tag(4), I32(value));
          PushTag(4);
          PushI32(value);
      }
    }

    method PushFontSelection(font: FontSelection)
      requires Valid()
      modifies lanes
      ensures State() == Absorb(old(State()), Font(font))
    {
      match font {
        case Unset => PushTag(0);
        case Selected(name, size) =>
          AbsorbConcat(State(), Tag(1), LengthPrefixed(name) + U64(size));
          PushTag(1);
          AbsorbConcat(State(), LengthPrefixed(name), U64(size));
          PushBytes(name);
          PushUsize(size);
        case Indeterminate => PushTag(2);
        case ResolvedIndirect(objectNumber, generation, objectByteOffset, size) =>
          ghost var f3 := U64(objectByteOffset) + U64(size);
          ghost var f2 := U16(generation) + f3;
          AbsorbConcat(State(), Tag(3), U32(objectNumber) + f2);
          PushTag(3);
          AbsorbConcat(State(), U32(objectNumber), f2);
          PushU32(objectNumber);
          AbsorbConcat(State(), U16(generation), f3);
          PushU16(generation);
          AbsorbConcat(State(), U64(objectByteOffset), U64(size));
          PushUsize(objectByteOffset);
          PushUsize(size);
      }
    }
  }

  /** Digest of one object: the seed lanes after absorbing exactly the object's stream. */
  function ObjectDigest(input: DigestInput): Bytes { Finish(Absorb(SEED, Stream(input))) }

  /** The four object-digest builders: kind tag, shared header, kind-specific fields, colour list. */
  method BuildObjectDigest(input: DigestInput) returns (digest: Bytes)
    ensures digest == ObjectDigest(input)
  {
    var d := new StableDigest();
    ghost var payload := Payload(input);
    AbsorbConcat(d.State(), LengthPrefixed(KindTag(input)), Header(input.header) + payload);
    d.PushBytes(KindTag(input));
    AbsorbConcat(d.State(), Header(input.header), payload);
    d.PushEventHeader(input.header);
    match input {
      case VectorInput(_, paint, colors) =>
        AbsorbConcat(d.State(), Tag(PathPaintTag(paint)), Colors(colors));
        d.PushTag(PathPaintTag(paint));
        d.PushColors(colors);
      case TextInput(_, operator, mode, font, colors) =>
        AbsorbConcat(d.State(), Tag(TextShowTag(operator)), RenderingMode(mode) + (Font(font) + Colors(colors)));
        d.PushTag(TextShowTag(operator));
        AbsorbConcat(d.State(), RenderingMode(mode), Font(font) + Colors(colors));
        d.PushTextRenderingMode(mode);
        AbsorbConcat(d.State(), Font(font), Colors(colors));
        d.PushFontSelection(font);
        d.PushColors(colors);
      case ImageInput(_, name, colors) =>
        AbsorbConcat(d.State(), LengthPrefixed(name), Colors(colors));
        d.PushBytes(name);
        d.PushColors(colors);
      case FormInput(_, name) =>
        d.PushBytes(name);
    }
    digest := Finish(d.lanes[..]);
  }
}
