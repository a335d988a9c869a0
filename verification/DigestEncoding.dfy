/** The byte stream fed to the identity digest, and why two different objects never share one. */
module DigestEncoding {
  import opened Basics
  import opened PaintTypes

  type Observation = ColorObservation<nat>
  type FontSelection = FontSelectionState<nat>

  /** Fields every object digest starts with. Floats appear as their 64-bit patterns. */
  datatype EventHeader = EventHeader(
    page: nat, sequence: nat, scope: ContentScope, path: InvocationPath,
    index: nat, recordRange: ByteRange, operatorRange: ByteRange)

  /** Everything one object digest absorbs. */
  datatype DigestInput =
    | VectorInput(header: EventHeader, paint: PathPaintKind, colors: seq<Observation>)
    | TextInput(header: EventHeader, operator: TextShowOperator, mode: TextRenderingMode, font: FontSelection,
                colors: seq<Observation>)
    | ImageInput(header: EventHeader, name: Bytes, colors: seq<Observation>)
    | FormInput(header: EventHeader, name: Bytes)

  // ---- Primitive encodings -------------------------------------------------

  /** `to_le_bytes` of a word of `width` bytes. */
  function LittleEndian(value: nat, width: nat): (bytes: Bytes)
    ensures |bytes| == width
  {
    if width == 0 then [] else [(value % 256) as char] + LittleEndian(value / 256, width - 1)
  }

  function Tag(value: nat): Bytes { LittleEndian(value, 1) }
  function U16(value: nat): Bytes { LittleEndian(value, 2) }
  function U32(value: nat): Bytes { LittleEndian(value, 4) }
  function U64(value: nat): Bytes { LittleEndian(value, 8) }

  /** Two's complement pattern of a signed 32-bit value. */
  function I32(value: int): Bytes { U32(value % U32_COUNT) }

  function LengthPrefixed(bytes: Bytes): Bytes { U64(|bytes|) + bytes }

  function Range(range: ByteRange): Bytes { U64(range.start) + U64(range.end) }

  function Scope(scope: ContentScope): Bytes {
    Tag(ScopeTag(scope)) + ScopeTail(scope)
  }

  function ScopeTag(scope: ContentScope): nat {
    match scope
    case Page => 0
    case FormXObject(_) => 1
    case AnnotationAppearance => 2
  }

  function ScopeTail(scope: ContentScope): Bytes {
    if scope.FormXObject? then LengthPrefixed(scope.name) else []
  }

  function Frames(path: InvocationPath): Bytes {
    if path == [] then [] else U32(path[0].ordinal) + LengthPrefixed(path[0].name) + Frames(path[1..])
  }

  function Header(h: EventHeader): Bytes {
    U32(h.page) + (U32(h.sequence) + (Scope(h.scope) + (U32(SaturateU32(|h.path|)) + (Frames(h.path)
    + (U64(h.index) + (Range(h.recordRange) + Range(h.operatorRange)))))))
  }

  function PathPaintTag(paint: PathPaintKind): nat {
    match paint
    case StrokePath => 0
    case CloseAndStroke => 1
    case FillNonzero => 2
    case FillObsolete => 3
    case FillEvenOdd => 4
    case FillAndStrokeNonzero => 5
    case FillAndStrokeEvenOdd => 6
    case CloseFillAndStrokeNonzero => 7
    case CloseFillAndStrokeEvenOdd => 8
    case EndPath => 9
  }

  function TextShowTag(operator: TextShowOperator): nat {
    match operator
    case ShowText => 0
    case ShowTextAdjusted => 1
    case MoveNextLineAndShowText => 2
    case SetSpacingMoveNextLineAndShowText => 3
  }

  function UsageTag(usage: ColorUsage): nat {
    match usage
    case Fill => 0
    case Stroke => 1
    case Image => 2
    case Shading => 3
  }

  function SpaceTag(space: ColorSpace): nat {
    match space
    case DeviceGray => 0
    case DeviceRgb => 1
    case DeviceCmyk => 2
    case IccBased => 3
    case Lab => 4
    case CalGray => 5
    case CalRgb => 6
    case Indexed => 7
    case Separation => 8
    case DeviceN => 9
    case Pattern => 10
    case Resource(_) => 11
    case UnknownSpace => 12
  }

  function Space(space: ColorSpace): Bytes {
    Tag(SpaceTag(space)) + SpaceTail(space)
  }

  function SpaceTail(space: ColorSpace): Bytes {
    if space.Resource? then LengthPrefixed(space.name) else []
  }

  function Words(words: seq<nat>): Bytes {
    if words == [] then [] else U64(words[0]) + Words(words[1..])
  }

  function Components(words: seq<nat>): Bytes { U64(|words|) + Words(words) }

  function OptionalName(name: Option<Bytes>): Bytes {
    if name.Some? then Tag(1) + LengthPrefixed(name.value) else Tag(0)
  }

  function OptionalRange(range: Option<ByteRange>): Bytes {
    if range.Some? then Tag(1) + Range(range.value) else Tag(0)
  }

  /** `spotNames` is deliberately not part of the identity; only the legacy first name is. */
  function Color(color: Observation): Bytes {
    Tag(UsageTag(color.usage)) + (Space(color.space) + (Components(color.components)
    + (OptionalName(color.spotName) + OptionalRange(color.source))))
  }

  /** The colour list is the tail of the stream and carries no count. */
  function Colors(colors: seq<Observation>): Bytes {
    if colors == [] then [] else Color(colors[0]) + Colors(colors[1..])
  }

  function RenderingMode(mode: TextRenderingMode): Bytes {
    Tag(ModeTag(mode)) + if mode.UnsupportedMode? then I32(mode.value) else []
  }

  function ModeTag(mode: TextRenderingMode): nat {
    match mode
    case FillText => 0
    case StrokeText => 1
    case FillThenStrokeText => 2
    case InvisibleText => 3
    case UnsupportedMode(_) => 4
  }

  function Font(font: FontSelection): Bytes {
    Tag(FontTag(font)) + FontTail(font)
  }

  function FontTag(font: FontSelection): nat {
    match font
    case Unset => 0
    case Selected(_, _) => 1
    case Indeterminate => 2
    case ResolvedIndirect(_, _, _, _) => 3
  }

  function FontTail(font: FontSelection): Bytes {
    match font
    case Selected(name, size) => LengthPrefixed(name) + U64(size)
    case ResolvedIndirect(number, generation, offset, size) =>
      U32(number) + (U16(generation) + (U64(offset) + U64(size)))
    case _ => []
  }

  function KindTag(input: DigestInput): Bytes {
    match input
    case VectorInput(_, _, _) => "presslint.vector.v3"
    case TextInput(_, _, _, _, _) => "presslint.text.v5"
    case ImageInput(_, _, _) => "presslint.image.v3"
    case FormInput(_, _) => "presslint.form.v3"
  }

  function Payload(input: DigestInput): Bytes {
    match input
    case VectorInput(_, paint, colors) => Tag(PathPaintTag(paint)) + Colors(colors)
    case TextInput(_, operator, mode, font, colors) =>
      Tag(TextShowTag(operator)) + (RenderingMode(mode) + (Font(font) + Colors(colors)))
    case ImageInput(_, name, colors) => LengthPrefixed(name) + Colors(colors)
    case FormInput(_, name) => LengthPrefixed(name)
  }

  /** The whole stream absorbed by one object digest. */
  function Stream(input: DigestInput): Bytes {
    LengthPrefixed(KindTag(input)) + (Header(input.header) + Payload(input))
  }

  // ---- Machine-width bounds on the encoded values --------------------------

  predicate RangeFits(range: ByteRange) { range.start < U64_COUNT && range.end < U64_COUNT }

  predicate NameFits(name: Bytes) { |name| < U64_COUNT }

  predicate ScopeFits(scope: ContentScope) { scope.FormXObject? ==> NameFits(scope.name) }

  predicate PathFits(path: InvocationPath) {
    |path| < U32_COUNT && forall i | 0 <= i < |path| :: path[i].ordinal < U32_COUNT && NameFits(path[i].name)
  }

  predicate HeaderFits(h: EventHeader) {
    h.page < U32_COUNT && h.sequence < U32_COUNT && ScopeFits(h.scope) && PathFits(h.path)
    && h.index < U64_COUNT && RangeFits(h.recordRange) && RangeFits(h.operatorRange)
  }

  predicate ColorFits(color: Observation) {
    (color.space.Resource? ==> NameFits(color.space.name))
    && |color.components| < U64_COUNT && (forall i | 0 <= i < |color.components| :: color.components[i] < U64_COUNT)
    && (color.spotName.Some? ==> NameFits(color.spotName.value))
    && (color.source.Some? ==> RangeFits(color.source.value))
  }

  predicate ColorsFit(colors: seq<Observation>) {
    forall i | 0 <= i < |colors| :: ColorFits(colors[i])
  }

  predicate ModeFits(mode: TextRenderingMode) {
    mode.UnsupportedMode? ==> -0x8000_0000 <= mode.value < 0x8000_0000
  }

  predicate FontFits(font: FontSelection) {
    match font
    case Selected(name, size) => NameFits(name) && size < U64_COUNT
    case ResolvedIndirect(number, generation, offset, size) =>
      number < U32_COUNT && generation < U16_COUNT && offset < U64_COUNT && size < U64_COUNT
    case _ => true
  }

  function ColorsOf(input: DigestInput): seq<Observation> {
    if input.FormInput? then [] else input.colors
  }

  /** Every number fits the machine word that carries it; in particular the path is shorter than 2^32. */
  predicate Fits(input: DigestInput) {
    HeaderFits(input.header)
    && ColorsFit(ColorsOf(input))
    && (input.TextInput? ==> ModeFits(input.mode) && FontFits(input.font))
    && (input.ImageInput? || input.FormInput? ==> NameFits(input.name))
  }

  /** What the identity keeps of a colour: all of it but the additive spot-name list. */
  function Identity(color: Observation): Observation { color.(spotNames := []) }

  function Identities(colors: seq<Observation>): seq<Observation> {
    seq(|colors|, i requires 0 <= i < |colors| => Identity(colors[i]))
  }

  function IdentityOf(input: DigestInput): DigestInput {
    match input
    case VectorInput(h, paint, colors) => VectorInput(h, paint, Identities(colors))
    case TextInput(h, operator, mode, font, colors) => TextInput(h, operator, mode, font, Identities(colors))
    case ImageInput(h, name, colors) => ImageInput(h, name, Identities(colors))
    case FormInput(h, name) => input
  }

  // ---- Each part can be read back off the front of a stream ----------------

  lemma {:induction false} LittleEndianReads(a: nat, b: nat, width: nat, bound: nat, r: Bytes, s: Bytes)
    requires a < bound && b < bound && bound <= Power256(width)
    requires LittleEndian(a, width) + r == LittleEndian(b, width) + s
    ensures a == b && r == s
    decreases width
  {
    if width == 0 {
      assert LittleEndian(a, 0) + r == r && LittleEndian(b, 0) + s == s;
    } else {
      var x, y := LittleEndian(a, width) + r, LittleEndian(b, width) + s;
      assert x[0] == (a % 256) as char && y[0] == (b % 256) as char;
      assert x[1..] == LittleEndian(a / 256, width - 1) + r;
      assert y[1..] == LittleEndian(b / 256, width - 1) + s;
      LittleEndianReads(a / 256, b / 256, width - 1, Power256(width - 1), r, s);
    }
  }

  function Power256(width: nat): nat {
    if width == 0 then 1 else 256 * Power256(width - 1)
  }

  lemma TagReads(a: nat, b: nat, r: Bytes, s: Bytes)
    requires a < U8_COUNT && b < U8_COUNT && Tag(a) + r == Tag(b) + s
    ensures a == b && r == s
  {
    LittleEndianReads(a, b, 1, U8_COUNT, r, s);
  }

  lemma U16Reads(a: nat, b: nat, r: Bytes, s: Bytes)
    requires a < U16_COUNT && b < U16_COUNT && U16(a) + r == U16(b) + s
    ensures a == b && r == s
  {
    assert Power256(1) == 256;
    LittleEndianReads(a, b, 2, U16_COUNT, r, s);
  }

  lemma U32Reads(a: nat, b: nat, r: Bytes, s: Bytes)
    requires a < U32_COUNT && b < U32_COUNT && U32(a) + r == U32(b) + s
    ensures a == b && r == s
  {
    assert Power256(2) == 0x1_0000;
    LittleEndianReads(a, b, 4, U32_COUNT, r, s);
  }

  lemma U64Reads(a: nat, b: nat, r: Bytes, s: Bytes)
    requires a < U64_COUNT && b < U64_COUNT && U64(a) + r == U64(b) + s
    ensures a == b && r == s
  {
    assert Power256(2) == 0x1_0000;
    assert Power256(4) == 0x1_0000_0000;
    assert Power256(6) == 0x1_0000_0000_0000;
    LittleEndianReads(a, b, 8, U64_COUNT, r, s);
  }

  /** Concatenation re-associated, so that the front part can be read first. */
  lemma Reassociate(a: Bytes, b: Bytes, c: Bytes)
    ensures (a + b) + c == a + (b + c)
  {
  }

  lemma NameReads(a: Bytes, b: Bytes, r: Bytes, s: Bytes)
    requires NameFits(a) && NameFits(b) && LengthPrefixed(a) + r == LengthPrefixed(b) + s
    ensures a == b && r == s
  {
    Reassociate(U64(|a|), a, r);
    Reassociate(U64(|b|), b, s);
    U64Reads(|a|, |b|, a + r, b + s);
    assert (a + r)[..|a|] == a && (b + s)[..|b|] == b;
    assert (a + r)[|a|..] == r && (b + s)[|b|..] == s;
  }

  lemma RangeReads(a: ByteRange, b: ByteRange, r: Bytes, s: Bytes)
    requires RangeFits(a) && RangeFits(b) && Range(a) + r == Range(b) + s
    ensures a == b && r == s
  {
    Reassociate(U64(a.start), U64(a.end), r);
    Reassociate(U64(b.start), U64(b.end), s);
    U64Reads(a.start, b.start, U64(a.end) + r, U64(b.end) + s);
    U64Reads(a.end, b.end, r, s);
  }

  /** A tag byte followed by a payload: equal streams have equal tags and equal continuations. */
  lemma TaggedReads(a: nat, x: Bytes, b: nat, y: Bytes, r: Bytes, s: Bytes)
    requires a < U8_COUNT && b < U8_COUNT && (Tag(a) + x) + r == (Tag(b) + y) + s
    ensures a == b && x + r == y + s
  {
    Reassociate(Tag(a), x, r);
    Reassociate(Tag(b), y, s);
    TagReads(a, b, x + r, y + s);
  }

  /** A tag with an empty payload, and an empty continuation: nothing to re-associate. */
  lemma PlainTagReads(a: nat, x: Bytes, r: Bytes)
    ensures x == [] ==> Tag(a) + x == Tag(a) && x + r == r
  {
  }

  lemma ScopeReads(a: ContentScope, b: ContentScope, r: Bytes, s: Bytes)
    requires ScopeFits(a) && ScopeFits(b) && Scope(a) + r == Scope(b) + s
    ensures a == b && r == s
  {
    PlainTagReads(ScopeTag(a), ScopeTail(a), r);
    PlainTagReads(ScopeTag(b), ScopeTail(b), s);
    TaggedReads(ScopeTag(a), ScopeTail(a), ScopeTag(b), ScopeTail(b), r, s);
    if a.FormXObject? {
      NameReads(a.name, b.name, r, s);
    }
  }

  lemma {:induction false} FramesRead(a: InvocationPath, b: InvocationPath, r: Bytes, s: Bytes)
    requires |a| == |b| && PathFits(a) && PathFits(b) && Frames(a) + r == Frames(b) + s
    ensures a == b && r == s
    decreases |a|
  {
    if a == [] {
      assert Frames(a) + r == r && Frames(b) + s == s;
    } else {
      FramesUnfold(a, r);
      FramesUnfold(b, s);
      var ra, rb := Frames(a[1..]) + r, Frames(b[1..]) + s;
      U32Reads(a[0].ordinal, b[0].ordinal, LengthPrefixed(a[0].name) + ra, LengthPrefixed(b[0].name) + rb);
      NameReads(a[0].name, b[0].name, ra, rb);
      FramesRead(a[1..], b[1..], r, s);
      assert a == [a[0]] + a[1..] && b == [b[0]] + b[1..];
    }
  }

  lemma FramesUnfold(a: InvocationPath, r: Bytes)
    requires a != []
    ensures Frames(a) + r == U32(a[0].ordinal) + (LengthPrefixed(a[0].name) + (Frames(a[1..]) + r))
  {
    var x, y, z := U32(a[0].ordinal), LengthPrefixed(a[0].name), Frames(a[1..]);
    Reassociate(x + y, z, r);
    Reassociate(x, y, z + r);
  }

  lemma HeaderReads(a: EventHeader, b: EventHeader, r: Bytes, s: Bytes)
    requires HeaderFits(a) && HeaderFits(b) && Header(a) + r == Header(b) + s
    ensures a == b && r == s
  {
    HeaderUnfolds(a, r);
    HeaderUnfolds(b, s);
    var a7, b7 := Range(a.operatorRange) + r, Range(b.operatorRange) + s;
    var a6, b6 := Range(a.recordRange) + a7, Range(b.recordRange) + b7;
    var a5, b5 := U64(a.index) + a6, U64(b.index) + b6;
    var a4, b4 := Frames(a.path) + a5, Frames(b.path) + b5;
    var a3, b3 := U32(|a.path|) + a4, U32(|b.path|) + b4;
    var a2, b2 := Scope(a.scope) + a3, Scope(b.scope) + b3;
    U32Reads(a.page, b.page, U32(a.sequence) + a2, U32(b.sequence) + b2);
    U32Reads(a.sequence, b.sequence, a2, b2);
    ScopeReads(a.scope, b.scope, a3, b3);
    U32Reads(|a.path|, |b.path|, a4, b4);
    FramesRead(a.path, b.path, a5, b5);
    U64Reads(a.index, b.index, a6, b6);
    RangeReads(a.recordRange, b.recordRange, a7, b7);
    RangeReads(a.operatorRange, b.operatorRange, r, s);
  }

  lemma HeaderUnfolds(h: EventHeader, r: Bytes)
    requires |h.path| < U32_COUNT
    ensures Header(h) + r == U32(h.page) + (U32(h.sequence) + (Scope(h.scope) + (U32(|h.path|) + (Frames(h.path)
                             + (U64(h.index) + (Range(h.recordRange) + (Range(h.operatorRange) + r)))))))
  {
    var h7 := Range(h.operatorRange);
    var h6 := Range(h.recordRange) + h7;
    var h5 := U64(h.index) + h6;
    var h4 := Frames(h.path) + h5;
    var h3 := U32(|h.path|) + h4;
    var h2 := Scope(h.scope) + h3;
    var h1 := U32(h.sequence) + h2;
    Reassociate(U32(h.page), h1, r);
    Reassociate(U32(h.sequence), h2, r);
    Reassociate(Scope(h.scope), h3, r);
    Reassociate(U32(|h.path|), h4, r);
    Reassociate(Frames(h.path), h5, r);
    Reassociate(U64(h.index), h6, r);
    Reassociate(Range(h.recordRange), h7, r);
  }

  lemma {:induction false} WordsRead(a: seq<nat>, b: seq<nat>, r: Bytes, s: Bytes)
    requires |a| == |b| && Words(a) + r == Words(b) + s
    requires forall i | 0 <= i < |a| :: a[i] < U64_COUNT && b[i] < U64_COUNT
    ensures a == b && r == s
    decreases |a|
  {
    if a == [] {
      assert Words(a) + r == r && Words(b) + s == s;
    } else {
      assert Words(a) + r == U64(a[0]) + (Words(a[1..]) + r);
      assert Words(b) + s == U64(b[0]) + (Words(b[1..]) + s);
      U64Reads(a[0], b[0], Words(a[1..]) + r, Words(b[1..]) + s);
      WordsRead(a[1..], b[1..], r, s);
      assert a == [a[0]] + a[1..] && b == [b[0]] + b[1..];
    }
  }

  lemma SpaceReads(a: ColorSpace, b: ColorSpace, r: Bytes, s: Bytes)
    requires a.Resource? ==> NameFits(a.name)
    requires b.Resource? ==> NameFits(b.name)
    requires Space(a) + r == Space(b) + s
    ensures a == b && r == s
  {
    TaggedReads(SpaceTag(a), SpaceTail(a), SpaceTag(b), SpaceTail(b), r, s);
    PlainTagReads(SpaceTag(a), SpaceTail(a), r);
    PlainTagReads(SpaceTag(b), SpaceTail(b), s);
    if a.Resource? {
      NameReads(a.name, b.name, r, s);
    }
  }

  lemma OptionalNameReads(a: Option<Bytes>, b: Option<Bytes>, r: Bytes, s: Bytes)
    requires a.Some? ==> NameFits(a.value)
    requires b.Some? ==> NameFits(b.value)
    requires OptionalName(a) + r == OptionalName(b) + s
    ensures a == b && r == s
  {
    var x := if a.Some? then LengthPrefixed(a.value) else [];
    var y := if b.Some? then LengthPrefixed(b.value) else [];
    var ta, tb := if a.Some? then 1 else 0, if b.Some? then 1 else 0;
    PlainTagReads(ta, x, r);
    PlainTagReads(tb, y, s);
    TaggedReads(ta, x, tb, y, r, s);
    if a.Some? {
      NameReads(a.value, b.value, r, s);
    }
  }

  lemma OptionalRangeReads(a: Option<ByteRange>, b: Option<ByteRange>, r: Bytes, s: Bytes)
    requires a.Some? ==> RangeFits(a.value)
    requires b.Some? ==> RangeFits(b.value)
    requires OptionalRange(a) + r == OptionalRange(b) + s
    ensures a == b && r == s
  {
    var x := if a.Some? then Range(a.value) else [];
    var y := if b.Some? then Range(b.value) else [];
    var ta, tb := if a.Some? then 1 else 0, if b.Some? then 1 else 0;
    PlainTagReads(ta, x, r);
    PlainTagReads(tb, y, s);
    TaggedReads(ta, x, tb, y, r, s);
    if a.Some? {
      RangeReads(a.value, b.value, r, s);
    }
  }

  lemma ColorReads(a: Observation, b: Observation, r: Bytes, s: Bytes)
    requires ColorFits(a) && ColorFits(b) && Color(a) + r == Color(b) + s
    ensures Identity(a) == Identity(b) && r == s
  {
    ColorUnfolds(a, r);
    ColorUnfolds(b, s);
    var a4, b4 := OptionalRange(a.source) + r, OptionalRange(b.source) + s;
    var a3, b3 := OptionalName(a.spotName) + a4, OptionalName(b.spotName) + b4;
    var a2, b2 := Words(a.components) + a3, Words(b.components) + b3;
    var a1, b1 := U64(|a.components|) + a2, U64(|b.components|) + b2;
    TagReads(UsageTag(a.usage), UsageTag(b.usage), Space(a.space) + a1, Space(b.space) + b1);
    SpaceReads(a.space, b.space, a1, b1);
    U64Reads(|a.components|, |b.components|, a2, b2);
    WordsRead(a.components, b.components, a3, b3);
    OptionalNameReads(a.spotName, b.spotName, a4, b4);
    OptionalRangeReads(a.source, b.source, r, s);
  }

  lemma ColorUnfolds(a: Observation, r: Bytes)
    ensures Color(a) + r == Tag(UsageTag(a.usage)) + (Space(a.space) + (U64(|a.components|) + (Words(a.components)
                            + (OptionalName(a.spotName) + (OptionalRange(a.source) + r)))))
  {
    var a4 := OptionalRange(a.source);
    var a3 := OptionalName(a.spotName) + a4;
    var a2 := Components(a.components) + a3;
    var a1 := Space(a.space) + a2;
    Reassociate(Tag(UsageTag(a.usage)), a1, r);
    Reassociate(Space(a.space), a2, r);
    Reassociate(Components(a.components), a3, r);
    Reassociate(U64(|a.components|), Words(a.components), a3 + r);
    Reassociate(OptionalName(a.spotName), a4, r);
  }

  /** The uncounted trailing list is still unambiguous: every colour is non-empty and self-delimiting. */
  lemma {:induction false} ColorsRead(a: seq<Observation>, b: seq<Observation>)
    requires ColorsFit(a) && ColorsFit(b) && Colors(a) == Colors(b)
    ensures Identities(a) == Identities(b)
    decreases |a|
  {
    if a != [] && b != [] {
      ColorReads(a[0], b[0], Colors(a[1..]), Colors(b[1..]));
      ColorsRead(a[1..], b[1..]);
      IdentitiesUnfold(a);
      IdentitiesUnfold(b);
    } else {
      ColorsLength(a);
      ColorsLength(b);
    }
  }

  lemma IdentitiesUnfold(a: seq<Observation>)
    requires a != []
    ensures Identities(a) == [Identity(a[0])] + Identities(a[1..])
  {
  }

  lemma ColorsLength(a: seq<Observation>)
    ensures |Colors(a)| >= |a|
  {
  }

  lemma ModeReads(a: TextRenderingMode, b: TextRenderingMode, r: Bytes, s: Bytes)
    requires ModeFits(a) && ModeFits(b) && RenderingMode(a) + r == RenderingMode(b) + s
    ensures a == b && r == s
  {
    var x := if a.UnsupportedMode? then I32(a.value) else [];
    var y := if b.UnsupportedMode? then I32(b.value) else [];
    PlainTagReads(ModeTag(a), x, r);
    PlainTagReads(ModeTag(b), y, s);
    TaggedReads(ModeTag(a), x, ModeTag(b), y, r, s);
    if a.UnsupportedMode? {
      U32Reads(a.value % U32_COUNT, b.value % U32_COUNT, r, s);
    }
  }

  lemma FontReads(a: FontSelection, b: FontSelection, r: Bytes, s: Bytes)
    requires FontFits(a) && FontFits(b) && Font(a) + r == Font(b) + s
    ensures a == b && r == s
  {
    PlainTagReads(FontTag(a), FontTail(a), r);
    PlainTagReads(FontTag(b), FontTail(b), s);
    TaggedReads(FontTag(a), FontTail(a), FontTag(b), FontTail(b), r, s);
    match a {
      case Selected(name, size) =>
        Reassociate(LengthPrefixed(name), U64(size), r);
        Reassociate(LengthPrefixed(b.name), U64(b.size), s);
        NameReads(name, b.name, U64(size) + r, U64(b.size) + s);
        U64Reads(size, b.size, r, s);
      case ResolvedIndirect(number, generation, offset, size) =>
        ResolvedFontUnfolds(a, r);
        ResolvedFontUnfolds(b, s);
        var a3, b3 := U64(size) + r, U64(b.resolvedSize) + s;
        var a2, b2 := U64(offset) + a3, U64(b.objectByteOffset) + b3;
        U32Reads(number, b.objectNumber, U16(generation) + a2, U16(b.generation) + b2);
        U16Reads(generation, b.generation, a2, b2);
        U64Reads(offset, b.objectByteOffset, a3, b3);
        U64Reads(size, b.resolvedSize, r, s);
      case _ =>
    }
  }

  lemma ResolvedFontUnfolds(f: FontSelection, r: Bytes)
    requires f.ResolvedIndirect?
    ensures FontTail(f) + r
      == U32(f.objectNumber) + (U16(f.generation) + (U64(f.objectByteOffset) + (U64(f.resolvedSize) + r)))
  {
    var f3 := U64(f.resolvedSize);
    var f2 := U64(f.objectByteOffset) + f3;
    var f1 := U16(f.generation) + f2;
    Reassociate(U32(f.objectNumber), f1, r);
    Reassociate(U16(f.generation), f2, r);
    Reassociate(U64(f.objectByteOffset), f3, r);
  }

  lemma KindTagsDiffer(a: DigestInput, b: DigestInput)
    requires KindTag(a) == KindTag(b)
    ensures a.VectorInput? == b.VectorInput? && a.TextInput? == b.TextInput?
    ensures a.ImageInput? == b.ImageInput? && a.FormInput? == b.FormInput?
  {
    assert KindTag(a)[10] == KindTag(b)[10];
  }

  /**
   * Main result: the stream determines the object. Two objects whose numbers fit their machine words
   * and whose streams agree are the same object, up to the spot-name list the identity leaves out.
   */
  lemma StreamInjective(a: DigestInput, b: DigestInput)
    requires Fits(a) && Fits(b) && Stream(a) == Stream(b)
    ensures IdentityOf(a) == IdentityOf(b)
  {
    NameReads(KindTag(a), KindTag(b), Header(a.header) + Payload(a), Header(b.header) + Payload(b));
    KindTagsDiffer(a, b);
    HeaderReads(a.header, b.header, Payload(a), Payload(b));
    PayloadReads(a, b);
  }

  lemma TextPayloadReads(a: DigestInput, b: DigestInput)
    requires a.TextInput? && b.TextInput? && Fits(a) && Fits(b) && a.header == b.header && Payload(a) == Payload(b)
    ensures IdentityOf(a) == IdentityOf(b)
  {
    var c, d := Colors(a.colors), Colors(b.colors);
    var f, g := Font(a.font) + c, Font(b.font) + d;
    TagReads(TextShowTag(a.operator), TextShowTag(b.operator), RenderingMode(a.mode) + f, RenderingMode(b.mode) + g);
    ModeReads(a.mode, b.mode, f, g);
    FontReads(a.font, b.font, c, d);
    ColorsRead(a.colors, b.colors);
  }

  lemma NamedPayloadReads(a: DigestInput, b: DigestInput)
    requires (a.ImageInput? && b.ImageInput?) || (a.FormInput? && b.FormInput?)
    requires Fits(a) && Fits(b) && a.header == b.header && Payload(a) == Payload(b)
    ensures IdentityOf(a) == IdentityOf(b)
  {
    var c, d := Colors(ColorsOf(a)), Colors(ColorsOf(b));
    assert a.FormInput? ==> Payload(a) == LengthPrefixed(a.name) + c && Payload(b) == LengthPrefixed(b.name) + d;
    NameReads(a.name, b.name, c, d);
    ColorsRead(ColorsOf(a), ColorsOf(b));
  }

  lemma PayloadReads(a: DigestInput, b: DigestInput)
    requires Fits(a) && Fits(b) && a.header == b.header && Payload(a) == Payload(b)
    requires a.VectorInput? == b.VectorInput? && a.TextInput? == b.TextInput?
    requires a.ImageInput? == b.ImageInput? && a.FormInput? == b.FormInput?
    ensures IdentityOf(a) == IdentityOf(b)
  {
    hide Font, RenderingMode, LengthPrefixed, Colors, Tag, HeaderFits, ColorsFit, Identities;
    if a.TextInput? {
      TextPayloadReads(a, b);
    } else if a.VectorInput? {
      TagReads(PathPaintTag(a.paint), PathPaintTag(b.paint), Colors(a.colors), Colors(b.colors));
      ColorsRead(a.colors, b.colors);
    } else {
      NamedPayloadReads(a, b);
    }
  }

  /** The omission is real: the stream of an object does not change with its spot-name lists. */
  lemma {:induction false} ColorsIgnoreSpotNames(colors: seq<Observation>)
    ensures Colors(Identities(colors)) == Colors(colors)
    decreases |colors|
  {
    if colors != [] {
      ColorsIgnoreSpotNames(colors[1..]);
      IdentitiesUnfold(colors);
      assert Color(Identity(colors[0])) == Color(colors[0]);
    }
  }

  /** Exactly what a stream tells: it agrees for two objects if and only if their identities do. */
  lemma StreamIdentity(a: DigestInput, b: DigestInput)
    requires Fits(a) && Fits(b)
    ensures Stream(a) == Stream(b) <==> IdentityOf(a) == IdentityOf(b)
  {
    StreamOfIdentity(a);
    StreamOfIdentity(b);
    if Stream(a) == Stream(b) {
      StreamInjective(a, b);
    }
  }

  lemma StreamOfIdentity(a: DigestInput)
    ensures Stream(IdentityOf(a)) == Stream(a)
  {
    ColorsIgnoreSpotNames(ColorsOf(a));
    assert Payload(IdentityOf(a)) == Payload(a);
  }
}
