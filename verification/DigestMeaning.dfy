/** The identity stream and the lane step, said of byte positions, bits and tags in declaration order (digest.rs). */
module DigestMeaning {
  import opened Basics
  import opened PaintTypes
  import opened DigestEncoding
  import opened DigestMixer
  import opened StableDigests

  // ---- Bits ----------------------------------------------------------------

  function Bit(word: nat, i: nat): nat { (word / Power2(i)) % 2 }

  lemma HalfBit(word: nat, i: nat)
    ensures Bit(word, i + 1) == Bit(word / 2, i)
  {
    HalfDivides(word, Power2(i));
  }

  lemma HalfDivides(word: nat, power: nat)
    requires power > 0
    ensures word / (2 * power) == word / 2 / power
  {
    var half := word / 2;
    var q, r := half / power, half % power;
    assert half == power * q + r;
    TwiceDistributes(power, q);
    QuotientUnique(word, 2 * power, q, 2 * r + word % 2);
  }

  lemma TwiceDistributes(power: nat, q: nat)
    ensures 2 * power * q == 2 * (power * q)
  {
  }

  lemma QuotientUnique(word: nat, divisor: nat, quotient: nat, remainder: nat)
    requires remainder < divisor && word == divisor * quotient + remainder
    ensures word / divisor == quotient
  {
    var d, r := word / divisor, word % divisor;
    assert word == divisor * d + r;
    if d < quotient {
      Apart(divisor, d, quotient);
    } else if quotient < d {
      Apart(divisor, quotient, d);
    }
  }

  lemma Apart(divisor: nat, a: nat, b: nat)
    requires a < b
    ensures divisor * b >= divisor * a + divisor
  {
    assert divisor * b == divisor * a + divisor * (b - a);
    assert divisor * (b - a) >= divisor * 1 by {
      Grows(divisor, 1, b - a);
    }
  }

  lemma {:induction false} Grows(factor: nat, a: nat, b: nat)
    requires a <= b
    ensures factor * a <= factor * b
    decreases b
  {
    if a < b {
      Grows(factor, a, b - 1);
      assert factor * b == factor * (b - 1) + factor;
    }
  }

  /** Exclusive or, bit by bit. */
  lemma {:induction false} XorBits(a: nat, b: nat, i: nat)
    ensures Bit(Xor(a, b), i) == if Bit(a, i) == Bit(b, i) then 0 else 1
    decreases i
  {
    XorHalves(a, b);
    if i > 0 {
      HalfBit(a, i - 1);
      HalfBit(b, i - 1);
      HalfBit(Xor(a, b), i - 1);
      XorBits(a / 2, b / 2, i - 1);
    } else {
      assert Power2(0) == 1;
    }
  }

  /** A shift divides by a power of two. */
  lemma {:induction false} ShiftDivides(a: nat, count: nat)
    ensures ShiftRight(a, count) == a / Power2(count)
    decreases count
  {
    if count > 0 {
      ShiftDivides(a / 2, count - 1);
      HalfDivides(a, Power2(count - 1));
    }
  }

  lemma HalfWord()
    ensures Power2(32) == 0x1_0000_0000
  {
    assert Power2(8) == 0x100;
    assert Power2(16) == 0x1_0000;
    assert Power2(24) == 0x100_0000;
  }

  /**
   * The lane step: the byte and the lane number, as one sixteen-bit word, are added to the lane without carry; the
   * result is multiplied by 2^40 + 0x1b3 modulo 2^64; and its high half is added to its low half without carry.
   */
  lemma MixLaneMeans(lane: nat, value: Byte, index: nat, i: nat)
    ensures var keyed := Xor(lane, value as int + index * 0x100);
      var product := (keyed * 0x100_0000_0000 + keyed * 0x1b3) % 0x1_0000_0000_0000_0000;
      Bit(keyed, i) == (if Bit(lane, i) == Bit(value as int + index * 0x100, i) then 0 else 1)
      && Bit(MixLane(lane, value, index), i)
         == if Bit(product, i) == Bit(product / 0x1_0000_0000, i) then 0 else 1
  {
    hide Xor, ShiftRight, Bit, Power2;
    var keyed := Xor(lane, value as int + index * 0x100);
    var product := Multiply(keyed);
    assert product == (keyed * 0x100_0000_0000 + keyed * 0x1b3) % 0x1_0000_0000_0000_0000;
    XorBits(lane, value as int + index * 0x100, i);
    ShiftDivides(product, 32);
    HalfWord();
    XorBits(product, product / 0x1_0000_0000, i);
  }

  // ---- Bytes ---------------------------------------------------------------

  /** Byte `i` of an encoded word is its `i`-th digit to base 256, the lowest first. */
  lemma {:induction false} LittleEndianDigits(value: nat, width: nat, i: nat)
    requires i < width
    ensures LittleEndian(value, width)[i] as int == (value / Power2(8 * i)) % 256
    decreases width
  {
    if i == 0 {
      assert Power2(0) == 1;
    } else {
      LittleEndianDigits(value / 256, width - 1, i - 1);
      ByteDivides(value, 8 * (i - 1));
      assert 8 * (i - 1) + 8 == 8 * i;
    }
  }

  lemma ByteDivides(value: nat, bits: nat)
    ensures value / Power2(bits + 8) == value / 256 / Power2(bits)
  {
    ShiftDivides(value, bits + 8);
    ShiftDivides(value / 256, bits);
    ShiftAdds(value, 8, bits);
    ShiftDivides(value, 8);
    assert Power2(8) == 256;
  }

  // ---- Tags ----------------------------------------------------------------

  const PATH_PAINTS: seq<PathPaintKind> := [
    StrokePath, CloseAndStroke, FillNonzero, FillObsolete, FillEvenOdd, FillAndStrokeNonzero, FillAndStrokeEvenOdd,
    CloseFillAndStrokeNonzero, CloseFillAndStrokeEvenOdd, EndPath]

  const TEXT_SHOWS: seq<TextShowOperator> :=
    [ShowText, ShowTextAdjusted, MoveNextLineAndShowText, SetSpacingMoveNextLineAndShowText]

  const USAGES: seq<ColorUsage> := [Fill, Stroke, Image, Shading]

  const PLAIN_SPACES: seq<ColorSpace> := [
    DeviceGray, DeviceRgb, DeviceCmyk, IccBased, Lab, CalGray, CalRgb, Indexed, Separation, DeviceN, Pattern]

  /** Every tag is the position of its variant in declaration order. */
  lemma TagsCountVariants(paint: PathPaintKind, operator: TextShowOperator, usage: ColorUsage, space: ColorSpace,
                          mode: TextRenderingMode, font: FontSelection, scope: ContentScope)
    ensures [mode.FillText?, mode.StrokeText?, mode.FillThenStrokeText?, mode.InvisibleText?, mode.UnsupportedMode?]
      == seq(5, i => i == ModeTag(mode))
    ensures [font.Unset?, font.Selected?, font.Indeterminate?, font.ResolvedIndirect?]
      == seq(4, i => i == FontTag(font))
    ensures [scope.Page?, scope.FormXObject?, scope.AnnotationAppearance?] == seq(3, i => i == ScopeTag(scope))
    ensures PathPaintTag(paint) < |PATH_PAINTS| && PATH_PAINTS[PathPaintTag(paint)] == paint
    ensures TextShowTag(operator) < |TEXT_SHOWS| && TEXT_SHOWS[TextShowTag(operator)] == operator
    ensures UsageTag(usage) < |USAGES| && USAGES[UsageTag(usage)] == usage
    ensures if space.Resource? then SpaceTag(space) == |PLAIN_SPACES|
            else if space.UnknownSpace? then SpaceTag(space) == |PLAIN_SPACES| + 1
            else SpaceTag(space) < |PLAIN_SPACES| && PLAIN_SPACES[SpaceTag(space)] == space
  {
  }

  // ---- Layout --------------------------------------------------------------

  /** The bytes at an offset. */
  ghost predicate Holds(stream: Bytes, at: nat, piece: Bytes) {
    at + |piece| <= |stream| && stream[at..at + |piece|] == piece
  }

  /** A little-endian word of the given width at an offset. */
  ghost predicate HoldsWord(stream: Bytes, at: nat, value: nat, width: nat) {
    Holds(stream, at, LittleEndian(value, width))
  }

  lemma HoldsInFront(front: Bytes, rest: Bytes, at: nat, piece: Bytes)
    ensures Holds(front, at, piece) ==> Holds(front + rest, at, piece)
  {
    if Holds(front, at, piece) {
      assert (front + rest)[at..at + |piece|] == front[at..at + |piece|];
    }
  }

  lemma HoldsBehind(front: Bytes, rest: Bytes, at: nat, piece: Bytes)
    ensures Holds(rest, at, piece) ==> Holds(front + rest, |front| + at, piece)
  {
    if Holds(rest, at, piece) {
      assert (front + rest)[|front| + at..|front| + at + |piece|] == rest[at..at + |piece|];
    }
  }

  lemma HoldsAll(piece: Bytes)
    ensures Holds(piece, 0, piece)
  {
    assert piece[0..|piece|] == piece;
  }

  /** A piece between a front and a rest. */
  lemma HoldsBetween(front: Bytes, piece: Bytes, rest: Bytes)
    ensures Holds(front + (piece + rest), |front|, piece)
  {
    HoldsAll(piece);
    HoldsInFront(piece, rest, 0, piece);
    HoldsBehind(front, piece + rest, 0, piece);
  }

  /** What identifies the kind of an object, spelled out. */
  ghost predicate KindSpelled(input: DigestInput, tag: Bytes) {
    match input
    case VectorInput(_, _, _) => tag == "presslint.vector.v3"
    case TextInput(_, _, _, _, _) => tag == "presslint.text.v5"
    case ImageInput(_, _, _) => tag == "presslint.image.v3"
    case FormInput(_, _) => tag == "presslint.form.v3"
  }

  /** Every stream starts with the length of its kind's tag and the tag, and goes on with the header. */
  lemma StreamLayout(input: DigestInput, tag: Bytes)
    requires KindSpelled(input, tag)
    ensures HoldsWord(Stream(input), 0, |tag|, 8) && Holds(Stream(input), 8, tag)
    ensures Holds(Stream(input), 8 + |tag|, Header(input.header))
    ensures Holds(Stream(input), 8 + |tag| + |Header(input.header)|, Payload(input))
    ensures |Stream(input)| == 8 + |tag| + |Header(input.header)| + |Payload(input)|
  {
    hide Header, Payload, Holds;
    var header, payload := Header(input.header), Payload(input);
    var start := LengthPrefixed(tag);
    HoldsAll(U64(|tag|));
    HoldsInFront(U64(|tag|), tag, 0, U64(|tag|));
    HoldsInFront(start, header + payload, 0, U64(|tag|));
    HoldsAll(tag);
    HoldsBehind(U64(|tag|), tag, 0, tag);
    HoldsInFront(start, header + payload, 8, tag);
    HoldsBetween(start, header, payload);
    assert start + (header + payload) == (start + header) + payload;
    HoldsAll(payload);
    HoldsBehind(start + header, payload, 0, payload);
  }

  /** Four pieces one after the other. */
  lemma HoldsFour(a: Bytes, b: Bytes, c: Bytes, d: Bytes)
    ensures var all := a + (b + (c + d));
      Holds(all, 0, a) && Holds(all, |a|, b) && Holds(all, |a| + |b|, c) && Holds(all, |a| + |b| + |c|, d)
      && |all| == |a| + |b| + |c| + |d|
  {
    hide Holds;
    HoldsAll(a);
    HoldsInFront(a, b + (c + d), 0, a);
    HoldsBetween(a, b, c + d);
    assert a + (b + (c + d)) == (a + b) + (c + d);
    HoldsBetween(a + b, c, d);
    assert a + (b + (c + d)) == (a + b + c) + d;
    HoldsAll(d);
    HoldsBehind(a + b + c, d, 0, d);
  }

  /** Index and ranges, the last fields of every header. */
  function HeaderTail(h: EventHeader): Bytes {
    U64(h.index) + (Range(h.recordRange) + Range(h.operatorRange))
  }

  lemma TailLayout(h: EventHeader)
    ensures var tail := HeaderTail(h);
      |tail| == 40 && HoldsWord(tail, 0, h.index, 8)
      && HoldsWord(tail, 8, h.recordRange.start, 8) && HoldsWord(tail, 16, h.recordRange.end, 8)
      && HoldsWord(tail, 24, h.operatorRange.start, 8) && HoldsWord(tail, 32, h.operatorRange.end, 8)
  {
    hide LittleEndian, Holds;
    var e, f, g := U64(h.index), U64(h.recordRange.start), U64(h.recordRange.end);
    var i, j := U64(h.operatorRange.start), U64(h.operatorRange.end);
    var ranges := f + (g + (i + j));
    assert HeaderTail(h) == e + ranges;
    HoldsFour(f, g, i, j);
    HoldsAll(e);
    HoldsInFront(e, ranges, 0, e);
    HoldsBehind(e, ranges, 0, f);
    HoldsBehind(e, ranges, 8, g);
    HoldsBehind(e, ranges, 16, i);
    HoldsBehind(e, ranges, 24, j);
  }

  /** The header of an event of page content, field by field at its offset. */
  lemma PageHeaderLayout(h: EventHeader)
    requires h.scope == Page && h.path == []
    ensures var header := Header(h);
      |header| == 53 && HoldsWord(header, 0, h.page, 4) && HoldsWord(header, 4, h.sequence, 4)
      && HoldsWord(header, 8, 0, 1) && HoldsWord(header, 9, 0, 4) && HoldsWord(header, 13, h.index, 8)
      && HoldsWord(header, 21, h.recordRange.start, 8) && HoldsWord(header, 29, h.recordRange.end, 8)
      && HoldsWord(header, 37, h.operatorRange.start, 8) && HoldsWord(header, 45, h.operatorRange.end, 8)
  {
    hide LittleEndian, Holds, HeaderTail;
    var a, b, c, d, tail := U32(h.page), U32(h.sequence), Tag(0), U32(0), HeaderTail(h);
    var front := a + (b + (c + d));
    HeaderParts(h);
    HoldsFour(a, b, c, d);
    TailLayout(h);
    HoldsInFront(front, tail, 0, a);
    HoldsInFront(front, tail, 4, b);
    HoldsInFront(front, tail, 8, c);
    HoldsInFront(front, tail, 9, d);
    HoldsBehind(front, tail, 0, U64(h.index));
    HoldsBehind(front, tail, 8, U64(h.recordRange.start));
    HoldsBehind(front, tail, 16, U64(h.recordRange.end));
    HoldsBehind(front, tail, 24, U64(h.operatorRange.start));
    HoldsBehind(front, tail, 32, U64(h.operatorRange.end));
  }

  lemma HeaderParts(h: EventHeader)
    requires h.scope == Page && h.path == []
    ensures Header(h) == U32(h.page) + (U32(h.sequence) + (Tag(0) + U32(0))) + HeaderTail(h)
  {
    hide LittleEndian;
    assert Scope(h.scope) == Tag(0) && Frames(h.path) == [];
  }

  /** What follows the header, piece by piece: the tag of the action or the name, then mode and font, then colours. */
  lemma PayloadLayout(input: DigestInput)
    ensures var payload := Payload(input);
      match input
      case VectorInput(_, paint, colors) =>
        HoldsWord(payload, 0, PathPaintTag(paint), 1) && Holds(payload, 1, Colors(colors))
      case TextInput(_, operator, mode, font, colors) =>
        HoldsWord(payload, 0, TextShowTag(operator), 1) && Holds(payload, 1, RenderingMode(mode))
        && Holds(payload, 1 + |RenderingMode(mode)|, Font(font))
        && Holds(payload, 1 + |RenderingMode(mode)| + |Font(font)|, Colors(colors))
      case ImageInput(_, name, colors) =>
        HoldsWord(payload, 0, |name|, 8) && Holds(payload, 8, name) && Holds(payload, 8 + |name|, Colors(colors))
      case FormInput(_, name) => HoldsWord(payload, 0, |name|, 8) && Holds(payload, 8, name)
  {
    hide Holds, LittleEndian, Colors, RenderingMode, Font;
    match input {
      case VectorInput(_, paint, colors) =>
        var all := Tag(PathPaintTag(paint)) + Colors(colors);
        HoldsFour(Tag(PathPaintTag(paint)), Colors(colors), [], []);
        assert all == Tag(PathPaintTag(paint)) + (Colors(colors) + ([] + []));
      case TextInput(_, operator, mode, font, colors) =>
        HoldsFour(Tag(TextShowTag(operator)), RenderingMode(mode), Font(font), Colors(colors));
      case ImageInput(_, name, colors) =>
        HoldsFour(U64(|name|), name, Colors(colors), []);
        assert Payload(input) == U64(|name|) + (name + (Colors(colors) + []));
      case FormInput(_, name) =>
        HoldsFour(U64(|name|), name, [], []);
        assert Payload(input) == U64(|name|) + (name + ([] + []));
    }
  }

  /** One colour: usage, space, components, spot name, source, in this order. */
  lemma ColorLayout(color: Observation)
    ensures var stream := Color(color);
      var s := Space(color.space);
      var c := Components(color.components);
      var o := OptionalName(color.spotName);
      HoldsWord(stream, 0, UsageTag(color.usage), 1) && Holds(stream, 1, s) && Holds(stream, 1 + |s|, c)
      && Holds(stream, 1 + |s| + |c|, o) && Holds(stream, 1 + |s| + |c| + |o|, OptionalRange(color.source))
    ensures HoldsWord(Components(color.components), 0, |color.components|, 8)
    ensures forall i | 0 <= i < |color.components| ::
      HoldsWord(Components(color.components), 8 + 8 * i, color.components[i], 8)
  {
    hide Holds, LittleEndian, Space, Components, OptionalName, OptionalRange;
    var t, s, c, o, r := Tag(UsageTag(color.usage)), Space(color.space), Components(color.components),
      OptionalName(color.spotName), OptionalRange(color.source);
    HoldsFour(t, s, c, o + r);
    HoldsFour(t + s, c, o, r);
    assert Color(color) == (t + s) + (c + (o + r));
    WordsLayout(color.components);
  }

  lemma {:induction false} WordsLayout(words: seq<nat>)
    ensures HoldsWord(Components(words), 0, |words|, 8)
    ensures forall i | 0 <= i < |words| :: HoldsWord(Components(words), 8 + 8 * i, words[i], 8)
  {
    hide Holds, LittleEndian, Words;
    HoldsAll(U64(|words|));
    HoldsInFront(U64(|words|), Words(words), 0, U64(|words|));
    forall i | 0 <= i < |words| ensures HoldsWord(Components(words), 8 + 8 * i, words[i], 8) {
      WordAt(words, i);
      HoldsBehind(U64(|words|), Words(words), 8 * i, U64(words[i]));
    }
  }

  lemma {:induction false} WordAt(words: seq<nat>, i: nat)
    requires i < |words|
    ensures HoldsWord(Words(words), 8 * i, words[i], 8)
    decreases i
  {
    hide Holds, LittleEndian;
    var first, rest := U64(words[0]), Words(words[1..]);
    if i == 0 {
      HoldsAll(first);
      HoldsInFront(first, rest, 0, first);
    } else {
      WordAt(words[1..], i - 1);
      HoldsBehind(first, rest, 8 * (i - 1), U64(words[i]));
    }
  }

  /** Where a digest starts: the four lanes of an object that has absorbed nothing, written out. */
  lemma EmptyStreamDigest()
    ensures Finish(Absorb(SEED, [])) == LittleEndian(0xcbf2_9ce4_8422_2325, 8) + (LittleEndian(0x8422_2325_cbf2_9ce4, 8)
      + (LittleEndian(0x9e37_79b1_85eb_ca87, 8) + LittleEndian(0xc2b2_ae3d_27d4_eb4f, 8)))
  {
    hide LittleEndian;
  }
}
