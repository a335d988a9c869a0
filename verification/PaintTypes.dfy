/** Stable identifiers, colour observations and provenance records (crate presslint-types). */
module PaintTypes {
  import opened Basics

  datatype ColorSpace =
    | DeviceGray | DeviceRgb | DeviceCmyk | IccBased | Lab | CalGray | CalRgb
    | Indexed | Separation | DeviceN | Pattern | Resource(name: Bytes) | UnknownSpace

  datatype ColorUsage = Fill | Stroke | Image | Shading

  datatype ContentScope = Page | FormXObject(name: Bytes) | AnnotationAppearance

  /** One form call: its position among the caller's form calls and the resource name used. */
  datatype InvocationFrame = InvocationFrame(ordinal: nat, name: Bytes)

  /** Form-call chain from page level inwards; empty means page content. */
  type InvocationPath = seq<InvocationFrame>

  /** Colour metadata on an inventory entry; `N` is the component type (a real, or a 64-bit pattern). */
  datatype ColorObservation<N> = ColorObservation(
    usage: ColorUsage,
    space: ColorSpace,
    components: seq<N>,
    spotName: Option<Bytes>,
    spotNames: seq<Bytes>,
    source: Option<ByteRange>)

  datatype TextRenderingMode =
    | FillText | StrokeText | FillThenStrokeText | InvisibleText | UnsupportedMode(value: int)
  {
    predicate UsesStroke() { StrokeText? || FillThenStrokeText? }
    predicate UsesFill() { FillText? || FillThenStrokeText? }
  }

  datatype TextShowOperator = ShowText | ShowTextAdjusted | MoveNextLineAndShowText | SetSpacingMoveNextLineAndShowText

  datatype PathPaintKind =
    | StrokePath | CloseAndStroke | FillNonzero | FillObsolete | FillEvenOdd
    | FillAndStrokeNonzero | FillAndStrokeEvenOdd | CloseFillAndStrokeNonzero | CloseFillAndStrokeEvenOdd | EndPath
  {
    predicate UsesStroke() {
      StrokePath? || CloseAndStroke? || FillAndStrokeNonzero? || FillAndStrokeEvenOdd?
      || CloseFillAndStrokeNonzero? || CloseFillAndStrokeEvenOdd?
    }
    predicate UsesFill() {
      FillNonzero? || FillObsolete? || FillEvenOdd? || FillAndStrokeNonzero? || FillAndStrokeEvenOdd?
      || CloseFillAndStrokeNonzero? || CloseFillAndStrokeEvenOdd?
    }
  }

  /** Effective text font; `F` is the size type (a real, or a 64-bit pattern). */
  datatype FontSelectionState<F> =
    | Unset
    | Selected(name: Bytes, size: F)
    | ResolvedIndirect(objectNumber: nat, generation: nat, objectByteOffset: nat, resolvedSize: F)
    | Indeterminate

  datatype ObjectKind = Text | Vector | ImageObject | FormObject

  datatype EditCapability =
    RewriteColorOperand | ReplaceImageStream | AddTextSpreadStroke | AdjustStrokeWidth | ReadOnly
}
