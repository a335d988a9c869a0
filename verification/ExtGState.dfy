/** Classified ExtGState parameters and how `gs` layers them (extgstate_env.rs). */
module ExtGStates {
  import opened Basics
  import opened FontEnvs

  /** In a resource, `Default` marks an absent key; in a snapshot, a value no `gs` has changed. */
  datatype GsParam<T> = Default | Set(value: T) | Unresolved | Unclassified

  datatype OverprintMode = Zero | One | OtherMode

  datatype AlphaClass = Opaque | NonOpaque

  datatype BlendModeClass = Normal | NonNormal | OtherNamed

  datatype SoftMaskClass = NoMask | MaskPresent

  /** The seven parameters, both as a resource carries them and as a snapshot holds them. */
  datatype GsParams = GsParams(
    overprintStroke: GsParam<bool>,
    overprintFill: GsParam<bool>,
    overprintMode: GsParam<OverprintMode>,
    strokeAlpha: GsParam<AlphaClass>,
    fillAlpha: GsParam<AlphaClass>,
    blendMode: GsParam<BlendModeClass>,
    softMask: GsParam<SoftMaskClass>)

  const NO_PARAMS := GsParams(Default, Default, Default, Default, Default, Default, Default)

  const ALL_UNRESOLVED :=
    GsParams(Unresolved, Unresolved, Unresolved, Unresolved, Unresolved, Unresolved, Unresolved)

  datatype ExtGStateResource = ExtGStateResource(
    name: Bytes, params: GsParams, hasUnclassifiedKeys: bool, font: ExtGStateFontDirective)

  function Layer<T>(current: GsParam<T>, incoming: GsParam<T>): GsParam<T> {
    if incoming.Default? then current else incoming
  }

  function Apply(current: GsParams, incoming: GsParams): GsParams {
    GsParams(
      Layer(current.overprintStroke, incoming.overprintStroke),
      Layer(current.overprintFill, incoming.overprintFill),
      Layer(current.overprintMode, incoming.overprintMode),
      Layer(current.strokeAlpha, incoming.strokeAlpha),
      Layer(current.fillAlpha, incoming.fillAlpha),
      Layer(current.blendMode, incoming.blendMode),
      Layer(current.softMask, incoming.softMask))
  }

  /** First resource of that name wins. */
  function ResolveExtGState(resources: seq<ExtGStateResource>, name: Bytes): Option<ExtGStateResource> {
    if resources == [] then None
    else if resources[0].name == name then Some(resources[0])
    else ResolveExtGState(resources[1..], name)
  }

  /** What one `gs` does to the seven parameters: off, a hit, or a miss in a non-empty environment. */
  function GsEffect(resources: seq<ExtGStateResource>, name: Bytes, current: GsParams): GsParams {
    if resources == [] then current
    else match ResolveExtGState(resources, name)
      case Some(resource) => Apply(current, resource.params)
      case None => ALL_UNRESOLVED
  }

  /** The parameters a single `gs` amounts to, whatever state it meets. */
  function GsAsParams(resources: seq<ExtGStateResource>, name: Bytes): GsParams {
    if resources == [] then NO_PARAMS
    else match ResolveExtGState(resources, name)
      case Some(resource) => resource.params
      case None => ALL_UNRESOLVED
  }

  /** Layering is a monoid acting on snapshots: unit, associativity, and an absorbing miss. */
  lemma LayeringLaws(current: GsParams, p: GsParams, q: GsParams)
    ensures Apply(current, NO_PARAMS) == current && Apply(NO_PARAMS, p) == p
    ensures Apply(Apply(current, p), q) == Apply(current, Apply(p, q))
    ensures Apply(current, ALL_UNRESOLVED) == ALL_UNRESOLVED
  {
  }

  /** A hit, a miss and a disabled environment are all one application of fixed parameters. */
  lemma GsIsApplication(resources: seq<ExtGStateResource>, name: Bytes, current: GsParams)
    ensures GsEffect(resources, name, current) == Apply(current, GsAsParams(resources, name))
  {
  }
}
