/** The stored parameters of the base curve module in its three versions,
    and legacy_params, which upgrades version 1 or 2 parameters and refuses
    every other pair of versions. */
module Params {
  /** MAXNODES: the capacity of one curve. */
  const MaxNodes: nat := 20
  /** The number of curves stored (only the first is used). */
  const CurveCount: nat := 3
  /** The number of nodes a version 1 curve has. */
  const V1Nodes: nat := 6

  /** Interpolation types. The values are those of curve_tools.h, which is
      not part of this model; only their being distinct matters here. */
  const CubicSpline: int := 0
  const MonotoneHermite: int := 2

  /** One node of a curve. */
  datatype Node = Node(x: real, y: real)

  const Origin: Node := Node(0.0, 0.0)

  /** Version 1: a fixed six-node curve and a preset number. */
  datatype ParamsV1 = ParamsV1(xs: seq<real>, ys: seq<real>, preset: int)

  /** Version 2: three curves of up to 20 nodes, their node counts and
      interpolation types. */
  datatype ParamsV2 = ParamsV2(curves: seq<seq<Node>>, nodes: seq<int>, types: seq<int>)

  /** Version 3, the current one: version 2 plus the number of extra
      exposures for exposure fusion and the stops between them. */
  datatype Params = Params(curves: seq<seq<Node>>, nodes: seq<int>, types: seq<int>,
                           exposureFusion: int, exposureStops: real)

  predicate ValidV1(p: ParamsV1) {
    |p.xs| == V1Nodes && |p.ys| == V1Nodes
  }

  predicate ValidCurves(curves: seq<seq<Node>>, nodes: seq<int>, types: seq<int>) {
    && |curves| == CurveCount && |nodes| == CurveCount && |types| == CurveCount
    && forall c :: 0 <= c < CurveCount ==> |curves[c]| == MaxNodes
  }

  predicate ValidV2(p: ParamsV2) {
    ValidCurves(p.curves, p.nodes, p.types)
  }

  predicate Valid(p: Params) {
    ValidCurves(p.curves, p.nodes, p.types)
  }

  /** The stored blob handed to legacy_params, tagged with its version: a
      version 1 or version 2 record, or a blob of any other version, whose
      contents legacy_params never reads. */
  datatype OldParams = FromV1(v1: ParamsV1) | FromV2(v2: ParamsV2) | FromOther(version: int)

  function OldVersion(blob: OldParams): int {
    match blob
    case FromV1(_) => 1
    case FromV2(_) => 2
    case FromOther(v) => v
  }

  /** What legacy_params writes into the new buffer, in the layout of the
      requested version. */
  datatype NewParams = AsV2(p2: ParamsV2) | AsV3(p3: Params)

  /** The outcome of legacy_params: return value 0 with the new parameters,
      or 1 (unsupported pair of versions) with nothing written. */
  datatype Migration = Migrated(params: NewParams) | Unsupported

  function Status(m: Migration): int {
    if m.Migrated? then 0 else 1
  }

  /** Curve 0 of a migrated version 1 blob: the six nodes, then zeros. The
      default nodes {0,0} and {1,1} of the initialiser are overwritten by
      the first two of the six. */
  function V1Curve(p: ParamsV1): (curve: seq<Node>)
    requires ValidV1(p)
    ensures |curve| == MaxNodes
    ensures forall k :: 0 <= k < V1Nodes ==> curve[k] == Node(p.xs[k], p.ys[k])
    ensures forall k :: V1Nodes <= k < MaxNodes ==> curve[k] == Origin
  {
    seq(MaxNodes, k requires 0 <= k < MaxNodes =>
      if k < V1Nodes then Node(p.xs[k], p.ys[k]) else Origin)
  }

  /** A curve of 20 zero nodes: what the initialiser leaves in curves 1
      and 2. */
  function EmptyCurve(): (curve: seq<Node>)
    ensures |curve| == MaxNodes && forall k :: 0 <= k < MaxNodes ==> curve[k] == Origin
  {
    seq(MaxNodes, _ => Origin)
  }

  /** The curves, counts and types a version 1 blob migrates to: its six
      nodes as a cubic spline in curve 0, node counts {6, 3, 3}, and
      monotone Hermite for the two unused curves. */
  function V1ToV2(p: ParamsV1): (r: ParamsV2)
    requires ValidV1(p)
    ensures ValidV2(r)
    ensures r.nodes == [6, 3, 3] && r.types == [CubicSpline, MonotoneHermite, MonotoneHermite]
    ensures forall k :: 0 <= k < V1Nodes ==> r.curves[0][k] == Node(p.xs[k], p.ys[k])
    ensures forall c, k :: 0 <= c < CurveCount && 0 <= k < MaxNodes && (c > 0 || k >= V1Nodes) ==>
      r.curves[c][k] == Origin
  {
    ParamsV2([V1Curve(p), EmptyCurve(), EmptyCurve()], [V1Nodes, 3, 3],
             [CubicSpline, MonotoneHermite, MonotoneHermite])
  }

  /** The version 1 to version 3 branch: as version 1 to 2, with exposure
      fusion off. */
  function V1ToV3(p: ParamsV1): (r: Params)
    requires ValidV1(p)
    ensures Valid(r)
    ensures r.exposureFusion == 0 && r.exposureStops == 0.0
    ensures r.nodes == [6, 3, 3] && r.types == [CubicSpline, MonotoneHermite, MonotoneHermite]
    ensures forall k :: 0 <= k < V1Nodes ==> r.curves[0][k] == Node(p.xs[k], p.ys[k])
    ensures forall c, k :: 0 <= c < CurveCount && 0 <= k < MaxNodes && (c > 0 || k >= V1Nodes) ==>
      r.curves[c][k] == Origin
  {
    Params([V1Curve(p), EmptyCurve(), EmptyCurve()], [V1Nodes, 3, 3],
           [CubicSpline, MonotoneHermite, MonotoneHermite], 0, 0.0)
  }

  /** The version 2 to version 3 branch: the version 2 fields copied, then
      exposure fusion off. */
  function V2ToV3(p: ParamsV2): (r: Params)
    ensures r.exposureFusion == 0 && r.exposureStops == 0.0
    ensures ValidV2(p) ==> Valid(r)
  {
    Params(p.curves, p.nodes, p.types, 0, 0.0)
  }

  /** The version 2 part of version 3 parameters. */
  function ToV2(p: Params): (r: ParamsV2)
    ensures Valid(p) ==> ValidV2(r)
  {
    ParamsV2(p.curves, p.nodes, p.types)
  }

  /** legacy_params: versions 1 to 2, 1 to 3 and 2 to 3 are converted;
      every other pair is refused. */
  function LegacyParams(blob: OldParams, newVersion: int): (m: Migration)
    requires blob.FromV1? ==> ValidV1(blob.v1)
    requires blob.FromOther? ==> blob.version != 1 && blob.version != 2
    ensures Status(m) == 0 <==>
      (OldVersion(blob) == 1 && (newVersion == 2 || newVersion == 3)) ||
      (OldVersion(blob) == 2 && newVersion == 3)
    ensures m.Migrated? && newVersion == 2 ==> m.params.AsV2?
    ensures m.Migrated? && newVersion == 3 ==>
      m.params.AsV3? && m.params.p3.exposureFusion == 0 && m.params.p3.exposureStops == 0.0
    ensures m.Migrated? && blob.FromV2? ==> ToV2(m.params.p3) == blob.v2
    ensures m.Migrated? && blob.FromV1? ==>
      var curves := if m.params.AsV2? then m.params.p2.curves else m.params.p3.curves;
      var nodes := if m.params.AsV2? then m.params.p2.nodes else m.params.p3.nodes;
      && nodes == [6, 3, 3]
      && |curves| == CurveCount && |curves[0]| == MaxNodes
      && (forall k :: 0 <= k < V1Nodes ==> curves[0][k] == Node(blob.v1.xs[k], blob.v1.ys[k]))
  {
    match blob
    case FromV1(p) =>
      if newVersion == 2 then Migrated(AsV2(V1ToV2(p)))
      else if newVersion == 3 then Migrated(AsV3(V1ToV3(p)))
      else Unsupported
    case FromV2(p) =>
      if newVersion == 3 then Migrated(AsV3(V2ToV3(p)))
      else Unsupported
    case FromOther(_) => Unsupported
  }

  /** Upgrading version 2 parameters keeps every version 2 field: dropping
      the new fields gives back the input. */
  lemma V2ToV3KeepsCurves(p: ParamsV2)
    ensures ToV2(V2ToV3(p)) == p
  {
  }

  /** The two routes from version 1 to version 3 agree: converting to
      version 2 and then to version 3 gives what the direct branch gives. */
  lemma V1RoutesAgree(p: ParamsV1)
    requires ValidV1(p)
    ensures LegacyParams(FromV1(p), 3) == Migrated(AsV3(V2ToV3(LegacyParams(FromV1(p), 2).params.p2)))
  {
  }
}
