/**
 * The decisions around surface tessellation: which pieces a tessellated
 * geometry keeps (the pieces whose new bounding box is compared against
 * the geometry's box from before tessellation), and the quality presets
 * that fill the dialog's parameter fields.
 */
module Tessellation {
  import opened SceneTree
  import opened TreeWalk

  /** Slack, in scene units, allowed on every side of the original box. */
  const ToleranceValue: real := 1.0

  /**
   * Check `i` of the six: for the three minimum coordinates, the new minimum
   * is no smaller than the original one minus the tolerance; for the three
   * maximum coordinates, the new maximum is no larger than the original one plus
   * the tolerance.
   */
  function Check(orig: Box, piece: Box, tol: real, i: nat): bool
    requires i < 6
  {
    if i < 3 then orig.At(i) - tol <= piece.At(i) else orig.At(i) + tol >= piece.At(i)
  }

  /** The list `min + max` of the six checks, in coordinate order. */
  function Checks(orig: Box, piece: Box, tol: real): (r: seq<bool>)
    ensures |r| == 6
    ensures forall i :: 0 <= i < 6 ==> r[i] == Check(orig, piece, tol, i)
  {
    seq(6, i requires 0 <= i < 6 => Check(orig, piece, tol, i))
  }

  /** The set of values occurring in a list of booleans. */
  function Values(bs: seq<bool>): (r: set<bool>)
    ensures forall b :: b in r <==> b in bs
  {
    set k | 0 <= k < |bs| :: bs[k]
  }

  /**
   * `compareBoundingBox`: true (delete the piece) when the six checks do
   * not all agree. When they all agree the source returns None, which the
   * caller's `== True` test treats like false.
   */
  function CompareBoundingBox(orig: Box, piece: Box, tol: real): (r: bool)
    ensures r <==> exists i, j :: 0 <= i < 6 && 0 <= j < 6 && Check(orig, piece, tol, i) != Check(orig, piece, tol, j)
  {
    var cs := Checks(orig, piece, tol);
    var vs := Values(cs);
    if forall i :: 0 <= i < 6 ==> Check(orig, piece, tol, i) == cs[0] then
      assert vs == {cs[0]};
      |vs| != 1
    else
      var j :| 0 <= j < 6 && Check(orig, piece, tol, j) != cs[0];
      assert cs[j] in vs && cs[0] in vs;
      assert vs == {true, false};
      |vs| != 1
  }

  /** The new box lies inside the original box grown by `tol` on every side. */
  predicate InsideExpanded(orig: Box, piece: Box, tol: real)
  {
    && orig.xmin - tol <= piece.xmin && orig.ymin - tol <= piece.ymin && orig.zmin - tol <= piece.zmin
    && piece.xmax <= orig.xmax + tol && piece.ymax <= orig.ymax + tol && piece.zmax <= orig.zmax + tol
  }

  /** The new box sticks out of the grown original box on all six sides at once. */
  predicate EnclosesExpanded(orig: Box, piece: Box, tol: real)
  {
    && piece.xmin < orig.xmin - tol && piece.ymin < orig.ymin - tol && piece.zmin < orig.zmin - tol
    && orig.xmax + tol < piece.xmax && orig.ymax + tol < piece.ymax && orig.zmax + tol < piece.zmax
  }

  /**
   * A piece is deleted exactly when it is neither inside the grown box nor
   * outside it on all six sides: both uniform outcomes keep the piece.
   */
  lemma CompareBoundingBoxCases(orig: Box, piece: Box, tol: real)
    ensures CompareBoundingBox(orig, piece, tol) <==> !InsideExpanded(orig, piece, tol) && !EnclosesExpanded(orig, piece, tol)
  {
    if InsideExpanded(orig, piece, tol) {
      forall i | 0 <= i < 6 ensures Check(orig, piece, tol, i) {
      }
    } else if EnclosesExpanded(orig, piece, tol) {
      forall i | 0 <= i < 6 ensures !Check(orig, piece, tol, i) {
      }
    } else {
      var i := FailingCheck(orig, piece, tol);
      var j := PassingCheck(orig, piece, tol);
      assert Check(orig, piece, tol, i) != Check(orig, piece, tol, j);
    }
  }

  /** A check that fails when the new box is not inside the grown one. */
  function FailingCheck(orig: Box, piece: Box, tol: real): (i: nat)
    requires !InsideExpanded(orig, piece, tol)
    ensures i < 6 && !Check(orig, piece, tol, i)
  {
    if !Check(orig, piece, tol, 0) then 0
    else if !Check(orig, piece, tol, 1) then 1
    else if !Check(orig, piece, tol, 2) then 2
    else if !Check(orig, piece, tol, 3) then 3
    else if !Check(orig, piece, tol, 4) then 4
    else 5
  }

  /** A check that passes when the new box does not stick out on all sides. */
  function PassingCheck(orig: Box, piece: Box, tol: real): (i: nat)
    requires !EnclosesExpanded(orig, piece, tol)
    ensures i < 6 && Check(orig, piece, tol, i)
  {
    if Check(orig, piece, tol, 0) then 0
    else if Check(orig, piece, tol, 1) then 1
    else if Check(orig, piece, tol, 2) then 2
    else if Check(orig, piece, tol, 3) then 3
    else if Check(orig, piece, tol, 4) then 4
    else 5
  }

  /** With a non-negative tolerance a piece whose box did not change is kept. */
  lemma UnchangedBoxKept(b: Box, tol: real)
    requires tol >= 0.0
    ensures !CompareBoundingBox(b, b, tol)
  {
    CompareBoundingBoxCases(b, b, tol);
  }

  /** The predicate a piece of `orig`'s tessellation must pass to stay. */
  function Keeps(orig: Box): Node -> bool
  {
    (c: Node) => !CompareBoundingBox(orig, c.box, ToleranceValue)
  }

  /**
   * The geometry nodes the tool tessellates: every geometry reached from
   * each selected node, in selection order, without predicate.
   */
  function ProcessNodes(selected: seq<Node>): (r: seq<Node>)
    ensures forall k :: 0 <= k < |r| ==> r[k].IsGeo()
  {
    if selected == [] then [] else Collect(selected[0], AcceptAll) + ProcessNodes(selected[1..])
  }

  /**
   * The clean-up after tessellation. `before[i]` is a process node as it was
   * before tessellation and `after[i]` the same node as the host left it;
   * every child of `after[i]` whose box fails the comparison against
   * `before[i]`'s box is deleted.
   */
  function TrimTessellation(before: seq<Node>, after: seq<Node>): (r: seq<Node>)
    requires |before| == |after|
    ensures |r| == |after|
  {
    seq(|after|, i requires 0 <= i < |after| => after[i].(children := Filter(Keeps(before[i].box), after[i].children)))
  }

  /**
   * After the clean-up every node keeps exactly the pieces the comparison
   * does not reject, and only its children change.
   */
  lemma TrimTessellationKeepsExactly(before: seq<Node>, after: seq<Node>, i: nat, c: Node)
    requires |before| == |after| && i < |after|
    ensures var r := TrimTessellation(before, after)[i];
      && r == after[i].(children := r.children)
      && (c in r.children <==> c in after[i].children && !CompareBoundingBox(before[i].box, c.box, ToleranceValue))
  {
    FilterMembers(Keeps(before[i].box), after[i].children, c);
  }

  /** The dialog's parameter fields. */
  datatype Settings = Settings(
    chordalDeviation: string,
    normalTolerance: string,
    maxChordLength: string,
    enableStitching: bool,
    stitchingTolerance: string,
    preserveUVs: bool)

  /** The three numeric fields a quality preset fills. */
  datatype Preset = Preset(chordalDeviation: string, normalTolerance: string, maxChordLength: string)

  /** The quality combo box entries: rough, low, medium, high. */
  const QualityLabels: seq<string> := ["\U{7C97}\U{7CD9}", "\U{4F4E}", "\U{4E2D}\U{7B49}", "\U{9AD8}"]

  /** The preset each quality entry selects, in the same order. */
  const Presets: seq<Preset> := [
    Preset("1.00", "30.00", "400.00"),
    Preset("0.15", "20.00", "300.00"),
    Preset("0.075", "10.00", "200.00"),
    Preset("0.0375", "7.50", "100.00")]

  /** The entry the combo box starts on (medium). */
  const DefaultQualityIndex: nat := 2

  function FieldsOf(s: Settings): Preset
  {
    Preset(s.chordalDeviation, s.normalTolerance, s.maxChordLength)
  }

  /** `unifine_set`: overwrite the three numeric fields. */
  function ApplyPreset(s: Settings, p: Preset): Settings
  {
    s.(chordalDeviation := p.chordalDeviation, normalTolerance := p.normalTolerance, maxChordLength := p.maxChordLength)
  }

  /**
   * `setQuality`: a known label loads its preset into the three numeric
   * fields; any other text leaves the settings alone. The stitching and
   * UV fields are never touched.
   */
  function SetQuality(text: string, s: Settings): (r: Settings)
    ensures forall i :: 0 <= i < |QualityLabels| && text == QualityLabels[i] ==> FieldsOf(r) == Presets[i]
    ensures text !in QualityLabels ==> r == s
    ensures r.enableStitching == s.enableStitching && r.stitchingTolerance == s.stitchingTolerance
    ensures r.preserveUVs == s.preserveUVs
  {
    if text == "\U{7C97}\U{7CD9}" then ApplyPreset(s, Preset("1.00", "30.00", "400.00"))
    else if text == "\U{4F4E}" then ApplyPreset(s, Preset("0.15", "20.00", "300.00"))
    else if text == "\U{4E2D}\U{7B49}" then ApplyPreset(s, Preset("0.075", "10.00", "200.00"))
    else if text == "\U{9AD8}" then ApplyPreset(s, Preset("0.0375", "7.50", "100.00"))
    else s
  }

  /**
   * The dialog's starting values: the medium preset, stitching on with
   * tolerance `0.10`, UVs not preserved.
   */
  function DefaultSettings(): (r: Settings)
    ensures FieldsOf(r) == Presets[DefaultQualityIndex]
    ensures r.enableStitching && r.stitchingTolerance == "0.10" && !r.preserveUVs
  {
    Settings("0.075", "10.00", "200.00", true, "0.10", false)
  }

  /** Choosing the entry the combo box starts on changes nothing. */
  lemma DefaultMatchesInitialEntry()
    ensures SetQuality(QualityLabels[DefaultQualityIndex], DefaultSettings()) == DefaultSettings()
  {
  }

  /** Loading a preset twice is the same as loading it once. */
  lemma SetQualityIdempotent(text: string, s: Settings)
    ensures SetQuality(text, SetQuality(text, s)) == SetQuality(text, s)
  {
  }

  /** Distinct entries select distinct presets, so the label determines the fields. */
  lemma PresetsDistinct()
    ensures forall i, j :: 0 <= i < j < |Presets| ==> Presets[i] != Presets[j]
    ensures forall i, j :: 0 <= i < j < |QualityLabels| ==> QualityLabels[i] != QualityLabels[j]
  {
  }
}
