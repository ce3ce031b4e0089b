/**
 * The spatial material matcher. Every geometry leaf under the new node first
 * gets the check material; then every geometry leaf under the old node is
 * compared with it, and each old leaf that is close enough, of a similar
 * size, similarly oriented and of a similar child count hands over its
 * material. There is no early exit, so the last such old leaf wins.
 *
 * The source compares square roots (`pow(..., 0.5)`). Here the comparisons
 * are stated on squares, which needs no square root; `QualifiesWithRoots`
 * states them with the roots given as inputs, and `QualifiesIffRootForm`
 * proves the two agree whenever the inputs are the true roots.
 */
module MaterialMatch {
  import opened SceneTree
  import opened TreeWalk
  import opened Wrappers

  /** The material every new leaf gets before matching. */
  const CheckMat: Material := "CheckMat"

  /** Minimum cosine between the two box diagonals. */
  const CosThreshold: real := 0.8

  /** Minimum ratio between the two child counts. */
  const CountThreshold: real := 0.5

  // ---------------------------------------------------------------------
  // Vector arithmetic.

  function Sub(a: Vec3, b: Vec3): Vec3
  {
    Vec3(a.x - b.x, a.y - b.y, a.z - b.z)
  }

  function Dot(a: Vec3, b: Vec3): real
  {
    a.x * b.x + a.y * b.y + a.z * b.z
  }

  /** The squared length of a vector. */
  function Norm2(a: Vec3): (r: real)
    ensures r >= 0.0
  {
    a.x * a.x + a.y * a.y + a.z * a.z
  }

  /** `getBoundingBoxVector`: the diagonal from the max corner to the min corner. */
  function Diagonal(b: Box): Vec3
  {
    Vec3(b.xmin - b.xmax, b.ymin - b.ymax, b.zmin - b.zmax)
  }

  /** `s` is the non-negative square root of `x`. */
  predicate IsSqrt(s: real, x: real)
  {
    s >= 0.0 && s * s == x
  }

  // ---------------------------------------------------------------------
  // The two similarity measures.

  /**
   * `Calpercent`: the smaller value over the larger, 1 when they are equal,
   * and 0 where the larger one is zero.
   */
  function Calpercent(a: real, b: real): real
  {
    if a < b then (if b != 0.0 then a / b else 0.0)
    else if a > b then (if a != 0.0 then b / a else 0.0)
    else 1.0
  }

  /** The ratio is 1 exactly for equal values, and lies in [0, 1] for non-negative ones. */
  lemma CalpercentRange(a: real, b: real)
    ensures 0.0 <= a && 0.0 <= b ==> 0.0 <= Calpercent(a, b) <= 1.0
    ensures Calpercent(a, b) == 1.0 <==> a == b
  {
    if a < b {
      RatioBelowOne(a, b);
    } else if a > b {
      RatioBelowOne(b, a);
    }
  }

  /** The smaller value over a larger non-zero one is not 1, and lies in [0, 1) when both are non-negative. */
  lemma RatioBelowOne(x: real, y: real)
    requires x < y
    ensures y != 0.0 ==> x / y != 1.0
    ensures 0.0 <= x ==> 0.0 <= x / y < 1.0
  {
    if y != 0.0 {
      assert (x / y) * y == x;
      if 0.0 <= x {
        assert y > 0.0;
      }
    }
  }

  /** The ratio does not depend on the order of its arguments. */
  lemma CalpercentSymmetric(a: real, b: real)
    ensures Calpercent(a, b) == Calpercent(b, a)
  {
  }

  /** On non-negative values, the ratio of the squares is the square of the ratio. */
  lemma CalpercentOfSquares(a: real, b: real)
    requires 0.0 <= a && 0.0 <= b
    ensures Calpercent(a * a, b * b) == Calpercent(a, b) * Calpercent(a, b)
  {
    if a < b {
      RatioOfSquares(a, b);
    } else if a > b {
      RatioOfSquares(b, a);
    }
  }

  lemma RatioOfSquares(a: real, b: real)
    requires 0.0 <= a < b
    ensures a * a < b * b
    ensures (a * a) / (b * b) == (a / b) * (a / b)
  {
    SquareStrictlyMonotone(a, b);
    var p := a / b;
    assert a == p * b;
    assert a * a == (p * p) * (b * b);
  }

  lemma SquareStrictlyMonotone(x: real, y: real)
    requires 0.0 <= x < y
    ensures x * x < y * y
  {
    var d := y - x;
    assert y * y == x * x + 2.0 * x * d + d * d;
    assert x * d >= 0.0;
    assert d * d > 0.0;
  }

  /** For non-negative values, comparing squares is comparing the values. */
  lemma SquareMonotone(x: real, y: real)
    requires 0.0 <= x && 0.0 <= y
    ensures x <= y <==> x * x <= y * y
  {
    if y < x {
      SquareStrictlyMonotone(y, x);
    } else {
      assert x * x <= x * y <= y * y;
    }
  }

  /**
   * `cos_sim` with the two vector lengths given: the cosine of the angle
   * between the vectors, or 0 when either length is zero.
   */
  function CosSim(u: Vec3, v: Vec3, lu: real, lv: real): real
  {
    if lu * lv != 0.0 then Dot(u, v) / (lu * lv) else 0.0
  }

  // ---------------------------------------------------------------------
  // The old leaves as the matcher sees them.

  /** One entry of the old side: a centre, its box diagonal, its material, its child count. */
  datatype Candidate = Candidate(center: Vec3, diag: Vec3, material: Material, childCount: int)

  /** Position of the first old leaf whose centre is `c` (`list.index`). */
  function FirstIndexOf(olds: seq<Node>, c: Vec3): (k: nat)
    requires exists j :: 0 <= j < |olds| && olds[j].center == c
    ensures k < |olds| && olds[k].center == c
    ensures forall j :: 0 <= j < k ==> olds[j].center != c
  {
    if olds[0].center == c then 0
    else
      var j :| 0 <= j < |olds| && olds[j].center == c;
      assert olds[1..][j - 1].center == c;
      1 + FirstIndexOf(olds[1..], c)
  }

  /**
   * The centre-to-diagonal dictionary, filled in walk order: a later leaf
   * with the same centre overwrites the entry of an earlier one.
   */
  function DiagonalDict(olds: seq<Node>): (d: map<Vec3, Vec3>)
    ensures forall c :: c in d <==> exists j :: 0 <= j < |olds| && olds[j].center == c
  {
    if olds == [] then map[]
    else
      var init := DiagonalDict(olds[..|olds| - 1]);
      var last := olds[|olds| - 1];
      assert forall j :: 0 <= j < |olds| - 1 ==> olds[..|olds| - 1][j] == olds[j];
      init[last.center := Diagonal(last.box)]
  }

  /** The dictionary holds the diagonal of the last leaf with each centre. */
  lemma {:induction false} DiagonalDictLast(olds: seq<Node>, k: nat)
    requires k < |olds|
    requires forall j :: k < j < |olds| ==> olds[j].center != olds[k].center
    ensures olds[k].center in DiagonalDict(olds)
    ensures DiagonalDict(olds)[olds[k].center] == Diagonal(olds[k].box)
  {
    if k < |olds| - 1 {
      var pre := olds[..|olds| - 1];
      assert pre[k] == olds[k];
      DiagonalDictLast(pre, k);
    }
  }

  /**
   * The candidates in the order the inner loop visits them: one per old
   * leaf. Its diagonal comes from the dictionary, so from the LAST old leaf
   * with that centre; its material and child count come from the FIRST.
   */
  function OldCandidates(olds: seq<Node>): (r: seq<Candidate>)
    ensures |r| == |olds|
    ensures forall k :: 0 <= k < |olds| ==> r[k].center == olds[k].center
  {
    var dict := DiagonalDict(olds);
    seq(|olds|, k requires 0 <= k < |olds| =>
      var first := olds[FirstIndexOf(olds, olds[k].center)];
      Candidate(olds[k].center, dict[olds[k].center], first.material, |first.children|))
  }

  /**
   * Where two old leaves share a centre, every candidate with that centre
   * carries the first leaf's material and child count and the last leaf's
   * diagonal.
   */
  lemma OldCandidatesMixLeaves(olds: seq<Node>, k: nat, first: nat, last: nat)
    requires first <= k <= last < |olds|
    requires olds[first].center == olds[k].center == olds[last].center
    requires forall j :: 0 <= j < first ==> olds[j].center != olds[k].center
    requires forall j :: last < j < |olds| ==> olds[j].center != olds[k].center
    ensures OldCandidates(olds)[k].material == olds[first].material
    ensures OldCandidates(olds)[k].childCount == |olds[first].children|
    ensures OldCandidates(olds)[k].diag == Diagonal(olds[last].box)
  {
    DiagonalDictLast(olds, last);
    var f := FirstIndexOf(olds, olds[k].center);
    assert f == first;
  }

  // ---------------------------------------------------------------------
  // The match test.

  /**
   * The four nested conditions, on squares: the centres are within the
   * threshold, the diagonal lengths agree to at least `sizeThreshold`
   * percent, the diagonals' cosine is at least 0.8, and the child counts
   * agree to at least half.
   */
  predicate Qualifies(o: Candidate, leaf: Node, threshold: real, sizeThreshold: real)
  {
    var d2 := Norm2(Sub(o.center, leaf.center));
    var a2 := Norm2(o.diag);
    var b2 := Norm2(Diagonal(leaf.box));
    var up := Dot(o.diag, Diagonal(leaf.box));
    && threshold >= 0.0 && d2 <= threshold * threshold
    && (sizeThreshold <= 0.0 || Calpercent(a2, b2) * 10000.0 >= sizeThreshold * sizeThreshold)
    && a2 * b2 != 0.0 && up >= 0.0 && up * up >= CosThreshold * CosThreshold * (a2 * b2)
    && Calpercent(o.childCount as real, |leaf.children| as real) >= CountThreshold
  }

  /**
   * The same four conditions as the source writes them, with the centre
   * distance and the two diagonal lengths given as inputs.
   */
  predicate QualifiesWithRoots(o: Candidate, leaf: Node, threshold: real, sizeThreshold: real,
                               dist: real, oldSize: real, newSize: real)
  {
    && dist <= threshold
    && Calpercent(oldSize, newSize) * 100.0 >= sizeThreshold
    && CosSim(o.diag, Diagonal(leaf.box), oldSize, newSize) >= CosThreshold
    && Calpercent(o.childCount as real, |leaf.children| as real) >= CountThreshold
  }

  lemma DistanceCondition(dist: real, d2: real, t: real)
    requires IsSqrt(dist, d2)
    ensures dist <= t <==> t >= 0.0 && d2 <= t * t
  {
    if t >= 0.0 {
      SquareMonotone(dist, t);
    }
  }

  lemma SizeCondition(oldSize: real, newSize: real, a2: real, b2: real, s: real)
    requires IsSqrt(oldSize, a2) && IsSqrt(newSize, b2)
    ensures Calpercent(oldSize, newSize) * 100.0 >= s <==> s <= 0.0 || Calpercent(a2, b2) * 10000.0 >= s * s
  {
    var p := Calpercent(oldSize, newSize);
    CalpercentRange(oldSize, newSize);
    CalpercentOfSquares(oldSize, newSize);
    ScaledSquare(p);
    SquareThreshold(p * 100.0, s);
  }

  /** A non-negative value reaches a bound exactly when the bound is not positive or its square reaches the bound's square. */
  lemma SquareThreshold(q: real, s: real)
    requires q >= 0.0
    ensures q >= s <==> s <= 0.0 || q * q >= s * s
  {
    if s > 0.0 {
      SquareMonotone(s, q);
    }
  }

  lemma ScaledSquare(p: real)
    ensures (p * p) * 10000.0 == (p * 100.0) * (p * 100.0)
  {
  }

  lemma CosCondition(u: Vec3, v: Vec3, lu: real, lv: real)
    requires IsSqrt(lu, Norm2(u)) && IsSqrt(lv, Norm2(v))
    ensures CosSim(u, v, lu, lv) >= CosThreshold <==>
      Norm2(u) * Norm2(v) != 0.0 && Dot(u, v) >= 0.0 && Dot(u, v) * Dot(u, v) >= CosThreshold * CosThreshold * (Norm2(u) * Norm2(v))
  {
    var l := lu * lv;
    var p := Norm2(u) * Norm2(v);
    assert l * l == p by {
      ProductSquare(lu, lv);
    }
    assert l >= 0.0;
    if l != 0.0 {
      RatioTest(Dot(u, v), l, CosThreshold);
      ProductSquare(CosThreshold, l);
    }
  }

  /** Against a positive bound, a ratio with a positive denominator is compared through squares. */
  lemma RatioTest(up: real, l: real, t: real)
    requires l > 0.0 && t > 0.0
    ensures up / l >= t <==> up >= 0.0 && up * up >= (t * l) * (t * l)
  {
    assert up / l >= t <==> up >= t * l;
    if up >= 0.0 {
      SquareMonotone(t * l, up);
    }
  }

  lemma ProductSquare(a: real, b: real)
    ensures (a * b) * (a * b) == (a * a) * (b * b)
  {
  }

  /** The square form and the root form of the test agree on true roots. */
  lemma QualifiesIffRootForm(o: Candidate, leaf: Node, threshold: real, sizeThreshold: real,
                             dist: real, oldSize: real, newSize: real)
    requires IsSqrt(dist, Norm2(Sub(o.center, leaf.center)))
    requires IsSqrt(oldSize, Norm2(o.diag)) && IsSqrt(newSize, Norm2(Diagonal(leaf.box)))
    ensures QualifiesWithRoots(o, leaf, threshold, sizeThreshold, dist, oldSize, newSize)
        <==> Qualifies(o, leaf, threshold, sizeThreshold)
  {
    DistanceCondition(dist, Norm2(Sub(o.center, leaf.center)), threshold);
    SizeCondition(oldSize, newSize, Norm2(o.diag), Norm2(Diagonal(leaf.box)), sizeThreshold);
    CosCondition(o.diag, Diagonal(leaf.box), oldSize, newSize);
  }

  /**
   * An old leaf that coincides with the new one in centre, box and child
   * count, with a box of non-zero size, always qualifies for a non-negative
   * distance threshold and a size threshold of at most 100 percent.
   */
  lemma IdenticalLeafQualifies(o: Candidate, leaf: Node, threshold: real, sizeThreshold: real)
    requires o.center == leaf.center && o.diag == Diagonal(leaf.box) && o.childCount == |leaf.children|
    requires Norm2(o.diag) != 0.0
    requires threshold >= 0.0 && sizeThreshold <= 100.0
    ensures Qualifies(o, leaf, threshold, sizeThreshold)
  {
    var d2 := Norm2(Sub(o.center, leaf.center));
    var a2 := Norm2(o.diag);
    var b2 := Norm2(Diagonal(leaf.box));
    var up := Dot(o.diag, Diagonal(leaf.box));
    assert threshold >= 0.0 && d2 <= threshold * threshold by {
      assert Sub(o.center, leaf.center) == Vec3(0.0, 0.0, 0.0);
      SquareMonotone(0.0, threshold);
    }
    assert sizeThreshold <= 0.0 || Calpercent(a2, b2) * 10000.0 >= sizeThreshold * sizeThreshold by {
      assert b2 == a2;
      SizeWithinHundred(sizeThreshold);
    }
    assert a2 * b2 != 0.0 && up >= 0.0 && up * up >= CosThreshold * CosThreshold * (a2 * b2) by {
      assert Diagonal(leaf.box) == o.diag;
      SelfCosineOf(o.diag);
    }
    assert Calpercent(o.childCount as real, |leaf.children| as real) >= CountThreshold;
  }

  /** A non-zero vector passes the cosine test against itself. */
  lemma SelfCosineOf(d: Vec3)
    requires Norm2(d) != 0.0
    ensures var a2 := Norm2(d);
      && a2 * a2 != 0.0 && Dot(d, d) >= 0.0
      && Dot(d, d) * Dot(d, d) >= CosThreshold * CosThreshold * (a2 * a2)
  {
    assert Dot(d, d) == Norm2(d);
    SelfCosine(Norm2(d));
  }

  lemma SelfCosine(a2: real)
    requires a2 > 0.0
    ensures a2 * a2 != 0.0 && a2 * a2 >= CosThreshold * CosThreshold * (a2 * a2)
  {
    PositiveSquare(a2);
    assert CosThreshold * CosThreshold * (a2 * a2) == 0.64 * (a2 * a2);
  }

  lemma PositiveSquare(x: real)
    requires x != 0.0
    ensures x * x > 0.0
  {
  }

  lemma SizeWithinHundred(s: real)
    requires s <= 100.0
    ensures s <= 0.0 || Calpercent(1.0, 1.0) * 10000.0 >= s * s
  {
    if s > 0.0 {
      SquareMonotone(s, 100.0);
    }
  }

  // ---------------------------------------------------------------------
  // The selection policy.

  /**
   * The inner loop for one new leaf: walk the candidates in order and, for
   * each that matches, replace the leaf's current material with the
   * candidate's.
   */
  function PickMaterial(cands: seq<Candidate>, matches: Candidate -> bool, current: Material): Material
  {
    if cands == [] then current
    else PickMaterial(cands[1..], matches, if matches(cands[0]) then cands[0].material else current)
  }

  /** The position of the last matching candidate, if any. */
  function LastMatch(cands: seq<Candidate>, matches: Candidate -> bool): (r: Option<nat>)
    ensures r.None? ==> forall j :: 0 <= j < |cands| ==> !matches(cands[j])
    ensures r.Some? ==> r.value < |cands| && matches(cands[r.value])
    ensures r.Some? ==> forall j :: r.value < j < |cands| ==> !matches(cands[j])
  {
    if cands == [] then None
    else if matches(cands[|cands| - 1]) then Some(|cands| - 1)
    else LastMatch(cands[..|cands| - 1], matches)
  }

  /**
   * The last match wins: the leaf ends with the material of the last
   * matching candidate, or keeps the material it started with when none
   * matches.
   */
  lemma {:induction false} PickMaterialIsLastMatch(cands: seq<Candidate>, matches: Candidate -> bool, current: Material)
    ensures PickMaterial(cands, matches, current) ==
      match LastMatch(cands, matches)
      case None => current
      case Some(k) => cands[k].material
  {
    if cands != [] {
      var next := if matches(cands[0]) then cands[0].material else current;
      PickMaterialIsLastMatch(cands[1..], matches, next);
      var tail := LastMatch(cands[1..], matches);
      match tail
      case None =>
        if matches(cands[0]) {
          LastMatchIsFirst(cands, matches);
        } else {
          LastMatchNone(cands, matches);
        }
      case Some(k) =>
        LastMatchShift(cands, matches, k);
    }
  }

  lemma LastMatchIsFirst(cands: seq<Candidate>, matches: Candidate -> bool)
    requires cands != [] && matches(cands[0]) && LastMatch(cands[1..], matches).None?
    ensures LastMatch(cands, matches) == Some(0)
  {
    var r := LastMatch(cands, matches);
    assert forall j :: 1 <= j < |cands| ==> cands[j] == cands[1..][j - 1];
  }

  lemma LastMatchNone(cands: seq<Candidate>, matches: Candidate -> bool)
    requires cands != [] && !matches(cands[0]) && LastMatch(cands[1..], matches).None?
    ensures LastMatch(cands, matches).None?
  {
    assert forall j :: 1 <= j < |cands| ==> cands[j] == cands[1..][j - 1];
  }

  lemma LastMatchShift(cands: seq<Candidate>, matches: Candidate -> bool, k: nat)
    requires cands != [] && LastMatch(cands[1..], matches) == Some(k)
    ensures LastMatch(cands, matches) == Some(k + 1)
  {
    assert forall j :: 1 <= j < |cands| ==> cands[j] == cands[1..][j - 1];
  }

  /** The match test for one new leaf. */
  function MatchesLeaf(leaf: Node, threshold: real, sizeThreshold: real): Candidate -> bool
  {
    (o: Candidate) => Qualifies(o, leaf, threshold, sizeThreshold)
  }

  /** The material one new leaf ends with. */
  function LeafMaterial(cands: seq<Candidate>, leaf: Node, threshold: real, sizeThreshold: real): Material
  {
    PickMaterial(cands, MatchesLeaf(leaf, threshold, sizeThreshold), CheckMat)
  }

  /** A leaf ends with the check material or with the material of some old leaf. */
  lemma LeafMaterialOrigin(olds: seq<Node>, leaf: Node, threshold: real, sizeThreshold: real)
    ensures var m := LeafMaterial(OldCandidates(olds), leaf, threshold, sizeThreshold);
      m == CheckMat || exists j :: 0 <= j < |olds| && olds[j].material == m
  {
    var cands := OldCandidates(olds);
    var matches := MatchesLeaf(leaf, threshold, sizeThreshold);
    PickMaterialIsLastMatch(cands, matches, CheckMat);
    var last := LastMatch(cands, matches);
    if last.Some? {
      var f := FirstIndexOf(olds, olds[last.value].center);
      assert olds[f].material == cands[last.value].material;
    }
  }

  /**
   * `materialsCore`: the material each geometry leaf under `newRoot` ends
   * with, one per leaf in walk order.
   */
  function MatchMaterials(oldRoot: Node, newRoot: Node, threshold: real, sizeThreshold: real): (r: seq<Material>)
    ensures |r| == |Collect(newRoot, AcceptAll)|
  {
    var news := Collect(newRoot, AcceptAll);
    var cands := OldCandidates(Collect(oldRoot, AcceptAll));
    seq(|news|, k requires 0 <= k < |news| => LeafMaterial(cands, news[k], threshold, sizeThreshold))
  }

  /** Every new leaf ends with the check material or with the material of some old leaf. */
  lemma MatchMaterialsOrigin(oldRoot: Node, newRoot: Node, threshold: real, sizeThreshold: real, k: nat)
    requires k < |Collect(newRoot, AcceptAll)|
    ensures var m := MatchMaterials(oldRoot, newRoot, threshold, sizeThreshold)[k];
      var olds := Collect(oldRoot, AcceptAll);
      m == CheckMat || exists j :: 0 <= j < |olds| && olds[j].material == m
  {
    var olds, news := Collect(oldRoot, AcceptAll), Collect(newRoot, AcceptAll);
    var m := LeafMaterial(OldCandidates(olds), news[k], threshold, sizeThreshold);
    LeafMaterialOrigin(olds, news[k], threshold, sizeThreshold);
    assert MatchMaterials(oldRoot, newRoot, threshold, sizeThreshold)[k] == m;
    if m != CheckMat {
      var j :| 0 <= j < |olds| && olds[j].material == m;
      assert Collect(oldRoot, AcceptAll)[j].material == MatchMaterials(oldRoot, newRoot, threshold, sizeThreshold)[k];
    }
  }

  /**
   * A new leaf that no old leaf qualifies for keeps the check material, so
   * every unmatched leaf is visibly marked.
   */
  lemma UnmatchedLeafKeepsCheckMat(oldRoot: Node, newRoot: Node, threshold: real, sizeThreshold: real, k: nat)
    requires k < |Collect(newRoot, AcceptAll)|
    requires forall o :: o in OldCandidates(Collect(oldRoot, AcceptAll)) ==>
      !Qualifies(o, Collect(newRoot, AcceptAll)[k], threshold, sizeThreshold)
    ensures MatchMaterials(oldRoot, newRoot, threshold, sizeThreshold)[k] == CheckMat
  {
    var cands := OldCandidates(Collect(oldRoot, AcceptAll));
    var leaf := Collect(newRoot, AcceptAll)[k];
    var m := MatchesLeaf(leaf, threshold, sizeThreshold);
    PickMaterialIsLastMatch(cands, m, CheckMat);
    assert MatchMaterials(oldRoot, newRoot, threshold, sizeThreshold)[k] == LeafMaterial(cands, leaf, threshold, sizeThreshold);
  }

  /**
   * A new leaf for which some old leaf qualifies ends with the material of
   * the last qualifying one.
   */
  lemma MatchedLeafTakesLastMaterial(oldRoot: Node, newRoot: Node, threshold: real, sizeThreshold: real, k: nat, j: nat)
    requires k < |Collect(newRoot, AcceptAll)|
    requires var cands := OldCandidates(Collect(oldRoot, AcceptAll));
      && j < |cands| && Qualifies(cands[j], Collect(newRoot, AcceptAll)[k], threshold, sizeThreshold)
      && forall i :: j < i < |cands| ==> !Qualifies(cands[i], Collect(newRoot, AcceptAll)[k], threshold, sizeThreshold)
    ensures MatchMaterials(oldRoot, newRoot, threshold, sizeThreshold)[k] == OldCandidates(Collect(oldRoot, AcceptAll))[j].material
  {
    var cands := OldCandidates(Collect(oldRoot, AcceptAll));
    var leaf := Collect(newRoot, AcceptAll)[k];
    var m := MatchesLeaf(leaf, threshold, sizeThreshold);
    PickMaterialIsLastMatch(cands, m, CheckMat);
    var r := LastMatch(cands, m);
    assert m(cands[j]);
    assert r.Some? && r.value == j;
    assert MatchMaterials(oldRoot, newRoot, threshold, sizeThreshold)[k] == LeafMaterial(cands, leaf, threshold, sizeThreshold);
  }
}
