/**
 * The symmetry split: a geometry whose centre lies on the plane y = 0 is
 * split in two. Every child whose centre lies below the plane moves to a
 * new sibling named `<name>_symmetry`, which receives the original's
 * material; every other child stays.
 */
module Symmetry {
  import opened SceneTree
  import opened TreeWalk
  import opened Wrappers

  /** What the split does to one selected node. */
  datatype SymmetryPlan = SymmetryPlan(
    kept: seq<Node>,
    moved: seq<Node>,
    newName: string,
    newMaterial: Material)

  /** A child moves when its centre lies strictly below the plane y = 0. */
  predicate Below(c: Node)
  {
    c.center.y < 0.0
  }

  /** The split acts only on a geometry centred exactly on the plane. */
  predicate SplitApplies(n: Node)
  {
    n.IsGeo() && n.center.y == 0.0
  }

  /**
   * `remove_symmetry` on one selected node: None when the node does not
   * qualify, otherwise the children that stay, the children that move (both
   * in their original order), the new node's name and its material.
   */
  function SplitSymmetry(n: Node): (r: Option<SymmetryPlan>)
    ensures r.Some? <==> SplitApplies(n)
    ensures r.Some? ==> r.value.newName == n.name + "_symmetry" && r.value.newMaterial == n.material
  {
    if !SplitApplies(n) then None
    else Some(SymmetryPlan(
      Filter(Not(Below), n.children),
      Filter(Below, n.children),
      n.name + "_" + "symmetry",
      n.material))
  }

  /** Every moved child lies below the plane and every kept child on or above it. */
  lemma SplitSymmetrySides(n: Node)
    requires SplitApplies(n)
    ensures forall k :: 0 <= k < |SplitSymmetry(n).value.moved| ==> SplitSymmetry(n).value.moved[k].center.y < 0.0
    ensures forall k :: 0 <= k < |SplitSymmetry(n).value.kept| ==> SplitSymmetry(n).value.kept[k].center.y >= 0.0
  {
    FilterPasses(Below, n.children);
    FilterPasses(Not(Below), n.children);
  }

  /**
   * No child is lost or duplicated: the two groups together are the
   * original children, counted with multiplicity.
   */
  lemma SplitSymmetryPartitions(n: Node)
    requires SplitApplies(n)
    ensures var p := SplitSymmetry(n).value;
      multiset(p.kept) + multiset(p.moved) == multiset(n.children) && |p.kept| + |p.moved| == |n.children|
  {
    var p := SplitSymmetry(n).value;
    FilterPartition(Below, n.children);
    assert |multiset(p.kept) + multiset(p.moved)| == |p.kept| + |p.moved|;
  }

  /** A child moves exactly when it lies below the plane, and stays otherwise. */
  lemma SplitSymmetryMembers(n: Node, c: Node)
    requires SplitApplies(n)
    ensures var p := SplitSymmetry(n).value;
      && (c in p.moved <==> c in n.children && c.center.y < 0.0)
      && (c in p.kept <==> c in n.children && c.center.y >= 0.0)
  {
    FilterMembers(Below, n.children, c);
    FilterMembers(Not(Below), n.children, c);
  }

  /**
   * Both groups keep the children's relative order: of two children on the
   * same side of the plane, the earlier one comes first in its group.
   */
  lemma SplitOrderStable(n: Node, i: nat, j: nat)
    requires SplitApplies(n) && i < j < |n.children|
    requires Below(n.children[i]) == Below(n.children[j])
    ensures var p := SplitSymmetry(n).value;
      var part := if Below(n.children[i]) then p.moved else p.kept;
      exists a, b :: 0 <= a < b < |part| && part[a] == n.children[i] && part[b] == n.children[j]
  {
    var p := SplitSymmetry(n).value;
    var pred: Node -> bool := if Below(n.children[i]) then Below else Not(Below);
    var part := if Below(n.children[i]) then p.moved else p.kept;
    assert part == Filter(pred, n.children);
    FilterKeepsOrder(pred, n.children, i, j);
    var a, b :| 0 <= a < b < |part| && part[a] == n.children[i] && part[b] == n.children[j];
    assert p == SplitSymmetry(n).value;
    assert part == (if Below(n.children[i]) then SplitSymmetry(n).value.moved else SplitSymmetry(n).value.kept);
  }
}
