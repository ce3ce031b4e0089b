/**
 * Duplicate-face removal on a selected geometry node: the children are
 * grouped by the exact triple of their bounding-box centres, and in every
 * group of two or more all but the last child are deleted, provided the
 * group passes a primitive-count guard.
 *
 * As written the guard reads the primitive count of one node (the loop
 * variable left bound to the last child) for every member of the group, so
 * it always passes. `AsWrittenCounts` models that; `OwnCounts` models the
 * evidently intended guard, which compares the members' own counts.
 */
module DuplicateFaces {
  import opened SceneTree
  import opened Wrappers

  /** The centre triples of a list of children, in child order. */
  function Centers(cs: seq<Node>): seq<Vec3>
  {
    seq(|cs|, i requires 0 <= i < |cs| => cs[i].center)
  }

  /** Some later sibling has exactly the same centre as child `i`. */
  predicate HasLaterTwin(centers: seq<Vec3>, i: nat)
    requires i < |centers|
  {
    exists j :: i < j < |centers| && centers[j] == centers[i]
  }

  /** Every child whose centre is `c` reports the same primitive count. */
  predicate UniformCounts(centers: seq<Vec3>, counts: seq<int>, c: Vec3)
    requires |counts| == |centers|
  {
    forall j, k :: 0 <= j < |centers| && 0 <= k < |centers| && centers[j] == c && centers[k] == c ==> counts[j] == counts[k]
  }

  /** Child `i` is deleted: it is not the last of its centre group and the group passes the guard. */
  predicate Deletes(centers: seq<Vec3>, counts: seq<int>, i: nat)
    requires |counts| == |centers| && i < |centers|
  {
    HasLaterTwin(centers, i) && UniformCounts(centers, counts, centers[i])
  }

  /**
   * The counts the guard sees as written: the same value, the last child's
   * primitive count, for every child.
   */
  function AsWrittenCounts(cs: seq<Node>): seq<int>
  {
    if cs == [] then [] else seq(|cs|, i => cs[|cs| - 1].primitiveCount)
  }

  /** The counts the guard evidently meant to compare: each child's own. */
  function OwnCounts(cs: seq<Node>): seq<int>
  {
    seq(|cs|, i requires 0 <= i < |cs| => cs[i].primitiveCount)
  }

  /** As written, the guard sees one count for every child, whatever their own counts are. */
  lemma AsWrittenCountsUniform(cs: seq<Node>)
    ensures |AsWrittenCounts(cs)| == |cs|
    ensures forall j, k :: 0 <= j < |cs| && 0 <= k < |cs| ==> AsWrittenCounts(cs)[j] == AsWrittenCounts(cs)[k]
    ensures cs != [] ==> forall j :: 0 <= j < |cs| ==> AsWrittenCounts(cs)[j] == cs[|cs| - 1].primitiveCount
  {
  }

  /** With the as-written counts the guard never holds a group back. */
  lemma AsWrittenGuardPasses(cs: seq<Node>, i: nat)
    requires i < |cs|
    ensures Deletes(Centers(cs), AsWrittenCounts(cs), i) <==> HasLaterTwin(Centers(cs), i)
  {
    AsWrittenCountsUniform(cs);
  }

  /** The indices of all children whose centre is `c`, in increasing order. */
  function IndicesOf(centers: seq<Vec3>, c: Vec3, from: nat): (r: seq<nat>)
    requires from <= |centers|
    ensures forall k :: 0 <= k < |r| ==> from <= r[k] < |centers|
    decreases |centers| - from
  {
    if from == |centers| then []
    else if centers[from] == c then [from] + IndicesOf(centers, c, from + 1)
    else IndicesOf(centers, c, from + 1)
  }

  /** `IndicesOf` lists, in increasing order, exactly the indices from `from` on whose centre is `c`. */
  lemma {:induction false} IndicesOfSpec(centers: seq<Vec3>, c: Vec3, from: nat)
    requires from <= |centers|
    ensures forall k :: 0 <= k < |IndicesOf(centers, c, from)| ==> centers[IndicesOf(centers, c, from)[k]] == c
    ensures forall k, l :: 0 <= k < l < |IndicesOf(centers, c, from)| ==> IndicesOf(centers, c, from)[k] < IndicesOf(centers, c, from)[l]
    ensures forall i :: from <= i < |centers| && centers[i] == c ==> i in IndicesOf(centers, c, from)
    decreases |centers| - from
  {
    if from < |centers| {
      IndicesOfSpec(centers, c, from + 1);
    }
  }

  /** `len(set(xs)) == 1` on a non-empty list: all entries are equal. */
  function SingleValue(xs: seq<int>): (r: bool)
    requires |xs| > 0
    ensures r <==> forall k :: 0 <= k < |xs| ==> xs[k] == xs[0]
  {
    var vs := set k | 0 <= k < |xs| :: xs[k];
    if forall k :: 0 <= k < |xs| ==> xs[k] == xs[0] then
      assert vs == {xs[0]};
      |vs| == 1
    else
      var k :| 0 <= k < |xs| && xs[k] != xs[0];
      assert {xs[0], xs[k]} <= vs;
      assert vs == {xs[0], xs[k]} + (vs - {xs[0], xs[k]});
      |vs| == 1
  }

  /** The deletions one centre group contributes. */
  function GroupDeletions(centers: seq<Vec3>, counts: seq<int>, c: Vec3): (r: set<nat>)
    requires |counts| == |centers|
    ensures forall i: nat :: i in r <==> i < |centers| && centers[i] == c && Deletes(centers, counts, i)
  {
    var index := IndicesOf(centers, c, 0);
    var pcs := seq(|index|, k requires 0 <= k < |index| => counts[index[k]]);
    if |index| > 1 && SingleValue(pcs) then
      var r := set k | 0 <= k < |index| - 1 :: index[k];
      assert forall k :: 0 <= k < |index| ==> counts[index[k]] == pcs[k];
      GroupDeletionsCorrect(centers, counts, c, index, r);
      r
    else
      GroupNotDeleted(centers, counts, c, index);
      {}
  }

  lemma GroupDeletionsCorrect(centers: seq<Vec3>, counts: seq<int>, c: Vec3, index: seq<nat>, r: set<nat>)
    requires |counts| == |centers|
    requires index == IndicesOf(centers, c, 0) && |index| > 1
    requires forall k :: 0 <= k < |index| ==> counts[index[k]] == counts[index[0]]
    requires r == set k | 0 <= k < |index| - 1 :: index[k]
    ensures forall i: nat :: i in r <==> i < |centers| && centers[i] == c && Deletes(centers, counts, i)
  {
    IndicesOfSpec(centers, c, 0);
    GroupUniform(centers, counts, c, index);
    forall i: nat | i < |centers| && centers[i] == c
      ensures i in r <==> HasLaterTwin(centers, i)
    {
      GroupMember(centers, c, index, i);
    }
  }

  /** A group whose listed members all report the first member's count passes the guard. */
  lemma GroupUniform(centers: seq<Vec3>, counts: seq<int>, c: Vec3, index: seq<nat>)
    requires |counts| == |centers|
    requires index == IndicesOf(centers, c, 0) && |index| > 0
    requires forall k :: 0 <= k < |index| ==> counts[index[k]] == counts[index[0]]
    ensures UniformCounts(centers, counts, c)
  {
    IndicesOfSpec(centers, c, 0);
    forall j, k | 0 <= j < |centers| && 0 <= k < |centers| && centers[j] == c && centers[k] == c
      ensures counts[j] == counts[k]
    {
      var a :| 0 <= a < |index| && index[a] == j;
      var b :| 0 <= b < |index| && index[b] == k;
    }
  }

  /** A member of a centre group has a later twin exactly when it is not the group's last listed index. */
  lemma GroupMember(centers: seq<Vec3>, c: Vec3, index: seq<nat>, i: nat)
    requires index == IndicesOf(centers, c, 0)
    requires i < |centers| && centers[i] == c
    ensures (exists k :: 0 <= k < |index| - 1 && index[k] == i) <==> HasLaterTwin(centers, i)
  {
    IndicesOfSpec(centers, c, 0);
    var a :| 0 <= a < |index| && index[a] == i;
    if a < |index| - 1 {
      assert index[|index| - 1] > i;
      assert centers[index[|index| - 1]] == centers[i];
    }
    if HasLaterTwin(centers, i) {
      var j :| i < j < |centers| && centers[j] == centers[i];
      var b :| 0 <= b < |index| && index[b] == j;
      assert a < b;
    }
  }

  lemma GroupNotDeleted(centers: seq<Vec3>, counts: seq<int>, c: Vec3, index: seq<nat>)
    requires |counts| == |centers|
    requires index == IndicesOf(centers, c, 0)
    requires !(|index| > 1 && SingleValue(seq(|index|, k requires 0 <= k < |index| => counts[index[k]])))
    ensures forall i: nat :: i < |centers| && centers[i] == c ==> !Deletes(centers, counts, i)
  {
    IndicesOfSpec(centers, c, 0);
    if |index| <= 1 {
      forall i: nat | i < |centers| && centers[i] == c
        ensures !HasLaterTwin(centers, i)
      {
      }
    } else {
      var pcs := seq(|index|, k requires 0 <= k < |index| => counts[index[k]]);
      var k :| 0 <= k < |index| && pcs[k] != pcs[0];
      assert counts[index[k]] != counts[index[0]];
      assert !UniformCounts(centers, counts, c);
    }
  }

  /**
   * The deletion loop of `remove_face`: one pass per distinct centre, each
   * adding the deletions its group contributes. The result does not depend
   * on the order the centres are visited in.
   */
  method DeletionSet(centers: seq<Vec3>, counts: seq<int>) returns (deleted: set<nat>)
    requires |counts| == |centers|
    ensures forall i: nat :: i in deleted <==> i < |centers| && Deletes(centers, counts, i)
  {
    var todo := set i | 0 <= i < |centers| :: centers[i];
    deleted := {};
    while todo != {}
      invariant forall i: nat :: i < |centers| ==> centers[i] in todo || i in deleted || !Deletes(centers, counts, i)
      invariant forall i: nat :: i in deleted ==> i < |centers| && centers[i] !in todo && Deletes(centers, counts, i)
      decreases |todo|
    {
      var c :| c in todo;
      deleted := deleted + GroupDeletions(centers, counts, c);
      todo := todo - {c};
    }
  }

  /** The indices of the children that are kept, in increasing order. */
  function KeptFrom(centers: seq<Vec3>, counts: seq<int>, from: nat): (r: seq<nat>)
    requires |counts| == |centers| && from <= |centers|
    ensures forall k :: 0 <= k < |r| ==> from <= r[k] < |centers|
    decreases |centers| - from
  {
    if from == |centers| then []
    else if Deletes(centers, counts, from) then KeptFrom(centers, counts, from + 1)
    else [from] + KeptFrom(centers, counts, from + 1)
  }

  /**
   * `KeptFrom` lists, in increasing order, exactly the indices from `from`
   * on that are not deleted.
   */
  lemma {:induction false} KeptFromSpec(centers: seq<Vec3>, counts: seq<int>, from: nat)
    requires |counts| == |centers| && from <= |centers|
    ensures var r := KeptFrom(centers, counts, from);
      && (forall k :: 0 <= k < |r| ==> !Deletes(centers, counts, r[k]))
      && (forall k, l :: 0 <= k < l < |r| ==> r[k] < r[l])
      && (forall i :: from <= i < |centers| && !Deletes(centers, counts, i) ==> i in r)
    decreases |centers| - from
  {
    if from < |centers| {
      KeptFromSpec(centers, counts, from + 1);
    }
  }

  /** The children that survive, in their original order. */
  function Survivors(cs: seq<Node>, counts: seq<int>): (r: seq<Node>)
    requires |counts| == |cs|
  {
    var kept := KeptFrom(Centers(cs), counts, 0);
    seq(|kept|, k requires 0 <= k < |kept| => cs[kept[k]])
  }

  /**
   * `remove_face` on the selected node as written: nothing happens unless
   * the node is a geometry (the tool shows a message instead); otherwise
   * the deleted children disappear and the rest keep their order.
   */
  function RemoveFace(n: Node): (r: Option<Node>)
    ensures r.Some? <==> n.IsGeo()
    ensures r.Some? ==> r.value == n.(children := r.value.children) && |r.value.children| <= |n.children|
  {
    if !n.IsGeo() then None
    else
      KeptFromLength(Centers(n.children), AsWrittenCounts(n.children), 0);
      Some(n.(children := Survivors(n.children, AsWrittenCounts(n.children))))
  }

  /** The same operation with the guard comparing the children's own counts. */
  function RemoveFaceIntended(n: Node): (r: Option<Node>)
    ensures r.Some? <==> n.IsGeo()
    ensures r.Some? ==> r.value == n.(children := r.value.children) && |r.value.children| <= |n.children|
  {
    if !n.IsGeo() then None
    else
      KeptFromLength(Centers(n.children), OwnCounts(n.children), 0);
      Some(n.(children := Survivors(n.children, OwnCounts(n.children))))
  }

  /** The survivors are exactly the children at undeleted positions. */
  lemma SurvivorsMembers(cs: seq<Node>, counts: seq<int>, c: Node)
    requires |counts| == |cs|
    ensures c in Survivors(cs, counts) <==>
      exists i :: 0 <= i < |cs| && cs[i] == c && !Deletes(Centers(cs), counts, i)
  {
    var centers := Centers(cs);
    var kept := KeptFrom(centers, counts, 0);
    KeptFromSpec(centers, counts, 0);
    var out := Survivors(cs, counts);
    if c in out {
      var k :| 0 <= k < |out| && out[k] == c;
      assert cs[kept[k]] == c && !Deletes(centers, counts, kept[k]);
    }
    if exists i :: 0 <= i < |cs| && cs[i] == c && !Deletes(centers, counts, i) {
      var i :| 0 <= i < |cs| && cs[i] == c && !Deletes(centers, counts, i);
      var k :| 0 <= k < |kept| && kept[k] == i;
      assert out[k] == c;
    }
  }

  /** Two surviving children stay in their original relative order. */
  lemma SurvivorsKeepOrder(cs: seq<Node>, counts: seq<int>, i: nat, j: nat)
    requires |counts| == |cs| && i < j < |cs|
    requires !Deletes(Centers(cs), counts, i) && !Deletes(Centers(cs), counts, j)
    ensures exists a, b :: 0 <= a < b < |Survivors(cs, counts)| && Survivors(cs, counts)[a] == cs[i] && Survivors(cs, counts)[b] == cs[j]
  {
    var centers := Centers(cs);
    var kept := KeptFrom(centers, counts, 0);
    KeptFromSpec(centers, counts, 0);
    var out := Survivors(cs, counts);
    var a :| 0 <= a < |kept| && kept[a] == i;
    var b :| 0 <= b < |kept| && kept[b] == j;
    assert a < b;
    assert out[a] == cs[i] && out[b] == cs[j];
  }

  /**
   * As written, the removal keeps exactly the children that no later
   * sibling shares a centre with, and changes nothing but the child list.
   */
  lemma RemoveFaceSurvivors(n: Node, c: Node)
    requires n.IsGeo()
    ensures RemoveFace(n).value == n.(children := RemoveFace(n).value.children)
    ensures c in RemoveFace(n).value.children <==>
      exists i :: 0 <= i < |n.children| && n.children[i] == c && !HasLaterTwin(Centers(n.children), i)
  {
    var cs := n.children;
    SurvivorsMembers(cs, AsWrittenCounts(cs), c);
    if exists i :: 0 <= i < |cs| && cs[i] == c && !Deletes(Centers(cs), AsWrittenCounts(cs), i) {
      var i :| 0 <= i < |cs| && cs[i] == c && !Deletes(Centers(cs), AsWrittenCounts(cs), i);
      AsWrittenGuardPasses(cs, i);
    }
    if exists i :: 0 <= i < |cs| && cs[i] == c && !HasLaterTwin(Centers(cs), i) {
      var i :| 0 <= i < |cs| && cs[i] == c && !HasLaterTwin(Centers(cs), i);
      AsWrittenGuardPasses(cs, i);
    }
  }

  /** As written, the survivors keep their original relative order. */
  lemma RemoveFaceKeepsOrder(n: Node, i: nat, j: nat)
    requires n.IsGeo() && i < j < |n.children|
    requires !HasLaterTwin(Centers(n.children), i) && !HasLaterTwin(Centers(n.children), j)
    ensures exists a, b :: (0 <= a < b < |RemoveFace(n).value.children|
      && RemoveFace(n).value.children[a] == n.children[i] && RemoveFace(n).value.children[b] == n.children[j])
  {
    var cs := n.children;
    AsWrittenGuardPasses(cs, i);
    AsWrittenGuardPasses(cs, j);
    SurvivorsKeepOrder(cs, AsWrittenCounts(cs), i, j);
    assert RemoveFace(n).value.children == Survivors(cs, AsWrittenCounts(cs));
  }

  /**
   * With the corrected guard, the removal keeps exactly the children that
   * the own-count rule does not delete, in their original order, and
   * changes nothing but the child list.
   */
  lemma RemoveFaceIntendedSurvivors(n: Node, c: Node)
    requires n.IsGeo()
    ensures RemoveFaceIntended(n).value == n.(children := RemoveFaceIntended(n).value.children)
    ensures c in RemoveFaceIntended(n).value.children <==>
      exists i :: 0 <= i < |n.children| && n.children[i] == c && !Deletes(Centers(n.children), OwnCounts(n.children), i)
  {
    SurvivorsMembers(n.children, OwnCounts(n.children), c);
  }

  /** With the corrected guard, the survivors keep their original relative order. */
  lemma RemoveFaceIntendedKeepsOrder(n: Node, i: nat, j: nat)
    requires n.IsGeo() && i < j < |n.children|
    requires !Deletes(Centers(n.children), OwnCounts(n.children), i) && !Deletes(Centers(n.children), OwnCounts(n.children), j)
    ensures exists a, b :: (0 <= a < b < |RemoveFaceIntended(n).value.children|
      && RemoveFaceIntended(n).value.children[a] == n.children[i] && RemoveFaceIntended(n).value.children[b] == n.children[j])
  {
    SurvivorsKeepOrder(n.children, OwnCounts(n.children), i, j);
    assert RemoveFaceIntended(n).value.children == Survivors(n.children, OwnCounts(n.children));
  }

  lemma {:induction false} KeptFromLength(centers: seq<Vec3>, counts: seq<int>, from: nat)
    requires |counts| == |centers| && from <= |centers|
    ensures |KeptFrom(centers, counts, from)| <= |centers| - from
    decreases |centers| - from
  {
    if from < |centers| {
      KeptFromLength(centers, counts, from + 1);
    }
  }

  /** The last child with a given centre is never deleted. */
  lemma LastOfGroupKept(centers: seq<Vec3>, counts: seq<int>, i: nat)
    requires |counts| == |centers| && i < |centers|
    ensures exists j :: i <= j < |centers| && centers[j] == centers[i] && !Deletes(centers, counts, j)
    decreases |centers| - i
  {
    if HasLaterTwin(centers, i) {
      var j :| i < j < |centers| && centers[j] == centers[i];
      LastOfGroupKept(centers, counts, j);
      var j' :| j <= j' < |centers| && centers[j'] == centers[j] && !Deletes(centers, counts, j');
      assert i <= j' && centers[j'] == centers[i];
    } else {
      assert !Deletes(centers, counts, i);
    }
  }

  /** As written, the surviving children have pairwise distinct centres. */
  lemma RemoveFaceLeavesDistinctCentres(n: Node, k: nat, l: nat)
    requires n.IsGeo() && k < l < |RemoveFace(n).value.children|
    ensures RemoveFace(n).value.children[k].center != RemoveFace(n).value.children[l].center
  {
    var cs := n.children;
    var centers := Centers(cs);
    var counts := AsWrittenCounts(cs);
    var kept := KeptFrom(centers, counts, 0);
    KeptFromSpec(centers, counts, 0);
    AsWrittenCountsUniform(cs);
    var out := RemoveFace(n).value.children;
    assert out == Survivors(cs, counts);
    var i, j := kept[k], kept[l];
    assert out[k] == cs[i] && out[l] == cs[j];
    assert i < j < |centers|;
    assert UniformCounts(centers, counts, centers[i]);
    assert !Deletes(centers, counts, i);
    assert !HasLaterTwin(centers, i);
    assert centers[j] != centers[i];
  }

  /** As written, every centre among the original children is still represented after the removal. */
  lemma RemoveFaceKeepsEveryCentre(n: Node, i: nat)
    requires n.IsGeo() && i < |n.children|
    ensures exists k :: 0 <= k < |RemoveFace(n).value.children| && RemoveFace(n).value.children[k].center == n.children[i].center
  {
    var cs := n.children;
    var centers := Centers(cs);
    var counts := AsWrittenCounts(cs);
    var kept := KeptFrom(centers, counts, 0);
    KeptFromSpec(centers, counts, 0);
    var out := RemoveFace(n).value.children;
    assert out == Survivors(cs, counts);
    LastOfGroupKept(centers, counts, i);
    var j :| i <= j < |centers| && centers[j] == centers[i] && !Deletes(centers, counts, j);
    var k :| 0 <= k < |kept| && kept[k] == j;
    assert out[k] == cs[j];
  }

  /** A child whose centre no later sibling shares is always kept. */
  lemma {:induction false} RemoveFaceKeepsUnique(n: Node, i: nat)
    requires n.IsGeo() && i < |n.children|
    requires forall j :: i < j < |n.children| ==> n.children[j].center != n.children[i].center
    ensures n.children[i] in RemoveFace(n).value.children
  {
    var centers := Centers(n.children);
    var kept := KeptFrom(centers, AsWrittenCounts(n.children), 0);
    KeptFromSpec(centers, AsWrittenCounts(n.children), 0);
    assert !HasLaterTwin(centers, i);
    assert i in kept;
    var k :| 0 <= k < |kept| && kept[k] == i;
    assert RemoveFace(n).value.children[k] == n.children[i];
  }

  /** Children with pairwise distinct centres lose nothing. */
  lemma {:induction false} DistinctCentresUntouched(centers: seq<Vec3>, counts: seq<int>, from: nat)
    requires |counts| == |centers| && from <= |centers|
    requires forall k, l :: 0 <= k < l < |centers| ==> centers[k] != centers[l]
    ensures var kept := KeptFrom(centers, counts, from);
      |kept| == |centers| - from && forall k :: 0 <= k < |kept| ==> kept[k] == from + k
    decreases |centers| - from
  {
    if from < |centers| {
      assert !HasLaterTwin(centers, from);
      DistinctCentresUntouched(centers, counts, from + 1);
    }
  }

  /** Running the removal a second time deletes nothing more. */
  lemma RemoveFaceIdempotent(n: Node)
    requires n.IsGeo()
    ensures RemoveFace(RemoveFace(n).value) == RemoveFace(n)
  {
    var m := RemoveFace(n).value;
    var out := m.children;
    forall k, l | 0 <= k < l < |out| ensures Centers(out)[k] != Centers(out)[l] {
      RemoveFaceLeavesDistinctCentres(n, k, l);
    }
    DistinctCentresUntouched(Centers(out), AsWrittenCounts(out), 0);
    assert Survivors(out, AsWrittenCounts(out)) == out;
  }

  /**
   * The two guards part ways on two faces at the same centre with different
   * primitive counts: as written the first is deleted, as intended both stay.
   */
  lemma GuardCounterexample(a: Node, b: Node)
    requires a.center == b.center && a.primitiveCount == 10 && b.primitiveCount == 12
    ensures Deletes(Centers([a, b]), AsWrittenCounts([a, b]), 0)
    ensures !Deletes(Centers([a, b]), OwnCounts([a, b]), 0)
  {
    assert Centers([a, b])[1] == a.center;
    assert OwnCounts([a, b])[0] != OwnCounts([a, b])[1];
  }

  /**
   * With the intended guard, a group whose members report different
   * primitive counts is left whole, and a group of equal counts behaves as
   * the code does.
   */
  lemma IntendedGuard(cs: seq<Node>, i: nat)
    requires i < |cs|
    ensures var centers := Centers(cs);
      && (UniformCounts(centers, OwnCounts(cs), centers[i]) ==>
            (Deletes(centers, OwnCounts(cs), i) <==> Deletes(centers, AsWrittenCounts(cs), i)))
      && (!UniformCounts(centers, OwnCounts(cs), centers[i]) ==> !Deletes(centers, OwnCounts(cs), i))
  {
  }

  /** Two count lists that delete the same children keep the same indices. */
  lemma {:induction false} KeptFromSameDeletes(centers: seq<Vec3>, c1: seq<int>, c2: seq<int>, from: nat)
    requires |c1| == |centers| && |c2| == |centers| && from <= |centers|
    requires forall i :: from <= i < |centers| ==> Deletes(centers, c1, i) == Deletes(centers, c2, i)
    ensures KeptFrom(centers, c1, from) == KeptFrom(centers, c2, from)
    decreases |centers| - from
  {
    if from < |centers| {
      KeptFromSameDeletes(centers, c1, c2, from + 1);
    }
  }

  /**
   * When children at the same centre always report the same primitive
   * count, the intended guard and the guard as written remove the same faces.
   */
  lemma RemoveFaceIntendedAgrees(n: Node)
    requires n.IsGeo()
    requires forall j, k :: 0 <= j < |n.children| && 0 <= k < |n.children| && n.children[j].center == n.children[k].center ==>
      n.children[j].primitiveCount == n.children[k].primitiveCount
    ensures RemoveFaceIntended(n) == RemoveFace(n)
  {
    var cs := n.children;
    var centers := Centers(cs);
    forall i | 0 <= i < |cs|
      ensures Deletes(centers, OwnCounts(cs), i) == Deletes(centers, AsWrittenCounts(cs), i)
    {
      assert UniformCounts(centers, OwnCounts(cs), centers[i]);
      IntendedGuard(cs, i);
    }
    KeptFromSameDeletes(centers, OwnCounts(cs), AsWrittenCounts(cs), 0);
  }

  /**
   * With the intended guard, a face whose centre is shared by faces of
   * different primitive counts survives.
   */
  lemma RemoveFaceIntendedKeepsMixedGroup(n: Node, i: nat, j: nat, k: nat)
    requires n.IsGeo() && i < |n.children| && j < |n.children| && k < |n.children|
    requires n.children[j].center == n.children[i].center && n.children[k].center == n.children[i].center
    requires n.children[j].primitiveCount != n.children[k].primitiveCount
    ensures n.children[i] in RemoveFaceIntended(n).value.children
  {
    var cs := n.children;
    var centers := Centers(cs);
    var kept := KeptFrom(centers, OwnCounts(cs), 0);
    KeptFromSpec(centers, OwnCounts(cs), 0);
    assert OwnCounts(cs)[j] != OwnCounts(cs)[k];
    assert !UniformCounts(centers, OwnCounts(cs), centers[i]);
    assert i in kept;
    var m :| 0 <= m < |kept| && kept[m] == i;
    assert RemoveFaceIntended(n).value.children[m] == cs[i];
  }
}
