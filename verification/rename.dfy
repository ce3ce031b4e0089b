/**
 * The two recursive renaming strategies. Both rewrite, at every visited
 * node, the names of its direct geometry children and of the node itself,
 * and recurse only into the children that are not geometry.
 */
module Rename {
  import opened SceneTree
  import opened Naming
  import opened Wrappers

  /** `base + '_' + str(k)` */
  function Suffixed(base: string, k: int): string
  {
    base + "_" + IntToString(k)
  }

  /** The number of nodes of `cs` that satisfy `p`. */
  function CountIf(cs: seq<Node>, p: Node -> bool): (r: nat)
    ensures r <= |cs|
  {
    if |cs| == 0 then 0 else (if p(cs[0]) then 1 else 0) + CountIf(cs[1..], p)
  }

  function IsGeoNode(n: Node): bool { n.IsGeo() }

  /** The number of geometry children, `len(geos)`. */
  function GeoCount(cs: seq<Node>): nat
  {
    CountIf(cs, IsGeoNode)
  }

  /** Two trees that differ at most in their names. */
  predicate SameShape(a: Node, b: Node)
    decreases a
  {
    && a.kind == b.kind && a.center == b.center && a.box == b.box
    && a.material == b.material && a.primitiveCount == b.primitiveCount
    && |a.children| == |b.children|
    && forall i :: 0 <= i < |a.children| ==> SameShape(a.children[i], b.children[i])
  }

  // ---------------------------------------------------------------------
  // Rename_default_Recursive

  /**
   * Reset mode: when the node has geometry children, the j-th of them is
   * renamed `base_j` and the node `base_<count>`; other children are
   * visited recursively. (The source tests for a numeric suffix first, but
   * both outcomes of that test rename alike.)
   */
  function RenameDefault(n: Node): (r: Node)
    decreases n
  {
    var cs := n.children;
    var k := GeoCount(cs);
    var base := Basename(n.name);
    n.(name := if k == 0 then n.name else Suffixed(base, k),
       children := seq(|cs|, i requires 0 <= i < |cs| =>
         if cs[i].IsGeo() then cs[i].(name := Suffixed(base, GeoCount(cs[..i])))
         else RenameDefault(cs[i])))
  }

  // ---------------------------------------------------------------------
  // Rename_change_Recursive

  /** The counter a node's renaming starts from: its trailing integer, uncapped, or 0. */
  function CounterStart(name: string): int
  {
    match ParseInt(LastSegment(name))
    case Some(v) => v
    case None => 0
  }

  /** A geometry child is renamed unless its name already contains the base name. */
  predicate NeedsName(c: Node, base: string)
  {
    c.IsGeo() && !Contains(c.name, base)
  }

  /** The number of children of `cs` the change-mode loop renames. */
  function RenamedCount(cs: seq<Node>, base: string): (r: nat)
    ensures r <= |cs|
  {
    if |cs| == 0 then 0 else (if NeedsName(cs[0], base) then 1 else 0) + RenamedCount(cs[1..], base)
  }

  /**
   * The loop over the geometry children with a running counter: each child
   * that needs a name is assigned the current counter, which then advances.
   * Returns the assignment per child (`None` for a child left alone) and
   * the final counter.
   */
  function ChangePlan(cs: seq<Node>, base: string, counter: int): (r: (seq<Option<int>>, int))
    ensures |r.0| == |cs|
    decreases |cs|
  {
    if |cs| == 0 then ([], counter)
    else if NeedsName(cs[0], base) then
      var rest := ChangePlan(cs[1..], base, counter + 1);
      ([Some(counter)] + rest.0, rest.1)
    else
      var rest := ChangePlan(cs[1..], base, counter);
      ([None] + rest.0, rest.1)
  }

  /** A child after the loop: renamed `base_k` when it was assigned `k`. */
  function Numbered(c: Node, base: string, k: Option<int>): Node
  {
    match k
    case None => c
    case Some(v) => c.(name := Suffixed(base, v))
  }

  /**
   * Change mode: geometry children not yet carrying the base name are
   * numbered on from the node's own trailing integer; the node takes the
   * final counter when it has any geometry child; other children are
   * visited recursively.
   */
  function RenameChange(n: Node): (r: Node)
    decreases n
  {
    var cs := n.children;
    var base := Basename(n.name);
    var plan := ChangePlan(cs, base, CounterStart(n.name));
    n.(name := if GeoCount(cs) == 0 then n.name else Suffixed(base, plan.1),
       children := seq(|cs|, i requires 0 <= i < |cs| =>
         if cs[i].IsGeo() then Numbered(cs[i], base, plan.0[i]) else RenameChange(cs[i])))
  }

  // ---------------------------------------------------------------------
  // Counting lemmas

  lemma {:induction false} CountIfAppend(a: seq<Node>, b: seq<Node>, p: Node -> bool)
    ensures CountIf(a + b, p) == CountIf(a, p) + CountIf(b, p)
    decreases |a|
  {
    if |a| > 0 {
      assert (a + b)[0] == a[0];
      assert (a + b)[1..] == a[1..] + b;
      CountIfAppend(a[1..], b, p);
    } else {
      assert a + b == b;
    }
  }

  /** A counted element strictly raises the count of every longer prefix. */
  lemma CountIfGrows(cs: seq<Node>, p: Node -> bool, i: nat, j: nat)
    requires i < j <= |cs| && p(cs[i])
    ensures CountIf(cs[..i], p) < CountIf(cs[..j], p)
  {
    assert cs[..j] == cs[..i] + [cs[i]] + cs[i + 1..j];
    CountIfAppend(cs[..i] + [cs[i]], cs[i + 1..j], p);
    CountIfAppend(cs[..i], [cs[i]], p);
  }

  lemma {:induction false} RenamedCountAppend(a: seq<Node>, b: seq<Node>, base: string)
    ensures RenamedCount(a + b, base) == RenamedCount(a, base) + RenamedCount(b, base)
    decreases |a|
  {
    if |a| > 0 {
      assert (a + b)[0] == a[0];
      assert (a + b)[1..] == a[1..] + b;
      RenamedCountAppend(a[1..], b, base);
    } else {
      assert a + b == b;
    }
  }

  lemma RenamedCountGrows(cs: seq<Node>, base: string, i: nat, j: nat)
    requires i < j <= |cs| && NeedsName(cs[i], base)
    ensures RenamedCount(cs[..i], base) < RenamedCount(cs[..j], base)
  {
    assert cs[..j] == cs[..i] + [cs[i]] + cs[i + 1..j];
    RenamedCountAppend(cs[..i] + [cs[i]], cs[i + 1..j], base);
    RenamedCountAppend(cs[..i], [cs[i]], base);
  }

  // ---------------------------------------------------------------------
  // Name facts

  lemma SuffixedInjective(base: string, a: int, b: int)
    requires Suffixed(base, a) == Suffixed(base, b)
    ensures a == b
  {
    var sa := Suffixed(base, a);
    assert sa[|base| + 1..] == IntToString(a);
    assert Suffixed(base, b)[|base| + 1..] == IntToString(b);
    IntToStringInjective(a, b);
  }

  lemma SuffixedDiffer(base: string, a: int, b: int)
    requires a != b
    ensures Suffixed(base, a) != Suffixed(base, b)
  {
    if Suffixed(base, a) == Suffixed(base, b) {
      SuffixedInjective(base, a, b);
    }
  }

  lemma {:induction false} SameShapeRenamed(a: Node, s: string)
    ensures SameShape(a, a.(name := s))
  {
    SameShapeReflexive(a);
  }

  lemma {:induction false} SameShapeReflexive(a: Node)
    ensures SameShape(a, a)
    decreases a
  {
    forall i | 0 <= i < |a.children| ensures SameShape(a.children[i], a.children[i]) {
      SameShapeReflexive(a.children[i]);
    }
  }

  /** Reset mode only renames: kinds, boxes, centres, materials and the tree shape are kept. */
  lemma {:induction false} RenameDefaultKeepsShape(n: Node)
    ensures SameShape(n, RenameDefault(n))
    decreases n
  {
    var r := RenameDefault(n);
    var cs := n.children;
    forall i | 0 <= i < |cs| ensures SameShape(cs[i], r.children[i]) {
      if cs[i].IsGeo() {
        SameShapeRenamed(cs[i], r.children[i].name);
      } else {
        RenameDefaultKeepsShape(cs[i]);
      }
    }
  }

  /**
   * Reset mode records the number of geometry children in the node's name:
   * its new last segment reads back as that number. A node without geometry
   * children keeps its name.
   */
  lemma RenameDefaultRecordsCount(n: Node)
    ensures GeoCount(n.children) == 0 ==> RenameDefault(n).name == n.name
    ensures GeoCount(n.children) > 0 ==> ParseInt(LastSegment(RenameDefault(n).name)) == Some(GeoCount(n.children))
  {
    if GeoCount(n.children) > 0 {
      CounterReadsBack(Basename(n.name), GeoCount(n.children));
    }
  }

  /**
   * Reset mode at child `i`: a geometry child becomes `base_j`, where `j`
   * (below the number of geometry children) counts the geometry children
   * before it, and keeps its own subtree; any other child is renamed
   * recursively.
   */
  lemma RenameDefaultChild(n: Node, i: nat)
    requires i < |n.children|
    ensures var cs := n.children;
      var r := RenameDefault(n);
      if cs[i].IsGeo() then
        && GeoCount(cs[..i]) < GeoCount(cs)
        && r.children[i] == cs[i].(name := Suffixed(Basename(n.name), GeoCount(cs[..i])))
      else r.children[i] == RenameDefault(cs[i])
  {
    var cs := n.children;
    if cs[i].IsGeo() {
      CountIfGrows(cs, IsGeoNode, i, |cs|);
      assert cs[..|cs|] == cs;
    }
  }

  /** Reset mode gives two geometry children of one node different names. */
  lemma RenameDefaultChildrenDistinct(n: Node, i: nat, j: nat)
    requires i < j < |n.children| && n.children[i].IsGeo() && n.children[j].IsGeo()
    ensures RenameDefault(n).children[i].name != RenameDefault(n).children[j].name
  {
    var cs := n.children;
    CountIfGrows(cs, IsGeoNode, i, j);
    SuffixedDiffer(Basename(n.name), GeoCount(cs[..i]), GeoCount(cs[..j]));
  }

  /** Reset mode gives a geometry child a name different from its parent's new name. */
  lemma RenameDefaultChildDiffersFromParent(n: Node, i: nat)
    requires i < |n.children| && n.children[i].IsGeo()
    ensures RenameDefault(n).children[i].name != RenameDefault(n).name
  {
    var cs := n.children;
    RenameDefaultChild(n, i);
    SuffixedDiffer(Basename(n.name), GeoCount(cs[..i]), GeoCount(cs));
  }

  /**
   * Every count below the total is reached: for `j` below the number of
   * elements passing `p`, some passing element has exactly `j` passing
   * elements before it.
   */
  lemma {:induction false} CountIfHits(cs: seq<Node>, p: Node -> bool, j: nat)
    requires j < CountIf(cs, p)
    ensures exists i :: 0 <= i < |cs| && p(cs[i]) && CountIf(cs[..i], p) == j
    decreases |cs|
  {
    assert cs[..0] == [];
    if p(cs[0]) && j == 0 {
      assert CountIf(cs[..0], p) == 0;
    } else {
      var step := if p(cs[0]) then 1 else 0;
      CountIfHits(cs[1..], p, j - step);
      var i' :| 0 <= i' < |cs[1..]| && p(cs[1..][i']) && CountIf(cs[1..][..i'], p) == j - step;
      var i := i' + 1;
      assert cs[..i][0] == cs[0];
      assert cs[..i][1..] == cs[1..][..i'];
      assert p(cs[i]) && CountIf(cs[..i], p) == j;
    }
  }

  /**
   * Reset mode hands out every counter below the number of geometry
   * children: for each `j < k` some geometry child is renamed `base_j`.
   */
  lemma RenameDefaultUsesAllCounters(n: Node, j: nat)
    requires j < GeoCount(n.children)
    ensures exists i :: (0 <= i < |n.children| && n.children[i].IsGeo()
      && RenameDefault(n).children[i].name == Suffixed(Basename(n.name), j))
  {
    var cs := n.children;
    CountIfHits(cs, IsGeoNode, j);
    var i :| 0 <= i < |cs| && IsGeoNode(cs[i]) && CountIf(cs[..i], IsGeoNode) == j;
    RenameDefaultChild(n, i);
  }

  /** The node `Foo_3` with two geometry children becomes `Foo_2` over `Foo_0` and `Foo_1`. */
  lemma RenameDefaultOfCounterName(n: Node, stem: string, m: int)
    requires m <= MaxCounter && |stem| > 0
    requires stem[0] !in "_" + IntToString(m) && stem[|stem| - 1] !in "_" + IntToString(m)
    requires n.name == stem + "_" + IntToString(m)
    requires GeoCount(n.children) > 0
    ensures RenameDefault(n).name == Suffixed(stem, GeoCount(n.children))
    ensures forall i :: 0 <= i < |n.children| && n.children[i].IsGeo() ==>
      RenameDefault(n).children[i].name == Suffixed(stem, GeoCount(n.children[..i]))
  {
    BasenameRemovesCounter(stem, m);
    forall i | 0 <= i < |n.children| && n.children[i].IsGeo()
      ensures RenameDefault(n).children[i].name == Suffixed(stem, GeoCount(n.children[..i]))
    {
      RenameDefaultChild(n, i);
    }
  }

  /** The loop's final counter: the start value plus the number of children renamed. */
  lemma {:induction false} ChangePlanFinal(cs: seq<Node>, base: string, counter: int)
    ensures ChangePlan(cs, base, counter).1 == counter + RenamedCount(cs, base)
    decreases |cs|
  {
    if |cs| > 0 {
      ChangePlanFinal(cs[1..], base, counter + if NeedsName(cs[0], base) then 1 else 0);
    }
  }

  /**
   * The loop's running counter at child `i`: a child that needs a name is
   * assigned the start value plus the number of children renamed before
   * it; any other child is left alone.
   */
  lemma {:induction false} ChangePlanAt(cs: seq<Node>, base: string, counter: int, i: nat)
    requires i < |cs|
    ensures ChangePlan(cs, base, counter).0[i] ==
      if NeedsName(cs[i], base) then Some(counter + RenamedCount(cs[..i], base)) else None
    decreases i
  {
    if i > 0 {
      var step := if NeedsName(cs[0], base) then 1 else 0;
      ChangePlanAt(cs[1..], base, counter + step, i - 1);
      assert cs[1..][i - 1] == cs[i];
      assert cs[..i][1..] == cs[1..][..i - 1];
      assert cs[..i][0] == cs[0];
    }
  }

  /** Change mode only renames: kinds, boxes, centres, materials and the tree shape are kept. */
  lemma {:induction false} RenameChangeKeepsShape(n: Node)
    ensures SameShape(n, RenameChange(n))
    decreases n
  {
    var r := RenameChange(n);
    var cs := n.children;
    forall i | 0 <= i < |cs| ensures SameShape(cs[i], r.children[i]) {
      if cs[i].IsGeo() {
        assert r.children[i] == cs[i].(name := r.children[i].name);
        SameShapeRenamed(cs[i], r.children[i].name);
      } else {
        RenameChangeKeepsShape(cs[i]);
      }
    }
  }

  /**
   * Change mode names the node `base_(i0 + renamed)` exactly when it has a
   * geometry child, where `i0` is its trailing integer (0 if none) and
   * `renamed` the number of children the loop renames.
   */
  lemma RenameChangeNodeName(n: Node)
    ensures GeoCount(n.children) == 0 ==> RenameChange(n).name == n.name
    ensures GeoCount(n.children) > 0 ==>
      RenameChange(n).name == Suffixed(Basename(n.name), CounterStart(n.name) + RenamedCount(n.children, Basename(n.name)))
  {
    ChangePlanFinal(n.children, Basename(n.name), CounterStart(n.name));
  }

  /**
   * Change mode records its final counter in the node's name, and that
   * number is above the counter given to every renamed child, so a later
   * run seeded from the name does not hand the same counter out again.
   */
  lemma RenameChangeRecordsCounter(n: Node, i: nat)
    requires i < |n.children| && NeedsName(n.children[i], Basename(n.name))
    ensures var recorded := CounterStart(n.name) + RenamedCount(n.children, Basename(n.name));
      && ParseInt(LastSegment(RenameChange(n).name)) == Some(recorded)
      && exists m :: m < recorded && RenameChange(n).children[i].name == Suffixed(Basename(n.name), m)
  {
    NeedsNameIsGeo(n.children, Basename(n.name), i);
    RenameChangeNameReadsBack(n);
    RenameChangeChildBelow(n, i);
  }

  /** The counter recorded in a renamed node's name reads back. */
  lemma RenameChangeNameReadsBack(n: Node)
    requires GeoCount(n.children) > 0
    ensures ParseInt(LastSegment(RenameChange(n).name))
      == Some(CounterStart(n.name) + RenamedCount(n.children, Basename(n.name)))
  {
    RenameChangeNodeName(n);
    CounterReadsBack(Basename(n.name), CounterStart(n.name) + RenamedCount(n.children, Basename(n.name)));
  }

  /** A child that needs a name gets a counter below the recorded one. */
  lemma RenameChangeChildBelow(n: Node, i: nat)
    requires i < |n.children| && NeedsName(n.children[i], Basename(n.name))
    ensures exists m :: (m < CounterStart(n.name) + RenamedCount(n.children, Basename(n.name))
      && RenameChange(n).children[i].name == Suffixed(Basename(n.name), m))
  {
    var base := Basename(n.name);
    RenameChangeChild(n, i);
    RenamedBeforeBelowTotal(n.children, base, i);
    var m := CounterStart(n.name) + RenamedCount(n.children[..i], base);
    assert RenameChange(n).children[i].name == Suffixed(base, m);
  }

  /** A node with a child that needs a name has a geometry child. */
  lemma NeedsNameIsGeo(cs: seq<Node>, base: string, i: nat)
    requires i < |cs| && NeedsName(cs[i], base)
    ensures GeoCount(cs) > 0
  {
    assert IsGeoNode(cs[i]);
    CountIfGrows(cs, IsGeoNode, i, |cs|);
    assert cs[..|cs|] == cs;
  }

  /** Fewer children are renamed before a renamed child than in all. */
  lemma RenamedBeforeBelowTotal(cs: seq<Node>, base: string, i: nat)
    requires i < |cs| && NeedsName(cs[i], base)
    ensures RenamedCount(cs[..i], base) < RenamedCount(cs, base)
  {
    RenamedCountGrows(cs, base, i, |cs|);
    assert cs[..|cs|] == cs;
  }

  /**
   * Change mode at child `i`: a geometry child whose name contains the base
   * name is left alone; one that does not is numbered `base_(i0 + m)`,
   * where `m` counts the children renamed before it; any other child is
   * renamed recursively.
   */
  lemma RenameChangeChild(n: Node, i: nat)
    requires i < |n.children|
    ensures var cs := n.children;
      var base := Basename(n.name);
      var r := RenameChange(n);
      && (cs[i].IsGeo() && Contains(cs[i].name, base) ==> r.children[i] == cs[i])
      && (NeedsName(cs[i], base) ==>
            r.children[i] == cs[i].(name := Suffixed(base, CounterStart(n.name) + RenamedCount(cs[..i], base))))
      && (!cs[i].IsGeo() ==> r.children[i] == RenameChange(cs[i]))
  {
    ChangePlanAt(n.children, Basename(n.name), CounterStart(n.name), i);
  }

  /** The loop hands out strictly increasing counters. */
  lemma ChangePlanIncreasing(cs: seq<Node>, base: string, counter: int, i: nat, j: nat)
    requires i < j < |cs| && NeedsName(cs[i], base) && NeedsName(cs[j], base)
    ensures var plan := ChangePlan(cs, base, counter);
      plan.0[i].Some? && plan.0[j].Some? && plan.0[i].value < plan.0[j].value
  {
    ChangePlanAt(cs, base, counter, i);
    ChangePlanAt(cs, base, counter, j);
    RenamedCountGrows(cs, base, i, j);
  }

  /** Every counter the loop hands out is below its final counter. */
  lemma ChangePlanBelowFinal(cs: seq<Node>, base: string, counter: int, i: nat)
    requires i < |cs| && NeedsName(cs[i], base)
    ensures var plan := ChangePlan(cs, base, counter);
      plan.0[i].Some? && plan.0[i].value < plan.1
  {
    ChangePlanAt(cs, base, counter, i);
    ChangePlanFinal(cs, base, counter);
    RenamedCountGrows(cs, base, i, |cs|);
    assert cs[..|cs|] == cs;
  }

  /**
   * The names change mode hands out at one node are pairwise distinct and
   * differ from the node's own new name.
   */
  lemma RenameChangeDistinct(n: Node)
    ensures var r := RenameChange(n);
      var cs := n.children;
      var base := Basename(n.name);
      && (forall i, j :: 0 <= i < j < |cs| && NeedsName(cs[i], base) && NeedsName(cs[j], base) ==>
            r.children[i].name != r.children[j].name)
      && (forall i :: 0 <= i < |cs| && NeedsName(cs[i], base) ==> r.children[i].name != r.name)
  {
    var r := RenameChange(n);
    var cs := n.children;
    var base := Basename(n.name);
    var start := CounterStart(n.name);
    var plan := ChangePlan(cs, base, start);
    forall i | 0 <= i < |cs| && NeedsName(cs[i], base)
      ensures r.children[i].name != r.name
    {
      ChangePlanBelowFinal(cs, base, start, i);
      assert r.children[i].name == Suffixed(base, plan.0[i].value);
      assert GeoCount(cs) > 0 by {
        assert IsGeoNode(cs[i]);
        CountIfGrows(cs, IsGeoNode, i, |cs|);
        assert cs[..|cs|] == cs;
      }
      assert r.name == Suffixed(base, plan.1);
      SuffixedDiffer(base, plan.0[i].value, plan.1);
    }
    forall i, j | 0 <= i < j < |cs| && NeedsName(cs[i], base) && NeedsName(cs[j], base)
      ensures r.children[i].name != r.children[j].name
    {
      ChangePlanIncreasing(cs, base, start, i, j);
      assert r.children[i].name == Suffixed(base, plan.0[i].value);
      assert r.children[j].name == Suffixed(base, plan.0[j].value);
      SuffixedDiffer(base, plan.0[i].value, plan.0[j].value);
    }
  }
}
