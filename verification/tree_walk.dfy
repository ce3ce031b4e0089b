/**
 * The geometry collector every other component starts from: a depth-first
 * walk that gathers geometry nodes passing an optional filter and never
 * descends below a geometry node, whether the filter accepted it or not.
 */
module TreeWalk {
  import opened SceneTree

  /** The filter used where the caller passes no predicate. */
  function AcceptAll(n: Node): bool { true }

  /** The geometry nodes of the subtree at `n` that `pred` accepts, in walk order. */
  function Collect(n: Node, pred: Node -> bool): (r: seq<Node>)
    ensures forall k :: 0 <= k < |r| ==> r[k].IsGeo() && pred(r[k])
    decreases n, 1, 0
  {
    if n.IsGeo() then
      (if pred(n) then [n] else [])
    else
      CollectFrom(n, pred, 0)
  }

  /** The collection of the children of `n` from index `i` on, in child order. */
  function CollectFrom(n: Node, pred: Node -> bool, i: nat): (r: seq<Node>)
    requires i <= |n.children|
    ensures forall k :: 0 <= k < |r| ==> r[k].IsGeo() && pred(r[k])
    decreases n, 0, |n.children| - i
  {
    if i == |n.children| then []
    else Collect(n.children[i], pred) + CollectFrom(n, pred, i + 1)
  }

  // ---------------------------------------------------------------------
  // An independent description by positions: a path is a list of child
  // indices leading from the root of the walk to a node.

  type Path = seq<nat>

  predicate ValidPath(n: Node, p: Path)
    decreases |p|
  {
    |p| == 0 || (p[0] < |n.children| && ValidPath(n.children[p[0]], p[1..]))
  }

  function At(n: Node, p: Path): Node
    requires ValidPath(n, p)
    decreases |p|
  {
    if |p| == 0 then n else At(n.children[p[0]], p[1..])
  }

  /** No node strictly above the end of `p` is a geometry node. */
  predicate NoGeoAbove(n: Node, p: Path)
    requires ValidPath(n, p)
    decreases |p|
  {
    |p| == 0 || (!n.IsGeo() && NoGeoAbove(n.children[p[0]], p[1..]))
  }

  /** The node at `p` is one the walk must report. */
  predicate Selected(n: Node, pred: Node -> bool, p: Path)
  {
    ValidPath(n, p) && NoGeoAbove(n, p) && At(n, p).IsGeo() && pred(At(n, p))
  }

  /** Strict depth-first (lexicographic) order on paths, neither a prefix of the other. */
  predicate PathBefore(p: Path, q: Path)
    decreases |p|
  {
    |p| > 0 && |q| > 0 && (p[0] < q[0] || (p[0] == q[0] && PathBefore(p[1..], q[1..])))
  }

  predicate IsPrefix(p: Path, q: Path)
  {
    |p| <= |q| && q[..|p|] == p
  }

  predicate SortedPaths(ps: seq<Path>)
  {
    forall a, b :: 0 <= a < b < |ps| ==> PathBefore(ps[a], ps[b])
  }

  function Prepend(i: nat, ps: seq<Path>): (r: seq<Path>)
    ensures |r| == |ps|
    ensures forall k :: 0 <= k < |r| ==> r[k] == [i] + ps[k]
  {
    seq(|ps|, k requires 0 <= k < |ps| => [i] + ps[k])
  }

  /** The paths of the nodes `Collect` reports, computed the same way. */
  ghost function CollectPaths(n: Node, pred: Node -> bool): seq<Path>
    decreases n, 1, 0
  {
    if n.IsGeo() then
      (if pred(n) then [[]] else [])
    else
      CollectPathsFrom(n, pred, 0)
  }

  ghost function CollectPathsFrom(n: Node, pred: Node -> bool, i: nat): seq<Path>
    requires i <= |n.children|
    decreases n, 0, |n.children| - i
  {
    if i == |n.children| then []
    else Prepend(i, CollectPaths(n.children[i], pred)) + CollectPathsFrom(n, pred, i + 1)
  }

  lemma {:induction false} PathBeforeExtend(i: nat, p: Path, q: Path)
    requires PathBefore(p, q)
    ensures PathBefore([i] + p, [i] + q)
  {
    assert ([i] + p)[1..] == p;
    assert ([i] + q)[1..] == q;
  }

  /** Path order excludes the ancestor relation in both directions. */
  lemma {:induction false} PathBeforeNotPrefix(p: Path, q: Path)
    requires PathBefore(p, q)
    ensures !IsPrefix(p, q) && !IsPrefix(q, p)
    decreases |p|
  {
    if p[0] == q[0] {
      PathBeforeNotPrefix(p[1..], q[1..]);
    }
  }

  lemma {:induction false} PathsOfChild(n: Node, pred: Node -> bool, i: nat, p: Path)
    requires i < |n.children| && !n.IsGeo()
    ensures ValidPath(n, [i] + p) <==> ValidPath(n.children[i], p)
    ensures ValidPath(n, [i] + p) ==> At(n, [i] + p) == At(n.children[i], p)
    ensures Selected(n, pred, [i] + p) <==> Selected(n.children[i], pred, p)
  {
    assert ([i] + p)[1..] == p;
  }

  /** Child `i`'s paths, prefixed with `i`, followed by later children's paths stay sorted. */
  lemma HeadRestSorted(i: nat, a: seq<Path>, rest: seq<Path>)
    requires SortedPaths(a) && SortedPaths(rest)
    requires forall k :: 0 <= k < |rest| ==> |rest[k]| > 0 && i < rest[k][0]
    ensures SortedPaths(Prepend(i, a) + rest)
  {
    var head := Prepend(i, a);
    var ps := head + rest;
    forall x, y | 0 <= x < y < |ps|
      ensures PathBefore(ps[x], ps[y])
    {
      if y < |head| {
        PathBeforeExtend(i, a[x], a[y]);
      } else if x >= |head| {
        assert ps[x] == rest[x - |head|] && ps[y] == rest[y - |head|];
      } else {
        assert ps[y] == rest[y - |head|];
      }
    }
  }

  lemma HeadRestMembers(n: Node, pred: Node -> bool, i: nat, a: seq<Path>, rest: seq<Path>)
    requires i < |n.children| && !n.IsGeo()
    requires forall p :: p in a <==> Selected(n.children[i], pred, p)
    requires forall p :: p in rest <==> |p| > 0 && i + 1 <= p[0] < |n.children| && Selected(n, pred, p)
    ensures forall p :: p in Prepend(i, a) + rest <==> |p| > 0 && i <= p[0] < |n.children| && Selected(n, pred, p)
  {
    var head := Prepend(i, a);
    forall p
      ensures p in head + rest <==> |p| > 0 && i <= p[0] < |n.children| && Selected(n, pred, p)
    {
      if |p| > 0 && p[0] == i {
        PathsOfChild(n, pred, i, p[1..]);
        assert [i] + p[1..] == p;
        if p[1..] in a {
          var k :| 0 <= k < |a| && a[k] == p[1..];
          assert head[k] == p;
        }
        if p in head {
          var k :| 0 <= k < |head| && head[k] == p;
          assert a[k] == p[1..];
        }
      }
    }
  }

  /**
   * The position-level facts about the walk from child `i` on: exactly the
   * selected paths through children `i..`, in strict depth-first order, and
   * `CollectFrom` reports the nodes at those paths.
   */
  lemma {:induction false} CollectFromPaths(n: Node, pred: Node -> bool, i: nat)
    requires i <= |n.children| && !n.IsGeo()
    ensures var ps := CollectPathsFrom(n, pred, i);
      && SortedPaths(ps)
      && (forall k :: 0 <= k < |ps| ==> |ps[k]| > 0 && i <= ps[k][0] < |n.children|)
      && (forall p :: p in ps <==> |p| > 0 && i <= p[0] < |n.children| && Selected(n, pred, p))
      && |CollectFrom(n, pred, i)| == |ps|
      && (forall k :: 0 <= k < |ps| ==> ValidPath(n, ps[k]) && CollectFrom(n, pred, i)[k] == At(n, ps[k]))
    decreases n, 0, |n.children| - i
  {
    if i < |n.children| {
      var c := n.children[i];
      CollectPathsSpec(c, pred);
      CollectFromPaths(n, pred, i + 1);
      var a := CollectPaths(c, pred);
      var head := Prepend(i, a);
      var rest := CollectPathsFrom(n, pred, i + 1);
      var ps := head + rest;
      assert ps == CollectPathsFrom(n, pred, i);
      HeadRestSorted(i, a, rest);
      HeadRestMembers(n, pred, i, a, rest);
      var nodes := CollectFrom(n, pred, i);
      assert nodes == Collect(c, pred) + CollectFrom(n, pred, i + 1);
      forall k | 0 <= k < |ps|
        ensures ValidPath(n, ps[k]) && nodes[k] == At(n, ps[k])
        ensures |ps[k]| > 0 && i <= ps[k][0] < |n.children|
      {
        if k < |head| {
          PathsOfChild(n, pred, i, a[k]);
        } else {
          assert ps[k] == rest[k - |head|];
        }
      }
    }
  }

  /**
   * `Collect` reports exactly the nodes at the selected paths, in strict
   * depth-first order, one entry per path.
   */
  lemma {:induction false} CollectPathsSpec(n: Node, pred: Node -> bool)
    ensures var ps := CollectPaths(n, pred);
      && SortedPaths(ps)
      && (forall p :: p in ps <==> Selected(n, pred, p))
      && |Collect(n, pred)| == |ps|
      && (forall k :: 0 <= k < |ps| ==> ValidPath(n, ps[k]) && Collect(n, pred)[k] == At(n, ps[k]))
    decreases n, 1, 0
  {
    if n.IsGeo() {
      forall p | Selected(n, pred, p) ensures p == [] { }
    } else {
      CollectFromPaths(n, pred, 0);
    }
  }

  /**
   * The walk reports, in depth-first order and without repetition, exactly
   * the accepted geometry nodes that have no geometry node above them.
   */
  lemma CollectCharacterization(n: Node, pred: Node -> bool)
    ensures exists ps: seq<Path> ::
      && |ps| == |Collect(n, pred)|
      && SortedPaths(ps)
      && (forall k :: 0 <= k < |ps| ==> Selected(n, pred, ps[k]) && Collect(n, pred)[k] == At(n, ps[k]))
      && (forall p :: Selected(n, pred, p) ==> p in ps)
  {
    CollectPathsSpec(n, pred);
    var ps := CollectPaths(n, pred);
    assert forall k :: 0 <= k < |ps| ==> ps[k] in ps;
  }

  /** No reported node lies above another reported node. */
  lemma CollectNoNesting(n: Node, pred: Node -> bool)
    ensures exists ps: seq<Path> ::
      && |ps| == |Collect(n, pred)|
      && (forall k :: 0 <= k < |ps| ==> ValidPath(n, ps[k]) && Collect(n, pred)[k] == At(n, ps[k]))
      && (forall a, b :: 0 <= a < |ps| && 0 <= b < |ps| && a != b ==> !IsPrefix(ps[a], ps[b]))
  {
    CollectPathsSpec(n, pred);
    var ps := CollectPaths(n, pred);
    forall a, b | 0 <= a < |ps| && 0 <= b < |ps| && a != b
      ensures !IsPrefix(ps[a], ps[b])
    {
      if a < b { PathBeforeNotPrefix(ps[a], ps[b]); } else { PathBeforeNotPrefix(ps[b], ps[a]); }
    }
  }

  // ---------------------------------------------------------------------
  // The filter only filters: it never changes where the walk descends.

  function Filter(pred: Node -> bool, xs: seq<Node>): seq<Node>
  {
    if |xs| == 0 then []
    else (if pred(xs[0]) then [xs[0]] else []) + Filter(pred, xs[1..])
  }

  /** Every node `Filter` keeps passes the predicate and comes from the list. */
  lemma {:induction false} FilterPasses(pred: Node -> bool, xs: seq<Node>)
    ensures forall k :: 0 <= k < |Filter(pred, xs)| ==> pred(Filter(pred, xs)[k]) && Filter(pred, xs)[k] in xs
  {
    if xs != [] {
      FilterPasses(pred, xs[1..]);
      var r := Filter(pred, xs);
      var rest := Filter(pred, xs[1..]);
      forall k | 0 <= k < |r| ensures pred(r[k]) && r[k] in xs {
        if pred(xs[0]) && k == 0 {
          assert r[0] == xs[0];
        } else {
          var k' := if pred(xs[0]) then k - 1 else k;
          assert r[k] == rest[k'];
          assert rest[k'] in xs[1..];
        }
      }
    }
  }

  lemma {:induction false} FilterAppend(pred: Node -> bool, a: seq<Node>, b: seq<Node>)
    ensures Filter(pred, a + b) == Filter(pred, a) + Filter(pred, b)
    decreases |a|
  {
    if |a| == 0 {
      assert a + b == b;
    } else {
      var h := if pred(a[0]) then [a[0]] else [];
      assert (a + b)[0] == a[0];
      assert (a + b)[1..] == a[1..] + b;
      FilterAppend(pred, a[1..], b);
      assert Filter(pred, a + b) == h + Filter(pred, a[1..] + b);
    }
  }

  /** A node survives `Filter` exactly when it was there and passes. */
  lemma {:induction false} FilterMembers(pred: Node -> bool, xs: seq<Node>, c: Node)
    ensures c in Filter(pred, xs) <==> c in xs && pred(c)
  {
    if xs != [] {
      FilterMembers(pred, xs[1..], c);
      assert xs == [xs[0]] + xs[1..];
    }
  }

  /** The complement of a node predicate. */
  function Not(pred: Node -> bool): (r: Node -> bool)
    ensures forall c :: r(c) == !pred(c)
  {
    c => !pred(c)
  }

  /**
   * Filtering by a predicate and by its complement splits a list: together
   * the two parts hold every element exactly as often as the list does.
   */
  lemma {:induction false} FilterPartition(pred: Node -> bool, xs: seq<Node>)
    ensures multiset(Filter(pred, xs)) + multiset(Filter(Not(pred), xs)) == multiset(xs)
  {
    if xs != [] {
      var h, tail := xs[0], xs[1..];
      var other := Not(pred);
      FilterPartition(pred, tail);
      var fp, fo := Filter(pred, tail), Filter(other, tail);
      assert multiset(xs) == multiset([h]) + multiset(tail) by {
        assert xs == [h] + tail;
      }
      if pred(h) {
        assert Filter(pred, xs) == [h] + fp;
        assert Filter(other, xs) == fo by {
          assert !other(h);
        }
        assert multiset([h] + fp) == multiset([h]) + multiset(fp);
      } else {
        assert Filter(pred, xs) == fp;
        assert Filter(other, xs) == [h] + fo by {
          assert other(h);
        }
        assert multiset([h] + fo) == multiset([h]) + multiset(fo);
      }
    }
  }

  /** Two elements that both pass keep their relative order. */
  lemma FilterKeepsOrder(pred: Node -> bool, xs: seq<Node>, i: nat, j: nat)
    requires i < j < |xs| && pred(xs[i]) && pred(xs[j])
    ensures var part := Filter(pred, xs);
      exists a, b :: 0 <= a < b < |part| && part[a] == xs[i] && part[b] == xs[j]
  {
    var left, right := xs[..j], xs[j + 1..];
    assert xs == left + ([xs[j]] + right);
    FilterAppend(pred, left, [xs[j]] + right);
    FilterAppend(pred, [xs[j]], right);
    assert Filter(pred, [xs[j]]) == [xs[j]] by {
      assert [xs[j]][1..] == [];
    }
    FilterMembers(pred, left, xs[i]);
    assert xs[i] == left[i];
    var fl := Filter(pred, left);
    var a :| 0 <= a < |fl| && fl[a] == xs[i];
    var part := Filter(pred, xs);
    assert part == fl + ([xs[j]] + Filter(pred, right));
    assert part[a] == xs[i] && part[|fl|] == xs[j];
  }

  lemma {:induction false} CollectFromIsFilter(n: Node, pred: Node -> bool, i: nat)
    requires i <= |n.children|
    ensures CollectFrom(n, pred, i) == Filter(pred, CollectFrom(n, AcceptAll, i))
    decreases n, 0, |n.children| - i
  {
    if i < |n.children| {
      CollectIsFilter(n.children[i], pred);
      CollectFromIsFilter(n, pred, i + 1);
      FilterAppend(pred, Collect(n.children[i], AcceptAll), CollectFrom(n, AcceptAll, i + 1));
    }
  }

  /** Walking with a filter equals walking without one and then filtering. */
  lemma {:induction false} CollectIsFilter(n: Node, pred: Node -> bool)
    ensures Collect(n, pred) == Filter(pred, Collect(n, AcceptAll))
    decreases n, 1, 0
  {
    if !n.IsGeo() {
      CollectFromIsFilter(n, pred, 0);
    }
  }
}
