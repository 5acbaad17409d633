/** The ancestor walk of OrganizationLogic.buildParentHierarchy: from one row,
    look up parent after parent until a root, and hand back the root with the
    walked rows hung below it. */
module Chains {
  import opened Outcomes
  import opened Records

  // ---------------------------------------------------------------------
  // Termination of the walk

  /** The parent walk from `o` reaches a root, or a parent id with no row,
      within `bound` lookups. */
  predicate StopsWithin(store: Store, o: Organization, bound: nat)
    decreases bound
  {
    o.parentId == 0 || o.parentId !in store ||
    (bound > 0 && StopsWithin(store, store[o.parentId], bound - 1))
  }

  /** The walk from `o` is finite: no cycle of parent ids is reachable from
      `o`. The source has no depth guard, so this is what its recursion needs. */
  ghost predicate Stops(store: Store, o: Organization)
  {
    exists bound: nat :: StopsWithin(store, o, bound)
  }

  ghost function HopsWithin(store: Store, o: Organization, bound: nat): nat
    requires StopsWithin(store, o, bound)
    decreases bound
  {
    if o.parentId == 0 || o.parentId !in store then 0
    else 1 + HopsWithin(store, store[o.parentId], bound - 1)
  }

  lemma {:induction false} HopsWithinAnyBound(store: Store, o: Organization, b1: nat, b2: nat)
    requires StopsWithin(store, o, b1) && StopsWithin(store, o, b2)
    ensures HopsWithin(store, o, b1) == HopsWithin(store, o, b2)
    decreases b1
  {
    if o.parentId != 0 && o.parentId in store {
      HopsWithinAnyBound(store, store[o.parentId], b1 - 1, b2 - 1);
    }
  }

  /** Number of lookups the walk from `o` performs. */
  ghost function Hops(store: Store, o: Organization): nat
    requires Stops(store, o)
  {
    var b: nat :| StopsWithin(store, o, b); HopsWithin(store, o, b)
  }

  /** One step up: the parent's walk is finite too, and one lookup shorter. */
  lemma ParentStops(store: Store, o: Organization)
    requires Stops(store, o) && o.parentId != 0 && o.parentId in store
    ensures Stops(store, store[o.parentId])
    ensures Hops(store, store[o.parentId]) < Hops(store, o)
  {
    var b: nat :| StopsWithin(store, o, b) && Hops(store, o) == HopsWithin(store, o, b);
    var parent := store[o.parentId];
    assert b > 0 && StopsWithin(store, parent, b - 1);
    var b': nat :| StopsWithin(store, parent, b') && Hops(store, parent) == HopsWithin(store, parent, b');
    HopsWithinAnyBound(store, parent, b - 1, b');
    assert HopsWithin(store, o, b) == 1 + HopsWithin(store, parent, b - 1);
  }

  // ---------------------------------------------------------------------
  // The path the walk visits

  /** `p` runs from a root down to `o`, each row the stored parent of the next. */
  predicate IsRootChain(store: Store, p: seq<Organization>, o: Organization)
  {
    && |p| > 0
    && p[0].parentId == 0
    && p[|p| - 1] == o
    && forall i :: 1 <= i < |p| ==>
         p[i].parentId != 0 && p[i].parentId in store && store[p[i].parentId] == p[i - 1]
  }

  /** The rows the walk from `o` visits, root first and `o` last; or the
      failed lookup that stopped it. */
  function AncestorPath(store: Store, o: Organization): (r: Result<seq<Organization>>)
    requires Stops(store, o)
    ensures r.Ok? ==> IsRootChain(store, r.value, o)
    ensures r.Err? ==> r.error.RecordNotFound? && r.error.id != 0 && r.error.id !in store
    decreases Hops(store, o)
  {
    if o.parentId == 0 then Ok([o])
    else if o.parentId !in store then Err(RecordNotFound(o.parentId))
    else
      ParentStops(store, o);
      match AncestorPath(store, store[o.parentId])
      case Err(e) => Err(e)
      case Ok(p) => Ok(p + [o])
  }

  /** Any chain from a root down to `o` is the one the walk finds: a chain
      proves the walk finite, and the walk returns exactly that chain. */
  lemma {:induction false} RootChainIsFound(store: Store, p: seq<Organization>, o: Organization)
    requires IsRootChain(store, p, o)
    ensures Stops(store, o)
    ensures AncestorPath(store, o) == Ok(p)
    decreases |p|
  {
    if |p| == 1 {
      assert p == [o];
      assert StopsWithin(store, o, 0);
    } else {
      var n := |p| - 1;
      var parent := p[n - 1];
      assert store[o.parentId] == parent;
      assert IsRootChain(store, p[..n], parent);
      RootChainIsFound(store, p[..n], parent);
      var b: nat :| StopsWithin(store, parent, b);
      assert StopsWithin(store, o, b + 1);
      assert p[..n] + [o] == p;
    }
  }

  /** One step down: if the parent's walk is finite and reaches a root, so
      does the child's, one row longer. */
  lemma ChildWalk(store: Store, o: Organization)
    requires o.parentId != 0 && o.parentId in store
    requires Stops(store, store[o.parentId]) && AncestorPath(store, store[o.parentId]).Ok?
    ensures Stops(store, o)
    ensures AncestorPath(store, o) == Ok(AncestorPath(store, store[o.parentId]).value + [o])
  {
    var b: nat :| StopsWithin(store, store[o.parentId], b);
    assert StopsWithin(store, o, b + 1);
  }

  /** Dropping the last row of a root chain leaves a root chain to its parent. */
  lemma RootChainPrefix(store: Store, p: seq<Organization>, o: Organization)
    requires IsRootChain(store, p, o) && |p| > 1
    ensures o.parentId != 0 && o.parentId in store
    ensures IsRootChain(store, p[..|p| - 1], store[o.parentId])
  {
  }

  /** The walk fails exactly when no chain joins `o` to a root. */
  lemma WalkFailsIffNoRootChain(store: Store, o: Organization)
    requires Stops(store, o)
    ensures AncestorPath(store, o).Err? <==> forall p :: !IsRootChain(store, p, o)
  {
    if AncestorPath(store, o).Err? {
      forall p ensures !IsRootChain(store, p, o) {
        if IsRootChain(store, p, o) {
          RootChainIsFound(store, p, o);
        }
      }
    } else {
      assert IsRootChain(store, AncestorPath(store, o).value, o);
    }
  }

  // ---------------------------------------------------------------------
  // buildParentHierarchy as written

  /** The shape buildParentHierarchy returns: the root of path `p`, with every
      later row of `p` appended to the ROOT's children, each with no children
      of its own. */
  function Flat(p: seq<Organization>): Tree
    requires |p| > 0
  {
    Tree(p[0], seq(|p| - 1, i requires 0 <= i < |p| - 1 => Leaf(p[i + 1])))
  }

  lemma FlatSnoc(p: seq<Organization>, o: Organization)
    requires |p| > 0
    ensures Flat(p + [o]) == Tree(p[0], Flat(p).children + [Leaf(o)])
  {
  }

  /** OrganizationLogic.buildParentHierarchy. A root comes back as itself.
      Otherwise the parent is looked up and walked first; the walk's result is
      always the ROOT, and the current row is appended to the root's children
      (the source names that result `parentOrg`, but it is the parent only
      when the parent is the root). */
  function BuildParentHierarchy(store: Store, o: Organization): (r: Result<Tree>)
    requires Stops(store, o)
    ensures o.parentId == 0 ==> r == Ok(Leaf(o))
    ensures r.Ok? <==> AncestorPath(store, o).Ok?
    ensures r.Err? ==> r.error == AncestorPath(store, o).error
    ensures r.Ok? ==> r.value.org.parentId == 0 && r.value == Flat(AncestorPath(store, o).value)
    decreases Hops(store, o)
  {
    if o.parentId == 0 then Ok(Leaf(o))
    else if o.parentId !in store then Err(RecordNotFound(o.parentId))
    else
      ParentStops(store, o);
      match BuildParentHierarchy(store, store[o.parentId])
      case Err(e) => Err(e)
      case Ok(root) =>
        FlatSnoc(AncestorPath(store, store[o.parentId]).value, o);
        Ok(Tree(root.org, root.children + [Leaf(o)]))
  }

  // ---------------------------------------------------------------------
  // The chain as intended: one nested path

  /** The nested path over `p`: each row's only child is the next row. */
  function Nest(p: seq<Organization>): Tree
    requires |p| > 0
    decreases |p|
  {
    if |p| == 1 then Leaf(p[0]) else Tree(p[0], [Nest(p[1..])])
  }

  /** Every row of `t` has at most one child. */
  predicate IsPathTree(t: Tree)
  {
    |t.children| <= 1 && (|t.children| == 1 ==> IsPathTree(t.children[0]))
  }

  /** The rows of a path tree, top down. */
  function Spine(t: Tree): seq<Organization>
  {
    [t.org] + (if |t.children| == 0 then [] else Spine(t.children[0]))
  }

  /** `Spine` reads back the path `Nest` was built from. */
  lemma {:induction false} NestSpine(p: seq<Organization>)
    requires |p| > 0
    ensures IsPathTree(Nest(p)) && Spine(Nest(p)) == p
    decreases |p|
  {
    if |p| > 1 {
      NestSpine(p[1..]);
    }
  }

  /** And `Nest` rebuilds a path tree from its spine. */
  lemma {:induction false} SpineNest(t: Tree)
    requires IsPathTree(t)
    ensures Nest(Spine(t)) == t
  {
    if |t.children| == 1 {
      SpineNest(t.children[0]);
      assert Spine(t)[1..] == Spine(t.children[0]);
    }
  }

  /** The corrected walk: carry the subtree built so far upward, hanging it
      under its parent at every step. */
  function Lift(store: Store, sub: Tree): Result<Tree>
    requires Stops(store, sub.org)
    decreases Hops(store, sub.org)
  {
    if sub.org.parentId == 0 then Ok(sub)
    else if sub.org.parentId !in store then Err(RecordNotFound(sub.org.parentId))
    else
      ParentStops(store, sub.org);
      Lift(store, Tree(store[sub.org.parentId], [sub]))
  }

  /** Lifting the nested path `q` completes it with the ancestors of its top row. */
  lemma {:induction false} LiftNest(store: Store, q: seq<Organization>)
    requires |q| > 0 && Stops(store, q[0])
    ensures AncestorPath(store, q[0]).Ok? ==>
      Lift(store, Nest(q)) == Ok(Nest(AncestorPath(store, q[0]).value + q[1..]))
    ensures AncestorPath(store, q[0]).Err? ==>
      Lift(store, Nest(q)) == Err(AncestorPath(store, q[0]).error)
    decreases Hops(store, q[0])
  {
    var o := q[0];
    assert Nest(q).org == o;
    if o.parentId == 0 {
      assert [o] + q[1..] == q;
    } else if o.parentId in store {
      var parent := store[o.parentId];
      ParentStops(store, o);
      var q' := [parent] + q;
      assert q'[1..] == q;
      assert Nest(q') == Tree(parent, [Nest(q)]);
      LiftNest(store, q');
      if AncestorPath(store, parent).Ok? {
        var a := AncestorPath(store, parent).value;
        assert a + q'[1..] == (a + [o]) + q[1..];
      }
    }
  }

  /** buildParentHierarchy as its comments describe it: the current row is
      added to its PARENT's children, so the result is one nested path from
      the root down to `o`. */
  function NestedChain(store: Store, o: Organization): (r: Result<Tree>)
    requires Stops(store, o)
    ensures r.Ok? <==> AncestorPath(store, o).Ok?
    ensures r.Err? ==> r.error == AncestorPath(store, o).error
    ensures r.Ok? ==> IsPathTree(r.value) && Spine(r.value) == AncestorPath(store, o).value
  {
    LiftLeaf(store, o);
    Lift(store, Leaf(o))
  }

  lemma LiftLeaf(store: Store, o: Organization)
    requires Stops(store, o)
    ensures AncestorPath(store, o).Ok? ==> Lift(store, Leaf(o)) == Ok(Nest(AncestorPath(store, o).value))
    ensures AncestorPath(store, o).Err? ==> Lift(store, Leaf(o)) == Err(AncestorPath(store, o).error)
    ensures AncestorPath(store, o).Ok? ==> IsPathTree(Nest(AncestorPath(store, o).value))
    ensures AncestorPath(store, o).Ok? ==> Spine(Nest(AncestorPath(store, o).value)) == AncestorPath(store, o).value
  {
    LiftNest(store, [o]);
    assert Nest([o]) == Leaf(o);
    if AncestorPath(store, o).Ok? {
      var a := AncestorPath(store, o).value;
      assert a + [o][1..] == a;
      NestSpine(a);
    }
  }

  /** As written and as intended agree on chains of one or two rows and part
      from the third row down: the written walk then gives the root two or
      more children, which no path tree has. */
  lemma AsWrittenFlattensDeepChains(store: Store, o: Organization)
    requires Stops(store, o) && AncestorPath(store, o).Ok?
    ensures |AncestorPath(store, o).value| <= 2 ==> BuildParentHierarchy(store, o) == NestedChain(store, o)
    ensures |AncestorPath(store, o).value| >= 3 ==>
      && |BuildParentHierarchy(store, o).value.children| == |AncestorPath(store, o).value| - 1
      && !IsPathTree(BuildParentHierarchy(store, o).value)
      && BuildParentHierarchy(store, o) != NestedChain(store, o)
  {
    var a := AncestorPath(store, o).value;
    var t := NestedChain(store, o).value;
    SpineNest(t);
    if |a| == 1 {
      assert Flat(a).children == [];
    } else if |a| == 2 {
      assert Flat(a).children == [Leaf(a[1])];
      assert Nest(a[1..]) == Leaf(a[1]);
    }
  }

  /** The concrete chain 1 <- 2 <- 3: buildParentHierarchy on row 3 returns
      row 1 with children [2, 3] instead of row 1 > row 2 > row 3. */
  lemma ThreeLevelChainComesBackFlat()
    ensures var r1 := Organization(1, "head office", 0, 1, "");
            var r2 := Organization(2, "engineering", 1, 2, "");
            var r3 := Organization(3, "platform", 2, 3, "");
            var store := map[1 := r1, 2 := r2];
            && StopsWithin(store, r3, 2)
            && BuildParentHierarchy(store, r3) == Ok(Tree(r1, [Leaf(r2), Leaf(r3)]))
            && NestedChain(store, r3) == Ok(Tree(r1, [Tree(r2, [Leaf(r3)])]))
  {
    var r1 := Organization(1, "head office", 0, 1, "");
    var r2 := Organization(2, "engineering", 1, 2, "");
    var r3 := Organization(3, "platform", 2, 3, "");
    var store := map[1 := r1, 2 := r2];
    var p := [r1, r2, r3];
    assert IsRootChain(store, p, r3);
    RootChainIsFound(store, p, r3);
    assert StopsWithin(store, r3, 2);
    assert Flat(p).children == [Leaf(r2), Leaf(r3)];
    SpineNest(NestedChain(store, r3).value);
    assert Nest([r3]) == Leaf(r3);
    assert [r2, r3][1..] == [r3];
    assert Nest([r2, r3]) == Tree(r2, [Leaf(r3)]);
    assert p[1..] == [r2, r3];
    assert Nest(p) == Tree(r1, [Tree(r2, [Leaf(r3)])]);
  }
}
