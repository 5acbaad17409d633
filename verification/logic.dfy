/** OrganizationLogic.Get and OrganizationLogic.List: the read operations of
    the organization service, over the outcome of the query each one issues. */
module OrganizationLogic {
  import opened Outcomes
  import opened Records
  import opened Levels
  import opened Forests
  import opened Chains

  /** Every match up to and including the first whose walk fails has a
      finite walk; later matches are never walked. */
  ghost predicate Walkable(store: Store, ms: seq<Organization>)
    decreases |ms|
  {
    ms == [] ||
    (Stops(store, ms[0]) && (BuildParentHierarchy(store, ms[0]).Err? || Walkable(store, ms[1..])))
  }

  /** The first `n` matches all walk up to a root. */
  ghost predicate ChainsUpTo(store: Store, ms: seq<Organization>, n: int)
    requires 0 <= n <= |ms|
  {
    forall j :: 0 <= j < n ==> Stops(store, ms[j]) && BuildParentHierarchy(store, ms[j]).Ok?
  }

  /** The loop of Get and of the filtered List: one chain per match, in match
      order; the first failing walk fails the whole call. */
  function ChainEach(store: Store, ms: seq<Organization>): (r: Result<seq<Tree>>)
    requires Walkable(store, ms)
    ensures r.Ok? ==> |r.value| == |ms|
    ensures r.Ok? ==> forall i :: 0 <= i < |ms| ==>
      Stops(store, ms[i]) && BuildParentHierarchy(store, ms[i]) == Ok(r.value[i])
    ensures r.Err? ==> exists i :: (0 <= i < |ms| && ChainsUpTo(store, ms, i) &&
      Stops(store, ms[i]) && BuildParentHierarchy(store, ms[i]) == Err(r.error))
    decreases |ms|
  {
    if ms == [] then Ok([])
    else
      match BuildParentHierarchy(store, ms[0])
      case Err(e) =>
        assert ChainsUpTo(store, ms, 0);
        Err(e)
      case Ok(t) =>
        match ChainEach(store, ms[1..])
        case Err(e) =>
          FailureShifts(store, ms, e);
          Err(e)
        case Ok(ts) => Ok([t] + ts)
  }

  lemma FailureShifts(store: Store, ms: seq<Organization>, e: Error)
    requires |ms| > 0 && Stops(store, ms[0]) && BuildParentHierarchy(store, ms[0]).Ok?
    requires exists i :: (0 <= i < |ms| - 1 && ChainsUpTo(store, ms[1..], i) &&
      Stops(store, ms[1..][i]) && BuildParentHierarchy(store, ms[1..][i]) == Err(e))
    ensures exists i :: (0 <= i < |ms| && ChainsUpTo(store, ms, i) &&
      Stops(store, ms[i]) && BuildParentHierarchy(store, ms[i]) == Err(e))
  {
  }

  /** OrganizationLogic.Get over the outcome of its `name LIKE prefix%` query:
      a failed query is returned as is; otherwise every match is walked up to
      its root and the results come back one per match, in match order, with
      no merging of shared ancestors. The first failing walk fails the call
      and no partial list is returned. */
  function Get(store: Store, matches: Result<seq<Organization>>): (r: Result<seq<Tree>>)
    requires matches.Ok? ==> Walkable(store, matches.value)
    ensures matches.Err? ==> r == Err(matches.error)
    ensures r.Ok? ==> matches.Ok? && |r.value| == |matches.value|
    ensures r.Ok? ==> forall i :: 0 <= i < |r.value| ==>
      Stops(store, matches.value[i]) && BuildParentHierarchy(store, matches.value[i]) == Ok(r.value[i])
    ensures r.Ok? ==> forall i :: 0 <= i < |r.value| ==> r.value[i].org.parentId == 0
    ensures matches.Ok? && r.Err? ==> exists i :: (0 <= i < |matches.value| &&
      ChainsUpTo(store, matches.value, i) &&
      Stops(store, matches.value[i]) && BuildParentHierarchy(store, matches.value[i]) == Err(r.error))
  {
    match matches
    case Err(e) => Err(e)
    case Ok(ms) => ChainEach(store, ms)
  }

  /** What List returns: the whole forest, or one chain per match. */
  datatype Listing = WholeForest(forest: Forest) | MatchChains(chains: seq<Tree>)

  /** OrganizationLogic.List. `rows` is the outcome of the query the branch
      issues: the whole table when `search` is empty, the name-prefix matches
      otherwise. The first branch builds the forest of the table; the second
      is Get. */
  method List(search: string, store: Store, rows: Result<seq<Organization>>) returns (r: Result<Listing>)
    requires search == "" && rows.Ok? ==> UniqueIds(rows.value)
    requires search != "" && rows.Ok? ==> Walkable(store, rows.value)
    ensures rows.Err? ==> r == Err(rows.error)
    ensures search == "" && rows.Ok? ==>
      r.Ok? && r.value.WholeForest? && IsForestOf(rows.value, r.value.forest)
    ensures search != "" ==>
      && (r.Ok? <==> Get(store, rows).Ok?)
      && (r.Ok? ==> r.value == MatchChains(Get(store, rows).value))
      && (r.Err? ==> r.error == Get(store, rows).error)
  {
    if search == "" {
      var all := ListAll(rows);
      match all
      case Err(e) => r := Err(e);
      case Ok(f) => r := Ok(WholeForest(f));
    } else {
      match Get(store, rows)
      case Err(e) => r := Err(e);
      case Ok(chains) => r := Ok(MatchChains(chains));
    }
  }

  /** Two matches under the same root come back as two separate chains, each
      with its own copy of the root. */
  lemma SharedRootNotMerged()
    ensures var head := Organization(1, "head office", 0, 1, "");
            var sales := Organization(2, "sales", 1, 2, "");
            var support := Organization(3, "support", 1, 2, "");
            var store := map[1 := head, 2 := sales, 3 := support];
            && Walkable(store, [sales, support])
            && Get(store, Ok([sales, support])) == Ok([Tree(head, [Leaf(sales)]), Tree(head, [Leaf(support)])])
  {
    var head := Organization(1, "head office", 0, 1, "");
    var sales := Organization(2, "sales", 1, 2, "");
    var support := Organization(3, "support", 1, 2, "");
    var store := map[1 := head, 2 := sales, 3 := support];
    assert StopsWithin(store, sales, 1) && StopsWithin(store, support, 1);
    assert StopsWithin(store, head, 0);
    assert store[1] == head;
    assert BuildParentHierarchy(store, head) == Ok(Leaf(head));
    assert Leaf(head).children + [Leaf(sales)] == [Leaf(sales)];
    assert Leaf(head).children + [Leaf(support)] == [Leaf(support)];
    assert BuildParentHierarchy(store, sales) == Ok(Tree(head, [Leaf(sales)]));
    assert BuildParentHierarchy(store, support) == Ok(Tree(head, [Leaf(support)]));
    assert [sales, support][1..] == [support];
    assert [support][1..] == [];
    assert Walkable(store, []) && ChainEach(store, []) == Ok([]);
    assert Walkable(store, [support]);
    var one: seq<Tree> := [Tree(head, [Leaf(support)])];
    assert one + [] == one;
    assert ChainEach(store, [support]) == Ok([Tree(head, [Leaf(support)])]);
    assert Walkable(store, [sales, support]);
    var two: seq<Tree> := [Tree(head, [Leaf(sales)]), Tree(head, [Leaf(support)])];
    assert [Tree(head, [Leaf(sales)])] + one == two;
    assert ChainEach(store, [sales, support]) == Ok(two);
  }

  // ---------------------------------------------------------------------
  // The level invariant makes every walk finite and successful

  /** In a level-consistent table the walk from any stored row finds its root,
      and the chain has as many rows as the row's level. */
  lemma {:induction false} ConsistentLevelsGiveChains(store: Store, id: nat)
    requires LevelsConsistent(Links(store, OrgLink), OrganizationLevel) && id in store
    ensures 1 <= store[id].level <= OrganizationLevel
    ensures StopsWithin(store, store[id], store[id].level - 1)
    ensures Stops(store, store[id])
    ensures AncestorPath(store, store[id]).Ok?
    ensures |AncestorPath(store, store[id]).value| == store[id].level
    decreases store[id].level
  {
    var links := Links(store, OrgLink);
    var o := store[id];
    assert links[id] == OrgLink(o);
    if o.parentId != 0 {
      var pid := o.parentId;
      assert pid in links;
      assert links[pid] == OrgLink(store[pid]);
      ConsistentLevelsGiveChains(store, pid);
      assert StopsWithin(store, o, o.level - 1);
    } else {
      assert StopsWithin(store, o, 0);
    }
  }

  /** In a level-consistent table, Get's precondition holds for any matches
      read from the table, and no walk fails. */
  lemma {:induction false} ConsistentTableIsWalkable(store: Store, ms: seq<Organization>)
    requires LevelsConsistent(Links(store, OrgLink), OrganizationLevel)
    requires forall i :: 0 <= i < |ms| ==> ms[i].id in store && store[ms[i].id] == ms[i]
    ensures Walkable(store, ms)
    ensures Get(store, Ok(ms)).Ok?
    decreases |ms|
  {
    if ms != [] {
      ConsistentLevelsGiveChains(store, ms[0].id);
      ConsistentTableIsWalkable(store, ms[1..]);
      assert Walkable(store, ms);
    }
  }

  /** When the scanned rows are level-consistent among themselves, as a full
      scan of a level-consistent table is, the unfiltered listing loses
      nothing: every row is reachable from the returned roots, along exactly
      one root path. */
  lemma ConsistentScanIsFullyReachable(rows: seq<Organization>, f: Forest, k: nat)
    requires UniqueIds(rows) && IsForestOf(rows, f) && k < |rows|
    requires LevelsConsistent(Links(ScanStore(rows), OrgLink), OrganizationLevel)
    ensures Reachable(f, k)
    ensures forall p, q :: IsRootPath(f, p) && IsRootPath(f, q) && p[|p| - 1] == k && q[|q| - 1] == k ==> p == q
  {
    var store := ScanStore(rows);
    assert store[rows[k].id] == rows[k];
    ConsistentLevelsGiveChains(store, rows[k].id);
    ReachableIffWalkReachesRoot(rows, f, k);
    forall p, q | IsRootPath(f, p) && IsRootPath(f, q) && p[|p| - 1] == k && q[|q| - 1] == k
      ensures p == q
    {
      RootPathUnique(rows, f, p, q);
    }
  }
}
