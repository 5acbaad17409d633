/** The index-then-attach pass that turns one full scan of the organization
    table into a forest: the unfiltered branch of OrganizationLogic.List and
    Organization.GetAllDescendants.

    The Go code links pointers into the scanned slice. Here the same graph is
    an arena over the scanned rows: `roots` and every `children[p]` hold
    positions in `rows`, so a child list names rows rather than copies. */
module Forests {
  import opened Outcomes
  import opened Records
  import opened Chains

  datatype Forest = Forest(rows: seq<Organization>, roots: seq<nat>, children: seq<seq<nat>>)

  /** Ids are primary keys: no two scanned rows share one. */
  predicate UniqueIds(rows: seq<Organization>)
  {
    forall i, j :: 0 <= i < j < |rows| ==> rows[i].id != rows[j].id
  }

  /** Strictly increasing positions: scan order, each position once. */
  predicate Increasing(s: seq<nat>)
  {
    forall i, j :: 0 <= i < j < |s| ==> s[i] < s[j]
  }

  /** Row `k` hangs under row `p`: it is not a root and names `p`'s id as its parent. */
  predicate AttachedTo(rows: seq<Organization>, k: int, p: int)
    requires 0 <= k < |rows| && 0 <= p < |rows|
  {
    rows[k].parentId != 0 && rows[k].parentId == rows[p].id
  }

  /** Some scanned row carries the id that row `k` names as its parent. */
  predicate ParentScanned(rows: seq<Organization>, k: int)
    requires 0 <= k < |rows|
  {
    exists p :: 0 <= p < |rows| && rows[p].id == rows[k].parentId
  }

  /** `f` is the forest of `rows`: its roots are the rows with parent id 0, in
      scan order; the children of each row are the rows naming it as parent,
      in scan order. */
  ghost predicate IsForestOf(rows: seq<Organization>, f: Forest)
  {
    && f.rows == rows
    && |f.children| == |rows|
    && Increasing(f.roots)
    && (forall k :: k in f.roots <==> 0 <= k < |rows| && rows[k].parentId == 0)
    && (forall p :: 0 <= p < |rows| ==> Increasing(f.children[p]))
    && (forall p, k :: 0 <= p < |rows| ==> (k in f.children[p] <==> 0 <= k < |rows| && AttachedTo(rows, k, p)))
  }

  /** The `id -> row` index both Go functions build first. */
  predicate IsIndexOf(rows: seq<Organization>, index: map<nat, nat>)
  {
    && (forall id :: id in index ==> index[id] < |rows| && rows[index[id]].id == id)
    && (forall k :: 0 <= k < |rows| ==> rows[k].id in index)
  }

  /** The roots collected from the first `i` rows: those with parent id 0,
      in scan order. */
  ghost predicate RootsUpTo(rows: seq<Organization>, roots: seq<nat>, i: int)
  {
    && Increasing(roots)
    && (forall j :: 0 <= j < |roots| ==> roots[j] < i)
    && (forall k :: k in roots <==> 0 <= k < i && k < |rows| && rows[k].parentId == 0)
  }

  /** The children lists filled from the first `i` rows: each row's list holds
      the rows among them that name it as parent, in scan order. */
  ghost predicate ChildrenUpTo(rows: seq<Organization>, children: seq<seq<nat>>, i: int)
  {
    && |children| == |rows|
    && (forall p :: 0 <= p < |rows| ==> Increasing(children[p]))
    && (forall p, j :: 0 <= p < |rows| && 0 <= j < |children[p]| ==> children[p][j] < i)
    && (forall p, k :: 0 <= p < |rows| ==> (k in children[p] <==> 0 <= k < i && k < |rows| && AttachedTo(rows, k, p)))
  }

  lemma AppendRoot(rows: seq<Organization>, roots: seq<nat>, i: nat)
    requires RootsUpTo(rows, roots, i) && i < |rows| && rows[i].parentId == 0
    ensures RootsUpTo(rows, roots + [i], i + 1)
  {
  }

  lemma SkipRoot(rows: seq<Organization>, roots: seq<nat>, i: nat)
    requires RootsUpTo(rows, roots, i) && i < |rows| && rows[i].parentId != 0
    ensures RootsUpTo(rows, roots, i + 1)
  {
  }

  /** Row `i` goes to the end of its parent's list, and nowhere else. */
  lemma AppendChild(rows: seq<Organization>, children: seq<seq<nat>>, i: nat, p: nat)
    requires UniqueIds(rows) && ChildrenUpTo(rows, children, i)
    requires i < |rows| && p < |rows| && AttachedTo(rows, i, p)
    ensures ChildrenUpTo(rows, children[p := children[p] + [i]], i + 1)
  {
  }

  /** Row `i` is attached to no scanned row, so no list changes. */
  lemma SkipChild(rows: seq<Organization>, children: seq<seq<nat>>, i: nat)
    requires ChildrenUpTo(rows, children, i) && i < |rows|
    requires forall q :: 0 <= q < |rows| ==> !AttachedTo(rows, i, q)
    ensures ChildrenUpTo(rows, children, i + 1)
  {
  }

  /** The two loops of the unfiltered List: index every row by id, then walk
      the rows in scan order, collecting roots and appending every other row
      to the children of its parent when the parent was scanned (a row whose
      parent is missing is skipped). */
  method BuildForest(rows: seq<Organization>) returns (f: Forest, index: map<nat, nat>)
    requires UniqueIds(rows)
    ensures IsForestOf(rows, f)
    ensures IsIndexOf(rows, index)
  {
    index := map[];
    var i := 0;
    while i < |rows|
      invariant i <= |rows|
      invariant forall id :: id in index ==> index[id] < i && rows[index[id]].id == id
      invariant forall k :: 0 <= k < i ==> rows[k].id in index
    {
      index := index[rows[i].id := i];
      i := i + 1;
    }

    var roots: seq<nat> := [];
    var children: seq<seq<nat>> := seq(|rows|, _ => []);
    i := 0;
    while i < |rows|
      invariant i <= |rows|
      invariant RootsUpTo(rows, roots, i)
      invariant ChildrenUpTo(rows, children, i)
    {
      if rows[i].parentId != 0 {
        SkipRoot(rows, roots, i);
        if rows[i].parentId in index {
          var p := index[rows[i].parentId];
          AppendChild(rows, children, i, p);
          children := children[p := children[p] + [i]];
        } else {
          SkipChild(rows, children, i);
        }
      } else {
        AppendRoot(rows, roots, i);
        SkipChild(rows, children, i);
        roots := roots + [i];
      }
      i := i + 1;
    }
    f := Forest(rows, roots, children);
  }

  /** Unfiltered OrganizationLogic.List: a failed scan is returned as is;
      otherwise the forest of the scanned rows. */
  method ListAll(scan: Result<seq<Organization>>) returns (r: Result<Forest>)
    requires scan.Ok? ==> UniqueIds(scan.value)
    ensures scan.Err? ==> r == Err(scan.error)
    ensures scan.Ok? ==> r.Ok? && IsForestOf(scan.value, r.value)
  {
    if scan.Err? {
      return Err(scan.error);
    }
    var f, _ := BuildForest(scan.value);
    r := Ok(f);
  }

  /** What GetAllDescendants returns: the positions it picked, inside the
      forest that gives them their children. */
  datatype Descendants = Descendants(forest: Forest, picked: seq<nat>)

  /** Organization.GetAllDescendants. It dereferences the parent of every
      non-root row and the row of `org.ID` without checking they exist, so
      both must be present. With `org.ID == 0` it returns the roots, otherwise
      the direct children of `org.ID`, in scan order. */
  method GetAllDescendants(org: Organization, scan: Result<seq<Organization>>) returns (r: Result<Descendants>)
    requires scan.Ok? ==> UniqueIds(scan.value)
    requires scan.Ok? ==> forall k :: 0 <= k < |scan.value| && scan.value[k].parentId != 0 ==> ParentScanned(scan.value, k)
    requires scan.Ok? && org.id != 0 ==> exists p :: 0 <= p < |scan.value| && scan.value[p].id == org.id
    ensures scan.Err? ==> r == Err(scan.error)
    ensures scan.Ok? ==> r.Ok? && IsForestOf(scan.value, r.value.forest) && Increasing(r.value.picked)
    ensures scan.Ok? ==> forall k :: k in r.value.picked <==>
      0 <= k < |scan.value| && scan.value[k].parentId == org.id
  {
    if scan.Err? {
      return Err(scan.error);
    }
    var rows := scan.value;
    var f, index := BuildForest(rows);
    if org.id == 0 {
      r := Ok(Descendants(f, f.roots));
    } else {
      var p := index[org.id];
      r := Ok(Descendants(f, f.children[p]));
    }
  }

  // ---------------------------------------------------------------------
  // Attachment: every row appears once, or not at all

  function Flatten(lists: seq<seq<nat>>): seq<nat>
  {
    if lists == [] then [] else Flatten(lists[..|lists| - 1]) + lists[|lists| - 1]
  }

  /** How often position `k` appears in the forest: among the roots plus in
      every children list. */
  function Occurrences(f: Forest, k: nat): nat
  {
    multiset(f.roots + Flatten(f.children))[k]
  }

  lemma {:induction false} IncreasingOnce(s: seq<nat>, k: nat)
    requires Increasing(s)
    ensures multiset(s)[k] == if k in s then 1 else 0
    decreases |s|
  {
    if s != [] {
      var init := s[..|s| - 1];
      assert s == init + [s[|s| - 1]];
      assert Increasing(init);
      IncreasingOnce(init, k);
      if k == s[|s| - 1] {
        assert k !in init;
      }
    }
  }

  /** If `k` is in list `p` and in no other list, and every list is
      increasing, `k` occurs once in their concatenation. */
  lemma {:induction false} FlattenOnce(lists: seq<seq<nat>>, k: nat, p: int)
    requires forall q :: 0 <= q < |lists| ==> Increasing(lists[q])
    requires forall q :: 0 <= q < |lists| && q != p ==> k !in lists[q]
    requires 0 <= p < |lists| ==> k in lists[p]
    ensures multiset(Flatten(lists))[k] == if 0 <= p < |lists| then 1 else 0
    decreases |lists|
  {
    if lists != [] {
      var n := |lists| - 1;
      FlattenOnce(lists[..n], k, p);
      IncreasingOnce(lists[n], k);
    }
  }

  /** A root appears once, among the roots. A non-root whose parent was
      scanned appears once, in that parent's children. A non-root whose parent
      was not scanned appears nowhere: it is dropped. */
  lemma AttachedExactlyOnce(rows: seq<Organization>, f: Forest, k: nat)
    requires UniqueIds(rows) && IsForestOf(rows, f) && k < |rows|
    ensures rows[k].parentId == 0 ==> k in f.roots && Occurrences(f, k) == 1
    ensures rows[k].parentId != 0 && ParentScanned(rows, k) ==>
      k !in f.roots && Occurrences(f, k) == 1 &&
      forall p :: 0 <= p < |rows| ==> (k in f.children[p] <==> rows[p].id == rows[k].parentId)
    ensures rows[k].parentId != 0 && !ParentScanned(rows, k) ==>
      Occurrences(f, k) == 0 && forall p :: 0 <= p < |rows| ==> k !in f.children[p]
  {
    IncreasingOnce(f.roots, k);
    if rows[k].parentId == 0 {
      FlattenOnce(f.children, k, -1);
    } else if ParentScanned(rows, k) {
      var p :| 0 <= p < |rows| && rows[p].id == rows[k].parentId;
      FlattenOnce(f.children, k, p);
    } else {
      FlattenOnce(f.children, k, -1);
    }
  }

  // ---------------------------------------------------------------------
  // The forest is determined by the scan

  lemma SameElementsBothEmpty(s: seq<nat>, t: seq<nat>)
    requires forall k :: k in s <==> k in t
    ensures s == [] <==> t == []
  {
    if s != [] {
      assert s[0] in s;
    }
    if t != [] {
      assert t[0] in t;
    }
  }

  lemma {:induction false} IncreasingUnique(s: seq<nat>, t: seq<nat>)
    requires Increasing(s) && Increasing(t)
    requires forall k :: k in s <==> k in t
    ensures s == t
    decreases |s|
  {
    SameElementsBothEmpty(s, t);
    if s != [] {
      assert s[0] in s && t[0] in t;
      var j :| 0 <= j < |t| && t[j] == s[0];
      var j' :| 0 <= j' < |s| && s[j'] == t[0];
      assert t[0] <= t[j] && s[0] <= s[j'];
      forall k ensures k in s[1..] <==> k in t[1..] {
        if k in s[1..] {
          var i :| 0 <= i < |s| - 1 && s[1..][i] == k;
          assert s[i + 1] == k && s[0] < k;
          assert k in s;
          var i' :| 0 <= i' < |t| && t[i'] == k;
          assert i' != 0;
          assert t[1..][i' - 1] == k;
        }
        if k in t[1..] {
          var i :| 0 <= i < |t| - 1 && t[1..][i] == k;
          assert t[i + 1] == k && t[0] < k;
          assert k in t;
          var i' :| 0 <= i' < |s| && s[i'] == k;
          assert i' != 0;
          assert s[1..][i' - 1] == k;
        }
      }
      IncreasingUnique(s[1..], t[1..]);
    }
  }

  /** Listing the same scan twice yields the same forest. */
  lemma ForestIsDetermined(rows: seq<Organization>, f: Forest, g: Forest)
    requires IsForestOf(rows, f) && IsForestOf(rows, g)
    ensures f == g
  {
    IncreasingUnique(f.roots, g.roots);
    forall p | 0 <= p < |rows| ensures f.children[p] == g.children[p] {
      IncreasingUnique(f.children[p], g.children[p]);
    }
  }

  // ---------------------------------------------------------------------
  // What a caller can reach from the returned roots

  /** The scanned rows keyed by id: the table the parent walk of a scanned row
      would consult if only these rows existed. */
  function ScanStore(rows: seq<Organization>): (s: Store)
    requires UniqueIds(rows)
    ensures forall k :: 0 <= k < |rows| ==> rows[k].id in s && s[rows[k].id] == rows[k]
    ensures forall id :: id in s ==> exists k :: 0 <= k < |rows| && rows[k].id == id
  {
    map k | 0 <= k < |rows| :: rows[k].id := rows[k]
  }

  /** `p` leads from one of the returned roots down through children lists. */
  ghost predicate IsRootPath(f: Forest, p: seq<nat>)
    decreases |p|
  {
    && |p| > 0
    && if |p| == 1 then p[0] in f.roots
       else
         && IsRootPath(f, p[..|p| - 1])
         && p[|p| - 2] < |f.children|
         && p[|p| - 1] in f.children[p[|p| - 2]]
  }

  /** Row `k` can be reached from the roots the listing hands back. */
  ghost predicate Reachable(f: Forest, k: nat)
  {
    exists p :: IsRootPath(f, p) && p[|p| - 1] == k
  }

  /** The last step of a root path: a one-step path ends at a root; a longer
      one ends at a row attached to the row before it. */
  lemma RootPathEnd(rows: seq<Organization>, f: Forest, p: seq<nat>)
    requires IsForestOf(rows, f) && IsRootPath(f, p)
    ensures p[|p| - 1] < |rows|
    ensures |p| == 1 <==> rows[p[|p| - 1]].parentId == 0
    ensures |p| > 1 ==> p[|p| - 2] < |rows| && AttachedTo(rows, p[|p| - 1], p[|p| - 2])
  {
  }

  /** Appending a row attached to the end of a root path gives a root path. */
  lemma ExtendRootPath(rows: seq<Organization>, f: Forest, p: seq<nat>, k: nat)
    requires IsForestOf(rows, f) && IsRootPath(f, p)
    requires p[|p| - 1] < |rows| && k < |rows| && AttachedTo(rows, k, p[|p| - 1])
    ensures IsRootPath(f, p + [k])
  {
  }

  /** Along a root path the walk of the last row, among the scanned rows,
      reaches a root. */
  lemma {:induction false} RootPathWalks(rows: seq<Organization>, f: Forest, p: seq<nat>)
    requires UniqueIds(rows) && IsForestOf(rows, f) && IsRootPath(f, p)
    ensures p[|p| - 1] < |rows|
    ensures Stops(ScanStore(rows), rows[p[|p| - 1]])
    ensures AncestorPath(ScanStore(rows), rows[p[|p| - 1]]).Ok?
    decreases |p|
  {
    var store := ScanStore(rows);
    RootPathEnd(rows, f, p);
    var k := p[|p| - 1];
    if |p| == 1 {
      assert StopsWithin(store, rows[k], 0);
    } else {
      var j, q := p[|p| - 2], p[..|p| - 1];
      assert q[|q| - 1] == j;
      RootPathWalks(rows, f, q);
      var parent := rows[j];
      assert Stops(store, parent) && AncestorPath(store, parent).Ok?;
      assert store[rows[k].parentId] == parent;
      ChildWalk(store, rows[k]);
    }
  }

  /** A root chain of the scanned rows is a root path of the forest. */
  lemma {:induction false} RootChainPath(rows: seq<Organization>, f: Forest, c: seq<Organization>, k: nat)
    returns (p: seq<nat>)
    requires UniqueIds(rows) && IsForestOf(rows, f) && k < |rows|
    requires IsRootChain(ScanStore(rows), c, rows[k])
    ensures IsRootPath(f, p) && p[|p| - 1] == k
    decreases |c|
  {
    var store := ScanStore(rows);
    if |c| == 1 {
      assert k in f.roots;
      p := [k];
    } else {
      var pid := rows[k].parentId;
      var j :| 0 <= j < |rows| && rows[j].id == pid;
      assert store[pid] == rows[j];
      RootChainPrefix(store, c, rows[k]);
      var q := RootChainPath(rows, f, c[..|c| - 1], j);
      ExtendRootPath(rows, f, q, k);
      p := q + [k];
    }
  }

  /** A row is reachable from the returned roots exactly when its parent walk
      among the scanned rows ends at a root. A row below an unscanned parent
      id, or on or below a cycle of parent ids, is therefore unreachable, and
      so is its whole subtree, even though the arena attaches it. */
  lemma ReachableIffWalkReachesRoot(rows: seq<Organization>, f: Forest, k: nat)
    requires UniqueIds(rows) && IsForestOf(rows, f) && k < |rows|
    ensures Reachable(f, k) <==>
      Stops(ScanStore(rows), rows[k]) && AncestorPath(ScanStore(rows), rows[k]).Ok?
  {
    var store := ScanStore(rows);
    if Reachable(f, k) {
      var p :| IsRootPath(f, p) && p[|p| - 1] == k;
      RootPathWalks(rows, f, p);
    }
    if Stops(store, rows[k]) && AncestorPath(store, rows[k]).Ok? {
      var p := RootChainPath(rows, f, AncestorPath(store, rows[k]).value, k);
    }
  }

  /** A row is reached along one root path only: the forest shares no rows
      between branches. */
  lemma {:induction false} RootPathUnique(rows: seq<Organization>, f: Forest, p: seq<nat>, q: seq<nat>)
    requires UniqueIds(rows) && IsForestOf(rows, f)
    requires IsRootPath(f, p) && IsRootPath(f, q) && p[|p| - 1] == q[|q| - 1]
    ensures p == q
    decreases |p|
  {
    RootPathEnd(rows, f, p);
    RootPathEnd(rows, f, q);
    var k := p[|p| - 1];
    if |p| == 1 {
      assert p == [k] == q;
    } else {
      var n, m := |p| - 1, |q| - 1;
      assert rows[p[n - 1]].id == rows[q[m - 1]].id;
      assert p[n - 1] == q[m - 1];
      assert IsRootPath(f, p[..n]) && IsRootPath(f, q[..m]);
      RootPathUnique(rows, f, p[..n], q[..m]);
      assert p == p[..n] + [k] && q == q[..m] + [k];
    }
  }

  /** A scan in which row 3 sits below row 2, whose parent 9 was not
      scanned. */
  const OrphanScan: seq<Organization> :=
    [Organization(1, "head", 0, 1, ""), Organization(2, "branch", 9, 2, ""), Organization(3, "desk", 2, 3, "")]

  /** In that scan both non-root rows walk to the missing id 9. */
  lemma OrphanScanWalksFail()
    ensures UniqueIds(OrphanScan)
    ensures Stops(ScanStore(OrphanScan), OrphanScan[1]) && AncestorPath(ScanStore(OrphanScan), OrphanScan[1]).Err?
    ensures Stops(ScanStore(OrphanScan), OrphanScan[2]) && AncestorPath(ScanStore(OrphanScan), OrphanScan[2]).Err?
  {
    var rows := OrphanScan;
    assert UniqueIds(rows);
    var store := ScanStore(rows);
    assert 9 !in store;
    assert StopsWithin(store, rows[1], 0) && StopsWithin(store, rows[2], 1);
  }

  /** The arena of that scan: row 1 is the only root, and row 3 is listed
      under row 2. */
  lemma OrphanScanArena(f: Forest)
    requires IsForestOf(OrphanScan, f)
    ensures f.roots == [0] && f.children[1] == [2]
  {
    assert 0 in f.roots;
    IncreasingUnique(f.roots, [0]);
    assert 2 in f.children[1];
    IncreasingUnique(f.children[1], [2]);
  }

  /** The arena lists row 3 once, under row 2, yet neither row is reachable
      from the single returned root: the listing drops the whole subtree. */
  lemma OrphanSubtreeDropped(f: Forest)
    requires IsForestOf(OrphanScan, f)
    ensures f.roots == [0] && f.children[1] == [2]
    ensures Occurrences(f, 2) == 1
    ensures !Reachable(f, 1) && !Reachable(f, 2)
  {
    OrphanScanArena(f);
    OrphanScanWalksFail();
    assert ParentScanned(OrphanScan, 2);
    AttachedExactlyOnce(OrphanScan, f, 2);
    ReachableIffWalkReachesRoot(OrphanScan, f, 1);
    ReachableIffWalkReachesRoot(OrphanScan, f, 2);
  }
}
