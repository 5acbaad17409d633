/** Level assignment by the create hooks of organizations and menus, and the
    level invariant those hooks keep. */
module Levels {
  import opened Outcomes
  import opened Records

  /** A record as a create hook leaves it, with the error the hook returns.
      The hook writes `Level` before it checks the bound, so a rejected record
      still carries the level it was given. */
  datatype Created<T> = Created(record: T, err: Option<Error>)

  /** The part of a row the level rules read: its parent link and its level. */
  datatype Link = Link(parentId: nat, level: Int64)

  /** The level field a create hook leaves behind and the error it returns.
      `parentLevel` is the outcome of the primary-key lookup of `parentId`
      (consulted only when `parentId` is not 0); `current` is the level the
      caller put in the record. */
  function LevelHook(parentId: nat, parentLevel: Option<Int64>, limit: Int64, current: Int64): (Int64, Option<Error>)
  {
    if parentId != 0 then
      match parentLevel
      case None => (current, Some(RecordNotFound(parentId)))
      case Some(pl) =>
        var level := Inc64(pl);
        if level > limit then (level, Some(LevelExceeded(limit))) else (level, None)
    else
      (1, None)
  }

  /** Level of the organization with primary key `id`, if there is one. */
  function OrgLevel(store: Store, id: nat): Option<Int64>
  {
    if id in store then Some(store[id].level) else None
  }

  /** Level of the menu with primary key `id`, if there is one. */
  function MenuLevelOf(menus: map<nat, Menu>, id: nat): Option<Int64>
  {
    if id in menus then Some(menus[id].level) else None
  }

  /** Organization.BeforeCreate: a root gets level 1; any other row gets its
      parent's level plus one, and is refused beyond OrganizationLevel. */
  function OrganizationBeforeCreate(store: Store, o: Organization): (r: Created<Organization>)
    // the hook writes the level field and nothing else
    ensures r.record == o.(level := r.record.level)
    // success bounds the depth
    ensures r.err.None? ==> r.record.level <= OrganizationLevel
    ensures o.parentId == 0 ==> r == Created(o.(level := 1), None)
    ensures o.parentId != 0 && o.parentId !in store ==>
      r == Created(o, Some(RecordNotFound(o.parentId)))
    ensures o.parentId != 0 && o.parentId in store ==>
      && r.record.level == Inc64(store[o.parentId].level)
      && (r.err.None? <==> r.record.level <= OrganizationLevel)
      && (r.err.Some? ==> r.err.value == LevelExceeded(OrganizationLevel))
  {
    var (level, err) := LevelHook(o.parentId, OrgLevel(store, o.parentId), OrganizationLevel, o.level);
    Created(o.(level := level), err)
  }

  /** Menu.BeforeCreate as written: the parent of a menu is looked up in the
      ORGANIZATION table, not in the menu table. */
  function MenuBeforeCreate(orgs: Store, m: Menu): (r: Created<Menu>)
    ensures r.record == m.(level := r.record.level)
    ensures r.err.None? ==> r.record.level <= MenuLevel
    ensures m.parentId == 0 ==> r == Created(m.(level := 1), None)
    ensures m.parentId != 0 && m.parentId !in orgs ==>
      r == Created(m, Some(RecordNotFound(m.parentId)))
    ensures m.parentId != 0 && m.parentId in orgs ==>
      && r.record.level == Inc64(orgs[m.parentId].level)
      && (r.err.None? <==> r.record.level <= MenuLevel)
      && (r.err.Some? ==> r.err.value == LevelExceeded(MenuLevel))
  {
    var (level, err) := LevelHook(m.parentId, OrgLevel(orgs, m.parentId), MenuLevel, m.level);
    Created(m.(level := level), err)
  }

  /** The menu hook as its comments and the Menu.ParentId field describe it:
      the parent is a menu, looked up in the menu table. */
  function MenuBeforeCreateIntended(menus: map<nat, Menu>, m: Menu): (r: Created<Menu>)
    ensures r.record == m.(level := r.record.level)
    ensures r.err.None? ==> r.record.level <= MenuLevel
    ensures m.parentId == 0 ==> r == Created(m.(level := 1), None)
    ensures m.parentId != 0 && m.parentId !in menus ==>
      r == Created(m, Some(RecordNotFound(m.parentId)))
    ensures m.parentId != 0 && m.parentId in menus ==>
      && r.record.level == Inc64(menus[m.parentId].level)
      && (r.err.None? <==> r.record.level <= MenuLevel)
  {
    var (level, err) := LevelHook(m.parentId, MenuLevelOf(menus, m.parentId), MenuLevel, m.level);
    Created(m.(level := level), err)
  }

  // ---------------------------------------------------------------------
  // The level invariant

  /** The link of an organization row. */
  function OrgLink(o: Organization): Link
  {
    Link(o.parentId, o.level)
  }

  /** The link of a menu row. */
  function MenuLink(m: Menu): Link
  {
    Link(m.parentId, m.level)
  }

  /** A table seen through the level rules: the link of every row, by key. */
  function Links<T>(table: map<nat, T>, link: T -> Link): map<nat, Link>
  {
    map id | id in table :: link(table[id])
  }

  /** Storing a row updates the links at its key and nowhere else. */
  lemma LinksUpdate<T>(table: map<nat, T>, link: T -> Link, k: nat, v: T)
    ensures Links(table[k := v], link) == Links(table, link)[k := link(v)]
  {
  }

  function LinkLevel(links: map<nat, Link>, id: nat): Option<Int64>
  {
    if id in links then Some(links[id].level) else None
  }

  /** Every row sits at a level between 1 and `limit`: a root at 1, any other
      row one below a parent that exists. */
  predicate LevelsConsistent(links: map<nat, Link>, limit: Int64)
  {
    forall id :: id in links ==>
      && 1 <= links[id].level <= limit
      && (links[id].parentId == 0 ==> links[id].level == 1)
      && (links[id].parentId != 0 ==>
            links[id].parentId in links && links[id].level == links[links[id].parentId].level + 1)
  }

  /** Adding, under an unused key, a row the hook accepted keeps the level
      invariant. */
  lemma HookKeepsLevelsConsistent(links: map<nat, Link>, limit: Int64, parentId: nat, current: Int64, newId: nat)
    requires LevelsConsistent(links, limit) && 1 <= limit < MaxInt64 && newId !in links
    requires LevelHook(parentId, LinkLevel(links, parentId), limit, current).1.None?
    ensures LevelsConsistent(links[newId := Link(parentId, LevelHook(parentId, LinkLevel(links, parentId), limit, current).0)], limit)
  {
  }

  /** Creating an organization in a level-consistent table, and storing the
      accepted record under an unused key, leaves the table level-consistent. */
  lemma CreateKeepsLevelsConsistent(store: Store, o: Organization, newId: nat)
    requires LevelsConsistent(Links(store, OrgLink), OrganizationLevel) && newId !in store
    requires OrganizationBeforeCreate(store, o).err.None?
    ensures LevelsConsistent(Links(store[newId := OrganizationBeforeCreate(store, o).record.(id := newId)], OrgLink), OrganizationLevel)
  {
    var r := OrganizationBeforeCreate(store, o).record.(id := newId);
    assert LinkLevel(Links(store, OrgLink), o.parentId) == OrgLevel(store, o.parentId);
    HookKeepsLevelsConsistent(Links(store, OrgLink), OrganizationLevel, o.parentId, o.level, newId);
    LinksUpdate(store, OrgLink, newId, r);
  }

  /** The intended menu hook keeps the menu table level-consistent. */
  lemma IntendedMenuCreateKeepsLevelsConsistent(menus: map<nat, Menu>, m: Menu, newId: nat)
    requires LevelsConsistent(Links(menus, MenuLink), MenuLevel) && newId !in menus
    requires MenuBeforeCreateIntended(menus, m).err.None?
    ensures LevelsConsistent(Links(menus[newId := MenuBeforeCreateIntended(menus, m).record.(id := newId)], MenuLink), MenuLevel)
  {
    var r := MenuBeforeCreateIntended(menus, m).record.(id := newId);
    assert LinkLevel(Links(menus, MenuLink), m.parentId) == MenuLevelOf(menus, m.parentId);
    HookKeepsLevelsConsistent(Links(menus, MenuLink), MenuLevel, m.parentId, m.level, newId);
    LinksUpdate(menus, MenuLink, newId, r);
  }

  /** Without wrap-around the level is exactly the parent's plus one, and the
      hook accepts exactly when that is at most OrganizationLevel. */
  lemma LevelFollowsParent(store: Store, o: Organization)
    requires o.parentId != 0 && o.parentId in store && store[o.parentId].level < MaxInt64
    ensures OrganizationBeforeCreate(store, o).record.level == store[o.parentId].level + 1
    ensures OrganizationBeforeCreate(store, o).err.None? <==> store[o.parentId].level + 1 <= OrganizationLevel
  {
  }

  /** Whatever level the caller supplied is overwritten: two records that
      differ only in their level fare the same, and on success come out equal. */
  lemma CallerLevelIgnored(store: Store, o: Organization, supplied: Int64)
    ensures OrganizationBeforeCreate(store, o).err == OrganizationBeforeCreate(store, o.(level := supplied)).err
    ensures OrganizationBeforeCreate(store, o).err.None? ==>
      OrganizationBeforeCreate(store, o).record == OrganizationBeforeCreate(store, o.(level := supplied)).record
  {
  }

  /** Go's `int` wraps: a parent whose level holds the largest int gives a
      child at the smallest one, which passes the `> OrganizationLevel` test.
      This is about the hook's arithmetic only; the `int` column the level is
      stored in is narrower, so such a parent cannot come back from storage. */
  lemma LevelWrapPassesBound(store: Store, o: Organization)
    requires o.parentId != 0 && o.parentId in store && store[o.parentId].level == MaxInt64
    ensures OrganizationBeforeCreate(store, o) == Created(o.(level := MinInt64), None)
  {
  }

  /** A menu whose parent is a level-1 menu: the hook as written looks for
      that parent among organizations and fails when no organization has the
      same id, while the intended hook places the menu at level 2. */
  lemma MenuParentLookedUpInWrongTable()
    ensures var parent := Menu(7, "/system", "system", 0, 1, 1);
            var child := Menu(0, "/system/user", "user", 7, 1, 0);
            && MenuBeforeCreate(map[], child) == Created(child, Some(RecordNotFound(7)))
            && MenuBeforeCreateIntended(map[7 := parent], child) == Created(child.(level := 2), None)
  {
  }
}
