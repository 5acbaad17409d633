/** The persisted rows of the hierarchy (Organization and Menu) and the
    transient tree the read operations hand back. */
module Records {

  const MinInt64: int := -0x8000_0000_0000_0000
  const MaxInt64: int := 0x7fff_ffff_ffff_ffff

  /** Go's `int` on a 64-bit platform, the type of the `Level` fields. */
  type Int64 = x: int | -0x8000_0000_0000_0000 <= x <= 0x7fff_ffff_ffff_ffff

  /** `x + 1` on a Go `int`: two's-complement addition, which wraps from the
      largest value to the smallest. */
  function Inc64(x: Int64): (r: Int64)
    ensures r == (x - MinInt64 + 1) % 0x1_0000_0000_0000_0000 + MinInt64
  {
    if x == MaxInt64 then MinInt64 else x + 1
  }

  /** Deepest level an organization may sit at. */
  const OrganizationLevel: Int64 := 5

  /** Deepest level a menu may sit at. */
  const MenuLevel: Int64 := 5

  /** One row of the organization table; `parentId == 0` marks a root.
      The transient `Children` slice is not part of the row: see `Tree`. */
  datatype Organization = Organization(
    id: nat,
    name: string,
    parentId: nat,
    level: Int64,
    desc: string)

  /** The organization table, keyed by primary key. */
  type Store = map<nat, Organization>

  /** One row of the menu table (the routing and display flags carry no
      structure and are left out). */
  datatype Menu = Menu(
    id: nat,
    path: string,
    name: string,
    parentId: nat,
    applicationId: nat,
    level: Int64)

  /** An organization together with the `Children` slice a read filled in. */
  datatype Tree = Tree(org: Organization, children: seq<Tree>)

  /** An organization whose `Children` slice is still nil. */
  function Leaf(o: Organization): Tree
  {
    Tree(o, [])
  }
}
