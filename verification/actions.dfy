/** The permission action type of the Upms table: a Go `uint` with two named
    values, printed by String and moved to and from the database by Value and
    Scan. */
module Actions {
  import opened Outcomes

  /** A Go `uint` on a 64-bit platform. */
  type Uint64 = x: int | 0 <= x < 0x1_0000_0000_0000_0000

  newtype ActionType = x: int | 0 <= x < 0x1_0000_0000_0000_0000

  const ReadAction: ActionType := 0
  const WriteAction: ActionType := 1

  /** The dynamic value handed across the database driver boundary
      (`driver.Value` and the `interface{}` Scan receives). Floats and times
      are left out. */
  datatype DbValue =
    | UintValue(u: Uint64)
    | IntValue(i: int)
    | BoolValue(b: bool)
    | TextValue(s: string)
    | BytesValue(bytes: seq<bv8>)
    | NullValue

  /** ActionType.String: total; only the two named values have names. */
  function String(a: ActionType): (s: string)
    ensures s == "read" <==> a == ReadAction
    ensures s == "write" <==> a == WriteAction
    ensures s == "unknown" <==> a != ReadAction && a != WriteAction
  {
    if a == ReadAction then "read"
    else if a == WriteAction then "write"
    else "unknown"
  }

  /** ActionType.Value: the number as a `uint`, never an error; scanning it
      back restores the action whatever the receiver held. */
  function Value(a: ActionType): (r: (DbValue, Option<Error>))
    ensures r.1 == None
    ensures r.0.UintValue? && r.0.u as ActionType == a
    ensures forall before: ActionType :: Scan(before, r.0) == (a, None)
  {
    (UintValue(a as int), None)
  }

  /** ActionType.Scan: a `uint` becomes the receiver's new value; anything
      else is refused and the receiver keeps its old value. Returns the
      receiver after the call and the error. */
  function Scan(a: ActionType, value: DbValue): (r: (ActionType, Option<Error>))
    ensures r.1.None? <==> value.UintValue?
    ensures r.1.None? ==> value == UintValue(r.0 as int)
    ensures r.1.Some? ==> r == (a, Some(InvalidActionValue))
  {
    match value
    case UintValue(v) => (v as ActionType, None)
    case _ => (a, Some(InvalidActionValue))
  }
}
