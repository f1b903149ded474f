/**
 * The records of the room (src/rooms/schema/MyState.ts and the private
 * fields of src/rooms/MyRoom.ts): players, the hidden rewards under cells,
 * and the "found" message broadcast when one is dug up.
 */
module Schema {
  import opened Wrappers

  /** A replicated player: display name, tribe letter, cell, gold and the poisoned flag. */
  datatype Player = Player(name: string, tribe: string, x: int, y: int, gold: int, poisoned: bool)

  /** The tribes handed out round-robin on join. */
  const Tribes: seq<string> := ["a", "b", "c"]

  /** What a secret holds: type 1 (gold) or type 2 (gas); type 0 is never placed. */
  datatype Reward = Gold | Gas

  /** A hidden reward at the depth where it is found, and whether it was already taken. */
  datatype Secret = Secret(kind: Reward, depth: int, consumed: bool)

  /** The payload of a "found" broadcast (`finder` is its `by` field); `totalGold` is sent for gold only. */
  datatype Found = Found(kind: Reward, x: int, y: int, depth: int, finder: string, totalGold: Option<int>)
}
