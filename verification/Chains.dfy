/** Lists of nodes linked by index: where a list starts, ends and goes on. */
module Chains {
  const NULL: int := -1

  function First(list: seq<nat>): int {
    if list == [] then NULL else list[0]
  }

  function Last(list: seq<nat>): int {
    if list == [] then NULL else list[|list| - 1]
  }

  function After(list: seq<nat>, i: nat): int {
    if i + 1 < |list| then list[i + 1] else NULL
  }
}
