/** Small things that several models use. */
module Basics {

  const U64_MAX: nat := 0xFFFF_FFFF_FFFF_FFFF

  datatype Option<T> = None | Some(value: T)

  function Min(a: nat, b: nat): nat { if a < b then a else b }

  function Max(a: nat, b: nat): nat { if a < b then b else a }

  /** A counter that is not in the map stands at 0. */
  function Get(m: map<nat, nat>, k: nat): nat { if k in m then m[k] else 0 }
}
