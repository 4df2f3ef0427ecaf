/** Optional values and range bounds shared by the modules of this model. */
module Wrappers {
  datatype Option<T> = None | Some(value: T)

  /** One end of a range (`std::ops::Bound`): `..`, `i..`/`..=i`, or an exclusive end. */
  datatype Bound = Unbounded | Included(i: nat) | Excluded(i: nat)

  /** The first index of a range whose start bound is `b`. */
  function StartIndex(b: Bound): nat
  {
    match b
    case Unbounded => 0
    case Included(i) => i
    case Excluded(i) => i + 1
  }

  /** One past the last index of a range whose end bound is `b`; `unbounded` when it has none. */
  function EndIndex(b: Bound, unbounded: nat): nat
  {
    match b
    case Unbounded => unbounded
    case Included(i) => i + 1
    case Excluded(i) => i
  }
}
