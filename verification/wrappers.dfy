/** The optional value used for "a snapshot, or nothing": the module-level
    `previousStatus` slot and the result of a pool fetch are both `PoolStatus | null`. */
module Wrappers {

  datatype Option<+T> = None | Some(value: T)
}
