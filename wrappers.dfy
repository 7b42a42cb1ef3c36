/** Optional values: `None` stands for Java's `null` result or for an absent element. */
module Wrappers {

  datatype Option<+T> = None | Some(value: T)
}
