/** Optional values: `None` stands for JavaScript's `undefined` (or for a run that never returns). */
module Wrappers {

  datatype Option<+T> = None | Some(value: T)
}
