/** Optional values: `None` stands for JavaScript's `undefined`/`NaN`/`null` where the source uses them as "no value". */
module Wrappers {
  datatype Option<+T> = None | Some(value: T)
}
