/** Optional values: `None` stands for a NULL pointer in the driver. */
module Wrappers {

  datatype Option<+T> = None | Some(value: T)
}
