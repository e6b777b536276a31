/** Optional values, used wherever the bot may reject an input. */
module Wrappers {

  datatype Option<+T> = None | Some(value: T)

}
