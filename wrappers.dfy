/** Optional values: the model's stand-in for Java's null references and failed parses. */
module Wrappers {

  datatype Option<+T> = None | Some(value: T)
}
