/** Optional values: a filename or an explicit stage the caller may leave out,
    an exit code that is null when the process was killed by a signal, a
    regular-expression match that may fail. */
module Wrappers {

  datatype Option<+T> = None | Some(value: T)
}
