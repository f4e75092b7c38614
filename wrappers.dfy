/** A value that may be absent (an unset environment variable, an option argument
    that was not given, a scaler that could not be created). */
module Wrappers {

  datatype Option<+T> = None | Some(value: T)
}
