/** The optional value used throughout the model for DOM lookups that may
    find nothing and for decoders that may reject their input. */
module Wrappers {

  datatype Option<+T> = None | Some(value: T)

}
