/** The optional-value datatype used for the `?` fields of the option records
    and for the results of the readers that may reject their input. */
module Wrappers {

  datatype Option<+T> = None | Some(value: T)
}
