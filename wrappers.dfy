/** The one optional-value type the model needs: "no candidate yet" for the
    closest distance, and "no sphere" for an intersection that hit nothing. */
module Wrappers {

  datatype Option<+T> = None | Some(value: T)
}
