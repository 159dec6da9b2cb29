/** Types shared by the models of the control plane. */
module Basics {

  datatype Option<+T> = None | Some(value: T)
}
