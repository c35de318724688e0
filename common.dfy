/** Small shared vocabulary: a value that may be missing (Ruby's nil). */
module Common {

  datatype Option<+T> = None | Some(value: T)

}
