/** The optional value used for record fields that may be absent from the
    catalog data (a tag list that is missing or is not an array). */
module Wrappers {

  datatype Option<+T> = None | Some(value: T)
}
