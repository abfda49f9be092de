/** The optional value used for the lightbox's selected image (JavaScript `null` is `None`). */
module Wrappers {

  datatype Option<+T> = None | Some(value: T)
}
