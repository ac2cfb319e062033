/** The optional value used wherever the source reads something that may be absent
    (an XML attribute, a child element, a dictionary entry). */
module Wrappers {
  datatype Option<+T> = None | Some(value: T)
}
