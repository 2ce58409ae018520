/** The optional value used wherever the scripts work with something that may be absent
    (`None` in Python, a missing HTML node or attribute, a failed fetch). */
module Wrappers {

  datatype Option<+T> = None | Some(value: T)
}
