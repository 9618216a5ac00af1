/** The optional value used for registry slots (a JavaScript handle-or-null)
    and for results that the source can fail to produce. */
module Wrappers {

  datatype Option<+T> = None | Some(value: T)
}
