/** The optional value the game uses for "no queued direction" and
    "no dropped tail cell yet" (Python's None). */
module Wrappers {

  datatype Option<+T> = None | Some(value: T)

}
