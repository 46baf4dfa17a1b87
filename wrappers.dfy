/** The optional value used wherever the bot's Python code may hold None
    or bail out early with a failure value. */
module Wrappers {

  datatype Option<+T> = None | Some(value: T)
}
