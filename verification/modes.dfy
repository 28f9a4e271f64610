/** Types shared by every part of the backtrace printer. */
module Modes {

  /** An optional value, as Rust's `Option`. */
  datatype Option<+T> = None | Some(value: T)

  /** How much of a backtrace to print (backtrace_rs's `PrintFmt`). */
  datatype PrintFmt = Short | Full
}
