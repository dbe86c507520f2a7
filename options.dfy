/** Small result types shared by the modules of the model. */
module Options {

  /** A value that may be absent: here, the contents of a file that may not exist. */
  datatype Option<T> = None | Some(value: T)

  /**
   * The outcome of a re-prompting loop that reads its replies from a finite
   * stream of user input: either the accepted value together with the number
   * of replies read to obtain it, or the end of the stream (where the
   * interactive program's `input()` would raise `EOFError`).
   */
  datatype Reply<T> = Answered(value: T, used: nat) | EndOfInput
}
