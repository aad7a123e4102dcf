/** Fatal errors. Where a program prints a message and exits, a method of the model returns a Failure. One error is not
    flex's: the model stops with TooManyTemplates where the tables become wrong (Compression.Misled). */
module Results {
  datatype Error = TooManyStates | TooManyTransitions | BadCharacter | SyntaxError | TooManyRules | TooManyTemplates
    | BufferOverflow | PushBackOverflow | EndOfBufferMissed
    | FilesystemTooBig | NotEnoughSpace | IllegalOffset | BadName | BogusFile

  datatype Result<+T> = Success(value: T) | Failure(error: Error) {
    predicate IsFailure() {
      Failure?
    }

    function PropagateFailure<U>(): Result<U>
      requires Failure?
    {
      Failure(error)
    }

    function Extract(): T
      requires Success?
    {
      value
    }
  }
}
