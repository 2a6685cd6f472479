/** The exceptions the codec raises, one alternative per kind of `raise` (the
    partial-length refusal is raised both when writing and when reading), and
    the result type that carries them. */
module Errors {

  /** The Python exception class of a raise. */
  datatype Exception = ValueError | NotImplementedError

  datatype Error =
    | MalformedHeader            // leading octet without bit 7
    | UnrecognizedHint           // an encoding hint other than 'old' or 'new'
    | UnsupportedOldLength       // a body too long for the four-octet old length
    | PartialBodyLength          // new-format partial lengths, read or written
    | IndeterminateLength        // old-format length type 3
    | UnimplementedTag(tag: nat) // a tag the registry does not know
  {
    /** The exception class the source raises for this error. */
    function Raises(): Exception
    {
      match this
      case MalformedHeader => ValueError
      case UnrecognizedHint => ValueError
      case UnsupportedOldLength => ValueError
      case PartialBodyLength => NotImplementedError
      case IndeterminateLength => NotImplementedError
      case UnimplementedTag(_) => NotImplementedError
    }
  }

  datatype Result<+T> = Ok(value: T) | Err(error: Error)
}
