/** Outcomes shared by the modules of the `breakfast matrix` model. */
module Results {

  datatype Option<T> = None | Some(value: T)

  /** The conditions under which the subcommand stops the whole run
      (a panic or an `error!` exit in the program). */
  datatype Error =
    | MissingPipe           // a read in column 9 has no '|' (unwrap of `find`)
    | TruncatedRead         // fewer than 20 characters after the '|' (slice out of range)
    | NoCandidates          // no read of a row yields a candidate (`most_frequent` of an empty list)
    | InvalidSequence       // a k-mer window holds a character other than A, C, G, T
    | UnreadableAlignments  // an alignment file cannot be opened

  datatype Result<T> = Ok(value: T) | Err(error: Error)
}
