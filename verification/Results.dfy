/** Outcomes shared by the selector, the path decoder and the request checks. */
module Results {

  datatype Option<+T> = None | Some(value: T)

  /** Every failure of the selector is one exception class; the constructors of `SelectorError`
      tell its raise sites apart. */
  datatype Result<+T> = Ok(value: T) | Err(error: SelectorError)

  datatype SelectorError =
    | MalformedBrace
    | InvalidPath
    | InvalidClass
    | EmptyGlob
    | OutsideCandidates
    | NotHeavy
    | FingerprintNeedsExactGlob
    | InvalidFingerprint
    | AmbiguousConfig
    | UnmappedCandidate
    | AmbiguousMapping
    | UnreadableContent
    | FingerprintMismatch
    | Unclassified
    | InvalidOutput
    | InvalidQuoting
    | NotUtf8
}
