/** The ways the pipeline can stop without writing the file, and the
    Result/Option wrappers that carry them (version_restrictor.py). */
module Outcomes {

  /** Every fatal condition ends the process with status 1; the model keeps
      them apart so that the contracts can say which one arises. */
  datatype Failure =
    | UnexpectedShape     // neither a list nor an object with result.releases (lines 61-63)
    | MalformedResponse   // a TypeError, AttributeError or KeyError while selecting or filtering (lines 57-69)
    | NoActiveVersions    // the filtered list is empty and main aborts (lines 163-167)
    | AllowListNotFound   // no `contains([...]` in the file (lines 113-115)

  datatype Result<T> = Ok(value: T) | Err(failure: Failure)

  datatype Option<T> = None | Some(value: T)
}
