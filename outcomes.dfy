/** Option and Result values, and the failures the modelled code can raise. */
module Outcomes {

  datatype Option<+T> = None | Some(value: T)

  datatype Result<+T, +E> = Success(value: T) | Failure(error: E)

  /** The exceptions that escape the modelled functions of ads2bibtex. */
  datatype Error =
    | UnknownJournal(name: string)   // ValueError of change_journal_name
    | ExportMissing                  // the export response has no "export" field
    | LibraryMalformed               // the library response lacks "metadata" or "documents"
    | LibraryUndecodable             // the library response is not JSON (only fatal at start-up)
    | IndexError                     // a list index out of range in make_rawfile
    | ZeroInterval                   // the progress check `i % info_interval` with an interval of 0
}
