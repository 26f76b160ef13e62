/** The records the features consume: one changed file of a pull request, and the error-or-value wrappers. */
module Records {

  datatype Option<T> = None | Some(value: T)

  /** A value, or the message of the `ValueError` raised instead. */
  datatype Result<T> = Ok(value: T) | Err(message: string)

  /**
    One entry of the pull request's "files" listing: `filename`, `additions`,
    `deletions`, and `patch`, which the API omits for binary or very large files.
   */
  datatype FileChange = FileChange(filename: string, additions: int, deletions: int, patch: Option<string>)

  /** `file.get('patch', '')` */
  function PatchText(f: FileChange): string {
    match f.patch
    case Some(p) => p
    case None => ""
  }
}
