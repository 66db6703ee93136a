/** The lines `log_printf` writes, as values: the pipeline's only output. */
module Log {
  import opened Bytes
  import Jwt

  datatype Event =
    | CannotOpenDirectory(dir: Path)     // "Cannot open directory: %s"
    | CannotOpenFile(file: Path)         // "Error: Cannot open file %s"
    | Decoded(outcome: Jwt.Outcome)      // the report of decode_jwt_and_extract_name
}
