/** The application error of lib/errorHandler.ts: a message and a machine code. */
module Errors {

  /** The `code` strings the editor and the prompt flow attach to an `AppError`. */
  datatype Code =
    | InvalidInput     // 'INVALID_INPUT'
    | InvalidAlias     // 'INVALID_ALIAS'
    | FileReadError    // 'FILE_READ_ERROR'
    | BackupError      // 'BACKUP_ERROR'
    | FileWriteError   // 'FILE_WRITE_ERROR'
    | AliasAddError    // 'ALIAS_ADD_ERROR'

  datatype AppError = AppError(message: string, code: Code)

  /** How a call that returns nothing ends: normally, or by throwing an `AppError`. */
  datatype Outcome = Ok | Fail(error: AppError)

  /** How a call that returns a value ends. */
  datatype Result<T> = Success(value: T) | Failure(error: AppError)
}
