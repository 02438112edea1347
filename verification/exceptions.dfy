/** The error taxonomy of the installer: one constructor per exception class
    in exceptions.py and old/exceptions.py, plus `SameFileError`, which the
    post-installation steps re-raise from the standard library. Messages are
    the strings the raising site passes to the constructor. */
module Exceptions {

  datatype Error =
    | CliError(msg: string)
    | ImgDownloadError(msg: string)
    | InstallationError(msg: string)
    | UnexistentPathError(msg: string)
    | SameFileError(msg: string)
    | EmptyCommandError
    | NotSupportedMachineError
}
