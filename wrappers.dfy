/** Failure-carrying values shared by every module of the model. */
module Wrappers {

  datatype Option<+T> = None | Some(value: T)

  datatype Result<+T, +E> = Ok(value: T) | Err(error: E)

  /** Success or failure of an operation that returns nothing. */
  datatype Outcome<+E> = Pass | Fail(error: E)

  /** The exceptions the modelled functions raise, or let propagate. */
  datatype Error =
    | FileNotFound        // open() or an in-place edit of a missing PKGBUILD
    | ValueError          // int() on text that is not an integer, or a failed unpacking
    | AssertionError      // `assert` in update_pkgver_and_pkgrel
    | IndexError          // `[0]` on an empty list
    | CalledProcessError  // a command run through run_cmd exited with a failure status
    | MaintainerMismatch(maintainer: Option<string>)  // the AUR package has another maintainer
    | AurDownloadError(name: string)                  // no snapshot of the AUR package could be fetched
}
