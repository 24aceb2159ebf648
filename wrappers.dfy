/** The nullable values of the Kotlin source (`String?`, `VirtualFile?`) as an Option. */
module Wrappers {
  datatype Option<+T> = None | Some(value: T)
}
