/** Optional values and results with an error, used for the helpers that may
    find nothing (`None` in the source) and for the start-up checks that stop
    the script. */
module Wrappers {

  datatype Option<+T> = None | Some(value: T)

  datatype Result<+R, +E> = Success(value: R) | Failure(error: E)
}
