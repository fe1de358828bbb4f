/** Optional values: `undefined`/`null` in the source become `None`. */
module Options {
  datatype Option<+T> = None | Some(value: T) {
    /** The value, or `default` when absent (the source's `??`). */
    function GetOr(default: T): T {
      match this
      case Some(v) => v
      case None => default
    }
  }
}
