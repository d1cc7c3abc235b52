/** An optional value: `None` stands for a JavaScript `undefined`. */
module Optional {

  datatype Option<T> = None | Some(value: T) {

    /** The value, or `default` when there is none (a default parameter value). */
    function GetOr(default: T): T {
      if Some? then value else default
    }
  }
}
