/**
 * Optional values: PHP's `null` on one side, a present value on the other; and request
 * fields, which may also be left out altogether.
 */
module Wrappers {

  datatype Option<+T> = None | Some(value: T) {

    /** The value, or `default` when absent: PHP's `??` operator. */
    function GetOr(default: T): T {
      match this
      case Some(v) => v
      case None => default
    }
  }

  /** A request field: left out, sent as null, or sent with a value. */
  datatype Field<+T> = Omitted | Null | Given(value: T) {
    /** The value sent, or `default` when the field carries none. */
    function GetOr(default: T): T {
      if Given? then value else default
    }
  }
}
