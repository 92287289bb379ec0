/** Small value types shared by every page model: an optional value (a
    document field that may be absent) and the toast notification each
    handler raises. */
module Wrappers {

  /** A value that may be absent, as a document field that was never written. */
  datatype Option<+T> = None | Some(value: T) {

    /** The value, or `default` when there is none. */
    function GetOr(default: T): T {
      match this
      case Some(v) => v
      case None => default
    }
  }

  /** JavaScript truthiness of an optional string field: present and non-empty. */
  predicate Truthy(f: Option<string>) {
    f.Some? && f.value != ""
  }

  /** The `field || fallback` idiom: the field when it is truthy, else the fallback. */
  function OrElse(f: Option<string>, fallback: string): string {
    if Truthy(f) then f.value else fallback
  }

  /** The colour of a toast notification. */
  datatype ToastColor = SuccessToast | DangerToast | WarningToast

  /** A toast notification shown after a handler runs. */
  datatype Toast = Toast(color: ToastColor, message: string)
}
