/** An optional value usable with `:-`: `None` is the failure case. The decoder
    uses it for the end-of-stream exception of `DataInputStream`. */
module Options {

  datatype Option<+T> = None | Some(value: T) {

    predicate IsFailure() {
      None?
    }

    function PropagateFailure<U>(): Option<U>
      requires None?
    {
      None
    }

    function Extract(): T
      requires Some?
    {
      value
    }
  }
}
