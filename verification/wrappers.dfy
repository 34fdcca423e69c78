/** Swift's `Optional`, reduced to what the word-picker needs. */
module Wrappers {

  datatype Option<+T> = None | Some(value: T) {

    /** The force-unwrap `x!`: only defined on `Some`, so every use must
        prove that the value is present (the trap Swift raises on `nil`
        is a precondition failure here). */
    function Extract(): (v: T)
      requires Some?
      ensures this == Some(v)
    {
      value
    }
  }
}
