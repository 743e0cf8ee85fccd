/** Failure-compatible result type shared by the byte reader, the table decoder
    and the glyph loader.  Every place where the original reader indexes past
    the end of its byte vector (which it never checks) becomes an
    `Err(OutOfBounds)` here; the format checks of the decoder get their own
    error kinds. */
module Wrappers {

  datatype Error =
    | OutOfBounds           // a read past the end of the byte vector
    | BadSfntVersion        // offset table version is not 0x00010000
    | BadTableTag           // a directory tag byte outside 0x20..0x7E
    | BadMaxpVersion        // maxp version is not 0x00010000
    | BadIndexToLocFormat   // head.indexToLocFormat is neither 0 nor 1
    | NoUnicodeBmpSubtable  // no cmap encoding record with platform 3 / encoding 1
    | NoHorizontalMetrics   // hmtx tail repetition with numberOfHMetrics == 0
    | NoContourEndPoints    // a simple glyph with an outline but zero contours
    | IndexOutOfRange       // a glyph id past the end of loca or hmtx

  datatype Option<+T> = None | Some(value: T)

  datatype Result<+T> = Ok(value: T) | Err(error: Error) {
    predicate IsFailure() {
      Err?
    }

    function PropagateFailure<U>(): Result<U>
      requires Err?
    {
      Err(error)
    }

    function Extract(): T
      requires Ok?
    {
      value
    }
  }
}
