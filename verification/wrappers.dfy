/** Absent values and failing operations. */
module Wrappers {

  /** A value that may be absent: the source's `undefined`/`null`. */
  datatype Option<+T> = None | Some(value: T)

  /** Why an operation of the model fails. Each case is a point where the
      source dereferences `undefined` and throws a TypeError. */
  datatype Error =
    | UndefinedCell(row: int, col: int)   // a coordinate outside the grid was used as a cell
    | NoStartCell                         // a random cell was drawn from an empty grid

  datatype Result<+T> = Ok(value: T) | Err(error: Error)
}
