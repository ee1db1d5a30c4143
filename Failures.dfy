/** Error values for the assertions the programs make at run time. */
module Failures {

  datatype Error =
    | NotSquareGrid(workers: nat)        // FDGridSegment: "Must have q^2 processors"
    | OddBodyCount(bodies: nat)          // RingNBody: body count not divisible by 2
    | OutOfRange(row: int, column: int)  // FDGridSegment::value outside the tile window
    | NoChildren                         // the wire masters divide by (size - 1)

  datatype Result<T> = Ok(value: T) | Err(error: Error)

  datatype Option<T> = None | Some(value: T)
}
