/** Results and errors shared by the two container encoders. */
module Wrappers {
  import opened Bytes

  datatype Option<+T> = None | Some(value: T)

  datatype Result<+T> = Ok(value: T) | Err(error: Error)

  /** The ways a conversion fails: the rasterizer failed for one requested
      dimension, or a Buffer write was given a value outside its field width
      (Node throws a RangeError). In both cases no output is produced. */
  datatype Error = RasterizationError(width: nat, height: nat) | RangeError

  /** The external SVG-to-PNG rasterizer: the PNG bytes rendered at
      (width, height), or None when rendering fails. */
  type Rasterizer = (nat, nat) -> Option<seq<byte>>
}
