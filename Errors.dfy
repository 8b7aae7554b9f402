/** Failure values shared by every part of the WPLS codec.  The original code
    throws an exception for each of these; the model returns them. */
module Errors {

  datatype Option<+T> = None | Some(value: T)

  /** The error taxonomy of the codec. */
  datatype Error =
    | BadMagic                          // the first four bytes are not "WPLS"
    | UnsupportedVersion(version: int)  // the version field is not 2
    | UnknownBlockType(kind: int)       // a block type byte other than 0 or 1
    | Truncated                         // a header, block head or payload runs past the end
    | CorruptPayload                    // a payload that does not inflate, or a delta of odd word size
    | BadBaseSize                       // a base grid whose size is not width * height
    | InvalidId                         // a base grid holding an id outside the palette
    | MissingBase                       // a file without any base block
    | UnknownColor(r: int, g: int, b: int) // an opaque pixel whose colour is not in the palette
    | DimensionMismatch                 // an appended image of another size than the canvas

  datatype Result<+T> = Ok(value: T) | Err(error: Error)
}
