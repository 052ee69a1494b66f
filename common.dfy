/** Values shared by every part of the mosaic engine: optional values, the
    errors the engine raises and colours as BGR byte triples. */
module Common {

  datatype Option<T> = None | Some(value: T)

  /** The exceptions that image.py lets escape, one constructor per cause. */
  datatype Error =
    | EmptyInput                                   // create_tiles on an empty list
    | UnknownScalingMode(mode: string)             // _aggregate_images_shape
    | GridCapacity(images: nat, rows: nat, columns: nat)  // create_tiles capacity check
    | InvalidScaleFactor                           // resize_image with scale <= 0
    | ZeroDivision                                 // a Python division by zero
    | ResizeFailed                                 // cv2.resize asked for an empty image

  datatype Result<T> = Success(value: T) | Failure(error: Error)

  type Byte = b: int | 0 <= b < 256

  /** A colour in OpenCV's channel order (blue, green, red). */
  datatype Color = Color(b: Byte, g: Byte, r: Byte)

  function Max(a: int, b: int): int { if a >= b then a else b }

  function Min(a: int, b: int): int { if a <= b then a else b }
}
