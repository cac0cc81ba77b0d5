/** The picture the detections are drawn on, as PIL describes it. */
module Image {
  /** The dimensions `Image.size` reports: `img_size[0]` is the width and
      `img_size[1]` the height. */
  datatype Size = Size(width: int, height: int)
}
