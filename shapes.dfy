/**
 * Value records shared by the blob extractor and the part detector: OpenCV's
 * points and rectangles, the player record and its body-part features.
 * Image crops are recorded only as the rectangle they were cut from.
 */
module Shapes {

  datatype Option<T> = None | Some(value: T)

  /** cv::Point: integer pixel coordinates, x = column, y = row. */
  datatype Point = Point(x: int, y: int)

  /** cv::Rect: origin (x, y) and size (width, height). */
  datatype Rect = Rect(x: int, y: int, width: int, height: int)

  /** The image a crop was taken from. */
  datatype Source = MaskFrame | OriginalFrame | PlayerMask | PlayerImage

  /** `image(rect)`: a crop, known only by its source and its rectangle. */
  datatype Crop = Crop(source: Source, region: Rect)

  /** features_t: the detected parts and the torso inferred from them. */
  datatype Features = Features(
    bodyParts: seq<Rect>,
    torso: Option<Crop>,
    torsoMask: Option<Crop>,
    torsoPos: Rect)

  /** The features of a freshly allocated player: no parts, empty crops, a zero rectangle. */
  const NoFeatures := Features([], None, None, Rect(0, 0, 0, 0))

  /**
   * player_t: one candidate player cut out of a frame. The extractor fills in
   * its crops, position and frame index; the part detector later writes its
   * features in place.
   */
  class Player {
    var maskImage: Crop
    var pos: Rect
    var originalImage: Crop
    var frameIndex: int
    var features: Features

    /** `new player_t` with its crops, position and frame index assigned and no features yet. */
    constructor (maskImage: Crop, pos: Rect, originalImage: Crop, frameIndex: int)
      ensures this.maskImage == maskImage && this.pos == pos && this.originalImage == originalImage
      ensures this.frameIndex == frameIndex && features == NoFeatures
    {
      this.maskImage := maskImage;
      this.pos := pos;
      this.originalImage := originalImage;
      this.frameIndex := frameIndex;
      features := NoFeatures;
    }
  }

  /** Bounds of a 32-bit `int`. */
  const INT_MAX := 0x7fff_ffff
  const INT_MIN := -0x8000_0000
}
