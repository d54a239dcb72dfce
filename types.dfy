/** The application's records: variants (named output configurations), input
    images, and the output images generated from them. */
module Types {
  import opened Common

  /** `upto` treats a requested side as a ceiling that is never exceeded and
      never upscaled to; `exact` uses it verbatim. */
  datatype DimensionMode = Exact | UpTo

  /** One side of a variant's target size; `value` is absent when the user
      gave none. */
  datatype Dimension = Dimension(mode: DimensionMode, value: Option<real>)

  datatype AspectRatio = AspectRatio(enabled: bool, value: string)

  /** Everything about a variant except its identity: the part that
      `getDefaultVariantSettings` supplies. */
  datatype VariantSettings = VariantSettings(
    width: Dimension,
    height: Dimension,
    aspectRatio: AspectRatio,
    prefix: string,
    suffix: string,
    pattern: Option<string>,
    filter: string,
    quality: real,
    sharpenAmount: real,
    sharpenRadius: real,
    sharpenThreshold: real)

  datatype Variant = Variant(id: string, name: string, settings: VariantSettings)

  datatype Size = Size(width: real, height: real)

  type PositiveReal = r: real | r > 0.0 witness 1.0

  /** The natural size of a decoded image: both sides are positive. */
  datatype ImageSize = ImageSize(width: PositiveReal, height: PositiveReal)

  /** An opaque handle on a binary payload (a `File` or a `Blob`). */
  type Blob = nat

  datatype InputImage = InputImage(
    id: string,
    filename: string,
    file: Blob,
    fileSize: nat,
    dimensions: Size)

  datatype Crop = Crop(x: real, y: real, zoom: real, minZoom: real)

  /** `enabled` tells a per-image override apart from the variant's default. */
  datatype Resampling = Resampling(enabled: bool, filter: string, quality: real)

  datatype Sharpening = Sharpening(enabled: bool, amount: real, radius: real, threshold: real)

  /** The frozen copy of the input image an output image keeps; `index` is
      the input's position in the input list when the output was sealed, or
      -1 when it was no longer listed. */
  datatype InputSnapshot = InputSnapshot(
    id: string,
    index: int,
    filename: string,
    size: nat,
    dimensions: Size)

  datatype ImageFile = ImageFile(file: Blob, src: string)

  datatype OutputImage = OutputImage(
    id: string,
    inputImage: InputSnapshot,
    variantId: string,
    full: ImageFile,
    thumbnail: ImageFile,
    width: nat,
    height: nat,
    filename: string,
    crop: Crop,
    resampling: Resampling,
    sharpening: Sharpening)

  /** Helpers and constants the core uses but that are not part of this
      model (`getFileExtension`, `getFileNameWithoutExtension`,
      `filenameToJpg` and `isJpg` of lib/helpers, `THUMBNAIL_SIZE` and
      `DEFAULT_CROP_SETTINGS`). Every property is proved for every choice. */
  datatype Platform = Platform(
    fileExtension: string -> string,
    fileNameWithoutExtension: string -> string,
    filenameToJpg: string -> string,
    isJpg: string -> bool,
    thumbnailSize: nat,
    defaultCrop: Crop)
}
