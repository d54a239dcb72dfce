/** Output-image generation (src/store/output-images/utils.ts): the composite
    id, the duplicate checks before and after processing, the merge of
    per-image overrides over the variant's defaults, the encoding choice, the
    thumbnail decision and the final filename; and the registry of output
    images whose ids the duplicate check keeps unique. */
module OutputImages {
  import opened Common
  import opened Types
  import opened Geometry
  import opened Filenames

  // ---------------------------------------------------------------------
  // Identity and the duplicate check

  /** `${inputImage.id}-${variantId}` */
  function OutputId(inputId: string, variantId: string): (id: string)
    ensures |id| == |inputId| + 1 + |variantId|
    ensures id[..|inputId|] == inputId && id[|inputId|] == '-' && id[|inputId| + 1..] == variantId
  {
    inputId + "-" + variantId
  }

  /** For one input image, different variants give different output ids. */
  lemma OutputIdDeterminesVariant(inputId: string, a: string, b: string)
    requires OutputId(inputId, a) == OutputId(inputId, b)
    ensures a == b
  {
    assert a == OutputId(inputId, a)[|inputId| + 1..];
  }

  /** Across input images the id is ambiguous once ids may contain `-`: the
      pairs (`a-b`, `c`) and (`a`, `b-c`) share an output id. */
  lemma OutputIdAmbiguousAcrossInputs()
    ensures OutputId("a-b", "c") == OutputId("a", "b-c")
  {
  }

  /** `alreadyExists`: some image already carries the id. */
  function AlreadyExists(id: string, images: seq<OutputImage>): (b: bool)
    ensures b <==> exists i :: 0 <= i < |images| && images[i].id == id
  {
    FindIndex(images, (image: OutputImage) => image.id == id) > -1
  }

  /** No two images share an id. */
  ghost predicate DistinctIds(images: seq<OutputImage>) {
    forall i, j :: 0 <= i < j < |images| ==> images[i].id != images[j].id
  }

  /** The registry of output images (the `useOutputImages` store). Its `add`
      is not part of this model; `Admit` stands for an add that checks the id
      once more, which the duplicate checks of `generateOutputImage` make
      succeed (`GeneratedImageIsAdmitted`). */
  class OutputRegistry {
    var images: seq<OutputImage>

    /** No two registered images share an id. */
    ghost predicate Valid()
      reads this
    {
      DistinctIds(images)
    }

    constructor()
      ensures images == [] && Valid()
    {
      images := [];
    }

    /** Admission of a generated image: it is added only when the registry,
        read at the moment of adding, does not hold its id yet. */
    method Admit(image: OutputImage) returns (admitted: bool)
      requires Valid()
      modifies this
      ensures Valid()
      ensures admitted <==> !AlreadyExists(image.id, old(images))
      ensures images == if admitted then old(images) + [image] else old(images)
    {
      if AlreadyExists(image.id, images) {
        admitted := false;
      } else {
        images := images + [image];
        admitted := true;
      }
    }
  }

  // ---------------------------------------------------------------------
  // The state generation reads

  /** `getUpToDateVariant`: the first variant with the id, or none (where
      the source throws). */
  function FindVariant(variants: seq<Variant>, id: string): (r: Option<Variant>)
    ensures r.None? <==> forall i :: 0 <= i < |variants| ==> variants[i].id != id
    ensures r.Some? ==> r.value.id == id
                        && exists i :: 0 <= i < |variants| && variants[i] == r.value
                                       && forall k :: 0 <= k < i ==> variants[k].id != id
  {
    var i := FindIndex(variants, (v: Variant) => v.id == id);
    if i == -1 then None else Some(variants[i])
  }

  function VariantNotFound(id: string): string {
    "Variant with id " + id + " not found."
  }

  /** What one `generateOutputImage` call reads from the stores, at the point
      where it reads it: the output images before processing (line 84), the
      variant before and after processing (lines 88 and 151), the output
      images again (line 186) and the input images (line 192). Between the
      reads other work may change every store, so the five are unrelated. */
  datatype Observations = Observations(
    outputsBefore: seq<OutputImage>,
    variantsBefore: seq<Variant>,
    variantsAfter: seq<Variant>,
    outputsAfter: seq<OutputImage>,
    inputsAfter: seq<InputImage>)

  /** The size and dimensions of a processed image. */
  datatype Processed = Processed(blob: Blob, width: nat, height: nat)

  /** The effects generation delegates: `loadImage`, the `processImage` of
      the process-image module, `new File` and `URL.createObjectURL`. */
  datatype Engine = Engine(
    load: Blob -> ImageSize,
    process: (Blob, string, Size, Option<Crop>, Resampling, Option<Sharpening>) -> Processed,
    makeFile: (Blob, string) -> Blob,
    objectUrl: Blob -> string)

  // ---------------------------------------------------------------------
  // Settings merge and encoding

  datatype Settings = Settings(crop: Crop, resampling: Resampling, sharpening: Sharpening, extension: string)

  /** The crop, resampling and sharpening an output image is produced with,
      and its encoding: crop from the previous output image when there is
      one, else the default crop; resampling and sharpening from the previous
      image only where it had switched them on, else the variant's values,
      switched off; JPEG whenever the quality is below 1. */
  function MergedSettings(variant: VariantSettings, previous: Option<OutputImage>, inputFilename: string, platform: Platform): (s: Settings)
    ensures s.crop == if previous.Some? then previous.value.crop else platform.defaultCrop
    ensures previous.Some? && previous.value.resampling.enabled ==> s.resampling == previous.value.resampling
    ensures !(previous.Some? && previous.value.resampling.enabled) ==>
              s.resampling == Resampling(false, variant.filter, variant.quality)
    ensures previous.Some? && previous.value.sharpening.enabled ==> s.sharpening == previous.value.sharpening
    ensures !(previous.Some? && previous.value.sharpening.enabled) ==>
              s.sharpening == Sharpening(false, variant.sharpenAmount, variant.sharpenRadius, variant.sharpenThreshold)
    ensures s.resampling.enabled <==> previous.Some? && previous.value.resampling.enabled
    ensures s.sharpening.enabled <==> previous.Some? && previous.value.sharpening.enabled
    ensures s.resampling.quality < 1.0 ==> s.extension == "jpeg"
    ensures s.resampling.quality >= 1.0 ==> s.extension == platform.fileExtension(inputFilename)
  {
    var crop := if previous.Some? then previous.value.crop else platform.defaultCrop;
    var resampling :=
      if previous.Some? && previous.value.resampling.enabled then
        Resampling(true, previous.value.resampling.filter, previous.value.resampling.quality)
      else
        Resampling(false, variant.filter, variant.quality);
    var sharpening :=
      if previous.Some? && previous.value.sharpening.enabled then
        Sharpening(true, previous.value.sharpening.amount, previous.value.sharpening.radius,
                   previous.value.sharpening.threshold)
      else
        Sharpening(false, variant.sharpenAmount, variant.sharpenRadius, variant.sharpenThreshold);
    Settings(crop, resampling, sharpening, OutputExtension(resampling.quality, platform.fileExtension(inputFilename)))
  }

  /** Regenerating an output image from itself keeps its crop and whatever
      resampling and sharpening it had switched on; what it had not switched
      on follows the variant as it is now. */
  lemma RegenerationKeepsOverrides(v1: VariantSettings, v2: VariantSettings, previous: Option<OutputImage>,
                                   image: OutputImage, inputFilename: string, platform: Platform)
    requires image.crop == MergedSettings(v1, previous, inputFilename, platform).crop
    requires image.resampling == MergedSettings(v1, previous, inputFilename, platform).resampling
    requires image.sharpening == MergedSettings(v1, previous, inputFilename, platform).sharpening
    ensures MergedSettings(v2, Some(image), inputFilename, platform).crop == image.crop
    ensures image.resampling.enabled ==>
              MergedSettings(v2, Some(image), inputFilename, platform).resampling == image.resampling
    ensures !image.resampling.enabled ==>
              MergedSettings(v2, Some(image), inputFilename, platform).resampling == Resampling(false, v2.filter, v2.quality)
    ensures image.sharpening.enabled ==>
              MergedSettings(v2, Some(image), inputFilename, platform).sharpening == image.sharpening
    ensures !image.sharpening.enabled ==>
              MergedSettings(v2, Some(image), inputFilename, platform).sharpening
              == Sharpening(false, v2.sharpenAmount, v2.sharpenRadius, v2.sharpenThreshold)
  {
  }

  /** `{ ...cropData, zoom: cropData.zoom / cropData.minZoom }`: the zoom
      relative to the smallest zoom that still covers the canvas. */
  function RelativeCrop(crop: Crop): (c: Crop)
    ensures c.x == crop.x && c.y == crop.y && c.minZoom == crop.minZoom
    ensures crop.minZoom != 0.0 ==> c.zoom * crop.minZoom == crop.zoom
  {
    if crop.minZoom == 0.0 then crop else crop.(zoom := crop.zoom / crop.minZoom)
  }

  /** The final filename: the variant's name for the image, turned into a
      JPEG name when the image is encoded as JPEG. */
  function FinalFilename(name: string, extension: string, platform: Platform): (f: string)
    ensures extension == "jpeg" ==> f == platform.filenameToJpg(name)
    ensures extension != "jpeg" ==> f == name
  {
    if extension == "jpeg" then platform.filenameToJpg(name) else name
  }

  // ---------------------------------------------------------------------
  // Processing and the thumbnail

  /** The full-size image: the input resized to the variant's output
      dimensions with the merged settings. */
  function ProcessedFull(engine: Engine, input: InputImage, variant: VariantSettings, s: Settings): Processed {
    var dimensions := CalculateOutputDimensions(engine.load(input.file), Some(RequestOf(variant.width, variant.height)));
    engine.process(input.file, s.extension, dimensions, Some(RelativeCrop(s.crop)), s.resampling, Some(s.sharpening))
  }

  /** A separate thumbnail is made only when a side exceeds the thumbnail
      size. */
  predicate NeedsThumbnail(full: Processed, thumbnailSize: nat) {
    full.width > thumbnailSize || full.height > thumbnailSize
  }

  /** The request a thumbnail is made to: both sides `upto` the thumbnail
      size. */
  function ThumbnailRequest(thumbnailSize: nat): DimensionRequest {
    DimensionRequest(Some(thumbnailSize as real), Some(thumbnailSize as real), UpTo, UpTo)
  }

  /** The thumbnail is asked for no larger than the thumbnail box and no
      larger than the full image it is made from, at the same aspect ratio. */
  lemma ThumbnailRequestFitsBox(image: ImageSize, thumbnailSize: nat)
    requires thumbnailSize > 0
    ensures FitsBoxAndImage(CalculateOutputDimensions(image, Some(ThumbnailRequest(thumbnailSize))),
                            image, thumbnailSize as real, thumbnailSize as real)
  {
    UpToUpToFitsBoxAndImage(image, thumbnailSize as real, thumbnailSize as real);
  }

  /** The thumbnail: the full image itself when it is small enough, else the
      full image's file resized into the thumbnail box with the `mks2013`
      filter, at quality 0.9 for JPEG inputs and 1 otherwise, uncropped and
      unsharpened. */
  function Thumbnail(engine: Engine, platform: Platform, input: InputImage, full: Processed): (t: Processed)
    ensures !NeedsThumbnail(full, platform.thumbnailSize) ==> t == full
  {
    if NeedsThumbnail(full, platform.thumbnailSize) then
      var file := engine.makeFile(full.blob, input.filename);
      var dimensions := CalculateOutputDimensions(engine.load(file), Some(ThumbnailRequest(platform.thumbnailSize)));
      var quality := if platform.isJpg(input.filename) then 0.9 else 1.0;
      engine.process(file, input.filename, dimensions, None, Resampling(true, "mks2013", quality), None)
    else
      full
  }

  /** `findIndex` of the input image in the input list: its first position,
      or -1 when it is no longer listed. */
  function InputIndex(inputs: seq<InputImage>, inputId: string): (index: int)
    ensures -1 <= index < |inputs|
    ensures 0 <= index ==> inputs[index].id == inputId && forall i :: 0 <= i < index ==> inputs[i].id != inputId
    ensures index == -1 <==> forall i :: 0 <= i < |inputs| ==> inputs[i].id != inputId
  {
    FindIndex(inputs, (i: InputImage) => i.id == inputId)
  }

  /** The output image before it is named. */
  function Unnamed(engine: Engine, platform: Platform, id: string, input: InputImage, inputs: seq<InputImage>,
                   variant: Variant, s: Settings, full: Processed): (image: OutputImage)
    ensures image.id == id && image.variantId == variant.id && image.filename == ""
    ensures image.width == full.width && image.height == full.height && image.full.file == full.blob
    ensures image.crop == s.crop && image.resampling == s.resampling && image.sharpening == s.sharpening
    ensures image.inputImage.id == input.id && image.inputImage.filename == input.filename
    ensures image.inputImage.index == InputIndex(inputs, input.id)
    ensures !NeedsThumbnail(full, platform.thumbnailSize) ==> image.thumbnail == image.full
    ensures NeedsThumbnail(full, platform.thumbnailSize) ==>
              image.thumbnail.src == engine.objectUrl(image.thumbnail.file)
  {
    var fullSrc := engine.objectUrl(full.blob);
    var needsThumbnail := NeedsThumbnail(full, platform.thumbnailSize);
    var thumbnail := Thumbnail(engine, platform, input, full);
    var index := InputIndex(inputs, input.id);
    OutputImage(
      id,
      InputSnapshot(input.id, index, input.filename, input.fileSize, input.dimensions),
      variant.id,
      ImageFile(full.blob, fullSrc),
      ImageFile(thumbnail.blob, if needsThumbnail then engine.objectUrl(thumbnail.blob) else fullSrc),
      full.width, full.height,
      "",
      s.crop, s.resampling, s.sharpening)
  }

  /** The output image named after its variant. */
  function Named(image: OutputImage, variant: Variant, s: Settings, platform: Platform): (named: OutputImage)
    ensures named == image.(filename := named.filename)
    ensures named.filename == FinalFilename(VariantFilename(variant, image, platform), s.extension, platform)
  {
    image.(filename := FinalFilename(VariantFilename(variant, image, platform), s.extension, platform))
  }

  // ---------------------------------------------------------------------
  // generateOutputImage

  /** What `generateOutputImage` produces: `Ok(None)` when a duplicate check
      finds the id, `Err` when the variant is missing at either read, else
      the new output image. */
  function Generated(engine: Engine, platform: Platform, input: InputImage, variantId: string,
                     checkForDuplicate: bool, previous: Option<OutputImage>, obs: Observations)
    : Result<Option<OutputImage>, string>
  {
    var id := OutputId(input.id, variantId);
    if checkForDuplicate && AlreadyExists(id, obs.outputsBefore) then Ok(None)
    else
      match FindVariant(obs.variantsBefore, variantId)
      case None => Err(VariantNotFound(variantId))
      case Some(variant) =>
        var s := MergedSettings(variant.settings, previous, input.filename, platform);
        var full := ProcessedFull(engine, input, variant.settings, s);
        match FindVariant(obs.variantsAfter, variantId)
        case None => Err(VariantNotFound(variantId))
        case Some(latest) =>
          if checkForDuplicate && AlreadyExists(id, obs.outputsAfter) then Ok(None)
          else
            var image := Unnamed(engine, platform, id, input, obs.inputsAfter, latest, s, full);
            Ok(Some(Named(image, latest, s, platform)))
  }

  /** With the check switched on, an image is produced only when its id is
      absent both before processing and when the registry is read again
      afterwards; with it switched off nothing is skipped. */
  lemma GeneratedChecksDuplicates(engine: Engine, platform: Platform, input: InputImage, variantId: string,
                                  checkForDuplicate: bool, previous: Option<OutputImage>, obs: Observations)
    ensures checkForDuplicate && AlreadyExists(OutputId(input.id, variantId), obs.outputsBefore) ==>
              Generated(engine, platform, input, variantId, checkForDuplicate, previous, obs) == Ok(None)
    ensures Generated(engine, platform, input, variantId, checkForDuplicate, previous, obs).Ok?
            && Generated(engine, platform, input, variantId, checkForDuplicate, previous, obs).value.Some?
            && checkForDuplicate ==>
              !AlreadyExists(OutputId(input.id, variantId), obs.outputsBefore)
              && !AlreadyExists(OutputId(input.id, variantId), obs.outputsAfter)
    ensures Generated(engine, platform, input, variantId, checkForDuplicate, previous, obs) == Ok(None) ==> checkForDuplicate
  {
  }

  /** The second check: an image registered under the id while this one was
      being processed makes generation return nothing. */
  lemma GeneratedSkipsLateDuplicate(engine: Engine, platform: Platform, input: InputImage, variantId: string,
                                    checkForDuplicate: bool, previous: Option<OutputImage>, obs: Observations)
    requires FindVariant(obs.variantsBefore, variantId).Some? && FindVariant(obs.variantsAfter, variantId).Some?
    requires checkForDuplicate && AlreadyExists(OutputId(input.id, variantId), obs.outputsAfter)
    ensures Generated(engine, platform, input, variantId, checkForDuplicate, previous, obs) == Ok(None)
  {
  }

  /** Generation fails exactly when no duplicate stopped it first and the
      variant is missing from the store at either read. */
  lemma GeneratedFailsIffVariantMissing(engine: Engine, platform: Platform, input: InputImage, variantId: string,
                                        checkForDuplicate: bool, previous: Option<OutputImage>, obs: Observations)
    ensures Generated(engine, platform, input, variantId, checkForDuplicate, previous, obs).Err?
            <==> !(checkForDuplicate && AlreadyExists(OutputId(input.id, variantId), obs.outputsBefore))
                 && (FindVariant(obs.variantsBefore, variantId).None? || FindVariant(obs.variantsAfter, variantId).None?)
    ensures Generated(engine, platform, input, variantId, checkForDuplicate, previous, obs).Err? ==>
              Generated(engine, platform, input, variantId, checkForDuplicate, previous, obs)
              == Err(VariantNotFound(variantId))
  {
  }

  /** A produced image carries the composite id and the variant's id. */
  lemma GeneratedIdentity(engine: Engine, platform: Platform, input: InputImage, variantId: string,
                          checkForDuplicate: bool, previous: Option<OutputImage>, obs: Observations, image: OutputImage)
    requires Generated(engine, platform, input, variantId, checkForDuplicate, previous, obs) == Ok(Some(image))
    ensures image.id == OutputId(input.id, variantId) && image.variantId == variantId
  {
  }

  /** An image generated with the check on is new to the registry as it was
      read after processing: when that is the registry `Admit` sees, the
      image is admitted, and the registry keeps distinct ids. */
  lemma GeneratedImageIsAdmitted(engine: Engine, platform: Platform, input: InputImage, variantId: string,
                                 previous: Option<OutputImage>, obs: Observations, image: OutputImage)
    requires Generated(engine, platform, input, variantId, true, previous, obs) == Ok(Some(image))
    ensures !AlreadyExists(image.id, obs.outputsAfter)
    ensures DistinctIds(obs.outputsAfter) ==> DistinctIds(obs.outputsAfter + [image])
  {
    GeneratedIdentity(engine, platform, input, variantId, true, previous, obs, image);
    GeneratedChecksDuplicates(engine, platform, input, variantId, true, previous, obs);
    var after := obs.outputsAfter + [image];
    if DistinctIds(obs.outputsAfter) {
      forall i, j | 0 <= i < j < |after|
        ensures after[i].id != after[j].id
      {
        if j == |after| - 1 {
          assert after[i] == obs.outputsAfter[i];
        } else {
          assert after[i] == obs.outputsAfter[i] && after[j] == obs.outputsAfter[j];
        }
      }
    }
  }

  /** A produced image has the settings merged from the variant as read
      before processing, and the filename that the variant as read after
      processing gives it. */
  lemma GeneratedImage(engine: Engine, platform: Platform, input: InputImage, variantId: string,
                       checkForDuplicate: bool, previous: Option<OutputImage>, obs: Observations, image: OutputImage,
                       before: Variant, after: Variant)
    requires Generated(engine, platform, input, variantId, checkForDuplicate, previous, obs) == Ok(Some(image))
    requires FindVariant(obs.variantsBefore, variantId) == Some(before)
    requires FindVariant(obs.variantsAfter, variantId) == Some(after)
    ensures image.crop == MergedSettings(before.settings, previous, input.filename, platform).crop
    ensures image.resampling == MergedSettings(before.settings, previous, input.filename, platform).resampling
    ensures image.sharpening == MergedSettings(before.settings, previous, input.filename, platform).sharpening
    ensures image.filename
            == FinalFilename(VariantFilename(after, image.(filename := ""), platform),
                             MergedSettings(before.settings, previous, input.filename, platform).extension, platform)
  {
  }

  /** When neither check finds the id and the variant is there at both
      reads, generation produces the named image built from the variant as
      read before processing (for the settings and the processing) and as
      read after (for the name). */
  lemma GeneratedProduces(engine: Engine, platform: Platform, input: InputImage, variantId: string,
                          checkForDuplicate: bool, previous: Option<OutputImage>, obs: Observations,
                          before: Variant, after: Variant, s: Settings, full: Processed)
    requires !(checkForDuplicate && AlreadyExists(OutputId(input.id, variantId), obs.outputsBefore))
    requires !(checkForDuplicate && AlreadyExists(OutputId(input.id, variantId), obs.outputsAfter))
    requires FindVariant(obs.variantsBefore, variantId) == Some(before)
    requires FindVariant(obs.variantsAfter, variantId) == Some(after)
    requires s == MergedSettings(before.settings, previous, input.filename, platform)
    requires full == ProcessedFull(engine, input, before.settings, s)
    ensures Generated(engine, platform, input, variantId, checkForDuplicate, previous, obs)
            == Ok(Some(Named(Unnamed(engine, platform, OutputId(input.id, variantId), input, obs.inputsAfter, after, s, full),
                             after, s, platform)))
  {
  }

  /** Lines 100-139 of `generateOutputImage`: the default settings, then
      each override the previous output image switches on, then the
      encoding. */
  method MergeSettings(variant: VariantSettings, previous: Option<OutputImage>, inputFilename: string, platform: Platform)
    returns (cropData: Crop, resamplingData: Resampling, sharpeningData: Sharpening, extension: string)
    ensures Settings(cropData, resamplingData, sharpeningData, extension)
            == MergedSettings(variant, previous, inputFilename, platform)
  {
    cropData := platform.defaultCrop;
    sharpeningData := Sharpening(false, variant.sharpenAmount, variant.sharpenRadius, variant.sharpenThreshold);
    resamplingData := Resampling(false, variant.filter, variant.quality);
    if previous.Some? {
      cropData := previous.value.crop;
    }
    if previous.Some? && previous.value.resampling.enabled {
      resamplingData := Resampling(true, previous.value.resampling.filter, previous.value.resampling.quality);
    }
    if previous.Some? && previous.value.sharpening.enabled {
      sharpeningData := Sharpening(true, previous.value.sharpening.amount, previous.value.sharpening.radius,
                                   previous.value.sharpening.threshold);
    }
    extension := if resamplingData.quality < 1.0 then "jpeg" else platform.fileExtension(inputFilename);
  }

  /** Lines 153-183: the thumbnail starts as the full image and is replaced
      by a resized copy when a side exceeds the thumbnail size. */
  method MakeThumbnail(engine: Engine, platform: Platform, input: InputImage, processedFull: Processed)
    returns (processedThumbnail: Processed, needsThumbnail: bool)
    ensures needsThumbnail == NeedsThumbnail(processedFull, platform.thumbnailSize)
    ensures processedThumbnail == Thumbnail(engine, platform, input, processedFull)
  {
    var processedFile := engine.makeFile(processedFull.blob, input.filename);
    processedThumbnail := processedFull;
    needsThumbnail := processedFull.width > platform.thumbnailSize || processedFull.height > platform.thumbnailSize;
    if needsThumbnail {
      var image := engine.load(processedFile);
      var finalDimensions := CalculateOutputDimensions(image, Some(ThumbnailRequest(platform.thumbnailSize)));
      processedThumbnail := engine.process(processedFile, input.filename, finalDimensions, None,
                                           Resampling(true, "mks2013", if platform.isJpg(input.filename) then 0.9 else 1.0),
                                           None);
    }
  }

  /** Lines 190-235: the output image is assembled with an empty filename,
      then named after the variant, as a JPEG name when encoded as JPEG. */
  method Seal(engine: Engine, platform: Platform, id: string, input: InputImage, inputs: seq<InputImage>,
              variant: Variant, s: Settings, processedFull: Processed, processedThumbnail: Processed, needsThumbnail: bool)
    returns (finalOutputImage: OutputImage)
    requires needsThumbnail == NeedsThumbnail(processedFull, platform.thumbnailSize)
    requires processedThumbnail == Thumbnail(engine, platform, input, processedFull)
    ensures finalOutputImage == Named(Unnamed(engine, platform, id, input, inputs, variant, s, processedFull),
                                      variant, s, platform)
  {
    var fullSrc := engine.objectUrl(processedFull.blob);
    var index := InputIndex(inputs, input.id);
    finalOutputImage := OutputImage(
      id,
      InputSnapshot(input.id, index, input.filename, input.fileSize, input.dimensions),
      variant.id,
      ImageFile(processedFull.blob, fullSrc),
      ImageFile(processedThumbnail.blob, if needsThumbnail then engine.objectUrl(processedThumbnail.blob) else fullSrc),
      processedFull.width, processedFull.height,
      "",
      s.crop, s.resampling, s.sharpening);
    assert finalOutputImage == Unnamed(engine, platform, id, input, inputs, variant, s, processedFull);
    var filename := GetVariantFilenameForOutputImage(variant, finalOutputImage, platform);
    if s.extension == "jpeg" {
      filename := platform.filenameToJpg(filename);
    }
    finalOutputImage := finalOutputImage.(filename := filename);
  }

  /** `generateOutputImage`: the first duplicate check, the variant lookup,
      processing, the second lookup of the variant, the second duplicate
      check, and the sealed and named image. */
  method GenerateOutputImage(engine: Engine, platform: Platform, input: InputImage, variantId: string,
                             checkForDuplicate: bool, previous: Option<OutputImage>, obs: Observations)
    returns (r: Result<Option<OutputImage>, string>)
    ensures r == Generated(engine, platform, input, variantId, checkForDuplicate, previous, obs)
  {
    var id := input.id + "-" + variantId;
    if checkForDuplicate {
      if AlreadyExists(id, obs.outputsBefore) {
        GeneratedChecksDuplicates(engine, platform, input, variantId, checkForDuplicate, previous, obs);
        return Ok(None);
      }
    }
    var found := FindVariant(obs.variantsBefore, variantId);
    if found.None? {
      GeneratedFailsIffVariantMissing(engine, platform, input, variantId, checkForDuplicate, previous, obs);
      return Err(VariantNotFound(variantId));
    }
    var variant := found.value;
    var image := engine.load(input.file);
    var finalDimensions := CalculateOutputDimensions(image, Some(RequestOf(variant.settings.width, variant.settings.height)));
    var cropData, resamplingData, sharpeningData, extension := MergeSettings(variant.settings, previous, input.filename, platform);
    var s := Settings(cropData, resamplingData, sharpeningData, extension);
    var processedFull := engine.process(input.file, extension, finalDimensions, Some(RelativeCrop(cropData)),
                                        resamplingData, Some(sharpeningData));
    assert processedFull == ProcessedFull(engine, input, variant.settings, s);
    ghost var before := variant;

    found := FindVariant(obs.variantsAfter, variantId);
    if found.None? {
      GeneratedFailsIffVariantMissing(engine, platform, input, variantId, checkForDuplicate, previous, obs);
      return Err(VariantNotFound(variantId));
    }
    variant := found.value;
    var processedThumbnail, needsThumbnail := MakeThumbnail(engine, platform, input, processedFull);

    if checkForDuplicate {
      if AlreadyExists(id, obs.outputsAfter) {
        GeneratedSkipsLateDuplicate(engine, platform, input, variantId, checkForDuplicate, previous, obs);
        return Ok(None);
      }
    }
    var finalOutputImage := Seal(engine, platform, id, input, obs.inputsAfter, variant, s, processedFull,
                                 processedThumbnail, needsThumbnail);
    GeneratedProduces(engine, platform, input, variantId, checkForDuplicate, previous, obs, before, variant, s, processedFull);
    return Ok(Some(finalOutputImage));
  }

  // ---------------------------------------------------------------------
  // generateOutputImageVariants

  /** `outputImages?.find(...)`: the first earlier output of this input for
      this variant. */
  function PreviousOutput(outputImages: Option<seq<OutputImage>>, inputId: string, variantId: string)
    : (r: Option<OutputImage>)
    ensures r.Some? ==> outputImages.Some? && r.value.inputImage.id == inputId && r.value.variantId == variantId
    ensures r.Some? ==> exists i :: 0 <= i < |outputImages.value| && outputImages.value[i] == r.value
                          && forall k :: 0 <= k < i ==>
                               !(outputImages.value[k].inputImage.id == inputId && outputImages.value[k].variantId == variantId)
    ensures r.None? && outputImages.Some? ==>
              forall i :: 0 <= i < |outputImages.value| ==>
                !(outputImages.value[i].inputImage.id == inputId && outputImages.value[i].variantId == variantId)
  {
    if outputImages.None? then None
    else
      var images := outputImages.value;
      var i := FindIndex(images, (o: OutputImage) => o.inputImage.id == inputId && o.variantId == variantId);
      if i == -1 then None else Some(images[i])
  }

  /** The outcomes of the calls of one run of `generateOutputImageVariants`,
      one per variant in order; `world(j)` is what the `j`-th call reads from
      the stores. */
  function Calls(engine: Engine, platform: Platform, input: InputImage, variants: seq<Variant>,
                 checkForDuplicate: bool, outputImages: Option<seq<OutputImage>>, world: nat -> Observations)
    : (calls: seq<Result<Option<OutputImage>, string>>)
    ensures |calls| == |variants|
    ensures forall j :: 0 <= j < |variants| ==>
              calls[j] == Generated(engine, platform, input, variants[j].id, checkForDuplicate,
                                    PreviousOutput(outputImages, input.id, variants[j].id), world(j))
  {
    seq(|variants|, (j: int) requires 0 <= j < |variants| =>
      Generated(engine, platform, input, variants[j].id, checkForDuplicate,
                PreviousOutput(outputImages, input.id, variants[j].id), world(j)))
  }

  /** The images a run returns: those the calls produced, in order, unless a
      call failed, in which case the run fails with the first failure. */
  function Collect(calls: seq<Result<Option<OutputImage>, string>>): Result<seq<OutputImage>, string> {
    if calls == [] then Ok([])
    else
      match Collect(calls[..|calls| - 1])
      case Err(e) => Err(e)
      case Ok(images) =>
        match calls[|calls| - 1]
        case Err(e) => Err(e)
        case Ok(None) => Ok(images)
        case Ok(Some(image)) => Ok(images + [image])
  }

  /** A failed call ends the run: later calls do not change the failure. */
  lemma {:induction false} FailureIsFinal(calls: seq<Result<Option<OutputImage>, string>>, n: nat)
    requires n <= |calls|
    requires Collect(calls[..n]).Err?
    ensures Collect(calls) == Collect(calls[..n])
    decreases |calls| - n
  {
    if n < |calls| {
      assert calls[..n + 1][..n] == calls[..n];
      FailureIsFinal(calls, n + 1);
    } else {
      assert calls[..n] == calls;
    }
  }

  /** One more call extends the run by what it produced. */
  lemma CollectExtends(calls: seq<Result<Option<OutputImage>, string>>, j: nat, images: seq<OutputImage>)
    requires j < |calls|
    requires Collect(calls[..j]) == Ok(images)
    ensures calls[j].Err? ==> Collect(calls) == Err(calls[j].error)
    ensures calls[j] == Ok(None) ==> Collect(calls[..j + 1]) == Ok(images)
    ensures calls[j].Ok? && calls[j].value.Some? ==> Collect(calls[..j + 1]) == Ok(images + [calls[j].value.value])
  {
    assert calls[..j + 1][..j] == calls[..j];
    if calls[j].Err? {
      FailureIsFinal(calls, j + 1);
    }
  }

  /** Each call of a run produces, if anything, an image with the composite
      id of its own variant. */
  ghost predicate CallsFor(calls: seq<Result<Option<OutputImage>, string>>, inputId: string, variants: seq<Variant>) {
    && |calls| == |variants|
    && forall j :: 0 <= j < |calls| && calls[j].Ok? && calls[j].value.Some? ==>
         calls[j].value.value.variantId == variants[j].id
         && calls[j].value.value.id == OutputId(inputId, variants[j].id)
  }

  lemma CallsAreForTheirVariants(engine: Engine, platform: Platform, input: InputImage, variants: seq<Variant>,
                                 checkForDuplicate: bool, outputImages: Option<seq<OutputImage>>, world: nat -> Observations)
    ensures CallsFor(Calls(engine, platform, input, variants, checkForDuplicate, outputImages, world), input.id, variants)
  {
    var calls := Calls(engine, platform, input, variants, checkForDuplicate, outputImages, world);
    forall j | 0 <= j < |calls| && calls[j].Ok? && calls[j].value.Some?
      ensures calls[j].value.value.variantId == variants[j].id
      ensures calls[j].value.value.id == OutputId(input.id, variants[j].id)
    {
      GeneratedIdentity(engine, platform, input, variants[j].id, checkForDuplicate,
                        PreviousOutput(outputImages, input.id, variants[j].id), world(j), calls[j].value.value);
    }
  }

  /** The ids of the variants. */
  function VariantIds(variants: seq<Variant>): (ids: set<string>)
    ensures forall j :: 0 <= j < |variants| ==> variants[j].id in ids
    ensures forall id :: id in ids ==> exists j :: 0 <= j < |variants| && variants[j].id == id
  {
    set j | 0 <= j < |variants| :: variants[j].id
  }

  /** Every image of a run belongs to one of the variants and carries its
      composite id; there is at most one per variant. */
  lemma {:induction false} CollectedBelongToVariants(calls: seq<Result<Option<OutputImage>, string>>, inputId: string,
                                                     variants: seq<Variant>, images: seq<OutputImage>)
    requires CallsFor(calls, inputId, variants)
    requires Collect(calls) == Ok(images)
    ensures |images| <= |calls|
    ensures forall k :: 0 <= k < |images| ==>
              images[k].variantId in VariantIds(variants) && images[k].id == OutputId(inputId, images[k].variantId)
    decreases |calls|
  {
    if calls != [] {
      var n := |calls| - 1;
      var before := Collect(calls[..n]).value;
      assert CallsFor(calls[..n], inputId, variants[..n]);
      CollectedBelongToVariants(calls[..n], inputId, variants[..n], before);
      assert VariantIds(variants[..n]) <= VariantIds(variants) by {
        forall id | id in VariantIds(variants[..n])
          ensures id in VariantIds(variants)
        {
          var j :| 0 <= j < n && variants[..n][j].id == id;
          assert variants[j].id == id;
        }
      }
    }
  }

  /** With distinct variant ids, a run never produces two images for one
      variant, and so never two images with the same id. */
  lemma {:induction false} CollectedHaveDistinctIds(calls: seq<Result<Option<OutputImage>, string>>, inputId: string,
                                                    variants: seq<Variant>, images: seq<OutputImage>)
    requires CallsFor(calls, inputId, variants)
    requires forall a, b :: 0 <= a < b < |variants| ==> variants[a].id != variants[b].id
    requires Collect(calls) == Ok(images)
    ensures forall a, b :: 0 <= a < b < |images| ==> images[a].variantId != images[b].variantId
    ensures forall a, b :: 0 <= a < b < |images| ==> images[a].id != images[b].id
    decreases |calls|
  {
    if calls != [] {
      var n := |calls| - 1;
      var before := Collect(calls[..n]).value;
      assert CallsFor(calls[..n], inputId, variants[..n]);
      CollectedHaveDistinctIds(calls[..n], inputId, variants[..n], before);
      CollectedBelongToVariants(calls[..n], inputId, variants[..n], before);
      if calls[n].Ok? && calls[n].value.Some? {
        var image := calls[n].value.value;
        assert images == before + [image];
        assert variants[n].id !in VariantIds(variants[..n]);
      }
    }
  }

  /** `generateOutputImageVariants`: one `generateOutputImage` per variant of
      the store, keeping the images it returns; a failing call fails the
      whole run. */
  method GenerateOutputImageVariants(engine: Engine, platform: Platform, input: InputImage, variants: seq<Variant>,
                                     checkForDuplicate: bool, outputImages: Option<seq<OutputImage>>,
                                     world: nat -> Observations)
    returns (r: Result<seq<OutputImage>, string>)
    ensures r == Collect(Calls(engine, platform, input, variants, checkForDuplicate, outputImages, world))
  {
    ghost var calls := Calls(engine, platform, input, variants, checkForDuplicate, outputImages, world);
    var newOutputImages := [];
    var j := 0;
    while j < |variants|
      invariant j <= |variants|
      invariant Collect(calls[..j]) == Ok(newOutputImages)
    {
      var variant := variants[j];
      var oldOutputImage := PreviousOutput(outputImages, input.id, variant.id);
      var image := GenerateOutputImage(engine, platform, input, variant.id, checkForDuplicate, oldOutputImage, world(j));
      CollectExtends(calls, j, newOutputImages);
      if image.Err? {
        return Err(image.error);
      }
      if image.value.Some? {
        newOutputImages := newOutputImages + [image.value.value];
      }
      j := j + 1;
    }
    assert calls[..j] == calls;
    r := Ok(newOutputImages);
  }
}
