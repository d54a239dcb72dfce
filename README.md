# Batch image resizer: output generation, naming and variant import

This project models the part of the batch image resizer that decides what each
output image is and what it is called:

- **Output-image generation** (`OutputImages`). An output image gets a composite id `input-variant`. Duplicates are checked before and after the expensive processing step. Crop, resampling and sharpening overrides from a previous output image are merged over the variant's defaults. The image is encoded as JPEG when the quality is below 1. A separate thumbnail is made only for images larger than the thumbnail size. A run over all variants collects the images it produces. The output store is an `OutputRegistry` class whose `Admit` method adds an image only when its id is new.
- **Filenames** (`Filenames`). A `{keyword}` pattern is expanded by a left-to-right scan whose cursor skips the text it has just inserted. Without a pattern the name is prefix + stem + suffix + extension.
- **Geometry** (`Geometry`). This covers:
  - the output size for the exact/upto modes;
  - the crop rectangle and where the zoomed image is drawn on it;
  - the canvas size of a resize;
  - the choice of encoding.

  JavaScript numbers are exact reals here.
- **Variant import** (`VariantValidation`). The shape checks run on a parsed JSON value. The ordered rule checks report the first failing variant, by its 1-based position, and the first rule it fails. An imported variant is completed with the default settings.
- **Default variant names** (`VariantNames`). The loop over the existing names yields `Variant N+1`, where N is the largest number in use. That name is always fresh.
- **Store helpers** (`StoreUtils`): `switchedType`, and the variant lookup by id.

`Common` holds the JavaScript built-ins the code relies on: `trim`, `parseInt`, `padStart`, `lastIndexOf`, `substring` and `findIndex`. `Types` holds the records the stores keep.

Helpers the repository imports but that are not part of this model are fields of a `Platform` record, and every property holds for any choice of them:
- `getFileExtension`, `getFileNameWithoutExtension`, `filenameToJpg`, `isJpg`;
- `THUMBNAIL_SIZE`, `DEFAULT_CROP_SETTINGS`.

The image effects are fields of an `Engine` record of functions: loading an image, resizing and encoding it, wrapping a blob in a `File`, and `URL.createObjectURL`.

The stores that `generateOutputImage` reads at different moments are an `Observations` record, one snapshot per read. A run over several variants takes one such record per call.

## Model

| member | source | states |
|---|---|---|
| Common.TrimEmptyIffAllWhitespace | src/features/settings/variants/utils.ts:93 | a name is blank after trimming exactly when it is all whitespace |
| Common.ParseInt | src/store/output-images/utils.ts:286 | `parseInt(s, 10)` is a number exactly when, after leading whitespace and one optional sign, a digit follows; its value is that run of digits, negated after `-` |
| Common.ParseIntSkipsWhitespace | src/store/output-images/utils.ts:286 | leading whitespace never changes what `parseInt` reads |
| Common.ParseIntReadsLeadingNumber | src/store/output-images/utils.ts:286 | an optional sign and a run of digits read as the run's value, negated after `-`, whatever non-digit text follows |
| Common.ParseIntNaN | src/store/output-images/utils.ts:286-287 | text that is empty or starts with a character other than whitespace, a sign or a digit gives `NaN` |
| Common.PadStart | src/store/output-images/utils.ts:288 | `padStart` never shortens, ends with the original text, and fills only with the filler up to the target length |
| Common.LastIndexOf | src/store/output-images/utils.ts:266 | `lastIndexOf` gives the last position of the character, or -1 exactly when it is absent |
| Common.Substring | src/store/output-images/utils.ts:267-268 | `substring(start, end)` has the length of the distance between the clamped ends, is the plain slice for in-range ordered ends, and reads a negative end as 0 |
| Common.SubstringSymmetric | src/store/output-images/utils.ts:267 | exchanging the two ends never changes the result |
| Common.SubstringSplit | src/store/output-images/utils.ts:266-268 | `substring(0, k) + substring(k)` is the whole string for every cut from -1 to the length, and the cut at -1 gives `""` and the whole string |
| Common.FindIndex | src/store/output-images/utils.ts:23 | `findIndex` gives the first position satisfying the predicate, or -1 exactly when none does |
| Geometry.CalculateOutputDimensions | src/lib/utils.ts:94-157 | no settings give 0 x 0; with neither side provided (absent or zero) the natural size is returned |
| Geometry.ExactExactIsVerbatim | src/lib/utils.ts:113-115 | exact/exact returns the requested width and height verbatim |
| Geometry.ExactUpToCapsHeight | src/lib/utils.ts:116-118 | exact/upto keeps the width and caps the height at the smaller of the request and the aspect-scaled height |
| Geometry.UpToExactCapsWidth | src/lib/utils.ts:119-121 | upto/exact keeps the height and caps the width symmetrically |
| Geometry.FitByWidth | src/lib/utils.ts:124-126 | in the width-bound branch the capped width and its scaled height fit the box and the image at the image's aspect |
| Geometry.FitByHeight | src/lib/utils.ts:127-130 | in the height-bound branch the capped height and its scaled width fit the box and the image at the image's aspect |
| Geometry.UpToUpToFitsBoxAndImage | src/lib/utils.ts:122-130 | upto/upto gives a positive size no larger than the box or the image, with the image's aspect ratio |
| Geometry.UpToUpToNoUpscale | src/lib/utils.ts:122-130 | upto/upto with a box at least as large as the image returns the image's own size |
| Geometry.WidthOnlyKeepsAspect | src/lib/utils.ts:132-140 | width only, whatever the height's mode: exact uses it, upto caps it at the image width, and the height keeps the image's aspect |
| Geometry.HeightOnlyKeepsAspect | src/lib/utils.ts:141-149 | height only, whatever the width's mode: the mirror image of the width-only case |
| Geometry.CropSize | src/lib/utils.ts:60-72 | the crop rectangle has the output's aspect ratio, fits inside the image, and spans its full width or full height |
| Geometry.CropFullHeight | src/lib/utils.ts:66-68 | when the image is relatively wider, the crop spans the full height and a width within the image |
| Geometry.CropFullWidth | src/lib/utils.ts:69-72 | when the image is relatively taller, the crop spans the full width and a height within the image |
| Geometry.CropPlacement | src/lib/utils.ts:74-88 | the crop canvas is the crop rectangle and the image is drawn scaled by the zoom |
| Geometry.AxisCovered | src/lib/utils.ts:79-83 | on one axis, a zoom of at least 1 and a focal point in [0, 1] place the drawn side over the whole canvas side |
| Geometry.CropCoversCanvas | src/lib/utils.ts:77-88 | with zoom at least 1 and a focal point in [0, 1] the drawn image covers the whole crop canvas |
| Geometry.CropFocalAnchors | src/lib/utils.ts:79-83 | focal point 0 aligns top-left, 1 aligns bottom-right, 0.5 centres the image on the canvas |
| Geometry.ZoomOutCanUncoverCanvas | src/lib/utils.ts:79-88 | a zoom below 1 can leave part of the canvas uncovered (100 x 100 image at zoom 0.5) |
| Geometry.Ceil | src/lib/utils.ts:37 | `Math.ceil` gives the least integer at or above its argument |
| Geometry.AspectRatioForms | src/lib/utils.ts:32 | multiplying by `width / height` gives the aspect-true width, dividing gives the aspect-true height |
| Geometry.ResizeDimensionsAsWritten | src/lib/utils.ts:30-44 | given sides are used verbatim; a missing width is the ceiling of the image's own width, whatever height was requested |
| Geometry.ResizeDimensions | src/lib/utils.ts:30-44 | given sides are used verbatim; a missing side is the ceiling of the other side's aspect-scaled value |
| Geometry.ResizeDerivedSideKeepsAspect | src/lib/utils.ts:36-44 | a derived side lies within one pixel above its aspect-true value |
| Geometry.ResizeAsWrittenIgnoresRequestedHeight | src/lib/utils.ts:37 | a 200 x 100 image resized to height 50 gets width 200 as written, 100 as intended |
| Geometry.OutputExtension | src/lib/utils.ts:187 | quality below 1 gives `jpeg`, otherwise the input's extension; the result is `jpeg` exactly when the quality is below 1 or the input is already `jpeg` |
| Filenames.RunEnd | src/store/output-images/utils.ts:241 | the run of `[\w,]` characters ends at the first character outside the class |
| Filenames.RunEndCovers | src/store/output-images/utils.ts:241 | every character inside the run is in `[\w,]` |
| Filenames.MatchAt | src/store/output-images/utils.ts:241 | a match at `p` starts with `{` and is at least three characters long |
| Filenames.MatchAtIsRegex | src/store/output-images/utils.ts:241 | the text `p..e` is a token `{[\w,]+}` exactly when the regular expression matches at `p` and ends at `e` |
| Filenames.FindMatch | src/store/output-images/utils.ts:245 | `regex.exec` from `lastIndex` reports a match position at or after it |
| Filenames.FindMatchIsLeftmost | src/store/output-images/utils.ts:245 | no match starts between `lastIndex` and the reported one, nor anywhere after it when none is reported |
| Filenames.BeforeComma | src/store/output-images/utils.ts:286 | `split(',')[0]` is the comma-free prefix that runs up to the first comma, or the whole text when there is no comma |
| Filenames.SecondField | src/store/output-images/utils.ts:286 | `split(',')[1]` is the text from just after the first comma up to the next comma or the end |
| Filenames.KeywordReplacements | src/store/output-images/utils.ts:275-300 | `filename` gives the stem, `index…` the position text of `IndexText`, `width` and `height` the decimal output size, and an unknown keyword its token verbatim |
| Filenames.IndexUnpadded | src/store/output-images/utils.ts:283-292 | `index` without a numeric `,N` gives the position plus one, unpadded |
| Filenames.IndexPadded | src/store/output-images/utils.ts:285-289 | with a numeric `,N` the position plus one keeps its digits and gains leading zeros up to `min(5, N)` characters, and nothing else |
| Filenames.IndexPaddingCapped | src/store/output-images/utils.ts:273 | for positions below 10000 the text is never longer than `MAX_PAD` (5), however large N is |
| Filenames.ExpandWithoutBraces | src/store/output-images/utils.ts:240-262 | text without `{` expands to itself |
| Filenames.ExpandStep | src/store/output-images/utils.ts:240-262 | the expansion is the text before the first token, its replacement, then the expansion of the rest |
| Filenames.ExpandNoMatch | src/store/output-images/utils.ts:245 | text with no token expands to itself |
| Filenames.ScanStep | src/store/output-images/utils.ts:251-258 | one round of the loop replaces the token and resumes just after the replacement |
| Filenames.ScanIsExpand | src/store/output-images/utils.ts:245-259 | scanning from a cursor leaves the text before it alone and expands the rest once |
| Filenames.ScanFromStart | src/store/output-images/utils.ts:245-259 | the loop started at 0 computes the reference expansion |
| Filenames.HandlePattern | src/store/output-images/utils.ts:240-262 | `handlePattern` appends `.` and the input's extension, then returns the reference expansion of every original token, left to right |
| Filenames.NoPatternSplitsAtLastDot | src/store/output-images/utils.ts:264-271 | the fallback is prefix, the text before the last `.`, suffix, then the text from the last `.` on |
| Filenames.NoPatternWithoutDot | src/store/output-images/utils.ts:266-270 | a name without `.` gives prefix + suffix + the whole name |
| Filenames.VariantFilename | src/store/output-images/utils.ts:302-313 | a present, non-empty pattern gives the reference expansion of pattern + `.` + extension; otherwise the prefix/stem/suffix fallback |
| Filenames.GetVariantFilenameForOutputImage | src/store/output-images/utils.ts:302-313 | the method, with its loop in `HandlePattern`, returns exactly the name `VariantFilename` specifies |
| Filenames.SpacedIndexIsVerbatim | src/store/output-images/utils.ts:241 | `img_{index, 3}.png` is not a token and stays verbatim whatever the replacement |
| Filenames.ReplacementNotRescanned | src/store/output-images/utils.ts:258 | a stem that reads `{width}` is inserted literally and not expanded again |
| OutputImages.OutputId | src/store/output-images/utils.ts:81 | the id is the input id, `-`, then the variant id, and nothing else |
| OutputImages.OutputIdDeterminesVariant | src/store/output-images/utils.ts:81 | for one input image, equal output ids mean equal variant ids |
| OutputImages.OutputIdAmbiguousAcrossInputs | src/store/output-images/utils.ts:81 | across inputs the id is ambiguous: (`a-b`, `c`) and (`a`, `b-c`) collide |
| OutputImages.AlreadyExists | src/store/output-images/utils.ts:22-30 | true exactly when some registered image has the id |
| OutputImages.OutputRegistry.constructor | src/store/output-images/utils.ts:84 | the registry starts empty, with no repeated ids |
| OutputImages.OutputRegistry.Admit | src/store/output-images/utils.ts:185-188 | the store's add, taken to check the id once more as lines 185-188 do: an image is added exactly when its id is absent, otherwise the registry is unchanged; ids stay unique |
| OutputImages.GeneratedImageIsAdmitted | src/store/output-images/utils.ts:185-188 | an image generated with the check on is absent from the registry as read after processing, so `Admit` on that registry takes it and ids stay distinct |
| OutputImages.FindVariant | src/store/output-images/utils.ts:63-71 | the first variant with the id, and none exactly when no variant has it |
| OutputImages.MergedSettings | src/store/output-images/utils.ts:100-139 | crop from the previous image or the default; resampling and sharpening from the previous image exactly when it enabled them, else the variant's values with `enabled` false; `jpeg` when quality is below 1, else the input's extension |
| OutputImages.RegenerationKeepsOverrides | src/store/output-images/utils.ts:113-137 | regenerating from an output image keeps its crop and its enabled overrides, and takes the current variant's values for the rest |
| OutputImages.MergeSettings | src/store/output-images/utils.ts:100-139 | the reassignments compute exactly the merged settings |
| OutputImages.RelativeCrop | src/store/output-images/utils.ts:146 | the crop passed on keeps x, y and minZoom, and its zoom times minZoom is the stored zoom |
| OutputImages.FinalFilename | src/store/output-images/utils.ts:231-235 | the name goes through `filenameToJpg` exactly when the extension is `jpeg` |
| OutputImages.ThumbnailRequestFitsBox | src/store/output-images/utils.ts:162-169 | the thumbnail size fits the thumbnail box and the full image, at its aspect ratio |
| OutputImages.Thumbnail | src/store/output-images/utils.ts:153-183 | an image no larger than the thumbnail size is its own thumbnail |
| OutputImages.MakeThumbnail | src/store/output-images/utils.ts:153-183 | the method decides the need and produces the thumbnail as specified |
| OutputImages.InputIndex | src/store/output-images/utils.ts:192 | the input's first position in the input list, or -1 exactly when it is absent |
| OutputImages.Unnamed | src/store/output-images/utils.ts:190-229 | the assembled image has the id, variant id, size, full blob and merged settings; its thumbnail is the full image unless a separate one was needed |
| OutputImages.Named | src/store/output-images/utils.ts:231-235 | naming changes only the filename, to the variant's name passed through the JPEG rule |
| OutputImages.Seal | src/store/output-images/utils.ts:190-237 | the method builds the assembled image and names it |
| OutputImages.GeneratedChecksDuplicates | src/store/output-images/utils.ts:83-86 | with the check on, an id present before processing gives nothing; a `None` result only happens with the check on |
| OutputImages.GeneratedSkipsLateDuplicate | src/store/output-images/utils.ts:185-188 | an id registered during processing makes generation return nothing |
| OutputImages.GeneratedFailsIffVariantMissing | src/store/output-images/utils.ts:88-151 | generation fails exactly when no duplicate stopped it first and the variant is missing at either read |
| OutputImages.GeneratedIdentity | src/store/output-images/utils.ts:81-206 | a produced image has the composite id and the variant's id |
| OutputImages.GeneratedImage | src/store/output-images/utils.ts:100-235 | a produced image has the settings merged from the variant as first read, and the filename from the variant as read after processing |
| OutputImages.GeneratedProduces | src/store/output-images/utils.ts:73-238 | with no duplicate and the variant present at both reads, the result is the named, assembled image |
| OutputImages.GenerateOutputImage | src/store/output-images/utils.ts:73-238 | the method returns exactly what the generation function specifies |
| OutputImages.PreviousOutput | src/store/output-images/utils.ts:45-47 | the earlier output is the first of the given images that matches input and variant, and none exactly when no image matches |
| OutputImages.Calls | src/store/output-images/utils.ts:42-54 | one call per variant, in order, each with that variant's earlier output |
| OutputImages.FailureIsFinal | src/store/output-images/utils.ts:49-54 | after a failed call later calls do not change the failure |
| OutputImages.CollectExtends | src/store/output-images/utils.ts:56-58 | a produced image is appended, a skipped one adds nothing, and a failure fails the run |
| OutputImages.CallsAreForTheirVariants | src/store/output-images/utils.ts:49-54 | each call produces, if anything, the image of its own variant |
| OutputImages.VariantIds | src/store/output-images/utils.ts:39 | the set of the variants' ids |
| OutputImages.CollectedBelongToVariants | src/store/output-images/utils.ts:42-60 | every collected image belongs to a variant and carries its composite id, with no more images than variants |
| OutputImages.CollectedHaveDistinctIds | src/store/output-images/utils.ts:42-60 | with distinct variant ids, the run never returns two images for one variant or with one id |
| OutputImages.GenerateOutputImageVariants | src/store/output-images/utils.ts:32-61 | the loop returns exactly the collected outcome of the per-variant calls |
| VariantValidation.Member | src/features/settings/variants/utils.ts:48 | `o?.key` is defined exactly when `o` is an object holding the key |
| VariantValidation.AsWrittenAcceptsNumericHeight | src/features/settings/variants/utils.ts:51 | as written, a numeric height next to an object width is accepted; as intended it is rejected |
| VariantValidation.AsWrittenRejectsHeightOnly | src/features/settings/variants/utils.ts:51 | as written, a variant giving only a height object is rejected; as intended it is accepted |
| VariantValidation.IsVariantTreatsSidesAlike | src/features/settings/variants/utils.ts:50-51 | as intended, exchanging width and height never changes whether a variant is accepted |
| VariantValidation.HeightCheckAgreesOnWellFormed | src/features/settings/variants/utils.ts:44-63 | both versions agree when width and height are both absent or both objects |
| VariantValidation.ValidateJsonVariantsAsWritten | src/features/settings/variants/utils.ts:65-83 | as written: the data is accepted exactly when it is a non-empty array whose elements all pass `isVariant` as written; unparsable and invalid data give their messages |
| VariantValidation.ValidateJsonVariants | src/features/settings/variants/utils.ts:65-83 | as intended: the same, with the corrected `isVariant` |
| VariantValidation.ImportAsWrittenTakesNumericHeight | src/features/settings/variants/utils.ts:51 | a file with one variant whose height is a number next to an object width is imported as written and refused as intended |
| VariantValidation.ImportAsWrittenRefusesHeightOnly | src/features/settings/variants/utils.ts:51 | a file with one variant giving only a height object is refused as written and imported as intended |
| VariantValidation.FirstOfIsEarliestBroken | src/features/settings/variants/utils.ts:89-180 | the rule chain reports a broken rule with no earlier rule broken, and nothing exactly when no rule is broken |
| VariantValidation.FirstFailure | src/features/settings/variants/utils.ts:86-182 | the `forEach` passes exactly when no verdict names a rule, else throws at the first such position, 1-based |
| VariantValidation.Verdicts | src/features/settings/variants/utils.ts:86 | one verdict per variant, in order |
| VariantValidation.ValidateVariants | src/features/settings/variants/utils.ts:85-183 | passes exactly when every variant passes; otherwise reports the first failing variant, 1-based, with its first failing rule |
| VariantValidation.DuplicateIdReportedAtFirstVariant | src/features/settings/variants/utils.ts:86-91 | any repeated id is reported as a duplicate at variant No. 1 |
| VariantValidation.PassedSettingsRules | src/features/settings/variants/utils.ts:89-106 | passing the first four rules means unique ids, a non-blank name, a known filter and quality in [0, 1] |
| VariantValidation.PassedDimensionRules | src/features/settings/variants/utils.ts:141-155 | passing the dimension rules means well-formed width and height with non-negative values |
| VariantValidation.PassedAspectRatioRules | src/features/settings/variants/utils.ts:157-179 | passing the aspect-ratio rules means a well-formed aspect ratio, and when enabled both values given in the same mode |
| VariantValidation.PassingVariantIsSound | src/features/settings/variants/utils.ts:85-180 | a variant no rule stops comes from a list with unique ids and has a non-blank name, a known filter, quality in [0, 1], well-formed non-negative sizes, a well-formed aspect ratio and, when that is enabled, both values given in the same mode |
| VariantValidation.ImportedVariantsAreShaped | src/features/settings/variants/utils.ts:44-63 | every variant `isVariant` accepts, in either version, has the field types the rule checks read |
| VariantValidation.Message | src/features/settings/variants/utils.ts:87-180 | the thrown message starts with the positional intro |
| VariantValidation.MessageNamesPosition | src/features/settings/variants/utils.ts:87-180 | whatever the rule texts, two equal messages name the same variant |
| VariantValidation.IntroNamesPosition | src/features/settings/variants/utils.ts:87 | different positions give different intros |
| VariantValidation.MapToFullVariant | src/features/settings/variants/utils.ts:185-191 | the defaults overridden by every supplied field; id and name are the input's |
| VariantValidation.MapToFullVariantIdempotent | src/features/settings/variants/utils.ts:185-191 | completing a completed variant changes nothing |
| VariantNames.DefaultNumberOfDefaultName | src/features/settings/variants/add-variant.tsx:8-23 | `Variant N` matches the default-name pattern and parses back to N |
| VariantNames.TallyIsLargestDefaultNumber | src/features/settings/variants/add-variant.tsx:10-21 | after the loop `hasMatch` says whether some name matches, and `maxNumber` is the largest matched number (0 when none) |
| VariantNames.NextNameCountsVariants | src/features/settings/variants/add-variant.tsx:23 | with no matching name the result is `Variant {count+1}` |
| VariantNames.NextNameFollowsLargest | src/features/settings/variants/add-variant.tsx:10-23 | otherwise the result is `Variant {max+1}` |
| VariantNames.NextNameIsDefault | src/features/settings/variants/add-variant.tsx:23 | the result matches the pattern with a number of at least 1 |
| VariantNames.NextNameIsFresh | src/features/settings/variants/add-variant.tsx:10-23 | the result differs from every existing name |
| VariantNames.NonDefaultNameIsIgnored | src/features/settings/variants/add-variant.tsx:8-14 | inserting a name that does not match the pattern anywhere leaves the result unchanged, once some name matches |
| VariantNames.Names | src/features/settings/variants/add-variant.tsx:12-13 | the variants' names in list order |
| VariantNames.GetNextVariantName | src/features/settings/variants/add-variant.tsx:7-24 | the loop returns exactly the name specified by the tally |
| VariantNames.NewVariant | src/features/settings/variants/add-variant.tsx:30-37 | the added variant has the time-based id, the default settings, and a fresh default-form name |
| StoreUtils.FirstType | src/store/utils/index.ts:8 | `items[0]?.type` is defined exactly when the list is non-empty and its first item has a type |
| StoreUtils.SwitchedTypeNeedsBothLists | src/store/utils/index.ts:8 | falsy whenever either list is empty |
| StoreUtils.SwitchedTypeMeansDifferentKinds | src/store/utils/index.ts:8 | truthy exactly when both first items have a non-empty type and the types differ |
| StoreUtils.SwitchedTypeReadsFirstItems | src/store/utils/index.ts:8 | only the first item of each list matters |
| StoreUtils.SwitchedTypeSymmetric | src/store/utils/index.ts:8 | the answer is symmetric, and a list never switches type against itself |
| StoreUtils.At | src/store/utils/index.ts:19 | `variants[index]` is defined exactly when the index is in range |
| StoreUtils.IndexOfId | src/store/utils/index.ts:13 | the first position with the id, or -1 exactly when none has it |
| StoreUtils.GetVariantsWithIdCheckAsWritten | src/store/utils/index.ts:11-20 | as written it never throws: it returns the copied list, the `findIndex` result and the element there |
| StoreUtils.MissingIdIsNotReported | src/store/utils/index.ts:15-17 | a missing id gives index -1 and an undefined variant as written, and the not-found error as intended |
| StoreUtils.GetVariantsWithIdCheck | src/store/utils/index.ts:11-20 | as intended: an error exactly when no variant has the id; otherwise the copy, the first matching index and its variant |
| StoreUtils.LookupAgreesWhenFound | src/store/utils/index.ts:11-20 | both versions agree when the id is present |

## Left out

- Image I/O is not modelled: decoding, the pica resize and `toBlob`, canvas drawing, `new File` and `URL.createObjectURL`. They are opaque functions of an `Engine` record. That two object URLs are distinct is not modelled.
- Asynchrony and concurrency are not modelled. Each store read in `generateOutputImage` is an independent snapshot in `Observations`: the output list before and after processing, the variant list before and after, and the input list. No interleaving of concurrent calls is modelled.
- `Log` calls and the `process-image` module re-exported by `src/store/utils/index.ts` are not part of this model.
- Helpers imported from files that are not part of this model are parameters, with no assumption beyond their types. These are:
  - in `Platform`: `getFileExtension`, `getFileNameWithoutExtension`, `filenameToJpg`, `isJpg`, `THUMBNAIL_SIZE`, `DEFAULT_CROP_SETTINGS`;
  - in `Limits`: the `SHARPEN_*` bounds, `isValidAspectRatio`, and the way a number is printed in a message;
  - passed directly: `getDefaultVariantSettings`.
- VariantValidation.HasDuplicateIds: `hasDuplicate(variants, 'id')` is not part of this model; it is taken to mean that two variants share an id.
- VariantValidation.ValidateJsonVariantsAsWritten: `JSON.parse` is not modelled; the function starts from the parsed value, or `None` when parsing throws. The same holds for `ValidateJsonVariants`, the corrected version, which tests each element with the corrected `isVariant` (see Findings).
- VariantValidation.ValidateVariants: it requires the field types its TypeScript signature promises (string id and name, string filter, numeric quality and sharpening). `ImportedVariantsAreShaped` shows that every variant `isVariant` accepts has them.
- VariantNames.DefaultNumber: `parseInt` is exact here; JavaScript loses precision above 2^53.
- VariantNames.NewVariant: `Date.now()` is a parameter. `api.add` belongs to the variants store, which is not part of this model.
- VariantNames.NewVariant: the default settings are a `VariantSettings` value, which has no `id` or `name`. The model thus assumes `getDefaultVariantSettings()` returns neither. If it did, the spread at add-variant.tsx:36 would override the generated id and name.
- Filenames.ReplacementForKeyword: the `PatternKeyword` values are taken to be `filename`, `index`, `width` and `height`. The enum that defines them is not part of this model.
- OutputImages.OutputRegistry.Admit: the store's `add` is not part of this model. `Admit` assumes it checks the id once more before adding, and `GeneratedImageIsAdmitted` shows that check passes for a freshly generated image.
- Geometry.CropSize: it requires a positive output width and height, and `ImageSize` has positive sides. Zero sizes, where JavaScript divides into `Infinity` or `NaN`, are not modelled.
- Geometry.CropPlacement: the same positive-size requirement as `CropSize`.
- Geometry.CalculateOutputDimensions: the image's sides are positive (`ImageSize`); a zero-size image, where JavaScript divides by zero, is not modelled.
- StoreUtils.SwitchedType: it gives the truthiness of the `&&` chain, not the value the chain returns.
- Rounding of JavaScript numbers is not modelled; sizes are exact reals. Only `Math.ceil` in `resizeImage` is modelled.
- OutputImages.RelativeCrop: a `minZoom` of 0 divides by zero in JavaScript (giving `Infinity` or `NaN`). The model keeps the zoom unchanged in that case.
- Geometry.Lerp: `lerp` is not part of this model; it is taken to be linear interpolation.
- The aspect-ratio fields passed to `calculateOuputDimensions` are not read by it, so the model omits them.
- The zip export and the UI components are not part of this model.
- The pattern help text in `filename.tsx` shows `img_{index, 3}`. With the space that is not a token and is left verbatim. The model follows the code (`SpacedIndexIsVerbatim`).

## Findings

| source | as written | input that shows it | evidently intended | confidence | as-written member | corrected member |
|---|---|---|---|---|---|---|
| src/features/settings/variants/utils.ts:51 | the `height` clause of `isVariant` tests `typeof obj.width` | `{id, name, width: {}, height: 5}` is accepted; `{id, name, height: {}}` is rejected | `height` absent or an object, like `width` | high, not executed | VariantValidation.AsWrittenAcceptsNumericHeight | VariantValidation.IsVariantTreatsSidesAlike |
| src/lib/utils.ts:37 | a missing width is derived from the image's own height, not the requested one | a 200 x 100 image resized to height 50 with no width gets width 200 | width from the requested height through the aspect ratio (100) | medium, not executed | Geometry.ResizeAsWrittenIgnoresRequestedHeight | Geometry.ResizeDimensions |
| src/store/utils/index.ts:15 | the guard compares the `findIndex` result with `undefined`, which a number never equals | an id no variant has gives index -1 and an undefined variant, with no error | throw `Variant with id "…" not found.` when the index is -1 | high, not executed | StoreUtils.MissingIdIsNotReported | StoreUtils.GetVariantsWithIdCheck |
