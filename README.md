# TarasaBooth photobooth core in Dafny

TarasaBooth is a web photobooth. A Next.js client walks the guest through several pages:

- choose a layout template, a frame and a background;
- take photos on a webcam preview that can replace a green screen;
- pick the best shots;
- send them to an Express server.

The server composes a photo strip with `sharp`, saves it, and answers with its URL, which is also encoded as a QR code.

This project models the core of that flow and proves properties of the model:

| Dafny module | models |
|---|---|
| `Common` | shared arithmetic, hexadecimal and decimal digits, ASCII case, string split and join |
| `ChromaKey` | `client/components/CameraView.js`, the per-frame pixel loop: green classification, background sampling, the `#rrggbb` colour parser and the horizontal mirror |
| `CameraView` | `CameraView.js`, the component: state, the capture latch and the animation-frame step, with the canvas as an `array` |
| `Templates` | `server/config/templates.js`, the two templates, lookup with fallback, the photo-count validator, the summary list and the aspect-ratio parser |
| `Compose` | `server/controllers/processController.js`, the `POST /api/process` handler, over a symbolic image algebra that stands for `sharp` |
| `Assets` | `server/routes/assets.js`, the `/frames`, `/backgrounds` and `/templates` listings: extension filter, ids, display names, random colours and the failure bodies |
| `Selection` | `client/pages/select.js`, the selection page: toggle with a cap, badges, auto-selection, the exact-count gate and the in-place sort before sending |
| `CaptureSession` | `client/pages/capture.js`, the capture page: steps, the photo counter, and the take button that pulses the camera's latch |

Effects outside the program are parameters of the model:

- The server's world is one `Compose.Env` value: the clock, a `Compose.Files` value (the decodable payloads, the files under `public/` and the frame PNGs), and whether the save and the QR encoder succeed.
- The random draws behind background colours are a parameter, `draws`.
- A directory listing is `Option<seq<FileName>>`, where `None` stands for a throwing `readdirSync`.
- What the page reads from session storage is passed to `Selection.SelectPage.Mount` as arguments.

## Model

| member | source | states |
|---|---|---|
| Common.ParseHexOfToLowerHex | server/routes/assets.js:79 | reading back the lower-case hexadecimal text of `n.toString(16)` gives `n` |
| Common.ToLowerHex | server/routes/assets.js:79 | `n.toString(16)`: lower-case hexadecimal digits without leading zeros, at least one of them |
| Common.ToLowerHexLength | server/routes/assets.js:79 | the hexadecimal text of `n` has at most `k` digits exactly when `n < 16^k` |
| Common.ParseDecimalOfToDecimal | server/controllers/processController.js:62 | the decimal text of a timestamp reads back as the timestamp |
| Common.ToDecimalInjective | server/controllers/processController.js:62 | different numbers have different decimal texts |
| Common.Filter | server/routes/assets.js:20-23 | `Array.filter` never lengthens the list |
| Common.FilterMembers | server/routes/assets.js:20-23 | `Array.filter` keeps exactly the elements that pass the test |
| Common.FilterAppend | server/routes/assets.js:20-23 | `Array.filter` of a concatenation is the concatenation of the filtered parts, so order is kept |
| Common.Split | server/routes/assets.js:29 | `split(' ')` yields at least one part and no part contains the separator |
| Common.JoinSplit | server/routes/assets.js:29-31 | joining the parts of a split with the same separator gives back the string |
| Common.SplitJoin | server/routes/assets.js:29-31 | splitting a join of separator-free parts gives back the parts |
| Common.SplitWithoutSeparator | server/config/templates.js:137 | a string without the separator splits into itself alone |
| Common.SplitAtSeparator | server/config/templates.js:137 | `a + ":" + b` with `a` free of ':' splits into `a` followed by the parts of `b` |
| ChromaKey.KeyedScaledByTen | client/components/CameraView.js:143-152 | the green test with its fractional threshold and tolerance agrees with the same test on integers scaled by ten |
| ChromaKey.IsKeyed | client/components/CameraView.js:175-179 | the `isGreen` test: green above the threshold and above red and blue by more than the tolerance; the red and blue thresholds take no part |
| ChromaKey.PureGreenKeyedAtZero | client/components/CameraView.js:175-179 | pure green is keyed at intensity 0 and pure red is not |
| ChromaKey.ParametersMoveApart | client/components/CameraView.js:143-144 | raising the slider lowers the brightness threshold and raises the tolerance |
| ChromaKey.KeyingNotMonotone | client/components/CameraView.js:143-152 | some pixel is keyed at 0 but not at 100, and another is keyed at 100 but not at 0, so no single direction of the slider keys more |
| ChromaKey.HexToRgb | client/components/CameraView.js:200-207 | six hex digits, with or without a leading '#', decode pairwise; any other text gives white |
| ChromaKey.DecodeSix | client/components/CameraView.js:200-207 | the three captured pairs of `hexToRgb`, each read as a base-16 byte |
| ChromaKey.ChannelHex | client/components/CameraView.js:200-207 | a byte's two-digit hex text decodes back to the byte |
| ChromaKey.FormatHexColour | client/components/CameraView.js:200-207 | a colour is written as '#' and six digits |
| ChromaKey.HexToRgbRoundTrip | client/components/CameraView.js:200-207 | parsing a formatted colour, with or without '#', gives the colour back |
| ChromaKey.HexToRgbCaseInsensitive | client/components/CameraView.js:201 | the `/i` parser gives the same colour for upper- and lower-case digits |
| ChromaKey.BgIndex | client/components/CameraView.js:184-190 | the background offset is a pixel boundary |
| ChromaKey.BgPixel | client/components/CameraView.js:184-190 | the sampled background pixel: column floor(x·bgW/W) of row floor(y·bgH/H), scaled exactly |
| ChromaKey.SampleBelow | client/components/CameraView.js:184-190 | scaling a frame coordinate to the background and flooring lands on one of the background's pixels |
| ChromaKey.BgIndexInRange | client/components/CameraView.js:184-192 | for a non-empty background of the declared size, the scaled index is never negative and its four bytes lie inside the data, so both bounds checks pass and the guard never skips a pixel |
| ChromaKey.PixelOut | client/components/CameraView.js:170-214 | one pixel's output has four bytes |
| ChromaKey.KeyedFrame | client/components/CameraView.js:169-216 | the keyed frame has the input's length |
| ChromaKey.KeyedFramePixel | client/components/CameraView.js:169-216 | pixel `p` of the keyed frame is the per-pixel rule applied to pixel `p` of the input, so pixels do not interact |
| ChromaKey.UnkeyedPixelKept | client/components/CameraView.js:175-181 | a pixel that is not green passes through unchanged |
| ChromaKey.NoBackgroundKeepsFrame | client/components/CameraView.js:181-215 | with no image and no colour, the frame is left exactly as drawn |
| ChromaKey.KeyedPixelTakesBackground | client/components/CameraView.js:182-197 | a green pixel takes the RGB of the scaled background pixel and alpha 255 |
| ChromaKey.KeyedPixelTakesColour | client/components/CameraView.js:198-214 | without an image, a green pixel takes the parsed colour and alpha 255 |
| ChromaKey.ApplyChromaKey | client/components/CameraView.js:169-216 | the in-place loop over the pixel array leaves exactly the keyed frame of the pixels it started with |
| ChromaKey.KeyedStep | client/components/CameraView.js:169-216 | keying the pixel at the loop's offset extends the keyed prefix by four bytes and leaves the rest as drawn |
| ChromaKey.KeyedUpToEnd | client/components/CameraView.js:169-216 | once the loop has passed the last pixel, the buffer is the keyed frame |
| ChromaKey.PixelBytesKeyed | client/components/CameraView.js:170-214 | the four bytes of one pixel in the keyed frame are that pixel's own output, so each step only needs its own pixel |
| ChromaKey.KeyPixel | client/components/CameraView.js:170-214 | one step of the loop stays inside the array and rewrites its own four bytes by the per-pixel rule, and no others |
| ChromaKey.MirrorOffset | client/components/CameraView.js:122-127 | the mirrored offset stays inside the frame |
| ChromaKey.Mirror | client/components/CameraView.js:122-127 | the mirrored frame has the frame's length |
| ChromaKey.MirrorOffsetInvolution | client/components/CameraView.js:122-127 | mirroring an offset twice gives the offset |
| ChromaKey.MirrorTwice | client/components/CameraView.js:122-127 | mirroring a frame twice gives the frame |
| CameraView.DisplayedFrame | client/components/CameraView.js:122-219 | what the canvas holds after one animation frame has the video frame's length |
| CameraView.UnkeyedDisplayUnmirrors | client/components/CameraView.js:122-136 | with keying off, the canvas is exactly the mirrored video frame |
| CameraView.LatchStep | client/components/CameraView.js:72-92 | the effect fires exactly on `isCapturing` while the latch is clear, and the latch then equals `isCapturing` |
| CameraView.CapturesAreRisingEdges | client/components/CameraView.js:72-92 | over any run of renders, the number of captures is the number of false-to-true edges of `isCapturing` |
| CameraView.Captures | client/components/CameraView.js:72-92 | the number of stills the capture effect hands out over a run of renders, from a given latch |
| CameraView.HeldSignalCapturesOnce | client/components/CameraView.js:72-92 | holding `isCapturing` true over many renders captures once |
| CameraView.HeldAfterLatchCapturesNothing | client/components/CameraView.js:72-92 | with the latch already set, a held signal captures nothing |
| CameraView.Presses | client/components/CameraView.js:72-92 | n presses are 2n signal values |
| CameraView.PressesCaptureOncePerPress | client/components/CameraView.js:72-92 | n true/false pulses capture exactly n photos |
| CameraView.CapturesAtMostTrueRuns | client/components/CameraView.js:72-92 | captures never exceed the number of runs of true signals |
| CameraView.Camera.constructor | client/components/CameraView.js:12-18 | latch clear, keying off, intensity 50, no background image, and a 300 × 150 zeroed canvas |
| CameraView.Camera.SetBackgroundImage | client/components/CameraView.js:57-64 | the image is the loaded one, or none when loading failed |
| CameraView.Camera.ToggleChromaKey | client/components/CameraView.js:358 | the toggle button flips keying |
| CameraView.Camera.SetIntensity | client/components/CameraView.js:389-395 | the slider sets the intensity |
| CameraView.Camera.Tick | client/components/CameraView.js:97-222 | with no ready frame nothing changes; otherwise the canvas takes the frame's size and holds `DisplayedFrame` of it, and nothing else changes |
| CameraView.Camera.OnCaptureSignal | client/components/CameraView.js:72-92 | the latch follows `LatchStep`, and a capture, when it fires, is the JPEG data URL of the canvas as it stands |
| CameraView.DrawMirrored | client/components/CameraView.js:122-127 | the loop that draws the frame flipped leaves exactly `Mirror` of it |
| Templates.TemplateIdsAreTheKeys | server/config/templates.js:6-97 | the key list has exactly the registry's keys, each once |
| Templates.RegistryWellFormed | server/config/templates.js:8-96 | both templates keep one slot per selected photo and select no more than they capture; slots lie inside the strip and are pairwise disjoint; the frame is the strip's size |
| Templates.GetTemplate | server/config/templates.js:106-108 | whatever the id, the template returned is one of the two registry templates |
| Templates.GetTemplateWellFormed | server/config/templates.js:106-108 | whatever the id, the template returned has one slot per selected photo, every slot inside the strip, no two slots overlapping, no more selected than captured, and a frame sized like the strip |
| Templates.GetTemplateFallsBack | server/config/templates.js:106-108 | a known id gives its template, and any other id gives `classic-2x3` |
| Templates.ValidateAgainstSelectCount | server/config/templates.js:127-130 | enough photos means at least 1 for `horizontal-single` and at least 6 for every other id |
| Templates.ValidatePhotosForTemplate | server/config/templates.js:127-130 | `validatePhotosForTemplate`: the photo count is at least the resolved template's `selectCount` |
| Templates.GetAllTemplates | server/config/templates.js:113-122 | one summary per key |
| Templates.Summarize | server/config/templates.js:114-121 | one summary: the key with the name, description, capture and select counts and frame size, and no layout |
| Templates.SummariesAgreeWithLookup | server/config/templates.js:113-122 | each summary carries its key and the fields `getTemplate` gives for that key, and every key appears |
| Templates.AspectRatioOfDecimalPair | server/config/templates.js:135-139 | "w:h" written in decimal parses to w / h |
| Templates.GetAspectRatioValue | server/config/templates.js:135-140 | `getAspectRatioValue`: 1 for a missing or empty ratio, otherwise the first two `:`-parts read as numbers and divided, exactly |
| Templates.MissingAspectRatioIsOne | server/config/templates.js:136 | a missing or empty ratio is 1 |
| Templates.ClassicSlotsMatchDeclaredRatio | server/config/templates.js:44-88 | every `classic-2x3` slot has exactly its declared 4:3 proportions |
| Templates.HorizontalSlotDiffersFromLabel | server/config/templates.js:16-22 | the `horizontal-single` slot label parses to 16/9, but the slot is 1700 × 1100 |
| Compose.Layered | server/controllers/processController.js:109-111 | compositing keeps the base's size and bottom and stacks the layers on top in order |
| Compose.Decode | server/controllers/processController.js:87 | a decoded input is the source it came from |
| Compose.SliceTo | server/controllers/processController.js:40 | `slice(0, undefined)` keeps every item; a count keeps that many or all |
| Compose.WordRun | server/controllers/processController.js:42 | the `\w+` run is maximal: word characters up to the first non-word character |
| Compose.StripDataUrlPrefix | server/controllers/processController.js:42 | the result is a suffix of the input, and text without the `data:image/` head passes through unchanged |
| Compose.WordRunOfWord | server/controllers/processController.js:42 | a word followed by a non-word character is matched exactly |
| Compose.StripsDataUrlHeader | server/controllers/processController.js:42 | `data:image/<subtype>;base64,<payload>` strips to the payload |
| Compose.Payloads | server/controllers/processController.js:40-48 | every item a string means a payload per item, each stripped; any non-string item throws |
| Compose.Placement | server/controllers/processController.js:87-98 | each photo is resized to its slot and placed at the slot's corner |
| Compose.PhotoPlan | server/controllers/processController.js:80-105 | a plan exists exactly when every slot's photo exists and decodes, and it has one layer per slot |
| Compose.BuildPlan | server/controllers/processController.js:80-105 | the loop that pushes the composite entries returns the plan, or nothing where a photo fails |
| Compose.LogoLayers | server/controllers/processController.js:118-155 | at most one logo layer, and only with a `logoPosition` and a truthy logo |
| Compose.LogoBuffer | server/controllers/processController.js:120-132 | the logo buffer comes from the data URL when the logo starts `data:image`, otherwise from the file under `public/` when it exists, otherwise there is none |
| Compose.FrameLayers | server/controllers/processController.js:160-182 | at most one frame layer, and only for a truthy frame, a frame-capable template and an existing frame file |
| Compose.UrlIsHostPlusPath | server/controllers/processController.js:196-219 | the URL is the host plus the relative path; the path starts `/static/outputs/photostrip-` and the name ends `.jpg` |
| Compose.DistinctTimestampsDistinctFiles | server/controllers/processController.js:55-62 | different timestamps give different file names |
| Compose.FilenameCarriesTimestamp | server/controllers/processController.js:62 | the file name is the timestamp's decimal text between the fixed 11-character head and `.jpg` |
| Compose.OutputFilename | server/controllers/processController.js:62 | `photostrip-<timestamp>.jpg`, the timestamp in decimal |
| Compose.PhotostripUrl | server/controllers/processController.js:196 | the host `http://localhost:3001` followed by `/static/outputs/` and the file name |
| Compose.ProcessPhotos | server/controllers/processController.js:10-239 | the handler answers `Process(req, env)` |
| Compose.Process | server/controllers/processController.js:10-239 | the handler's answer: the template resolved from the requested id, then `ProcessFor` |
| Compose.ProcessFor | server/controllers/processController.js:21-239 | 400 for a non-array; 500 when the count guard fires, an item is not a string, a slot's photo is missing or undecodable, or the save fails; otherwise the success record with at most a QR code |
| Compose.ProcessWithTemplate | server/controllers/processController.js:40-227 | the step-by-step body answers the response the specification function gives |
| Compose.BadRequestOnlyForNonArray | server/controllers/processController.js:21-31 | the 400 answer comes exactly when `photos` is not an array, with its fixed message; the count guard never fires, because no template has `photoCount` |
| Compose.RejectsCount | server/controllers/processController.js:27 | `photos.length < template.photoCount`, false whenever `photoCount` is undefined |
| Compose.PlanFitsCanvas | server/controllers/processController.js:68-98 | for a well-formed template, every placed photo lies inside the white canvas |
| Compose.SucceedsExactlyWhen | server/controllers/processController.js:14-238 | success comes exactly when photos is an array of strings with a decodable payload for every slot and the save succeeds |
| Compose.TooFewPhotosIsServerError | server/controllers/processController.js:82-104 | fewer photos than slots is answered with a 500, not a 400 |
| Compose.SuccessLayering | server/controllers/processController.js:68-189 | the saved strip is the template's size over a white canvas, with the photos in slot order, then at most the logo, then at most the frame |
| Compose.LogoNeverApplied | server/controllers/processController.js:118 | no template has a `logoPosition`, so the logo is never composited |
| Compose.FrameAppliedExactlyWhen | server/controllers/processController.js:160-165 | the frame is overlaid exactly for a truthy frame name whose `<frame>.png` exists |
| Compose.SuccessRecord | server/controllers/processController.js:196-227 | the success body carries the path, the URL, the QR of the URL, the timestamp, and the requested id with the resolved name |
| Compose.UnknownIdEchoedWithFallbackName | server/controllers/processController.js:223-226 | an unknown id is echoed back with the name `Classic 2x3`, and the strip is 1200 × 1800 |
| Compose.QrFailureOnlyDropsCode | server/controllers/processController.js:198-212 | a failing QR encoder only turns `qrCode` into null |
| Assets.LastDot | server/routes/assets.js:21 | the position of the last '.', or none |
| Assets.ExtName | server/routes/assets.js:21 | the extension is empty or a dot-led suffix shorter than the name |
| Assets.Stem | server/routes/assets.js:26 | the base name followed by the extension is the file name |
| Assets.Id | server/routes/assets.js:34 | the id is a prefix; where it differs, what was cut is a '.' and at least one non-dot character to the end |
| Assets.IdIsStemWhenListed | server/routes/assets.js:20-34 | for a listed image file, the regex id equals `path.basename(file, ext)` |
| Assets.ImageFilesFilter | server/routes/assets.js:20-23 | the listing keeps exactly the files whose lower-cased extension is `.png`, `.jpg` or `.jpeg`, and filtering a concatenation concatenates the filtered parts, so directory order is kept |
| Assets.IsImageFile | server/routes/assets.js:20-23 | the filter's test: the lower-cased `path.extname` is `.png`, `.jpg` or `.jpeg` |
| Assets.ImageFiles | server/routes/assets.js:20-23 | `files.filter(...)` with that test, in directory order |
| Assets.Spaced | server/routes/assets.js:27-28 | dashes and underscores become spaces and nothing else changes length |
| Assets.Capitalize | server/routes/assets.js:30 | a word keeps its length |
| Assets.CapitalizeAll | server/routes/assets.js:30 | every word is capitalised in place |
| Assets.CapitalizeKeepsAbsent | server/routes/assets.js:30 | capitalising adds no character that is not an upper-case letter |
| Assets.CapitalizeKeepsNoSpace | server/routes/assets.js:30 | capitalising adds no space |
| Assets.DisplayNameHasNoDashOrUnderscore | server/routes/assets.js:26-31 | a display name has no '-' and no '_' |
| Assets.DisplayNameLength | server/routes/assets.js:26-31 | a display name is as long as the base name |
| Assets.DisplayName | server/routes/assets.js:26-31 | the `name` of a listed file: its base name with `-` and `_` spaced and each word capitalised |
| Assets.TitleCase | server/routes/assets.js:29-31 | `split(' ').map(capitalize).join(' ')` |
| Assets.TitleCaseWords | server/routes/assets.js:29-31 | the words of the title-cased name are the capitalised words of the name |
| Assets.CapitalizeIdempotent | server/routes/assets.js:30 | capitalising twice is capitalising once |
| Assets.TitleCaseIdempotent | server/routes/assets.js:27-31 | title-casing twice is title-casing once |
| Assets.ColourOf | server/routes/assets.js:79 | a random colour is '#', then hex digits, at most six of them |
| Assets.ShortColourReadsAsWhite | server/routes/assets.js:79 | a draw below 0x100000 gives fewer than six digits, which the camera reads as white |
| Assets.ParseHexSix | server/routes/assets.js:79 | six hex digits read as one number are the three channel pairs |
| Assets.SixDigitColourDecodes | server/routes/assets.js:79 | a six-digit colour decodes in the camera to the draw's three bytes |
| Assets.Frames | server/routes/assets.js:10-47 | an unreadable directory fails, and otherwise there is one entry per image file |
| Assets.Backgrounds | server/routes/assets.js:52-90 | an unreadable directory fails, and otherwise there is one entry per image file, each with its own draw |
| Assets.TemplatesListing | server/routes/assets.js:95-104 | the templates route sends `getAllTemplates()` unchanged, two summaries |
| Assets.TemplatesListingDescribesRegistry | server/routes/assets.js:95-104 | what the templates route sends is one entry per registry key in key order, each agreeing with what `getTemplate` resolves for its id, and every registry id appears |
| Assets.ListingsAgree | server/routes/assets.js:20-81 | on one directory, frames and backgrounds list the same files in the same order; ids, names and URLs are derived alike, and each colour comes from its own draw |
| Selection.Remove | client/pages/select.js:55 | the filter drops exactly `index` |
| Selection.RemoveKeepsNoDup | client/pages/select.js:55 | removing from a duplicate-free list keeps it so, and removes one entry when present |
| Selection.RemoveAbsent | client/pages/select.js:55 | removing an absent index changes nothing |
| Selection.RemoveKeepsBound | client/pages/select.js:55 | removing keeps indices in range |
| Selection.DistinctBelowBound | client/pages/select.js:51-65 | a duplicate-free list of indices below n has at most n entries |
| Selection.ToggleRemoves | client/pages/select.js:53-55 | a selected photo is unselected, and nothing else changes membership |
| Selection.ToggleAdds | client/pages/select.js:57-62 | an unselected photo is appended, unless the cap is reached, in which case nothing changes |
| Selection.Toggle | client/pages/select.js:51-65 | the updater: a chosen index is removed, a new one appended unless the list is at `maxPhotos`, when it stays as it was |
| Selection.TogglePreserves | client/pages/select.js:51-65 | toggling keeps the list duplicate-free and in range; a list within the cap stays within it, and one at or over it never grows |
| Selection.ToggleTwice | client/pages/select.js:51-65 | selecting then unselecting a photo restores the list |
| Selection.RemoveAppended | client/pages/select.js:55-62 | removing what was just appended restores the list |
| Selection.Badge | client/pages/select.js:213-214 | the badge is 0 exactly for an unselected photo, and otherwise names its first position |
| Selection.BadgeIsPosition | client/pages/select.js:213-214 | in a duplicate-free list, the badge of the k-th choice is k + 1 |
| Selection.SelectCountOrDefault | client/pages/select.js:36 | `selectCount || 6` is positive |
| Selection.FirstIndices | client/pages/select.js:40 | auto-selection is 0, 1, …, n-1 |
| Selection.FirstIndicesWellFormed | client/pages/select.js:39-41 | the auto-selection is duplicate-free, sorted and in range |
| Selection.GateOpen | client/pages/select.js:71-74 | the process gate: exactly `requiredPhotos` chosen |
| Selection.HorizontalSingleGateNeverOpensAsWritten | client/pages/select.js:71-74 | with `requiredPhotos` left at 6, no valid selection among the 5 photos of `horizontal-single` passes the gate |
| Selection.AutoSelectOpensCorrectedGate | client/pages/select.js:36-43 | with the count taken from the template, the auto-selection passes the gate, including for `horizontal-single` |
| Selection.Pick | client/pages/select.js:79-81 | the photos sent are the chosen indices' photos, in list order |
| Selection.SortedPermutationsEqual | client/pages/select.js:80 | two sorted arrangements of the same indices are equal |
| Selection.SentPhotosIgnoreClickOrder | client/pages/select.js:79-81 | after sorting, the photos sent depend only on which photos are chosen, not on click order |
| Selection.SortAscending | client/pages/select.js:80 | the in-place sort leaves the array ascending and a permutation of its contents |
| Selection.SelectPage.constructor | client/pages/select.js:7-14 | no photos, nothing chosen, not processing, and both counts 6 |
| Selection.SelectPage.Mount | client/pages/select.js:19-46 | both counts keep their values (6 from the constructor); with no stored data nothing else changes; otherwise the photos are loaded and the first `selectCount || 6` are pre-selected when there are enough |
| Selection.SelectPage.MountCorrected | client/pages/select.js:12-14 | the corrected mount: as `Mount`, and with stored data both counts become the template's `selectCount || 6` |
| Selection.SelectPage.TogglePhotoSelection | client/pages/select.js:51-65 | the selection becomes `Toggle` of the previous one under the page's `maxPhotos`, stays duplicate-free and in range, and stays within the cap when it was |
| Selection.SelectPage.ProcessPhotos | client/pages/select.js:70-81 | a wrong count changes nothing and sends nothing; otherwise the page is processing, the selection is sorted in place as a permutation, and the chosen photos are sent in index order |
| Selection.SortedKeepsInvariant | client/pages/select.js:80 | a rearranged selection is still duplicate-free and in range |
| Selection.NoDupCountsOne | client/pages/select.js:51-65 | a duplicate-free list holds each index at most once |
| Selection.HorizontalSingleSessionNeverSends | client/pages/select.js:13-14 | with the page as written, a `horizontal-single` session of five photos sends nothing, after the mount and any clicks |
| Selection.HorizontalSingleSessionSendsCorrected | client/pages/select.js:36-43 | with the corrected mount, the same session sends its first photo |
| CaptureSession.TotalPhotos | client/pages/capture.js:25 | `captureCount || 8`: a positive template count, otherwise 8 |
| CaptureSession.Take | client/pages/capture.js:89-113 | at the limit nothing happens; otherwise one more photo, the pulse is back down, and the step is reviewing exactly once the limit is reached |
| CaptureSession.TakeAll | client/pages/capture.js:89-113 | the session after one press of the take button per shot, in order |
| CaptureSession.PressesFromStart | client/pages/capture.js:76-121 | from a fresh session, n presses keep the first min(n, total) shots in order, and review comes exactly when n reaches the total |
| CaptureSession.PressesFrom | client/pages/capture.js:89-121 | the same from any consistent state |
| CaptureSession.CountNeverPassesTotal | client/pages/capture.js:89-113 | however often the button is pressed, the counter stays within the total and matches the photos kept |
| CaptureSession.CapturePage.constructor | client/pages/capture.js:14-25 | a ready page with no photos and the template's total |
| CaptureSession.CapturePage.StartPhotoSession | client/pages/capture.js:76-84 | capturing, with the counter and the photos cleared |
| CaptureSession.CapturePage.HandlePhotoCapture | client/pages/capture.js:118-121 | the still is appended |
| CaptureSession.CapturePage.TakePhotoManually | client/pages/capture.js:89-113 | the page moves by `Take` with the camera's canvas as the shot, because the latch fires once per press and is clear again afterwards |
| CaptureSession.CapturePage.ReviewNow | client/pages/capture.js:345-347 | at the total, the finish button only moves to review |
| CaptureSession.CapturePage.RetakePhotos | client/pages/capture.js:135-142 | back to the ready step with nothing taken |

The `/templates` route is `Assets.TemplatesListing`, which is `Templates.GetAllTemplates` wrapped as a listing.
The source's `throw` inside `photos.slice(...).map(...)` and the later `catch` are the `ServerError` answer of `Compose.Process`.

## Left out

- File system, HTTP and routing: `fs.existsSync`, `mkdirSync`, `readdirSync` and `express` are modelled only by what they return, through `Files` and `Option`. `path.join` normalisation is not modelled, and directory entries are assumed to be plain names without `/`.
- `Date.now()` is the parameter `Env.timestamp`, and `Math.random()` is the parameter `draws`. The model covers draws below 16777215 (the floor's range) and takes no view on their distribution.
- `sharp` and `QRCode` are symbolic. An image is a term that records its size, its fit mode and its layers. Pixel resampling for `cover`, `contain` and `fill`, JPEG quality and encoding, and the QR bitmap are not modelled.
- Floating point: `0.4·intensity`, `0.5·intensity` and the green test are exact reals, which is exact for byte inputs and integer slider values. `x·(bgW/W)` is modelled as `⌊x·bgW/W⌋` in integers, ignoring the last-bit rounding of the double quotient. `w/h` of an aspect ratio is an exact real, with `NonFinite` for NaN and Infinity.
- `Templates.GetAspectRatioValue`: `Number()` is modelled only for strings of decimal digits (the empty string is 0). Any other part, such as "1.5", " 4" or "1e3", is treated as NaN.
- `toUpperCase` and `toLowerCase` are modelled for ASCII letters only.
- Webcam, device enumeration, `requestAnimationFrame` scheduling, `isReady`, and canvas `toDataURL` encoding are not modelled. A captured photo is the canvas bytes and size.
- Timers: the 300 ms and 1000 ms `setTimeout`s in `takePhotoManually` are folded into one atomic step. `cleanupTimers` clears no timers in this model, and the unmount cleanup and the countdown state are not modelled.
- Other page code outside the model:
  - `sessionStorage`;
  - the redirects and `alert` messages;
  - `fetch` to the server;
  - the result page's fallback;
  - `goToSelection`.
- `Selection.SelectPage.Mount`: modelled as the effect's first run on a page that has chosen nothing yet. React re-running the effect when `router` changes is not modelled.
- `CameraView.Camera.SetBackgroundImage`: a loaded background of width or height 0 makes `getImageData` throw during the render, which ends the render loop. The model instead keeps every pixel of such a frame. The listing only serves png/jpg/jpeg files, so this case is not expected in practice.
- `Selection.SelectPage.ProcessPhotos`: the sort works on an array copy of the `selected` sequence, and the sorted copy is written back. This matches `Array.prototype.sort`'s in-place effect on the state array, but the model uses insertion sort rather than the engine's algorithm. The request after the gate is not modelled.
- `Compose.Process`: the `details: error.message` field of the 500 body is not modelled. The `background` field of the request is only logged, so it is not modelled. Logo files read from `public/` are modelled through `Files.publicFiles`.
- `Templates.GetTemplate`: JavaScript's inherited properties (`templates["toString"]`) are not modelled. Such ids are treated like any unknown id.
- The `CameraView` props `background.url` and the `onload`/`onerror` callbacks are collapsed into `Camera.SetBackgroundImage(Option<BgImage>)`.
- The slider evidently means "more intensity keys more green". The code lowers the brightness bar while widening the tolerance, so keying is not monotone in the slider in either direction. The model follows the code (`ChromaKey.KeyingNotMonotone`).

## Findings

| source | as written | input that shows it | evidently intended | confidence | as-written member | corrected member |
|---|---|---|---|---|---|---|
| client/pages/select.js:13-14,71-74 | `requiredPhotos` and `maxPhotos` start at 6 and their setters are never called, although the comment says they follow the template; the gate demands exactly 6 chosen photos | template `horizontal-single` (5 photos taken, 1 to select): at most 5 distinct photos can be chosen, so the process button never enables and the page cannot proceed | both counts taken from the template's `selectCount`, so the auto-selection of the first `selectCount` photos passes the gate | not executed | Selection.HorizontalSingleGateNeverOpensAsWritten | Selection.AutoSelectOpensCorrectedGate |

The page class itself follows the code as written: `Selection.SelectPage.Mount` leaves both counts at 6, and `Selection.HorizontalSingleSessionNeverSends` drives the page through a `horizontal-single` session that sends nothing. `Selection.SelectPage.MountCorrected` is the intended mount, and `Selection.HorizontalSingleSessionSendsCorrected` shows the same session sending its one photo.
