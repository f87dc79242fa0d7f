# Licence-plate reader: a verified model of its logic

The program is a browser page. It watches a camera and looks for a Brazilian
licence plate in each frame. When it finds one, it straightens and crops the
plate, passes it to an OCR engine, and turns the engine's text into a plate
code. This project models the logic of `main.js` that does not depend on the
camera, the image library or the OCR engine, and proves properties of it:

- **Plate-text normaliser** (`PlateText`, with worked inputs in
  `PlateTextExamples`). It trims the text and deletes `BRASIL`, `BR` and
  `MERCOSUL` case-insensitively, one left-to-right pass per word. It then keeps
  `[A-Z0-9]` and upper-cases what is left. Finally it cuts the text to seven
  characters when its prefix is a plate in the old (`AAA0000`) or new
  (`AAA0A00`) format.
- **Candidate scoring and selection** (`Candidates`). It scores every contour
  by aspect ratio and area, and keeps the first candidate with the highest
  score above the threshold. A zero-sided rectangle gives a JavaScript
  `Infinity` or `NaN` ratio, and both are modelled.
- **Corner ordering** (`Corners`). This is `sortRectPoints`. It sorts the
  corners stably by angle around their centre, then rotates the list so the
  first corner of least `x + y` comes first. The arc tangent is a parameter.
- **Rectification geometry** (`Rectify`). It computes the rectified plate
  size, the four destination corners and the rounded crop of the white centre.
- **Detection** (`Detection`). This chains selection, corner ordering and
  geometry, the way `detectLicensePlate` does.
- **Capture session** (`Session`). It models the `processingInterval` timer
  and the captured-frame and processing flags. It covers how a tick
  (`processImage`), reset, start and stop change them, and what the result
  line shows after OCR.

Shared types are in `Geometry` and `Wrappers`. All arithmetic is on exact
reals and unbounded integers.

The text `"XYZ99999Q"` normalises to `"XYZ9999"`: its seven-character prefix
`XYZ9999` is an old-format plate (`OldFormatPrefixIsCut`).

## Model

| member | source | states |
|---|---|---|
| PlateText.Trim | main.js:537 | `text.trim()`: drop white space and line terminators at both ends; characterised by `TrimStartSpec` and `TrimEndSpec` |
| PlateText.DeleteWords | main.js:534-543 | one global, case-insensitive delete pass per ignored word, in the order `BRASIL`, `BR`, `MERCOSUL`; characterised by `DeleteWordsIsDeletion`, and each pass by `DeleteAllFirstMatch` with `DeleteAllUnchangedIff` |
| PlateText.KeepPlateChars | main.js:546 | drop every character outside `[A-Z0-9]`; characterised by `KeepPlateCharsCounts` |
| PlateText.Clean | main.js:537-546 | trim, delete the ignored words, filter, upper-case; characterised by `CleanAlphabet`, `CleanIsDeletion` and `CleanOfPlateText` |
| PlateText.TrimStartSpec | main.js:537 | `trim` removes leading white space, and only that: the result is a suffix of the input that does not start with white space, and everything removed was white space |
| PlateText.TrimEndSpec | main.js:537 | the same for trailing white space: the result is a prefix with no white space at its end, and everything removed was white space |
| PlateText.TrimIsDeletion | main.js:537 | trimming only deletes characters |
| PlateText.DeleteAll | main.js:540-543 | a global replace of a word by the empty string never lengthens the text; `DeleteAllFirstMatch` and `DeleteAllUnchangedIff` together fix its result on every input |
| PlateText.DeleteAllFirstMatch | main.js:540-543 | at the first position where the word occurs in any letter case, the text before it is kept, that copy is deleted, and the pass goes on right after it; with `DeleteAllUnchangedIff` this means every leftmost non-overlapping copy goes |
| PlateText.DeleteAllIsDeletion | main.js:540-543 | a replace pass only deletes characters |
| PlateText.DeleteAllUnchangedIff | main.js:540-543 | a pass leaves the text unchanged exactly when the word does not occur in it, in any letter case |
| PlateText.DeleteAllShrinks | main.js:540-543 | when the word occurs, a pass removes at least one copy of it |
| PlateText.AbsentFirstLetter | main.js:540-543 | a word cannot occur in a text that lacks its first letter in either case |
| PlateText.DeleteLeadingWord | main.js:540-543 | a copy of the word at the front is removed, and the search resumes right after it |
| PlateText.DeleteWordsIsDeletion | main.js:534-543 | the three passes over the ignored words, in order, only delete characters |
| PlateText.KeepPlateCharsAlphabet | main.js:546 | the filter leaves only `[A-Z0-9]` characters |
| PlateText.KeepPlateCharsIsDeletion | main.js:546 | the filter only deletes characters |
| PlateText.KeepPlateCharsCounts | main.js:546 | the filter keeps every `[A-Z0-9]` character as often as it occurs and drops all others, lower-case letters included |
| PlateText.KeepPlateCharsOfPlateText | main.js:546 | text made only of `[A-Z0-9]` passes the filter unchanged |
| PlateText.UpperCase | main.js:546 | `toUpperCase`, ASCII letters only; characterised by `UpperCaseOfPlateChars` |
| PlateText.UpperCaseOfPlateChars | main.js:546 | `toUpperCase` after the filter changes nothing |
| PlateText.CleanAlphabet | main.js:537-546 | after trimming, word deletion, filtering and upper-casing, only `[A-Z0-9]` characters remain |
| PlateText.CleanIsDeletion | main.js:537-546 | the cleaned text is the raw text with characters deleted |
| PlateText.CleanOfPlateText | main.js:537-546 | `[A-Z0-9]` text in which no ignored word occurs is already clean |
| PlateText.Test | main.js:551-555 | the unanchored `RegExp.prototype.test`: the pattern fits at some position of the text; characterised by `TestOnShortText` and `TestOnSevenIsFullMatch` |
| PlateText.TestOnShortText | main.js:550-555 | the format search fails on text shorter than the pattern |
| PlateText.TestOnSevenIsFullMatch | main.js:549-556 | on a seven-character prefix, the unanchored test of either format succeeds exactly when the whole prefix is a plate code |
| PlateText.PlateCodeChars | main.js:550-555 | a plate code in either format is made of `[A-Z0-9]` characters, and its fourth character is a digit |
| PlateText.Normalise | main.js:533-562 | the output has only `[A-Z0-9]` characters and is a prefix of the cleaned text; it is the seven-character prefix when the cleaned text has at least seven characters and that prefix is a plate code, and otherwise the whole cleaned text, never padded |
| PlateText.NormaliseShape | main.js:549-561 | the output is a plate code or the whole cleaned text; when it differs from the cleaned text, it is a code cut from a longer text |
| PlateText.NormaliseIsDeletion | main.js:533-562 | the output is the raw OCR text with characters deleted |
| PlateText.NormaliseHasNoLowerCase | main.js:546 | no lower-case letter reaches the output, and every character of the output, upper-case letters included, occurs in the raw text at least as often, so lower-case letters are dropped rather than upper-cased (`"abc"` gives the empty text, not `"ABC"`) |
| PlateText.SubsequenceCounts | main.js:533-562 | deleting characters never adds a copy of any character, which is why every stage of the normaliser keeps each character's count or lowers it |
| PlateText.CodeAfterBrasil | main.js:533-562 | a plate code that contains no `BR` and follows the word `BRASIL` comes back as exactly the code |
| PlateTextExamples.CleanByPasses | main.js:537-546 | for text without white space at its ends, the cleaned text is the result of the three word passes followed by the filter |
| PlateTextExamples.NormaliseOfClean | main.js:549-561 | the truncation rule applied to a known cleaned text |
| PlateTextExamples.FirstIsNewFormat | main.js:550-555 | `ABC1D23` fits the new format and not the old one |
| PlateTextExamples.FirstHasNoBr | main.js:540-543 | `BR` does not occur in `ABC1D23` |
| PlateTextExamples.NewFormatAfterBrasil | main.js:533-562 | `"BRASILABC1D23"` gives `"ABC1D23"` |
| PlateTextExamples.SecondClean | main.js:537-546 | `"XYZ99999Q"` is already clean |
| PlateTextExamples.SecondPrefixIsOldFormat | main.js:550-555 | its prefix `XYZ9999` fits the old format and not the new one |
| PlateTextExamples.OldFormatPrefixIsCut | main.js:549-561 | `"XYZ99999Q"` gives `"XYZ9999"` |
| PlateTextExamples.ThirdTrim | main.js:537 | `"abc1d23"` has no white space to trim |
| PlateTextExamples.ThirdBrPass | main.js:540-543 | `BR` does not occur in `"abc1d23"` in any case |
| PlateTextExamples.ThirdFilter | main.js:546 | the filter keeps only `123` of `"abc1d23"` |
| PlateTextExamples.ThirdClean | main.js:537-546 | `"abc1d23"` cleans to `"123"` |
| PlateTextExamples.LowerCaseIsDropped | main.js:546-561 | `"abc1d23"` gives `"123"`: its lower-case letters are dropped, not upper-cased |
| PlateTextExamples.EveryCopyGoes | main.js:540-543 | one pass deletes both copies of `BR` from `XbrBR`, whatever their case, leaving `X` |
| PlateTextExamples.DeletionCanCreateWord | main.js:540-543 | deleting `BR` from `BBRR` creates a new `BR` that the same pass leaves in place |
| PlateTextExamples.FourthClean | main.js:537-546 | `"BBRR"` cleans to `"BR"` |
| PlateTextExamples.FifthClean | main.js:537-546 | `"BR"` cleans to the empty text |
| PlateTextExamples.NormaliseIsNotIdempotent | main.js:533-562 | normalising twice can differ from normalising once: `"BBRR"` gives `"BR"`, which gives `""` |
| Candidates.AspectRatio | main.js:147-152 | long side over short side, with JavaScript's `Infinity` and `NaN` for zero sides; characterised by `AspectRatioSpec` and `PlateProportionEitherWay` |
| Candidates.AspectScore | main.js:156-159 | one minus half the distance of the ratio from 3, floored at 0, with `NaN` propagated; characterised by `AspectScoreSpec` |
| Candidates.AreaScore | main.js:160 | the area over 10000, capped at 1; characterised by `AreaScoreSpec` |
| Candidates.Score | main.js:161 | 0.7 times the aspect score plus 0.3 times the area score; characterised by `ScoreSpec` |
| Candidates.AspectRatioSpec | main.js:147-152 | long side over short side as a JavaScript number: `NaN` exactly when both sides are 0, `Infinity` exactly when one side is 0, and otherwise a finite ratio at least 1 whose product with the short side is the long side |
| Candidates.AspectScoreSpec | main.js:156-159 | `NaN` gives no score; any other score lies in [0, 1]; it is 1 exactly at ratio 3; it is positive exactly for a finite ratio less than 2 away from 3; and a positive score `s` comes from a ratio whose distance from 3 is `2(1 - s)`, so ratio 3.5 scores 0.75 |
| Candidates.AreaScoreSpec | main.js:160 | the area score lies in [0, 1]; it is 1 exactly when the area is at least 10000, and below that it is the area over 10000 |
| Candidates.ScoreSpec | main.js:156-161 | the weighted score lies in [0, 1], and is missing (`NaN`) exactly when both sides are zero |
| Candidates.SelectPlate | main.js:129-168 | the scan returns nothing exactly when no contour has area at least 1000 and score above 0.5; otherwise it returns an eligible contour with the highest score, and the first such one |
| Candidates.SelectionStep | main.js:163-167 | one more contour replaces the current choice exactly when it is eligible and scores strictly higher, or nothing is chosen yet |
| Candidates.SelectionIsUnique | main.js:129-168 | at most one index fits the description of the choice |
| Candidates.TieGoesToFirst | main.js:163 | of two equal eligible contours, the first is chosen and the second is not |
| Candidates.DegenerateNeverEligible | main.js:147-163 | a rectangle with a zero side is never chosen |
| Candidates.EligibleAspectBand | main.js:156-163 | a chosen contour has a finite ratio strictly between 11/7 and 31/7 |
| Candidates.ExactProportionIsEligible | main.js:137-163 | a contour of area at least 1000 whose ratio is exactly 3, in either orientation, is eligible, with score 0.7 + 0.3 times its area score |
| Candidates.IdealPlateScoresOne | main.js:147-161 | ratio exactly 3, in either orientation, with area at least 10000 scores 1 |
| Candidates.PlateProportionEitherWay | main.js:147-152 | the ratio is exactly 3 exactly when one side is three times the other, whichever of width and height is the long one |
| Candidates.WideContourIsPassedOver | main.js:147-163 | a 500 by 100 rectangle around area 5000 scores 0.15 and is not chosen |
| Corners.Centroid | main.js:318-321 | the mean of the four corners; `CentroidPermutation` shows it does not depend on their order |
| Corners.SortByKey | main.js:324-328 | the stable sort by angle; characterised by `SortByKeySpec` and `StableSortUnique` |
| Corners.SumPermutation | main.js:318-321 | the coordinate sums do not depend on the order of the points |
| Corners.CentroidPermutation | main.js:318-321 | reordering the corners does not move the centre |
| Corners.InsertPermutes | main.js:324-328 | inserting into the sorted list adds exactly that one point |
| Corners.InsertSorted | main.js:324-328 | insertion keeps the list sorted by key |
| Corners.InsertWithKey | main.js:324-328 | the inserted point goes ahead of the other points with its key |
| Corners.SortByKeySpec | main.js:324-328 | the sort orders by key, is a permutation, and keeps the order of the points of each key (it is stable) |
| Corners.SortByKeySorted | main.js:324-328 | the sort orders by key |
| Corners.SortByKeyPermutes | main.js:324-328 | the sort is a permutation |
| Corners.SortByKeyStable | main.js:324-328 | the sort keeps the order of the points of each key |
| Corners.StableSortUnique | main.js:324-328 | two lists that are sorted and agree on the order of each key's points are equal, so every stable sort gives this order |
| Corners.SortOrderIndependent | main.js:324-328 | with distinct keys, the sorted order depends only on which points there are |
| Corners.AngleOrder | main.js:317-328 | the centre of the corners, then the stable sort by angle around it; characterised by `AngleOrderIndependent` and the `SortByKey` lemmas |
| Corners.AngleOrderIndependent | main.js:317-328 | with distinct angles, the corners sorted by angle do not depend on the input order |
| Corners.SortRectPoints | main.js:310-350 | the result is a permutation of the corners; its first corner has the least `x + y`; and it is the angle-sorted list rotated to the first corner of least `x + y` |
| Corners.FirstMinSumIndex | main.js:332-341 | the scan finds a corner of least `x + y`, and the first one, because a later corner must be strictly smaller to replace it |
| Corners.RotateLeft | main.js:344-347 | taking corners `(i + k) % 4` for `i = 0 .. 3` rotates the list left by `k` |
| Corners.RotatePermutes | main.js:344-347 | a rotation is a permutation |
| Corners.FirstMinSumUnique | main.js:332-341 | the first corner of least `x + y` is unique |
| Corners.CornerOrderIndependent | main.js:310-350 | with distinct angles, any two listings of the same corners, for example cyclic rotations of each other, give the same result |
| Geometry.Round | main.js:265-268 | `Math.round`: the result is the integer nearest its argument, a half going up, which fixes it uniquely |
| Rectify.RectifiedSize | main.js:195-205 | the width is the longer side and the height is a third of it |
| Rectify.ShortSideIgnored | main.js:195-205 | the measured short side plays no part in the size |
| Rectify.RectifiedSizeSymmetric | main.js:195-205 | swapping the sides does not change the size |
| Rectify.DestinationCorners | main.js:223-228 | the corners are `(0, 0)`, `(W-1, 0)`, `(W-1, H-1)`, `(0, H-1)`, axis-aligned |
| Rectify.DestinationStartsTopLeft | main.js:223-228 | for an image of at least one pixel each way, the first destination corner has the least `x + y` and the corners run clockwise on screen |
| Rectify.CropRect | main.js:209-269 | each crop field is the `Math.round` of its scaled size: 5% and 90% of the width, 25% and 65% of the height |
| Rectify.CropWithinWidth | main.js:264-269 | when the image is at least 20 wide, the crop starts at or right of 0, is non-empty across, and ends within the width |
| Rectify.CropWithinHeight | main.js:264-269 | when the image is at least 10 high, the crop starts at or below 0, is non-empty down, and ends within the height |
| Rectify.NarrowCropOverflows | main.js:264-269 | below 20 the width bound can fail: an image 10.9 wide gets a crop from 1 to 11 |
| Rectify.CropWithinRectifiedPlate | main.js:195-269 | when either measured side is at least 30, the crop of the rectified plate is non-empty and lies inside it |
| Rectify.CropExample | main.js:264-269 | a 300 by 100 plate is cropped to the 270 by 65 rectangle at (15, 25) |
| Detection.DetectLicensePlate | main.js:129-269 | nothing is found exactly when no contour is eligible; otherwise the region belongs to the chosen contour, with its corners ordered and its size, destination corners and crop computed from its rectangle |
| Detection.CropOfRegionFits | main.js:195-272 | the crop of a found plate whose rectangle encloses its contour is non-empty and lies inside the rectified image |
| Detection.EnclosingRectIsLarge | main.js:137-143 | a rectangle that encloses a contour of area at least 1000 has a side of at least 30 |
| Detection.LargeRectHasLongSide | main.js:137-143 | a rectangle of area at least 1000 has a side of at least 30 |
| Session.ProcessImage | main.js:353-440 | a tick's reaction: the session after it, the status message and whether OCR is requested; characterised by `TickWhileProcessingIsNoop`, `FoundWhileScanning`, `TickChangesOnlyOnFound` and `ValidNeverOcrNow` |
| Session.StartTimer | main.js:612-616 | start an interval and hold its handle only when no handle is held, as `handleStartButton` also does at main.js:633-637; characterised by `RearmLeavesOneTimer` and `StartIsIdempotent` |
| Session.StopTimer | main.js:643-646 | clear the held interval and drop its handle, as `processImage` also does at main.js:402-405; characterised by `StopClearsAll` and `FoundWhileScanning` |
| Session.Rearm | main.js:601-638 | start and reset: clear both flags, start an interval unless one is held; characterised by `RearmLeavesOneTimer` and `StartIsIdempotent` |
| Session.Halt | main.js:641-661 | stop: clear the interval and both flags; characterised by `StopClearsAll` |
| Session.Step | main.js:353-661 | the session after each kind of event; `StepPreservesValid` and `RunPreservesValid` show it keeps the invariant |
| Session.ShowOcr | main.js:576-598 | the result line shows the failure message exactly when the OCR stage threw, while preparing the plate image or inside the engine, the no-text message exactly when the normalised text is empty, and otherwise the normalised, non-empty code |
| Session.InitialIsValid | main.js:11-17 | the page starts in a valid state |
| Session.StepPreservesValid | main.js:353-661 | every event keeps the flags equal, keeps the timer off while processing, and keeps the held handle as the one running interval |
| Session.RunPreservesValid | main.js:353-661 | so does every sequence of events |
| Session.NeverTwoTimers | main.js:601-661 | whatever the events, at most one interval runs, and the page holds its handle when one does |
| Session.TickWhileProcessingIsNoop | main.js:361-364 | a tick while a captured frame is being processed changes nothing and starts no OCR |
| Session.FoundWhileScanning | main.js:398-418 | a found plate while scanning stops the timer, sets both flags and schedules the OCR |
| Session.ValidNeverOcrNow | main.js:361-422 | in a valid session a tick never takes the branch that runs OCR directly, since a processing session always holds a captured frame |
| Session.TickChangesOnlyOnFound | main.js:353-440 | a tick changes the session only when OpenCV is ready, nothing is being processed and a plate is found |
| Session.StopClearsAll | main.js:641-661 | stop leaves no timer, no captured frame and no processing |
| Session.RearmLeavesOneTimer | main.js:601-638 | start and reset clear both flags and leave exactly one interval running: the one already held, or a new one with a fresh handle |
| Session.StartIsIdempotent | main.js:622-638 | pressing start twice is the same as pressing it once |
| Session.OcrLeavesSession | main.js:443-598 | the OCR stage changes neither the flags nor the timer |
| Session.ShownCodeIsClean | main.js:533-581 | a shown code is made of `[A-Z0-9]` characters and is the raw text with characters deleted |
| Session.ScanExample | main.js:353-661 | OpenCV loads, start is pressed, a frame without a plate comes, then one with a plate, then the OCR result: the session ends with the timer stopped and both flags set |

## Left out

- Camera access and frame capture (`initializeCamera`, `captureVideoFrame`) are browser I/O. A tick receives what became of its frame as a parameter: no picture yet, an empty picture, a throw while reading, converting, filtering or detecting, or whether a plate was found.
- OpenCV image operations are foreign calls on floating-point pixels: grey-scale conversion, blurs, edges, dilation, contours, the perspective warp, CLAHE, thresholds, resizing and morphology. The contour area and the rotated rectangle (its size and corners) are inputs to the model. The unused bilateral filter result is not modelled.
- The perspective warp is not modelled, so neither is a check for degenerate corners; the code has no such check.
- Tesseract OCR is an external asynchronous engine. Its text, or a throw anywhere in the OCR stage (the OpenCV preparation of the plate image or the engine), is the input of the normaliser and of `ShowOcr`.
- `Math.atan2` is a parameter. Nothing about trigonometry is assumed.
- The DOM, canvases, download links, time stamps and status text are page output. Status messages are modelled as a datatype.
- Asynchrony is left out: each handler runs as one atomic step. The 100 ms `setTimeout` before OCR is a request (`OcrLater`). An OCR result that arrives after stop is modelled as a `PlateProcessed` event like any other: `OcrLeavesSession` shows it leaves the session unchanged; what it writes to the page is page output.
- `capturedFrame` is modelled only as the `captured` flag. The retained image is bookkeeping and is never read again.
- Manual `.delete()` memory management is not modelled.
- Floating-point numbers are exact reals. Rounding in the score and the aspect ratio is not modelled.
- `cv.Size` truncating the plate size to whole pixels is not modelled. `CropWithinWidth` and `CropWithinHeight` bound the crop by the real size, so it holds for every whole-pixel size at least as large as the truncated one.
- `toUpperCase` and the case-insensitive match are modelled for ASCII letters only. Both run after the engine, whose character whitelist is `[A-Z0-9]`.
- FirstMinSumIndex: the source starts its minimum at `Infinity` and scans from corner 0; the model starts at corner 0 and scans from corner 1. The two agree for finite coordinates.
- Detection.CropOfRegionFits: requires that the chosen rectangle encloses its contour (`Encloses`). The image library guarantees this, but the model cannot see the library.
- The branch of `processImage` that awaits OCR directly (a found plate while processing, with no captured frame) is modelled (`OcrNow`). `ValidNeverOcrNow` shows it is unreachable from a valid session.
