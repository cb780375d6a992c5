# CT-Scan-Virtualizer core, modelled in Dafny

CT-Scan-Virtualizer is a viewer for CT series. It loads a directory of DICOM files and sorts the slices. It shows them through an adjustable display window. The user can draw a rectangular region of interest (ROI) on a slice, and the viewer reports the mean intensity and the area of that region. This project models the four pieces of logic behind that, and proves what each of them guarantees:

- **ROI selection** (`Roi`, from `gui/roi_selector.py`). The class `Roi.RoiSelector` holds the dialog's state: start position, end position, the rectangle patch, and whether the dialog was accepted. Its methods `OnPress`, `OnMove` and `OnRelease` are the mouse handlers. The handlers keep the invariant that a rectangle is always anchored at the recorded start. `GetRoiMask` fills a fresh `array2` with zeros and writes the half-open block `[y_min, y_max) x [x_min, x_max)` with 1s. Its result is proved equal, cell by cell, to the specification function `MaskGrid`. Slice bounds are normalised as numpy normalises them: negative bounds count from the end, and bounds are clamped to the axis. Shape, 0/1 entries, exact membership, symmetry in the corners and the number of ones are proved about `MaskGrid`.
- **Series loading** (`DicomLoader`, from `core/dicom_loader.py`).
  - A directory is a sequence of entries in listing order. Each entry has a name, its bytes, and the record the parser yields for it.
  - Files are selected by a case-insensitive `.dcm` suffix or by the magic-byte check.
  - Selected files are parsed in order.
  - The records are sorted stably, in place, on one of three keys: the *text* of InstanceNumber, the z coordinate of ImagePositionPatient, or a constant.
  - Multi-frame pixel arrays are flattened into one list of 2-D slices, which is then stacked.
  - The sort is proved sorted and stable. Stability yields permutation. For the constant key it yields the input order, and for the text key it yields instance 10 before instance 2.
- **Windowing and spacing** (`ImageProcessor`, from `core/image_processor.py`). Each pixel is clipped to `[center - width/2, center + width/2]`, rescaled to `[0, 255]`, and truncated to 8 bits. This is computed exactly over the reals. Range, saturation, monotonicity and a closed integer formula are proved. Spacing falls back to `(1.0, 1.0, 1.0)` as soon as an attribute is missing.
- **ROI statistics** (`StatsCalculator`, from `core/stats_calculator.py`). Pixels are selected where the mask is 1, in row-major order. The module computes their mean, the pixel count (the sum of the mask) and the area. The module `RoiArea` joins this with the ROI mask: for a rectangle with in-bounds corners, it gives the pixel count, the area and when a mean exists.

The modules `Wrappers` (Option and Result), `Numbers` (min, max, truncation toward zero), `Grids` (2-D integer grids, their sums and counts of ones) and `Dataset` (the parsed record: optional InstanceNumber, position, PixelSpacing, SliceThickness, and the pixel array) are shared by all four.

The magic-byte check reads 132 bytes and then 4 more, so it compares bytes 132..135 with "DICM". Section 7.1 of DICOM PS3.10 puts the 128-byte preamble before "DICM", so the standard's magic sits at bytes 128..131. The model follows the code. `DicomLoader.Part10PrefixNotRecognised` shows that a file laid out by the standard, without a `.dcm` name, is not selected.

## Model

| member | source | states |
|---|---|---|
| Numbers.Trunc | gui/roi_selector.py:45 | int() of a float truncates toward zero: for x >= 0 the result n has n <= x < n+1; for x < 0 it has n-1 < x <= n |
| Numbers.TruncIsFloorOnNonNegative | core/image_processor.py:27 | on non-negative values the uint8 cast (truncation) equals the floor |
| Roi.MaskGrid | gui/roi_selector.py:79-82 | the mask has the image's shape, every entry is 0 or 1, and a cell is 1 exactly when it lies in mask[y_min:y_max, x_min:x_max] after numpy's bound normalisation |
| Roi.MaskCellExact | gui/roi_selector.py:79-82 | with non-negative corners, cell (r, c) is 1 iff y_min <= r < y_max and x_min <= c < x_max; the end row and end column are excluded |
| Roi.MaskSymmetric | gui/roi_selector.py:79-80 | swapping the start and end corners gives the same mask |
| Roi.DegenerateMaskIsEmpty | gui/roi_selector.py:79-82 | if x1 = x2 or y1 = y2 the mask has no ones |
| Roi.MaskOnesCount | gui/roi_selector.py:81-82 | the number of ones is the normalised row span times the normalised column span, for any corners |
| Roi.InBoundsMaskOnesCount | gui/roi_selector.py:79-82 | with corners inside the image, the number of ones is (x_max - x_min) * (y_max - y_min) |
| Roi.EventPointInImage | gui/roi_selector.py:45 | an event over the displayed image is recorded as an in-bounds pixel position |
| Roi.RoiSelector.constructor | gui/roi_selector.py:28-30 | the dialog starts with no rectangle, no start, no end and not accepted, and satisfies the anchoring invariant |
| Roi.RoiSelector.OnPress | gui/roi_selector.py:42-53 | a press outside the axes changes nothing; a press inside records the truncated start and replaces any rectangle with a zero-size one anchored there; the anchoring invariant is preserved |
| Roi.RoiSelector.OnMove | gui/roi_selector.py:55-65 | with a rectangle and a start, a move inside the axes sets only the rectangle's width and height to the offset from the start; otherwise nothing changes; the invariant is preserved |
| Roi.RoiSelector.OnRelease | gui/roi_selector.py:67-73 | with a rectangle, a release inside the axes records the truncated end position and accepts the dialog; otherwise nothing changes; the anchoring invariant is preserved, so an accepted release leaves both a start and an end recorded and the mask is then present |
| Roi.RoiSelector.GetRoiMask | gui/roi_selector.py:75-84 | None exactly when the start or the end is missing; otherwise a fresh array of the image's shape, equal cell by cell to MaskGrid for the recorded corners |
| Grids.BinaryGridSumIsOnes | core/stats_calculator.py:26 | for a 0/1 grid, the sum of the entries equals the number of ones |
| DicomLoader.DcmSuffixIff | core/dicom_loader.py:19 | the suffix test accepts exactly the names ending in '.', d/D, c/C, m/M |
| DicomLoader.ReadAt | core/dicom_loader.py:40-41 | a read returns at most n bytes, and exactly the next n bytes when that many remain |
| DicomLoader.IsDicomIff | core/dicom_loader.py:36-44 | the magic check holds iff the file can be read, has at least 136 bytes, and bytes 132..135 are "DICM"; an unreadable file gives false |
| DicomLoader.Part10PrefixNotRecognised | core/dicom_loader.py:40-42 | a file with "DICM" at bytes 128..131 (DICOM PS3.10 section 7.1) is rejected unless bytes 132..135 also spell "DICM" |
| DicomLoader.SelectFiles | core/dicom_loader.py:16-20 | an entry is kept iff its name has the .dcm suffix or its content passes the magic check; no entry is added |
| DicomLoader.SelectConcat | core/dicom_loader.py:16-20 | selection keeps listing order: selecting from a listing split in two selects from each part in turn |
| DicomLoader.SelectSingle | core/dicom_loader.py:16-20 | a single entry is kept exactly when its name has the .dcm suffix or its content passes the magic check |
| DicomLoader.ParseAll | core/dicom_loader.py:24 | parsing succeeds iff every selected file parses, and then yields their records in order; otherwise it fails with the first file that does not parse |
| DicomLoader.TextLeTotal | core/dicom_loader.py:28 | Python's string order is total |
| DicomLoader.TextLeTrans | core/dicom_loader.py:28 | Python's string order is transitive |
| DicomLoader.TextLeAntisym | core/dicom_loader.py:28 | Python's string order is antisymmetric |
| DicomLoader.TextLeRefl | core/dicom_loader.py:28 | Python's string order is reflexive |
| DicomLoader.KeyLeTrans | core/dicom_loader.py:26-32 | the key order is transitive |
| DicomLoader.KeyLeTotal | core/dicom_loader.py:26-32 | the key order is total |
| DicomLoader.KeyLeAntisym | core/dicom_loader.py:26-32 | the key order is antisymmetric |
| DicomLoader.SwapStable | core/dicom_loader.py:28-32 | exchanging neighbours with different keys keeps each key's records in their order |
| DicomLoader.StableTrans | core/dicom_loader.py:28-32 | stability composes |
| DicomLoader.StableIsPermutation | core/dicom_loader.py:28-32 | a stable rearrangement is a permutation of its input |
| DicomLoader.ConstantKeyKeepsOrder | core/dicom_loader.py:32 | sorting stably on a constant key leaves the input order unchanged |
| DicomLoader.SortedStableUnique | core/dicom_loader.py:28-32 | two sorted, mutually stable arrangements are equal: the stable sort's result is determined |
| DicomLoader.SortInPlace | core/dicom_loader.py:28-32 | the in-place sort leaves the array sorted by the key, and stable with respect to its old contents |
| DicomLoader.LoadDicomSeries | core/dicom_loader.py:14-34 | an empty selection gives the no-files error; a parse failure propagates; otherwise one record per selected file, sorted and stable on the key chosen for the parsed series |
| DicomLoader.SeriesOrder | core/dicom_loader.py:24-34 | the loaded series is a permutation of the parsed records. If all have InstanceNumber, it is ordered by its text. Else, if all have a position, it is ordered by z. Otherwise it is in input order |
| DicomLoader.TextualInstanceOrder | core/dicom_loader.py:28 | records with InstanceNumber "2" and "10" are loaded as "10" then "2": the order is textual, not numeric |
| DicomLoader.FlattenLength | core/dicom_loader.py:50-55 | flattening yields one slice per 2-D record plus one per frame of each multi-frame record |
| DicomLoader.FlattenConcat | core/dicom_loader.py:50-55 | flattening a concatenation flattens each part in turn |
| DicomLoader.FlattenAt | core/dicom_loader.py:50-55 | frame i of record x is at position (frames of the records before x) + i: record and frame order are kept |
| DicomLoader.Stack | core/dicom_loader.py:57 | stacking succeeds with the slices themselves iff there is at least one slice and all have the first slice's shape; it fails otherwise, naming which of the two causes |
| DicomLoader.GetImageArray | core/dicom_loader.py:46-60 | the append loops build exactly the flattened slice list, which is then stacked |
| ImageProcessor.Clip | core/image_processor.py:25 | np.clip lands in [lo, hi] when lo <= hi, keeps values already there, and yields hi when hi < lo |
| ImageProcessor.Scaled | core/image_processor.py:23-26 | the rescaled value lies in [0, 255] for every non-zero width |
| ImageProcessor.WindowPixel | core/image_processor.py:23-27 | every windowed value lies in [0, 255] |
| ImageProcessor.ApplyWindowing | core/image_processor.py:22-28 | windowing acts entry by entry, keeps the image's shape, and yields values in [0, 255] |
| ImageProcessor.WindowSaturates | core/image_processor.py:23-27 | values at or below center - width/2 map to 0; values at or above center + width/2 map to 255 |
| ImageProcessor.NegativeWidthSaturates | core/image_processor.py:23-27 | with a negative width every value maps to 255 |
| ImageProcessor.WindowMonotone | core/image_processor.py:22-28 | windowing is non-decreasing in the pixel value |
| ImageProcessor.WindowIntegerFormula | core/image_processor.py:25-27 | inside the window the output is floor(255 * (2(v - center) + width) / (2 width)) |
| ImageProcessor.GetSpacing | core/image_processor.py:30-39 | PixelSpacing[0], PixelSpacing[1] and SliceThickness of the first record when both attributes are present; (1.0, 1.0, 1.0) as soon as either is missing |
| StatsCalculator.Masked | core/stats_calculator.py:21 | boolean indexing selects as many values as the mask has ones |
| StatsCalculator.SelectedCount | core/stats_calculator.py:21 | the number of selected pixels is the number of ones in the mask |
| StatsCalculator.SelectedMembership | core/stats_calculator.py:21 | a value is selected iff it is the image entry under some 1 of the mask |
| StatsCalculator.SelectPixelsByRows | core/stats_calculator.py:21 | the selection takes rows in order and each row in column order (row-major) |
| StatsCalculator.Mean | core/stats_calculator.py:22 | the mean is absent exactly for no pixels; otherwise mean times count equals the sum |
| StatsCalculator.MeanBetweenMinAndMax | core/stats_calculator.py:22 | the mean of a non-empty selection lies between its least and its greatest pixel |
| StatsCalculator.CalculateRoiStats | core/stats_calculator.py:21-32 | the statistics have no mean iff the mask has no ones; otherwise mean times the number of ones is the sum of the selected pixels |
| StatsCalculator.NumPixelsIsSelectedCount | core/stats_calculator.py:26 | for a 0/1 mask, num_pixels equals the number of selected pixels and the number of ones |
| StatsCalculator.AreaOfBinaryMask | core/stats_calculator.py:25-27 | the area is the selected count times row spacing times column spacing; slice thickness has no effect |
| StatsCalculator.AreaSign | core/stats_calculator.py:25-27 | with non-negative spacings the area is non-negative; the mean is absent iff the mask has no ones; with positive spacings the area is zero iff the mask has no ones |
| RoiArea.BinaryMaskStats | core/stats_calculator.py:21-27 | a 0/1 mask with n ones selects n pixels, has area n times the row and column spacings, and has no mean iff n = 0 |
| RoiArea.RectangleSelection | gui/roi_selector.py:79-82 | a rectangle with in-bounds corners selects (x_max - x_min) * (y_max - y_min) pixels of the slice |
| RoiArea.RectangleArea | core/stats_calculator.py:25-27 | a rectangle with in-bounds corners has area (x_max - x_min) * (y_max - y_min) times the row and column spacings |
| RoiArea.RectangleMean | core/stats_calculator.py:22 | a rectangle with in-bounds corners has no mean iff its width or its height is zero |

## Left out

- Qt and matplotlib plumbing: the widget layout, the canvas, drawing and removing the rectangle patch, and the event wiring. The patch is modelled only as present or absent, with an anchor, a width and a height.
- `accept()` closing the dialog is modelled as the flag `accepted`. The `roi` field, which the dialog sets to None and never updates, is not modelled.
- Whether an event falls inside the image axes is a field of the event (`inAxes`), not a comparison of axes objects.
- The whole of `gui/main_window.py` (sliders, menus, image conversion, the overlay and the histogram) is not part of this model.
- File-system access: `os.listdir`, `os.path.join` and `open`. A directory is the sequence of its entries in the order the listing returns them. A file that cannot be opened has no content.
- DICOM parsing with `pydicom.dcmread` and `pixel_array` is a foreign library call. Each entry carries the record it parses to, or None when parsing raises. The parse error is returned as a value instead of an exception.
- DicomLoader.Lower: only ASCII letters are lowercased, while Python's `str.lower` also maps non-ASCII letters. No non-ASCII character lowercases to '.', 'd', 'c' or 'm', so the suffix test is unaffected.
- InstanceNumber is an integer-string (IS) element. Its numeric value is never used by the core: the sort key is its text, which the parsed value keeps. A record therefore holds InstanceNumber as text, and how pydicom turns the element into that text is not modelled.
- DicomLoader.KeyLe: keys of different kinds are ordered by kind only so that the order is total. Within one sort all keys have the same kind, so this never decides an order.
- DicomLoader.SortInPlace: Python's sort is Timsort. The model uses a stable insertion sort; the sorted, stable result is unique, so the two agree (`SortedStableUnique`).
- Pixel arrays of rank one and of rank four or more are not modelled. A record is either one 2-D image or a list of 2-D frames.
- DicomLoader.Stack: numpy's exceptions are results. Only NothingToStack and ShapeMismatch are distinguished, and a ragged first slice counts as a mismatch.
- The debug prints in `get_image_array` are left out.
- The default window center and width (the mean and the standard deviation of the volume) are not modelled, because they need floats and a square root. Windowing takes integer center and width, as the sliders supply.
- ImageProcessor.Scaled: a width of 0 divides by zero in the source, and the uint8 cast of the resulting NaN or infinity is undefined. The model requires a non-zero width.
- IEEE-754 rounding in windowing and in the mean is not modelled; both are computed exactly over the reals.
- ImageProcessor.GetSpacing: the source indexes the first record and raises on an empty series, so the model requires a non-empty one. A PixelSpacing with fewer than two values is not modelled, because the record holds a pair.
- An ImagePositionPatient with fewer than three values makes the z lookup of the position sort raise in the source. The model's position always has three coordinates, so that error is not modelled.
- Reading the pixel data raises in the source when a record has no pixel data or no decoder for it. Every modelled record has pixels, so that error is not modelled.
- The standard deviation in `calculate_roi_stats` is not modelled, because it needs a square root. The mean of an empty selection is NaN in numpy and None here.
- The classes DicomLoader, ImageProcessor and StatsCalculator only set their fields once, in the constructor. They are modelled as modules of functions that take those fields as parameters.
