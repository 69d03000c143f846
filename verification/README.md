# Thumbnail and banner composer: the computations inside `app.js`

The application takes an uploaded picture and cuts it into element crops: background, main
subject, title image, auxiliary image and logo. The crops come from an object detector, or
from a saliency fallback when there is no detector. It reads the text with OCR and sorts the
lines into title, subtitle, description and note by their height. It then composes
thumbnails and banners at preset sizes. It draws the crops and the texts in a user-chosen
layer order, with anchors that depend on whether the target is portrait, landscape or square.

This project models the deterministic parts of that pipeline. Canvas reads become integer
RGBA sequences and arrays. Canvas drawing becomes a list of draw commands, each with a layer
id, a source rectangle and a destination rectangle. Each module follows one group of
functions in `app.js`:

| module | models |
|---|---|
| `Numeric` | `Math.round`, `Math.floor`, `Math.ceil`, `Math.min` and `Math.max` on reals, plus the arithmetic lemmas the others share |
| `Pixels` | an RGBA raster (`ImageData`) and the colour distance |
| `BackgroundRemoval` | `removeBackground`: border list, edge colour model, flood fill from the border, alpha pass |
| `Saliency` | `computeSaliencyMap`, `findSalientRegion`, `detectLogoRegion`, `findAuxRegion`, `calcConfidence`, `extractImageElementsFallback` |
| `Regions` | the rounding and clamping of `cropToThumbFromCanvas`, its thumbnail size and the export preview size |
| `Sorting` | `Array.prototype.sort` with a descending key comparator |
| `Detections` | `mapDetectionsToElements` |
| `Layout` | `drawCover`, `drawContain`, `drawLayer`, `drawTextLayer`, `composeImage`, `compositeAIWithElements` |
| `LayerOrder` | `layerOrder` and `moveLayer` |
| `TextBuckets` | `classifyTextBySize` and `fillTextInput` |
| `DateRange` | `syncDateRange` |
| `ColorWords` | `describeColor` |
| `Presets` | `DEFAULT_PRESETS`, the missing-defaults test, the restore button and the delete button |
| `Collage` | the grid of `createReferenceCollage` |

Modelling choices:

- **Numbers.** JavaScript numbers are modelled as `real`. `Math.round(x)` is `Floor(x + 0.5)`.
- **Square roots.** `Math.sqrt` is a parameter `sqrt: real -> real`. Every property that does not need it holds for any such function. `BackgroundRemoval.LikeBySquares` shows that, for a genuine square root, the threshold test is a comparison of squared distances.
- **State that changes in place.** The flood fill's `visited` and `isBg` byte arrays and the pixel data `d` are `array`s, and the search queue is a sequence. `layerOrder` and `allPresets` are fields of the classes `LayerOrder.LayerStack` and `Presets.PresetList`.
- **Where the code was followed.** A crop is meant to stay inside the source image. `cropToThumbFromCanvas` rounds the position and the size separately, so a crop can reach one pixel past the right or bottom edge of the source. The model follows the code here (`Regions.CropOverhang`, `Regions.CropOverhangHappens`).

## Model

| member | source | states |
|---|---|---|
| BackgroundRemoval.BorderList | app.js:536-544 | the border list has 2w + 2·max(0, h−2) entries, all of them pixel indices of the image |
| BackgroundRemoval.BorderListExact | app.js:536-544 | for w, h ≥ 2 the border list holds exactly 2w + 2(h−2) distinct indices, and an index is in it exactly when its pixel lies on the one-pixel border |
| BackgroundRemoval.BorderListOnBorder | app.js:536-544 | every listed index is a border pixel of the image, for every w, h ≥ 1 |
| BackgroundRemoval.BorderListComplete | app.js:536-544 | every border pixel is listed, for every w, h ≥ 1 |
| BackgroundRemoval.ListBorder | app.js:536-544 | the loops that push the top and bottom rows and then the side columns build exactly the border list |
| BackgroundRemoval.AdaptiveThreshold | app.js:557-563 | the threshold is 1.5σ + 25 clamped to [30, 80], so it always lies in [30, 80] |
| BackgroundRemoval.EdgeStats | app.js:547-563 | the accumulating loops compute the mean border colour, the border variance and the clamped threshold of the edge colour model |
| BackgroundRemoval.LikeBySquares | app.js:572-574 | with a genuine square root, "distance < threshold" is the same as "squared distance < threshold²" |
| BackgroundRemoval.SeedFromBorder | app.js:565-579 | after seeding, a pixel is marked background exactly when it is a border pixel whose colour distance to the border mean is below the threshold; seeds are queued and marked visited |
| BackgroundRemoval.Neighbours | app.js:586-589 | the neighbours tried are exactly the in-image pixels left, right, above and below, at most four of them |
| BackgroundRemoval.VisitNeighbours | app.js:586-600 | visiting the neighbours of a popped pixel keeps the search invariant, leaves no unvisited neighbour of it, and does not increase the termination measure 2·(unvisited pixels) + (queue length) |
| BackgroundRemoval.FloodFill | app.js:565-601 | when the search ends, a pixel is background exactly when a 4-connected path of like-coloured pixels joins it to a like-coloured border pixel; for w, h ≥ 2 at most w·h pixels are dequeued |
| BackgroundRemoval.FillComplete | app.js:582-601 | a closed search (empty queue, every neighbour of every background pixel visited) has marked every reachable pixel |
| BackgroundRemoval.ClosedMarksContainPath | app.js:582-601 | in a closed search, the end of every fill path from a seed is marked |
| BackgroundRemoval.DistinctBound | app.js:582-601 | distinct queue entries taken from w·h pixel indices number at most w·h, which bounds the loop |
| BackgroundRemoval.SoftEdge | app.js:616 | the softened alpha is `round(0.6·a)`: within half a unit of 0.6·a and never above a |
| BackgroundRemoval.HasBackgroundNeighbour | app.js:609-614 | the scan of the four neighbours answers exactly whether some in-image neighbour is background |
| BackgroundRemoval.AlphaWrite | app.js:604-619 | writing one alpha byte changes that pixel's alpha and no other byte |
| BackgroundRemoval.ApplyAlpha | app.js:604-619 | background pixels get alpha 0, other pixels beside the background get `round(0.6·alpha)`, every other alpha is kept, and no R, G or B byte changes |
| BackgroundRemoval.RemoveBackground | app.js:530-622 | the whole pass: R, G and B bytes are unchanged, and every alpha is rewritten from the background mask given by border reachability |
| Saliency.Chroma | app.js:449-450 | the saturation term `(max−min)/max·80` lies in [0, 80] and is 0 exactly for a grey |
| Saliency.UniformImageIsFlat | app.js:441-454 | on a one-colour image every pixel has the same saliency: the distance term at zero plus the colour's own saturation term |
| Saliency.SaliencyAtLeastChroma | app.js:449-450 | a pixel's saliency is never below its saturation term |
| Saliency.ChannelSums | app.js:444-446 | the first loop sums each channel over every pixel |
| Saliency.ComputeSaliencyMap | app.js:441-454 | each entry of the returned map is the pixel's distance to the mean colour plus its saturation term |
| Saliency.SalientCut | app.js:457-458 | when position ⌊n(1−thr)⌋ of the descending order exists the cut is one of the scores (the one at that position), otherwise it is 0 |
| Saliency.CutRank | app.js:457-458 | entries ranked before the cut position are at least the cut, and entries greater than the cut are ranked before it |
| Saliency.ScanRow | app.js:459-460 | scanning one row keeps the running hull bounds x1, x2, y1 and y2 tight around the hot cells seen so far |
| Saliency.FindSalientRegion | app.js:456-463 | the box covers every pixel scoring at least the cut, padded by 3% and clamped to the image; when such a pixel exists the box is the tightest such padded box |
| Saliency.HullBox | app.js:461-462 | the padded and clamped hull lies inside the image and contains every hot cell, and when a hot cell exists each side is set by an extreme hot cell |
| Saliency.SalientPixelExists | app.js:457-460 | with the fallback's threshold 0.6, at least one pixel always reaches the cut, so the box is never the empty default |
| Saliency.Confidence | app.js:476-479 | the confidence is min(0.95, max(0.3, mean/150)) over the sampled cells, so it lies in [0.3, 0.95] when at least one cell is sampled |
| Saliency.ConfidenceCellsInBox | app.js:477 | the sampled cells lie in the box, inside the image width and inside the map's rows |
| Saliency.CalcConfidence | app.js:476-479 | the stride-2 loops over the box compute that confidence |
| Saliency.SalientBoxSampled | app.js:456-479 | a box found around the hot cells always samples at least one cell, so the confidence is defined |
| Saliency.CornerBox | app.js:466-467 | each candidate corner box is 0.3w × 0.3h, inside the image, and touches two image edges |
| Saliency.StrideLumaSums | app.js:468 | the stride-3 loops over a corner compute the sums of luma and of squared luma and the sample count |
| Saliency.SampleCorner | app.js:468 | one corner's sample gives its luma variance |
| Saliency.DetectLogoRegion | app.js:465-470 | the returned box is the corner box of the corner with the highest luma variance; the first corner wins ties and is the default |
| Saliency.BestUnique | app.js:468 | the best corner is unique |
| Saliency.AuxRegion | app.js:472-474 | the auxiliary box is 0.8w wide from 0.1w, inside the image, in the lower half when the main box's centre is in the upper half and in the upper half otherwise |
| Saliency.TitleHeight | app.js:436 | the title strip is min(mainY, 0.3h), or 0.2h when that is 0, so it is positive and at most 0.3h |
| Saliency.ExtractFallback | app.js:423-439 | the fallback's slots: the full background, the salient main box with its confidence in [0.3, 0.95], the most varied corner as logo, the title strip above the main box, and the auxiliary band |
| Regions.CropOf | app.js:481-485 | each crop coordinate is the rounded box coordinate clamped at 0, and each size is the rounded size, at least 1 |
| Regions.CropOverhang | app.js:481-485 | for a box inside the source the crop reaches at most one pixel past the right or bottom edge |
| Regions.CropOverhangHappens | app.js:481-485 | the one-pixel overhang occurs, for the box (0.5, 0, 9.5, 10) on a 10×10 source |
| Regions.ThumbSize | app.js:495-499 | the UI thumbnail's long side is 192 and its short side is the rounded proportional length |
| Regions.PreviewSize | app.js:1757-1760 | the export preview keeps sizes up to 800 and otherwise scales the long side to 800, keeping the aspect up to rounding |
| Regions.ShrunkSide | app.js:1757-1760 | a side scaled by min(1, 800/longest) rounds to itself when nothing is shrunk, and to at most 800 otherwise |
| Sorting.SortDesc | app.js:367 | the result is in non-increasing key order and is a permutation of the input |
| Sorting.InsertSorted | app.js:664 | inserting into a sorted sequence keeps it sorted |
| Sorting.SortDescSameElements | app.js:457 | sorting keeps exactly the same elements |
| Detections.Measure | app.js:361-366 | each detection is measured in pixels: the box, its area and its centre |
| Detections.SortedObjs | app.js:361-367 | the measured detections are in non-increasing area order and are a permutation of all the detections |
| Detections.MapDetections | app.js:359-420 | with no detections there is no mapping; otherwise the background is the full image and the main element is the largest detection |
| Detections.MainIsLargest | app.js:379-381 | the main element has the largest area of all detections, and it is one of them |
| Detections.LogoRule | app.js:384-396 | the logo is the smallest-area detection other than the main one whose centre lies in a corner; when there is none it is the top-left quarter |
| Detections.TitleRule | app.js:399-407 | the title is the largest detection other than the main one whose centre lies in the top 35%; when there is none it is the top 22% strip |
| Detections.AuxRule | app.js:410-419 | the auxiliary element is the largest detection that is not main, logo or title; when there is none it is a 0.8w × 0.3h band placed by the main element's centre |
| Detections.AuxFallback | app.js:416-418 | the fallback band starts at 0.6h when the main centre is above the middle and at 0 otherwise, and it lies inside the image |
| Detections.AuxDetectedWhenEnough | app.js:410-415 | with four or more detections the auxiliary element always comes from a detection |
| Layout.AspectOf | app.js:1436-1438 | for a positive target exactly one of portrait, landscape and square holds, by the 1.2 ratio tests |
| Layout.FontsFor | app.js:1451-1458 | with base b = 0.028·min(tw, th), the sizes are note round(b), date round(b·φ·0.8), desc round(b·φ), subtitle round(b·φ²) and title round(b·φ³), each within half a unit of its value, and they satisfy note ≤ date ≤ desc ≤ subtitle ≤ title |
| Layout.TextShift | app.js:1459 | the text shift is 0 exactly for portrait targets and 0.1·th otherwise |
| Layout.Cover | app.js:1274-1286 | the source crop lies inside the source, is centred, spans the full width or the full height, and has the destination's aspect |
| Layout.Contain | app.js:1289-1295 | the destination rectangle lies inside the box, is centred, has the source's aspect and touches one pair of edges |
| Layout.ScaleAboutCentre | app.js:1302-1310 | scaling a slot about its centre keeps it centred, and a scale of at most 1 keeps it inside the slot |
| Layout.ScaledPositive | app.js:1302-1336 | a positive slot scaled by a non-negative factor stays positive |
| Layout.TitleSlotInside | app.js:1311-1323 | the title image slot lies inside the canvas for every aspect |
| Layout.AuxSlotInside | app.js:1324-1336 | the auxiliary slot lies inside the canvas for portrait and square targets; for landscape targets exactly when 0.14·tw ≤ 0.96·th |
| Layout.TitleImageInside | app.js:1311-1323 | the title image's destination lies inside the canvas when it is not moved or enlarged |
| Layout.AuxImageInside | app.js:1324-1336 | the auxiliary image's destination lies inside the canvas when it is not moved or enlarged and its slot fits |
| Layout.LogoSize | app.js:1346 | the logo is forced to 100 pixels high |
| Layout.LogoKeepsAspect | app.js:1346 | the logo's width keeps its source aspect up to rounding |
| Layout.LogoBox | app.js:1347-1348 | the logo is 100 high and centred horizontally and around 0.1·th when not moved |
| Layout.TextStack | app.js:1389-1421 | the date sits above the title, the title at or above the subtitle, and the subtitle above the description outside portrait |
| Layout.TextOp | app.js:1377-1429 | a text command carries its layer and text; its x is tw/2 plus dx percent of tw; its y is the key's baseline plus dy percent of th; its colour is the chosen one or white; its size is the key's own font size (title, subtitle, desc, note or date) and its weight the chosen one or the key's default (800, 700, 400, 400, 700); and it has maximum width 0.85·tw (`fillText` squeezes a longer line to that width; it does not wrap) |
| Layout.DrawLayer | app.js:1298-1374 | a layer emits one command when it has something to draw (a crop, or a non-empty text) and none otherwise, and the command carries the layer id |
| Layout.WalkFollowsOrder | app.js:1463-1465 | the layer walk draws only layers of the order, each at most once and in the order's order, and draws every layer that has something to draw |
| Layout.WalkDrawsOnlyDrawn | app.js:1463-1465 | every command of the walk belongs to a layer that has something to draw |
| Layout.SceneFor | app.js:1431-1459 | the scene records the texts, crops and offsets it was given, and is well-formed whenever every offset scale is non-negative |
| Layout.BackgroundOp | app.js:1441-1448 | the background fills the whole canvas, from the background crop when there is one and as a flat fill otherwise |
| Layout.ComposeImage | app.js:1431-1468 | the composed image is the background command followed by the layer walk |
| Layout.DefaultMainFillsCanvas | app.js:1302-1310 | with the default offsets the main image covers the whole canvas |
| Layout.AICrops | app.js:1184-1186 | the AI composite drops the background and main crops and keeps every other crop |
| Layout.ComposeAI | app.js:1145-1196 | the AI composite is the AI background covering the canvas followed by the layer walk over the remaining crops with the AI offsets |
| Layout.AIDropsMain | app.js:1184-1193 | the AI composite's walk never draws the main or background layer |
| LayerOrder.IndexOf | app.js:1843 | `indexOf` gives −1 exactly for a missing id, and otherwise the first position holding it |
| LayerOrder.DefaultDistinct | app.js:7 | the nine default layer ids are distinct |
| LayerOrder.MovedSwaps | app.js:1846-1849 | a move swaps the layer with its neighbour ('up' the predecessor, 'down' the successor) and leaves every other position as it was |
| LayerOrder.MovedNoOp | app.js:1844-1847 | an unknown id, or a move past either end, leaves the order unchanged |
| LayerOrder.MovedPermutes | app.js:1842-1849 | every move keeps a permutation of the order, and a distinct order stays distinct |
| LayerOrder.MoveBack | app.js:1842-1849 | moving a layer and then moving it back in the other direction restores the order |
| LayerOrder.LayerStack.constructor | app.js:7 | the stack starts with the default order, which is distinct |
| LayerOrder.LayerStack.MoveLayer | app.js:1842-1849 | `moveLayer` updates the stored order to the moved order and keeps it a distinct list |
| TextBuckets.Trim | app.js:661 | the trimmed text is a contiguous middle part of the text; only white space is cut off on either side, and the result neither starts nor ends with white space |
| TextBuckets.StripSpaces | app.js:709 | removing white space leaves no white space and keeps every other character |
| TextBuckets.StripSpacesConcat | app.js:709 | white space is removed piece by piece: the result for a concatenation is the results for its parts, in order |
| TextBuckets.StripSpacesChar | app.js:709 | a single character is dropped exactly when it is white space |
| TextBuckets.Kept | app.js:656-663 | every kept line is the measured form (trimmed text, box height, top) of an input line that passes the filter: non-empty trimmed text and confidence above 30 |
| TextBuckets.KeptConcat | app.js:656-663 | keeping works piece by piece and keeps the input order: the kept lines of a concatenation are those of its first part followed by those of its second |
| TextBuckets.KeptSnoc | app.js:656-663 | one more input line adds its measured form at the end exactly when it passes the filter, and nothing otherwise |
| TextBuckets.KeptOne | app.js:656-663 | a single line is kept, measured, exactly when it passes the filter |
| TextBuckets.KeptComplete | app.js:656-663 | every line with non-empty trimmed text and confidence above 30 is kept, with its measured height |
| TextBuckets.MaxHeight | app.js:672 | the tallest height is the height of some kept line and at least every other |
| TextBuckets.MinHeight | app.js:673 | the shortest height is the height of some kept line and at most every other |
| TextBuckets.BandOfAgrees | app.js:679-685 | the band of the ratio (h − minH)/range, by the 0.7, 0.4 and 0.15 thresholds, equals the band by the linear tests |
| TextBuckets.BandMonotone | app.js:679-685 | a taller line never lands in a lower band than a shorter one |
| TextBuckets.InBand | app.js:679-685 | a bucket holds only lines of the input whose height falls in its band |
| TextBuckets.BandsPartition | app.js:679-685 | the four buckets together are exactly the lines, each line in exactly one bucket |
| TextBuckets.Spread | app.js:674-675 | the range is max − min, or 1 when all heights are equal, so it is positive |
| TextBuckets.TallestTitleShortestNote | app.js:672-685 | when heights differ, the tallest line goes to the title and the shortest to the note |
| TextBuckets.UniformHeightsAllNote | app.js:674-685 | when all heights are equal, every line goes to the note |
| TextBuckets.FillText | app.js:704-715 | the filled text is the join, with white space removed, of the group's lines reordered top to bottom (a permutation with non-decreasing box tops); it is empty when there are no lines |
| TextBuckets.JoinStrippedConcat | app.js:709 | joining works piece by piece: the join of a concatenation is the joins of its parts, in order |
| TextBuckets.JoinStrippedOne | app.js:709 | one line joins to its own text with the white space removed |
| TextBuckets.FillOne | app.js:704-715 | a single line fills its text with the white space removed |
| TextBuckets.Ranked | app.js:656-664 | the kept lines are sorted by non-increasing height and are a permutation of the kept lines |
| TextBuckets.Classification | app.js:649-702 | nothing is filled exactly when no line is kept |
| TextBuckets.OneLine | app.js:687-701 | a single kept line becomes the title and the other fields are empty |
| TextBuckets.TwoLines | app.js:687-701 | with two kept lines the taller becomes the title, the other the subtitle, and description and note are empty |
| TextBuckets.ManyLinesPartition | app.js:664-685 | with three or more kept lines, the four buckets share out exactly the kept lines |
| TextBuckets.BucketLines | app.js:677-685 | the bucketing loop pushes each line onto the bucket of its band, in input order |
| TextBuckets.ClassifyTextBySize | app.js:649-702 | the imperative classification gives the fields of the functional one |
| DateRange.Dotted | app.js:246-250 | dotting keeps the length and replaces each dash by a dot, leaving other characters alone |
| DateRange.SyncDateRange | app.js:240-253 | an unset start leaves the field alone; otherwise the text begins with the dotted start, and it is the dotted start alone when the end is unset or not later |
| DateRange.DigitsOrder | app.js:244 | zero-padded numbers of equal width compare as strings exactly as they compare as numbers |
| DateRange.PickerOrder | app.js:244 | comparing picker values as strings is comparing the dates on the calendar |
| DateRange.DottedPicker | app.js:246-250 | a picker value is ten characters long, and its dotted form is the dotted date with the year in front |
| DateRange.SyncDates | app.js:240-253 | for two dates: the start alone when the end is not later, the end without its year in the same year, and both in full otherwise |
| ColorWords.ColorValueRoundTrip | app.js:851-853 | reading the three channels back from a picker value gives the colour that was written |
| ColorWords.Describe | app.js:854-860 | the word is white exactly above brightness 220 and black exactly below 35; between those it is red, yellow/gold, blue or green exactly when that hue's channel test holds; a colour meeting no hue test is light above brightness 160 and dark otherwise |
| ColorWords.ColorValueParsed | app.js:851-853 | every picker value is the value written for the three channels read from it |
| ColorWords.DescribeColor | app.js:850-861 | the word for a picker value is one of the eight words, and it is the word `Describe` gives for the colour that value writes |
| ColorWords.DescribeColorOfValue | app.js:850-861 | `describeColor` of a colour's picker value is the word for that colour, for every colour |
| ColorWords.GreyHasNoHue | app.js:854-860 | a grey is never named by a hue, only by its brightness |
| ColorWords.StrongRed | app.js:850-861 | a pure red above level 180 is named red |
| Presets.RestoreAllIsMissingFirst | app.js:1657-1663 | the restore puts exactly the missing defaults in front of the list, the last one first, and keeps the list behind them |
| Presets.RestoreComplete | app.js:1657-1663 | after the restore no default size is missing |
| Presets.RestoreNoOp | app.js:1657-1663 | when no default size is missing the restore changes nothing |
| Presets.RestoreIdempotent | app.js:1650-1663 | a second restore changes nothing, and afterwards the missing-defaults test is false, so the button hides |
| Presets.RestoreDefaultsShape | app.js:1657-1663 | the built-in defaults have distinct sizes, so restoring them puts the missing ones in front |
| Presets.PresetList.constructor | app.js:1604-1614 | a first start lists the defaults followed by the presets saved under the old key |
| Presets.PresetList.RestoreDefaults | app.js:1657-1665 | the restore loop leaves the restored list, and afterwards no default size is missing |
| Presets.PresetList.Delete | app.js:1641 | a delete removes the preset at its index and keeps the others in order |
| Collage.Elements | app.js:920-926 | the collage takes exactly the crops that exist and are not marked empty, at most five, each one earlier in the fixed id order than the ones after it |
| Collage.CeilSqrt | app.js:933 | the column count is the least c with c·c ≥ n |
| Collage.GridFor | app.js:933-936 | the grid gives every element a cell, leaves no row empty, and has cells at least five pixels a side that fit the 1024 canvas |
| Collage.CellInside | app.js:937-940 | every element's inset cell lies inside the canvas and has positive size |
| Collage.CellsDisjoint | app.js:937-940 | the cells of different elements do not overlap |
| Collage.CollageCells | app.js:937-941 | the loop gives each element its cell, in order |

## Left out

- The DOM, event wiring, labels, placeholders and status messages are not modelled. Neither are the lightbox, section locking and confidence tags.
- The network is not modelled: URL fetches, the CORS proxy and the image and vision model calls.
- The Transformers.js detector and the Tesseract OCR engine are not modelled. Their outputs enter the model as lists of detections and OCR lines.
- Canvas rasterisation is not modelled: resampling, font rendering, shadows, gradients and the logo's `invert(1)` filter. Drawing is a list of commands, and the logo's invert decision is not part of it.
- `localStorage` persistence, the JSZip export, the file save and `sw.js` are not modelled. Of the initial preset load, only the first-start merge with the old key is modelled.
- `stripTextReferences` and `buildAIPrompt` are not modelled. The first depends on regular-expression semantics and the second reads the DOM.
- `async`/`await` ordering, timeouts and animation frames are not modelled.
- Numbers are exact reals, not IEEE-754 doubles, and the saliency map is not rounded to `Float32`. `Math.sqrt` is an arbitrary function parameter.
- BackgroundRemoval.RemoveBackground: it requires a canvas at least one pixel wide and high. On an empty canvas `getImageData` throws, and that error path is not modelled.
- Layout.TextOp: the text shadow (`td.shadow` with its per-key blur) is not part of the text command; it only affects rasterisation.
- Saliency.AuxRegion: the unused `sal` parameter of `findAuxRegion` is dropped.
- Saliency.CalcConfidence: it requires a box that starts at non-negative coordinates, which every box `findSalientRegion` returns has. `Saliency.SalientBoxSampled` shows that such a box samples at least one cell. The `NaN` that an empty sample would give is modelled as `None`.
- Collage: when no crop exists, the fallback draws the uploaded image with `drawCover`; that fallback is not modelled.
- Collage.GridFor: it is stated for the at most five elements the collage can hold.
- Layout.SceneFor: validity of the scene is stated only for offsets with non-negative scales, the only ones the program passes.
- ColorWords.DescribeColor: it takes only the colour picker's own format, `#` followed by six lower-case hexadecimal digits.
- DateRange.SyncDates: it is stated for years up to 9999, the ones a four-digit picker value holds.
- LayerOrder.LayerStack.MoveLayer: the swap of the DOM nodes after the array swap is not modelled.
- TextBuckets.Trim: `IsSpace` is the ECMAScript white-space and line-terminator set. Trimming and `/\s+/g` are modelled character by character, with no Unicode normalisation.
- TextBuckets.FillText: `lines.sort` in `fillTextInput` sorts the caller's bucket in place. The model sorts a copy, because the bucket is not used again.
- Sorting.SortDesc: it does not state that the sort is stable. Equal keys keep their input order, but no property depends on that.
