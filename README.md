# Blob player extraction and torso inference, modelled in Dafny

This project models two parts of a football-video tracker. The first finds the players in one frame's foreground mask. The second infers a player's torso from body parts found by a deformable-part-model (DPM) detector.

- `BlobPlayerExtractor::extract_player_from_frame` works in three steps.
  - It labels the foreground pixels of the mask in one raster pass. Each pixel looks at a 21-by-21 window of labels already written around it.
  - It replaces every label by the least label recorded as equivalent to it and counts the pixels of each label.
  - It turns every blob of at least 800 pixels into a new player. The player's rectangle is the blob's bounding box padded by 20 pixels. It is cut out of the mask frame and the original frame.
- `DPMDetector::extractBodyParts` stores the part boxes detected on a player's image. `extractTorsoForPlayer` infers the torso box from parts 1 and 2.
- `detectBestPartBoxes` selects the part boxes to report. It keeps the detections at the greatest pyramid level that reach the best score at that level.

The modules follow the source:

| Module | What it holds |
|---|---|
| `Shapes` | Rectangles, points, crops, features, and the `Player` class. The detector updates a player's fields in place. |
| `IntSets` | The minimum of a `std::set`, the ascending order in which a `std::map` is walked, and the sum of a map's values. |
| `BlobLabeller` | The labelling pass and the canonicalisation pass, done in place on an `array2<int>` label grid. |
| `BlobExtractor` | The bounding-box scan, the padded rectangle, the walk that selects blobs, and the whole frame operation. |
| `DpmDetector` | `max`, C++ integer halving, the torso rule, the two player methods, and the part-box selection loops. |

## Model

| member | source | states |
|---|---|---|
| BlobLabeller.Clamp | sources/blob_player_extractor.cpp:128-130 | The result is true exactly when the cell lies outside the grid. |
| BlobLabeller.ScanWindowColumn | sources/blob_player_extractor.cpp:35-43 | Scanning one column of the window adds exactly that column's nonzero in-grid labels. It keeps `smallest` as their minimum, or `INT_MAX` while none has been found. |
| BlobLabeller.ScanWindow | sources/blob_player_extractor.cpp:31-44 | `neighbours` is exactly the set of nonzero labels in the 21x21 window that lie in the grid. `smallest` is its minimum, or `INT_MAX` when the set is empty. |
| BlobLabeller.MergeNeighbours | sources/blob_player_extractor.cpp:53-60 | Every neighbour's equivalence set gains all the neighbours and the smallest label. The smallest label's set gains itself. No other entry changes, whatever order the sets are visited in. The result equals `MergeOf`. |
| BlobLabeller.Equivalents | sources/blob_player_extractor.cpp:56-58 | `labelMap[k]` through `operator[]` is the recorded set, or the empty set for a key not yet present. |
| BlobLabeller.MergeOf | sources/blob_player_extractor.cpp:53-60 | The map after the merge satisfies `Merged`: neighbours absorb all neighbours and the minimum, the minimum absorbs itself, and the rest is kept. |
| BlobLabeller.MergedUnique | sources/blob_player_extractor.cpp:53-60 | `Merged` fixes the map after the merge completely: it is `MergeOf`. |
| BlobLabeller.LabelPixel | sources/blob_player_extractor.cpp:30-62 | A background cell changes nothing. A foreground cell with no labelled neighbour gets the fresh label, which is registered as its own class, and the counter goes up. Any other foreground cell gets the least neighbour label, and the sets are merged. Only this cell changes, and the pass invariant is kept. |
| BlobLabeller.FreshLabelKeepsMapInvariant | sources/blob_player_extractor.cpp:47-51 | The fresh label is not yet a key. Registering it as its own class keeps every key and every set within [1, currentLabel). |
| BlobLabeller.MergeKeepsMapInvariant | sources/blob_player_extractor.cpp:53-60 | Merging keeps the equivalence map's invariant, and every neighbour becomes a key. |
| BlobLabeller.WindowLabelsRegistered | sources/blob_player_extractor.cpp:34-44 | Every label the window can see is an issued, registered label. |
| BlobLabeller.At | sources/blob_player_extractor.cpp:21 | A cell the grid value does not record reads 0, as in the zeroed label matrix. |
| BlobLabeller.WindowMatches | sources/blob_player_extractor.cpp:34-44 | The window scanned in the array is the window of the grid value the array holds. |
| BlobLabeller.StepCell | sources/blob_player_extractor.cpp:30-62 | Visiting a cell changes only that cell of the grid, and the counter grows by at most one. |
| BlobLabeller.Pass | sources/blob_player_extractor.cpp:18-64 | The counter is at least 1, and every cell the raster pass has not reached yet still reads 0. |
| BlobLabeller.LabelCell | sources/blob_player_extractor.cpp:30-62 | One cell of the pass takes the array's state to `StepCell` of it: the array holds the new grid, and the map and counter are the new ones. |
| BlobLabeller.LabelPass | sources/blob_player_extractor.cpp:28-64 | After the pass, the grid, the equivalence map and the counter are exactly the state `Labelling` computes from the mask. Every foreground cell carries a registered label below the counter, every background cell is still 0, and at most one label is issued per cell. |
| BlobLabeller.PassComplete | sources/blob_player_extractor.cpp:28-64 | After the pass, every foreground cell's label is a key whose set contains the label itself, and every background cell is 0. |
| BlobLabeller.Canonical | sources/blob_player_extractor.cpp:71-73 | For a registered label, the result is the least element of its equivalence set. |
| BlobLabeller.CountCell | sources/blob_player_extractor.cpp:76-84 | The count of the label goes up by one, from 0 when it is missing. Every other count is kept. |
| BlobLabeller.CanonicalisePixel | sources/blob_player_extractor.cpp:70-85 | A foreground cell is relabelled canonically and counted. A background cell changes nothing. No other cell changes. |
| BlobLabeller.CanonicaliseRow | sources/blob_player_extractor.cpp:69-86 | Exactly the foreground cells of the row are rewritten, and the counts stay equal to the cells counted. |
| BlobLabeller.CountsComplete | sources/blob_player_extractor.cpp:66-87 | Once every row is done, every foreground label is a key. Each count equals the number of foreground cells carrying that label and is at least 1. The counts sum to the number of foreground cells. |
| BlobLabeller.Canonicalise | sources/blob_player_extractor.cpp:66-87 | Every foreground cell takes the least label of its provisional label's set, and background cells keep 0. `blobSizes[k]` is the number of cells labelled `k`, at least 1, and the sizes sum to the foreground area. |
| IntSets.SetMin | sources/blob_player_extractor.cpp:72-73 | `*set.begin()` is an element of the set and is not above any other element. |
| IntSets.Ascending | sources/blob_player_extractor.cpp:90 | There is one entry per element of the set. `AscendingEnumerates` proves the order. |
| IntSets.AscendingEnumerates | sources/blob_player_extractor.cpp:90 | Walking a `std::map` visits every key exactly once, in strictly increasing order. |
| BlobExtractor.TightBox | sources/blob_player_extractor.cpp:94-115 | Every cell carrying the label lies within the box. |
| BlobExtractor.TightBoxAttained | sources/blob_player_extractor.cpp:94-115 | Each of the box's four sides is touched by a cell carrying the label. |
| BlobExtractor.Widen | sources/blob_player_extractor.cpp:101-112 | The bounds only move outwards, and afterwards they include the cell. |
| BlobExtractor.ScanRowForBox | sources/blob_player_extractor.cpp:99-114 | After a row, the running bounds are the extremes of the label's cells seen so far, or still the sentinels if none was seen. |
| BlobExtractor.BoundingBox | sources/blob_player_extractor.cpp:94-115 | The scan returns the tight box of the label, or the `INT_MAX`/`INT_MIN` sentinels when no cell carries it. |
| BlobExtractor.PaddedRect | sources/blob_player_extractor.cpp:116 | The rectangle starts 20 before the box's first row and column. Its exclusive far edges lie 20 after the box's last row and column. |
| BlobExtractor.PaddedRectCells | sources/blob_player_extractor.cpp:116 | The rectangle holds exactly the cells from 20 before the box to 19 after it. The padding is one pixel narrower on the right and at the bottom. |
| BlobExtractor.PaddedRectEnclosesBlob | sources/blob_player_extractor.cpp:116 | Every cell of the blob lies at least 20 pixels inside each edge of its rectangle. |
| BlobExtractor.PaddedRectFits | sources/blob_player_extractor.cpp:116-119 | The rectangle lies inside the frame exactly when the blob keeps 20 pixels from every frame edge. |
| BlobExtractor.SelectedLabels | sources/blob_player_extractor.cpp:90-91 | The selected labels are exactly the keys whose size reaches 800, in strictly increasing order. |
| BlobExtractor.Large | sources/blob_player_extractor.cpp:91 | Keeping the large labels of a walk never lengthens it, and every label kept has a size of at least 800. |
| BlobExtractor.SelectedLabelsCount | sources/blob_player_extractor.cpp:90-91 | There is one selected label per key whose size reaches 800. |
| Shapes.Player.constructor | sources/blob_player_extractor.cpp:92 | A new player has the given crops, position and frame index, and no features. |
| BlobExtractor.CutOutPlayer | sources/blob_player_extractor.cpp:92-120 | Returns a fresh player. Its position is the padded tight box of the label, cut from the mask frame and the original frame, with the frame's index. |
| BlobExtractor.VisitLabel | sources/blob_player_extractor.cpp:91-122 | A player is appended exactly when the blob's size reaches 800, and the players stay distinct. |
| BlobExtractor.WalkStep | sources/blob_player_extractor.cpp:90 | Visiting the least remaining key keeps the visited keys followed by the remaining keys equal to the ascending key order. The chosen labels stay the large visited ones. |
| BlobExtractor.ExtractPlayers | sources/blob_player_extractor.cpp:89-123 | The players correspond one for one, in order, to the selected labels. Each is the cut-out of its label's padded tight box, and no player appears twice. |
| BlobExtractor.LabelFrame | sources/blob_player_extractor.cpp:13-87 | Every foreground cell carries `Canonical` of the provisional label `Labelling` gave it, and every background cell carries 0. Each final label is at least 1 and at most the provisional one. Each size is the number of cells carrying the label, at least 1, and the sizes sum to the foreground area. |
| BlobExtractor.SelectionBound | sources/blob_player_extractor.cpp:89-123 | 800 times the number of selected blobs is at most the total blob size. |
| BlobExtractor.NoForegroundNoSelection | sources/blob_player_extractor.cpp:89-123 | When no pixel is foreground, no label is selected. |
| BlobExtractor.ExtractPlayerFromFrame | sources/blob_player_extractor.cpp:11-126 | The label grid holds the canonical labels of the labelling pass. The players are the distinct cut-outs of the blobs of at least 800 pixels, in ascending label order. There are at most foreground area / 800 of them, and none for an empty mask. |
| DpmDetector.Max | sources/dpm_detector.cpp:329-332 | The result is at least both arguments and is one of them. |
| DpmDetector.Half | sources/dpm_detector.cpp:346-349 | C++ `/ 2` truncates toward zero: the remainder is in [0, 1] for nonnegative values and in [-1, 0] for negative ones. |
| DpmDetector.TorsoRect | sources/dpm_detector.cpp:343-351 | The torso's origin lies between the two parts' origins, and its far corner between their far corners. |
| DpmDetector.TorsoOfEqualParts | sources/dpm_detector.cpp:346-351 | Two equal parts give that very rectangle as the torso. |
| DpmDetector.TorsoSymmetric | sources/dpm_detector.cpp:346-351 | The torso does not depend on the order of the two parts. |
| DpmDetector.WithTorso | sources/dpm_detector.cpp:352-354 | The body parts are kept. The torso and its mask are crops of the player's image and mask at the torso rectangle, which is stored as its position. |
| DpmDetector.ExtractTorsoForPlayer | sources/dpm_detector.cpp:334-355 | A null player throws. Fewer than three parts throws and leaves the player unchanged. Otherwise only the torso features change, as `WithTorso` says. |
| DpmDetector.ExtractBodyParts | sources/dpm_detector.cpp:30-41 | A null player throws. Otherwise the detected parts are stored. With none, nothing else happens. With one or two, the torso rule throws after the parts are stored. With three or more, the torso is inferred. |
| DpmDetector.MaxLevel | sources/dpm_detector.cpp:100-104 | The result is at least 0 and at least every level, and is 0 or one of the levels. |
| DpmDetector.FindMaxLevel | sources/dpm_detector.cpp:100-104 | The loop computes `MaxLevel` of the levels. |
| DpmDetector.BestScore | sources/dpm_detector.cpp:105-110 | The result is at least -2 and at least every score at the level, and is -2 or one of those scores. |
| DpmDetector.FindBestScore | sources/dpm_detector.cpp:105-110 | The loop computes `BestScore` of the detections at the level. |
| DpmDetector.Selected | sources/dpm_detector.cpp:119-120 | A detection is selected exactly when its level is at least 0 and no level is above it, and its score is at least -2 and no score at its level is above it. |
| DpmDetector.RectFromCorners | sources/dpm_detector.cpp:121 | `cv::Rect(pt1, pt2)` has nonnegative sides, and the two points are opposite corners. |
| DpmDetector.RectFromCornersSymmetric | sources/dpm_detector.cpp:121 | The corners may be given in either order. |
| DpmDetector.PartBoxes | sources/dpm_detector.cpp:113-124 | There is one box per part, spanning the part's position and its opposite corner. |
| DpmDetector.AppendPartBoxes | sources/dpm_detector.cpp:113-124 | A selected detection appends its `n` part boxes in order. Any other detection appends nothing. |
| DpmDetector.BestPartBoxes | sources/dpm_detector.cpp:112-125 | The boxes of the first `u` detections are a prefix of those of the first `upTo`, for every `u <= upTo`: earlier detections' boxes come first. |
| DpmDetector.DetectBestPartBoxes | sources/dpm_detector.cpp:87-128 | `parts` gains exactly the part boxes of the selected detections, in detection and part order. |
| DpmDetector.BestPartBoxesCount | sources/dpm_detector.cpp:112-125 | `n` boxes are appended per selected detection. |
| DpmDetector.BestPartBoxesFromSelected | sources/dpm_detector.cpp:112-125 | Every appended box spans a part of a detection at the greatest level with the best score. |
| DpmDetector.SomeDetectionSelected | sources/dpm_detector.cpp:100-125 | If some detection at the greatest level scores above -2, at least one detection is selected. |
| DpmDetector.NegativeLevelsSelectNothing | sources/dpm_detector.cpp:100-125 | When every level is negative, the floor of 0 means no detection is selected. |

## Left out

- **Integer width.**
  - Rectangle arithmetic and the torso means are not wrapped to 32 bits.
  - The labelling requires fewer than `INT_MAX` cells, so labels never overflow.
  - The frame's sides must be at most `INT_MAX`, so the sentinels of the box scan stay outside the grid.
- **Pixels.**
  - The mask is modelled as booleans (a nonzero `uchar` is foreground).
  - A crop is recorded as its source image and rectangle. Pixel copies, `clone` and `copyTo` are not modelled.
  - The original frame is taken to have the mask frame's size.
- **Out-of-frame crops.** OpenCV rejects a region of interest that reaches outside the image, and that behaviour is not part of this model. `ExtractPlayers` and `CutOutPlayer` build the rectangle whatever it is. `BlobExtractor.PaddedRectFits` states exactly when it fits the frame.
- ExtractPlayers: states that the players are distinct, but not that every one of them is freshly allocated. Each player comes from `CutOutPlayer`, whose contract states freshness.
- ExtractPlayerFromFrame: likewise states distinct players, not fresh ones. It states the canonical labels of the grid, that every blob's size is at least 1, and that the sizes sum to the foreground area. It does not restate that each size counts the cells of its label. `LabelFrame` states that.
- **Connected components.** The labelling merges equivalence sets only among labels seen together in one window, with no transitive closure. Nothing here claims that the final labels are the connected components of the mask.
- **Unregistered labels.** `Canonical`'s fallback for a label that is not a registered key cannot be reached from the pass, which only looks up registered labels.
- **The detector itself.**
  - The latent-SVM detector, the feature pyramid and `getPartBoxesForImage` are not part of this model. Their result reaches `ExtractBodyParts` as the parameter `detected`.
  - `getOppositePoint` and `powf` are not part of this model either. The opposite corners reach `DetectBestPartBoxes` as the parameter `opposite`.
- **Scores.** Scores are modelled as exact reals. Float rounding and NaN are not modelled.
- **detectBestPartBoxes interface.**
  - `parts` is a vector passed by reference. It is modelled as a value passed in and returned.
  - The constant result `LATENT_SVM_OK`, the unused `image` argument and the filter sizes are dropped.
- **Memory.** Memory management (`new player_t` with no matching `delete`, `malloc` in `customEstimateBoxes`) is not modelled.
- **Other code.** `customEstimateBoxes`, the detector's construction and destruction, and the drawing and I/O code are not part of this model.
