# Division-aligned cell tracks: a Dafny model

This project models the discrete core of a small set of analysis scripts for
cell tracks found by TrackMate in fluorescence-microscopy timelapses.

- **Division-candidate detector** (`Detector.dfy`). It models
  `src/TrackMate_filter.py`:
  - For every track identifier other than the sentinel `'None'`, it counts the
    records per frame.
  - It flags the track when the first frame holding two or more records has as
    many records as the track's last frame. Such a split persists.
- **Curation renderer** (`Curation.dfy`). It models the same script's
  bounding-box arithmetic:
  - It takes the integer extremes of the track's positions.
  - It applies the `> 10` guard.
  - It computes the crop window and the crop-local marker positions for every
    frame of the track.
- **Division-aligned track table** (`AlignedTracks.dfy`). It models
  `make_division_adjusted_tracks` in `src/data_prepare_nq.py`:
  - It loops over frames 0..199 and over the sorted curated tracks.
  - It builds one row per frame, with seven cells per track and missing cells
    where a track has no record.
  - It keeps the `div_frames` dictionary, which holds each track's first frame
    with more than one record.
  - A post-pass subtracts each track's division frame from its time column.
- **Per-spot features** (`Features.dfy`). It models a `SpotTable` class that
  the three table functions update in place:
  - `add_mean_std` adds the per-frame median of the curated spots and a
    standard deviation column collapsed to one constant, its mean over all rows.
  - `add_intensities` adds the background-subtracted intensities, deletes the
    raw columns and makes the positions whole.
  - `add_classes` adds the two-way quantile class code.
- **Shared definitions** (`Common.dfy`). These are:
  - table cells that may be NaN;
  - Python's truncating `int()` on floats;
  - the 200-frame bound.

pandas' median, standard deviation, mean and `qcut` are function parameters.
The model does not interpret them. `Binning` states the only facts about
`qcut` that the model relies on:
- it returns one bin per value;
- the bin is NaN exactly for a NaN value;
- otherwise the bin lies in `[0, n)`.

Intensities are integers. Positions are reals, and `int()`/`astype(int)`
truncates them toward zero.

### Behaviour of the code that is easy to misread

- **Frame medians in the aligned table.** The medians of the aligned table are
  taken over the spots of curated tracks only. Line 13 filters the table before
  lines 21-22 take the medians. They are not taken over all spots.
- **Unbinnable spots in `add_classes`.** Such a spot does not get a missing
  class. A NaN intensity gives a NaN bin. `(clsCy3 + clsGFP * n_red).astype(int)`
  at line 131 then raises, so the whole call fails (`Classify` returns `Err`).
  When the call succeeds, no bin is ever the `-1` sentinel, so the masking at
  line 132 never produces a missing class. `ClassifyOutcome` proves both facts.
- **Order of the flagged tracks.** The detector treats TRACK_ID as text,
  because a table with spots outside any track holds the string `'None'` in
  that column. `np.unique` then sorts by character (`'10'` before `'2'`), and
  `DetectSplitTracks` returns that order. When a table has no `'None'` entry,
  pandas reads the column as numbers and numpy sorts them numerically. The
  flagged set is the same; only the order of `split_track` differs, and the
  model does not capture the numeric order.
- **Curated list with a repeated identifier.** The post-pass subtracts the
  division frame once for each occurrence of the identifier. `AlignedTime`
  multiplies by the occurrence count, and `TimeZeroAtDivision` is stated for a
  track listed once.

## Model

| member | source | states |
|---|---|---|
| `Detector.DetectSplitTracks` | src/TrackMate_filter.py:26-34 | the flagged identifiers are strictly ascending, so each appears once. An identifier is flagged iff it is a track of the table, it is not `'None'`, and its split persists: a first frame with two or more records has as many records as the track's highest frame |
| `Detector.SplitIsFlagged` | src/TrackMate_filter.py:26-33 | `Flagged` is the per-identifier test of lines 28-33. Keeping the flagged entries of the table's identifier list keeps exactly the tracks other than `'None'` whose split persists (`SplitPersists`) |
| `Detector.UniqueIds` | src/TrackMate_filter.py:27 | `np.unique` of the identifiers: strictly ascending in numpy's string order and holding exactly the table's identifiers |
| `Detector.InsertId` | src/TrackMate_filter.py:27 | one insertion step of `np.unique`: the list stays strictly ascending and holds exactly the old identifiers plus the new one |
| `Detector.LexTotal` | src/TrackMate_filter.py:27 | numpy's string order is total: of two distinct identifiers, one sorts first |
| `Detector.LexTransitive` | src/TrackMate_filter.py:27 | numpy's string order is transitive |
| `Detector.AscendingDistinct` | src/TrackMate_filter.py:27 | a strictly ascending identifier list has no repeats |
| `Detector.FramesOf` | src/TrackMate_filter.py:29 | a track's frame list is non-empty iff the identifier occurs in the table |
| `Detector.HistogramOf` | src/TrackMate_filter.py:30 | `np.unique(arr, return_counts=True)` built one record at a time; the result is a well-formed histogram (ascending distinct frames, positive counts). What it counts is stated by `HistogramCounts` |
| `Detector.HistogramCounts` | src/TrackMate_filter.py:30 | `np.unique(frames, return_counts=True)`: strictly increasing frames, positive counts, each count equal to the frame's number of records, and every frame of the track present |
| `Detector.HistogramSum` | src/TrackMate_filter.py:30 | the counts sum to the track's number of records |
| `Detector.AddFrameRepresents` | src/TrackMate_filter.py:30 | counting one more record keeps the histogram equal to the frames' multiset |
| `Detector.AddFrameAfterLast` | src/TrackMate_filter.py:30 | a record on a frame after every counted frame opens a new last bin with count 1 |
| `Detector.AddFrameAtLast` | src/TrackMate_filter.py:30 | a record on the last counted frame raises that bin's count by one and changes nothing else |
| `Detector.FirstMulti` | src/TrackMate_filter.py:31-32 | the first bin with a count of two or more, or none when every count is below two |
| `Detector.FlagsSplit` | src/TrackMate_filter.py:31-33 | the test itself: some count is at least 2 and the first such count equals `nID[-1]`. `FlagsSplitIff` states what it means for the track's records |
| `Detector.MaxFrame` | src/TrackMate_filter.py:33 | the highest frame of the track, which belongs to the track |
| `Detector.LastBinIsMax` | src/TrackMate_filter.py:33 | `nID[-1]` is the count at the track's highest frame |
| `Detector.FlagsSplitIff` | src/TrackMate_filter.py:31-33 | the histogram test holds iff `SplitPersists` holds. `SplitPersists` is stated on the records themselves: the lowest frame with two or more records has as many records as the highest frame. Both directions are proved |
| `Detector.SingleRecordsNeverFlagged` | src/TrackMate_filter.py:31-32 | a track with one record on every frame is never flagged |
| `Detector.RevertingNotFlagged` | src/TrackMate_filter.py:33 | a track whose last frame's count differs from its first split's count is not flagged |
| `Detector.HistogramNewLast` | src/TrackMate_filter.py:30 | appending a record on a frame after every counted frame appends a bin of count 1 to the histogram of the earlier records |
| `Detector.HistogramRepeatLast` | src/TrackMate_filter.py:30 | appending a record on the last counted frame raises that bin's count by one |
| `Detector.DistinctPair` | src/TrackMate_filter.py:30 | two records on ascending frames give two bins of count 1 |
| `Detector.DistinctTriple` | src/TrackMate_filter.py:30 | three records on ascending frames give three bins of count 1 |
| `Detector.TripleThenRepeat` | src/TrackMate_filter.py:30 | a second record on the third frame gives counts 1, 1, 2 |
| `Detector.RevertingSplit` | src/TrackMate_filter.py:30-33 | for any frames a < b < c < d, records on a, b, c, c, d are not flagged: the first count of 2 differs from the last count of 1 |
| `Detector.PersistingSplit` | src/TrackMate_filter.py:30-33 | for any frames a < b < c < d, records on a, b, c, d, d are flagged: the first count of 2 is the last count |
| `Detector.RevertingExample` | src/TrackMate_filter.py:30-33 | a track on frames 0, 1, 2, 2, 3 is not flagged |
| `Detector.PersistingExample` | src/TrackMate_filter.py:30-33 | a track on frames 0, 1, 2, 3, 3 is flagged |
| `Curation.RecordsOf` | src/TrackMate_filter.py:50-53 | `df[df['TRACK_ID'] == track_id]` holds exactly the track's records and is non-empty for a listed track |
| `Curation.RecordsAt` | src/TrackMate_filter.py:58-59 | the records of one frame of the track are exactly those with that frame |
| `Curation.RecordsOfCounts` | src/TrackMate_filter.py:50 | the track's selection holds each of its records as many times as the table does, and no record of another track |
| `Curation.RecordsAtCounts` | src/TrackMate_filter.py:58 | the frame's selection holds each record on that frame as many times as the track does, and no record of another frame |
| `Curation.MinReal` | src/TrackMate_filter.py:50-53 | `np.min` is one of the values and bounds all of them from below |
| `Curation.MaxReal` | src/TrackMate_filter.py:50-53 | `np.max` is one of the values and bounds all of them from above |
| `Curation.BoundingBox` | src/TrackMate_filter.py:50-53 | `np.int` of `np.min`/`np.max` of the track's x and y positions. Its properties are stated by `BoxOrdered` and `RecordsInsideBox` |
| `Curation.BoxOrdered` | src/TrackMate_filter.py:50-53 | the truncated extremes are ordered: `x_min <= x_max` and `y_min <= y_max` |
| `Curation.RecordsInsideBox` | src/TrackMate_filter.py:50-53 | every record of a non-empty record list, truncated to whole pixels, lies in `[x_min, x_max] × [y_min, y_max]` of that list |
| `Curation.Renderable` | src/TrackMate_filter.py:55 | the guard `np.min([x_min, x_max, y_min, y_max]) > 10`: all four extremes exceed 10 |
| `Curation.CropWindow` | src/TrackMate_filter.py:61-62 | the slice `[y_min - 10 : y_max + 10, x_min - 10 : x_max + 10]` requested from each frame |
| `Curation.Markers` | src/TrackMate_filter.py:58-59 | one marker per record of the frame |
| `Curation.MarkersInsideWindow` | src/TrackMate_filter.py:55-67 | behind the guard, the requested crop window starts at positive indices and every marker `x - x_min + 10` lies in `[10, width - 10]` of that window, likewise for y |
| `Curation.PlotsOf` | src/TrackMate_filter.py:57-59 | one plot per distinct frame, in the order of the frames, each holding that frame's markers |
| `Curation.Plan` | src/TrackMate_filter.py:50-67 | the entry one pass of the rendering loop produces for a track: nothing unless the guard holds, otherwise the crop window and one plot per distinct frame. `PlanMeetsGuard` states its properties |
| `Curation.PlanMeetsGuard` | src/TrackMate_filter.py:50-67 | for a track of the table, an entry is rendered exactly when all four extremes exceed 10. It then has the crop window `[y_min-10, y_max+10) × [x_min-10, x_max+10)`, one plot per distinct frame in ascending order, and every marker inside the window |
| `Curation.RenderTrack` | src/TrackMate_filter.py:50-67 | the loop body for one track produces the entry `Plan` describes, whose guard, window and markers `PlanMeetsGuard` states |
| `Curation.PlansOfAt` | src/TrackMate_filter.py:43-67 | entry `k` of the loop's output is the entry for the `k`-th flagged track |
| `Curation.RenderCuration` | src/TrackMate_filter.py:43-67 | the loop over `split_track` yields one entry per flagged track, in the order of `split_track`. It needs every flagged identifier to occur in the table, as the detector guarantees |
| `AlignedTracks.Sort` | src/data_prepare_nq.py:11 | `sorted(curated_tracks)`: ascending, a permutation of the input |
| `AlignedTracks.InsertSorted` | src/data_prepare_nq.py:11 | insertion keeps the list ascending and adds exactly the new element |
| `AlignedTracks.SelectionsKeepMatching` | src/data_prepare_nq.py:13-26 | the `isin`, frame and track selections (`CuratedOnly` at line 13, `AtFrame` at line 20, `OfTrack` at line 26) keep exactly the matching records |
| `AlignedTracks.SelectionsKeepCounts` | src/data_prepare_nq.py:13-26 | the three selections `CuratedOnly`, `AtFrame` and `OfTrack` keep every passing record as many times as the table holds it and drop every other record (the multiset form) |
| `AlignedTracks.CountAt` | src/data_prepare_nq.py:26-27 | `dxy.shape[0]`: the number of records of track t on frame f. `CountAtIndices` states it as a row count |
| `AlignedTracks.CountAtIndices` | src/data_prepare_nq.py:26-27 | `dxy.shape[0]` is the number of table rows of track t on frame f, repeated records included |
| `AlignedTracks.FirstDivisionBefore` | src/data_prepare_nq.py:15-28 | the value `div_frames[t]` holds once frames `0..n-1` are processed: None at first, then the first frame with more than one record. `FirstDivisionIsFirst` states this |
| `AlignedTracks.FirstDivisionIsFirst` | src/data_prepare_nq.py:15-28 | the recorded frame is below the bound and has more than one record, and no earlier frame does. With no such frame, no frame before the bound has more than one record |
| `AlignedTracks.DivisionUpdateAdvances` | src/data_prepare_nq.py:27-28 | one frame's update sets the entry exactly when the track has more than one record and none was recorded. Afterwards, a track with more than one record always has an entry |
| `AlignedTracks.DivisionFrameStable` | src/data_prepare_nq.py:27-28 | once set, a track's division frame never changes on later frames |
| `AlignedTracks.UpdateDivisionsAdvances` | src/data_prepare_nq.py:25-28 | the inner loop over the curated tracks moves each visited track's entry to its value after this frame, however often the track is listed, and leaves the others alone |
| `AlignedTracks.UpdateDivisions` | src/data_prepare_nq.py:25-28 | `div_frames` after the inner loop over the curated tracks on one frame. The keys are unchanged, and `UpdateDivisionsAdvances` states the values |
| `AlignedTracks.DivFrame` | src/data_prepare_nq.py:46 | `div_frames[t]` after the None-to-0 comprehension. `DivFrameIsFirst` states its meaning |
| `AlignedTracks.DivFrameIsFirst` | src/data_prepare_nq.py:46 | when the track has a frame below 200 with more than one record, `div_frames[t]` is the first such frame. Otherwise it is 0, the same value as a division at frame 0 |
| `AlignedTracks.TrackBlock` | src/data_prepare_nq.py:29-43 | seven cells: all NaN when the track has no record on the frame. Otherwise the frame, the truncated position, and GFP and Cy3 of the first record, with median and mean equal |
| `AlignedTracks.BlocksAt` | src/data_prepare_nq.py:25-43 | `Blocks` is the `row.extend` of line 43 over the curated tracks. Its cell k of the j-th block is cell k of track j's block |
| `AlignedTracks.BlocksSnoc` | src/data_prepare_nq.py:43 | `row.extend` of one more track appends exactly its block |
| `AlignedTracks.RawRow` | src/data_prepare_nq.py:19-43 | a row has `3 + 7·|curated_tracks|` cells |
| `AlignedTracks.RawRowCell` | src/data_prepare_nq.py:23-43 | cell `3 + 7j + k` of a frame's row is cell k of track j's block on that frame |
| `AlignedTracks.FrameRow` | src/data_prepare_nq.py:19-44 | one pass of the inner loop builds that frame's row and advances every `div_frames` entry to its value after that frame |
| `AlignedTracks.RawRows` | src/data_prepare_nq.py:16-44 | 200 rows, each of width `3 + 7·|curated_tracks|` |
| `AlignedTracks.RawRowsAt` | src/data_prepare_nq.py:17-44 | row g of the table is the row built for frame g |
| `AlignedTracks.FrameRows` | src/data_prepare_nq.py:15-44 | after the frame loop, the rows are the 200 frame rows and `div_frames` holds each curated track's first frame with more than one record, or None |
| `AlignedTracks.Columns` | src/data_prepare_nq.py:47-53 | `3 + 7·|curated_tracks|` labels, starting with frame_num and the two frame averages |
| `AlignedTracks.ColumnsAt` | src/data_prepare_nq.py:47-53 | label `3 + 7j + k` is (track j, field k), in the order time, x, y, green median, red median, green mean, red mean |
| `AlignedTracks.ShiftTrackTime` | src/data_prepare_nq.py:56 | `dfo[(t, 'time')] -= d` changes only the columns labelled (t, time), subtracting d from each number and leaving NaN alone |
| `AlignedTracks.TotalShiftOfTime` | src/data_prepare_nq.py:55-56 | the post-pass subtracts `div_frames[t]` from t's time column once per occurrence of t in the list |
| `AlignedTracks.TotalShiftOfOther` | src/data_prepare_nq.py:55-56 | the post-pass leaves every column other than a time column unchanged |
| `AlignedTracks.SubtractDivisionFrames` | src/data_prepare_nq.py:55-56 | every cell of the table equals the raw cell minus its column's total shift, with the shape kept |
| `AlignedTracks.TimeColumnShift` | src/data_prepare_nq.py:55-56 | the time column of block j is shifted by the occurrence count of its track times the track's division frame |
| `AlignedTracks.BlockColumnShift` | src/data_prepare_nq.py:55-56 | the six other columns of a block are not shifted |
| `AlignedTracks.TimeZeroAtDivision` | src/data_prepare_nq.py:29-56 | for a track listed once, the time at a frame with a record is the frame minus the division frame. It is 0 at the recorded division frame |
| `AlignedTracks.FinishedHeaders` | src/data_prepare_nq.py:21-23 | after the post-pass, each row starts with its frame number and the two frame medians. The medians are taken over `GfpValues` and `Cy3Values`, the `'GFP_cmdn'` and `'Cy3_cmdn'` selections of lines 21-22 on the frame's curated records |
| `AlignedTracks.FinishedTimes` | src/data_prepare_nq.py:29-56 | after the post-pass, the time cell of every block is `AlignedTime`: NaN when the track has no record on the frame, otherwise the frame minus the track's occurrence count times its division frame |
| `AlignedTracks.FinishedBlocks` | src/data_prepare_nq.py:38-43 | after the post-pass, the other six cells of every block are those of the track's first record on the frame, or NaN |
| `AlignedTracks.FinishedTable` | src/data_prepare_nq.py:17-56 | the post-pass turns the raw rows into the aligned table |
| `AlignedTracks.AlignRows` | src/data_prepare_nq.py:46-56 | `div_frames` gets 0 for a track that never divides and the first division frame otherwise, and the finished table is the aligned table |
| `AlignedTracks.MakeDivisionAdjustedTracks` | src/data_prepare_nq.py:8-57 | `AlignedTable` holds of the result: the table has 200 rows of width `3 + 7·|curated_tracks|`, row f starting with f and the two curated-spot medians. Each track's block holds its aligned time (NaN without a record) and its first record's values. `div_frames` has exactly the curated tracks as keys, each mapped to its first division frame or 0 |
| `Features.CuratedAtMembers` | src/data_prepare_nq.py:77-91 | `CuratedAt`, the values a frame statistic is taken over, holds exactly those of curated-track rows on that frame |
| `Features.CuratedAtCounts` | src/data_prepare_nq.py:86-91 | each value enters `CuratedAt`, and so a frame's median and std once per curated row on that frame that holds it |
| `Features.FrameFilled` | src/data_prepare_nq.py:83-94 | rows on the same frame hold the same statistic. Rows on frames the loop does not reach keep the initial 0 |
| `Features.FrameFilledStep` | src/data_prepare_nq.py:90-94 | handling frame g through `AssignAtFrame`, the `df.loc[df['FRAME'] == g, column] = v` of lines 93-94, assigns g's statistic to exactly the rows of frame g |
| `Features.FrameStatistics` | src/data_prepare_nq.py:83-94 | the loop over `range(200)` fills the average and std columns frame by frame with the median and standard deviation of the curated values |
| `Features.SpotTable.AddChannelStatistics` | src/data_prepare_nq.py:80-96 | one channel's average column is the per-frame median. Its std column is one constant: `mean` over all rows of the column that holds each row's frame standard deviation, so a frame weighs once per row on it and rows off frames 0..199 contribute their initial 0. That scalar is broadcast to every row by `Constant` (line 96). Nothing else changes |
| `Features.SpotTable.AddMeanStd` | src/data_prepare_nq.py:69-98 | all four channels receive those average and std columns |
| `Features.Normalize` | src/data_prepare_nq.py:105-106 | `nq = cmdn - average`, NaN exactly where the average is NaN. Adding the average back recovers the raw value |
| `Features.Truncated` | src/data_prepare_nq.py:113-114 | every position becomes a whole number, truncated toward zero |
| `Features.TruncatedIdempotent` | src/data_prepare_nq.py:113-114 | truncating whole positions again changes nothing |
| `Features.SpotTable.AddIntensities` | src/data_prepare_nq.py:101-116 | GFP_nq and Cy3_nq are added, the four raw columns are deleted, and the positions are truncated |
| `Features.RowsInBin` | src/data_prepare_nq.py:127-129 | the rows selected by `clsCy3 == cls` are exactly those whose red bin is cls, in strictly ascending row order. `Gather` reads the green values of those rows, in that order, as the input of `qcut` |
| `Features.Scatter` | src/data_prepare_nq.py:128-129 | assigning through the mask changes exactly the selected rows, each receiving its own value |
| `Features.BinGreen` | src/data_prepare_nq.py:125-129 | the loop over `range(n_red)` produces the green-bin column |
| `Features.GreenBinsCases` | src/data_prepare_nq.py:124-129 | `BinnedCell` holds for every row after red bins `0..c-1` are handled: a row whose red bin was handled gets a green bin in `[0, n_green)`, or NaN exactly when its green value is NaN. Every other row keeps `-1` |
| `Features.GreenBins` | src/data_prepare_nq.py:125-129 | the `clsGFP` column after the loop has handled red bins `0..c-1`: one cell per spot. `GreenBinsCases` states the cells |
| `Features.Classify` | src/data_prepare_nq.py:124-132 | the outcome of `add_classes` on the two intensity columns: an error when `astype(int)` meets a NaN bin, otherwise one class per spot. `ClassifyOutcome` states when each case happens and what the classes are |
| `Features.ClassCode` | src/data_prepare_nq.py:131-132 | the class is missing exactly when either bin is the `-1` sentinel, never 0 |
| `Features.ClassCodeDecodes` | src/data_prepare_nq.py:131 | bins in range give a class in `[0, n_red·n_green)`, with red = class mod n_red and green = class div n_red |
| `Features.ClassifyOutcome` | src/data_prepare_nq.py:119-134 | `add_classes` fails iff some spot has a NaN intensity. Otherwise every spot's class is a number in `[0, n_red·n_green)` that decodes to its red and green bins |
| `Features.SpotTable.AddClasses` | src/data_prepare_nq.py:119-134 | on success, the class column is added under `prefix_cls{n_red}x{n_green}`. On failure, the table is unchanged |
| `Common.Trunc` | src/data_prepare_nq.py:38 | `astype(int)` (and `np.int`): truncation toward zero; the result is within 1 of the value, on the side of zero |
| `Common.ShiftCell` | src/data_prepare_nq.py:56 | `-=` on one cell: NaN stays NaN, and a number `v` becomes `v - d`, so adding `d` back recovers it |

## Left out

- File and directory I/O is not modelled:
  - reading and writing CSV files;
  - the `split_track.npy` cache and its existence check;
  - `os.listdir`;
  - the per-track `mkdir` and its existence guard (`src/TrackMate_filter.py:44-45`).
  `RenderCuration` renders every flagged track.
- Image loading, percentile clipping, plotting and PNG output are left out. They
  are floating-point and matplotlib work. The model stops at the crop window and
  the marker positions.
- The image's size is not modelled. numpy clips the slice of
  `src/TrackMate_filter.py:61-62` at the right and bottom edges of the image,
  so near those edges the actual crop is narrower than `Window`. The marker
  bounds of `Curation.MarkersInsideWindow` and `Curation.PlanMeetsGuard` are
  stated against the requested window, where the far-side margin is at least
  10; against a clipped crop it can be smaller.
- The internals of pandas' median, standard deviation, mean and `qcut` are left
  out. They are parameters, and `qcut`'s own errors (non-unique bin edges, an
  empty selection) are not modelled.
- Floating-point intensities are modelled as integers. Averages are integers or
  NaN.
- `clean_df`, `src/const.py`, the argparse entry point, the progress output and
  the hard-coded curation dictionaries are left out as I/O glue.
  `SpotTable.constructor` stands for the cleaned table as read back.
- `Features.Truncated`: the positions keep a real type holding whole values.
  The change of the column's dtype to integer is not represented.
- `Features.SpotTable.AddClasses`: on failure the table is left unchanged. In
  the source, the temporary `clsCy3` and `clsGFP` columns remain in the caller's
  frame when `astype(int)` raises.
- `Features.SpotTable.AddChannelStatistics`: the frame loop fills local columns
  and stores them once. The source writes into the frame on every iteration;
  the final columns are the same.
