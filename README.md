# End-screen video wall archive: a Dafny model

The userscript `auto_capture_yt_endscreen_videowall.js` watches a video
player. When playback ends, it snapshots the end-screen "video wall" (the
grid of recommended videos). It stores the snapshot in an IndexedDB object
store and deletes snapshots older than seven days. Pressing a key shows
every stored wall in an overlay, newest first.

This project models the logic of that script that can be stated exactly:

- **Time bucketing** (`Timestamps`). `normalizeTimestamp` turns an instant
  into an integer bucket, and the reader turns a bucket back into a display
  time. `timestamp_norfac` is 5000 ms.
- **The keyed store** (`KeyOrder`, `WallStore`). The object store is a class
  `Store` holding a `map` keyed by the composite key `(timestamp, videoId)`.
  - `saveWall` puts a record and replaces any record with the same key.
  - `cleanup` walks the keys with a cursor in ascending key order and deletes
    every record whose bucket is below the bucket of `now - 7 days`.
  - `openDB` upgrades an older database by dropping and recreating the
    object store.
- **Record building** (`Capture`). `captureWall` turns the wall's tiles into
  a record and then runs the put followed by the sweep. It keeps the tile
  order, defaults missing strings to `""`, strips one leading `"Watch "` from
  titles, and counts the tiles level with the first one to get the column
  count.
- **Presentation arithmetic** (`Render`). `renderWalls` sorts the walls
  newest first, in place on an array. For each wall it falls back to 3
  columns when `colCount` is 0, takes `rowCount = ceil(n / colCount)`, and
  places tile `i` column-major at row `i % rowCount + 1`, column
  `floor(i / rowCount) + 1`.

What is proved, briefly:

- A bucket is the nearest integer to `ms / 5000`, with halves rounding up.
  This makes bucketing monotone. A displayed time is within 2500 ms of the
  captured instant, and bucketing a displayed time gives back its bucket.
- A put leaves exactly one record under its key and changes no other key. A
  second put under the same key erases all trace of the first.
- A sweep removes exactly the expired records and nothing else. A second
  sweep with the same cutoff deletes nothing. After the sweep, the cursor has
  stood on every key once, in strictly ascending order.
- A wall captured less than seven days before the sweep survives it.
- A save or cleanup succeeds exactly when the opened database has its
  object store. A database first created by the reader has none.
- The column count is exactly the number of tiles level with the first.
- The sort yields a permutation of the input with non-increasing timestamps.
- Every tile lands inside the `rowCount` x `colCount` grid. No two tiles
  share a cell, and no row is empty. A wall holding an empty link stops
  the whole overlay from being shown.

Inputs stand in for the outside world:

- The clock is a parameter. It is read twice, once when the wall is captured
  and once when the sweep starts.
- The `v` query parameter is an `Option<string>`.
- Each DOM tile is an `Element` value holding what the code reads from it:
  `href`, `ariaLabel`, the duration text, and the integer `top` of its box.

Notes on the code as written:

- There is no paged reader. `renderWalls` renders all walls at once, and so
  does the model.
- Writer and reader use the same constant, `timestamp_norfac = 5000`,
  declared once (:288). The comment at :35 speaks of rounding to the
  second, which would be a factor of 1000.
- Two instants less than half a granularity apart can still get different
  buckets, for example 2499 ms and 2501 ms. `Timestamps.NearbyInstants`
  proves what does hold: buckets of instants less than one granularity apart
  differ by at most one.

- The reader's `openDB` (:114-120) opens the same database at version 1
  but has no `onupgradeneeded` handler. If the overlay key is pressed on a
  profile where nothing has been captured yet, the database is created at
  version 1 without the `walls` object store. From then on the writer's
  `openDB` finds version 1 and does not upgrade, so every `saveWall` and
  every `cleanup` fails at `db.transaction`. `WallStore.ReaderFirstBlocksCapture`
  proves this sequence. `WallStore.WriterFirstSavesCapture` proves that a
  capture on a fresh profile works.
- A tile without `href` is stored with link `""` (:80). Rendering such a
  record makes `new URL("")` (:215) throw before the overlay is attached,
  so the overlay shows nothing at all. `Render.RenderWalls` models this
  throw, and `Capture.TileWithoutHrefIsNotShown` connects it to capture.
- The outer function opened at :1 is never closed: `})();` at :106 closes
  only `waitForPlayer`, opened at :92. As given, the file does not parse.
  The model follows each function as it would behave once the missing
  `})();` after :106 is restored.

## Model

| member | source | states |
|---|---|---|
| Timestamps.Normalize | auto_capture_yt_endscreen_videowall.js:34-37 | the bucket `b` is the rounding of `ms / 5000` with halves up: `b*5000 - 2500 <= ms < b*5000 + 2500` |
| Timestamps.DisplayTime | auto_capture_yt_endscreen_videowall.js:179 | the display time `bucket * 5000` lies in the window of its own bucket |
| Timestamps.Cutoff | auto_capture_yt_endscreen_videowall.js:39-40 | the cutoff is the bucket of `now - 7*24*60*60*1000` |
| Timestamps.BucketUnique | auto_capture_yt_endscreen_videowall.js:36 | an instant has exactly one bucket: any `b` whose window holds `ms` is `Normalize(ms)` |
| Timestamps.NormalizeMonotone | auto_capture_yt_endscreen_videowall.js:36 | a later instant never gets an earlier bucket |
| Timestamps.DisplayTimeError | auto_capture_yt_endscreen_videowall.js:179 | the displayed time differs from the captured instant by more than -2500 and at most 2500 ms |
| Timestamps.NormalizeDisplayTime | auto_capture_yt_endscreen_videowall.js:179 | bucketing a displayed time returns the original bucket |
| Timestamps.NearbyInstants | auto_capture_yt_endscreen_videowall.js:36 | instants less than 5000 ms apart get the same or adjacent buckets |
| Timestamps.NearbyInstantsMaySplit | auto_capture_yt_endscreen_videowall.js:36 | 2499 ms and 2501 ms fall in buckets 0 and 1 |
| WallStore.KeyOf | auto_capture_yt_endscreen_videowall.js:15 | a record's key is its `timestamp` paired with its `videoId` |
| KeyOrder.LeastKeyExists | auto_capture_yt_endscreen_videowall.js:45-52 | every non-empty set of composite keys has a least key in cursor order |
| KeyOrder.StrLess | auto_capture_yt_endscreen_videowall.js:45 | string order is strict: a string is never below itself, a smaller string is never empty; it is irreflexive, transitive and total (lemmas `StrLessIrreflexive`, `StrLessTransitive`, `StrLessTotal`) |
| KeyOrder.KeyLess | auto_capture_yt_endscreen_videowall.js:15-45 | composite keys are ordered by timestamp first: a smaller timestamp means a smaller key, a smaller key never has a larger timestamp, and a key is never below itself |
| KeyOrder.KeyLessTotal | auto_capture_yt_endscreen_videowall.js:45 | any two distinct composite keys are ordered one way or the other |
| KeyOrder.KeyLessTransitive | auto_capture_yt_endscreen_videowall.js:45 | the key order is transitive |
| WallStore.Put | auto_capture_yt_endscreen_videowall.js:22-27 | after `put(w)`, `w` is the one record under its key; other keys are unchanged; the store grows by one only when the key was new |
| WallStore.PutKeyed | auto_capture_yt_endscreen_videowall.js:15 | a put keeps every record under the key its own `(timestamp, videoId)` gives |
| WallStore.PutOverwrites | auto_capture_yt_endscreen_videowall.js:27 | a second put under the same key leaves the store as if only the second had happened |
| WallStore.Sweep | auto_capture_yt_endscreen_videowall.js:49-51 | the records left are unchanged and not below the cutoff; every record at or above the cutoff is kept |
| WallStore.SweepByKeyRange | auto_capture_yt_endscreen_videowall.js:15-50 | on a store keyed by `(timestamp, videoId)`, the sweep keeps exactly the keys whose first component is at or above the cutoff, so it is a delete of a key range |
| WallStore.SweepKeyed | auto_capture_yt_endscreen_videowall.js:15 | a sweep keeps every record under its own key |
| WallStore.SweepIdempotent | auto_capture_yt_endscreen_videowall.js:46-55 | a second sweep with the same cutoff deletes nothing |
| WallStore.SweepTwice | auto_capture_yt_endscreen_videowall.js:40 | two sweeps in a row equal one sweep with the larger cutoff |
| WallStore.SweepShrinks | auto_capture_yt_endscreen_videowall.js:49-50 | a sweep only removes keys and never grows the store |
| WallStore.AfterOpen | auto_capture_yt_endscreen_videowall.js:10-16 | opening a database older than version 1 leaves an empty object store; otherwise the contents are kept |
| WallStore.OpenedVersion | auto_capture_yt_endscreen_videowall.js:9 | opening at version 1 leaves the database at version 1 when it was at most 1, and at its own version otherwise |
| WallStore.CursorAdvance | auto_capture_yt_endscreen_videowall.js:52 | `continue()` moves to a key not yet visited, greater than every visited key, and the visited keys stay exactly those not after the position |
| WallStore.Store.Open | auto_capture_yt_endscreen_videowall.js:7-20 | an older database is reset to an empty object store at version 1; one at version 1 is unchanged, with or without its object store; a newer one fails to open and is unchanged |
| WallStore.Store.ReaderOpen | auto_capture_yt_endscreen_videowall.js:114-120 | the reader's open creates the database at version 1 when absent but never creates the object store; contents are unchanged; a newer database fails to open |
| WallStore.ReaderFirstBlocksCapture | auto_capture_yt_endscreen_videowall.js:114-120 | when the overlay key is pressed before any capture, the database is created without its object store; the following save and cleanup fail, and afterwards the database is still not writable, so (by `Store.SaveWall` and `Store.Cleanup`) no later save or cleanup succeeds |
| WallStore.WriterFirstSavesCapture | auto_capture_yt_endscreen_videowall.js:7-32 | a capture on a fresh profile creates the object store and saves its record under its key |
| WallStore.Store.SaveWall | auto_capture_yt_endscreen_videowall.js:22-32 | the save succeeds exactly when the opened database has the object store; then the store is the put of the record into the opened contents; otherwise no record changes |
| WallStore.Store.Cleanup | auto_capture_yt_endscreen_videowall.js:39-60 | the cleanup runs exactly when the opened database has the object store; then the store is the sweep at cutoff `Cutoff(now)` and the cursor visits every key of the opened store once, in strictly ascending order; otherwise no record changes |
| Capture.OrEmpty | auto_capture_yt_endscreen_videowall.js:71-82 | a possibly absent string defaults to `""`; a present one is kept as it is; this gives the video id from the `v` parameter (:71), the link (:80) and the length (:82) |
| Capture.StripWatch | auto_capture_yt_endscreen_videowall.js:81 | with a leading "Watch ", the result is the rest of the text; otherwise it is the text unchanged |
| Capture.TitleOf | auto_capture_yt_endscreen_videowall.js:81 | a missing label gives `""`; a label with the leading "Watch " loses exactly that prefix; any other label is the title unchanged |
| Capture.TitleStripsOnePrefix | auto_capture_yt_endscreen_videowall.js:81 | the title of label `"Watch " + t` is `t`, so only one prefix is removed |
| Capture.TitleKeepsOtherLabels | auto_capture_yt_endscreen_videowall.js:81 | a label without the prefix is the title; a missing label gives `""` |
| Capture.TitleNoLonger | auto_capture_yt_endscreen_videowall.js:81 | the title is never longer than the label |
| Capture.ItemsOf | auto_capture_yt_endscreen_videowall.js:79-84 | one item per tile, item `i` built from tile `i` |
| Capture.ItemOf | auto_capture_yt_endscreen_videowall.js:79-84 | the item's link is `href` or `""`, its title is the stripped label, its length is the duration text or `""` |
| Capture.Tops | auto_capture_yt_endscreen_videowall.js:75 | the tops of all tiles, in tile order |
| Capture.LevelIndicesStep | auto_capture_yt_endscreen_videowall.js:77 | the indices level with the first top among `tops + [t]` are those among `tops`, plus the new index when `t` is level |
| Capture.CountInRow | auto_capture_yt_endscreen_videowall.js:77 | the count is exactly the number of indices whose top is within 5 of the first top; it is at most the number of tops, and at least one when any top qualifies |
| Capture.InferColCount | auto_capture_yt_endscreen_videowall.js:72-78 | with tiles, the column count is exactly the number of tiles within 5 of the first tile's top, so between 1 and the number of tiles; without tiles it is 4 |
| Capture.BuildWall | auto_capture_yt_endscreen_videowall.js:69-85 | the record's timestamp is the bucket of the capture instant; it has one item per tile; with tiles, its column count is the number of tiles level with the first one |
| Capture.BuildWallShape | auto_capture_yt_endscreen_videowall.js:69-85 | the record's key is `(bucket, v or "")`; its column count is the number of tiles level with the first one, so 1 to n; one item per tile in order; link and length default to `""` |
| Capture.RecaptureInSameBucketOverwrites | auto_capture_yt_endscreen_videowall.js:70-71 | two captures after the same video in one bucket leave only the later record |
| Capture.CapturedWallSurvives | auto_capture_yt_endscreen_videowall.js:87 | a wall put and then swept less than 7 days later is still stored, unchanged |
| Capture.TileWithoutHrefIsNotShown | auto_capture_yt_endscreen_videowall.js:215 | a tile without `href` yields a record the overlay cannot lay out |
| Capture.CaptureWall | auto_capture_yt_endscreen_videowall.js:65-90 | with no tiles the store is unchanged; otherwise, when the opened database has the object store, the store becomes the sweep at the second clock reading of the put of the built record; when it has none or cannot be opened, no record changes; the new version and object-store flag are those the writer's open leaves, and with no tiles both are unchanged |
| Render.Columns | auto_capture_yt_endscreen_videowall.js:186 | the column count is at least 1: the record's `colCount`, or 3 when that is 0 |
| Render.RowCount | auto_capture_yt_endscreen_videowall.js:187 | `rows` is the ceiling of `n / cols`: the grid holds all `n` tiles and one row fewer would not |
| Render.CellAt | auto_capture_yt_endscreen_videowall.js:193-202 | a cell's grid position is the column-major placement of its index |
| Render.Placement | auto_capture_yt_endscreen_videowall.js:194-195 | tile `i` goes to a row in `1..rows` and a column from 1, and `i == (col - 1) * rows + (row - 1)`, so the placement is column-major and reversible |
| Render.ShownTitle | auto_capture_yt_endscreen_videowall.js:239 | an empty title shows as "(untitled)"; any other title is shown as it is |
| Render.ShownDuration | auto_capture_yt_endscreen_videowall.js:250 | an empty length shows as `""`; any other length is shown padded with one space on each side |
| Render.PlacementInGrid | auto_capture_yt_endscreen_videowall.js:194-195 | every tile index `i < n` gets a row in `1..rows` and a column in `1..cols` |
| Render.PlacementInjective | auto_capture_yt_endscreen_videowall.js:194-195 | distinct tile indices get distinct (row, column) pairs |
| Render.EveryRowUsed | auto_capture_yt_endscreen_videowall.js:187-195 | every row `r` of the grid holds a tile, namely tile `r - 1` in column 1 |
| Render.SortNewestFirst | auto_capture_yt_endscreen_videowall.js:173 | after the in-place sort, timestamps never increase along the array, and the array holds the same walls |
| Render.LayOutGrid | auto_capture_yt_endscreen_videowall.js:193-263 | the layout completes exactly when every item has a non-empty link (`new URL("")` throws, :215); then there is one cell per item, item `i` at its column-major placement; every cell laid out lies inside the grid and no two share a position |
| Render.RenderWalls | auto_capture_yt_endscreen_videowall.js:172-267 | the walls are sorted newest first as a permutation; the overlay is shown exactly when every item of every wall has a link, and otherwise no view is produced; when shown, view `i` shows wall `i` with header time `timestamp * 5000`, its video id, its columns, its rows and its laid-out cells |

## Left out

- IndexedDB requests, transactions and promises are replaced by in-memory
  state and plain sequential calls. This covers `onsuccess`, `oncomplete`,
  `onerror`, `reject`, and the `then` chaining (:8-31, :41-59, :115-131).
  Three failures are modelled: a database newer than version 1 cannot be
  opened (`Store.Open`, `Store.ReaderOpen`); `db.transaction` throws when
  the object store is missing (:25, :43), so `Store.SaveWall` and
  `Store.Cleanup` fail; and `new URL("")` throws (:215), so
  `Render.LayOutGrid` stops and `Render.RenderWalls` shows nothing. Quota,
  permission and transaction-abort failures are not modelled.
- `getAllWalls` (:122-132) is not part of this model: `RenderWalls` takes
  any array of walls. The reader's `openDB` (:114-120) is modelled as
  `Store.ReaderOpen`.
- `new URL(item.link)` (:215) is modelled only for the empty link, which is
  what a tile without `href` is stored with. Links read from anchors are
  absolute, so no other link is treated as invalid.
- DOM queries and geometry (`querySelectorAll`, `getBoundingClientRect`,
  :66, :73-75) are replaced by `Element` values. Tile tops are integers, not
  floating-point pixels.
- `URLSearchParams` and `URL` parsing (:71, :215) is replaced by the
  `Option<string>` value of `v`. The thumbnail URL (:215-221) is not
  modelled.
- `Math.round(ms / 5000)` is modelled as exact integer rounding. The
  floating-point division is not modelled.
- `Date.now()` is a parameter. `toLocaleString` date formatting (:179) is not
  modelled; the view carries the millisecond display time.
- Player polling, the `onStateChange` listener, the one-second delay, the
  keydown toggle, overlay removal and the close button (:92-105, :136-140,
  :161-170, :279-286) are event and UI wiring.
- Overlay and cell styling, element creation and `console.log` are left out.
- The commented-out code (:224-236, :272-276) is not modelled.
- Render.SortNewestFirst: does not state that walls with equal timestamps
  keep their relative order. The JavaScript sort is stable, and so is the
  insertion sort in the model, but stability is not proved.
- KeyOrder.StrLess: compares Dafny characters (Unicode scalar values), not
  UTF-16 code units as IndexedDB does. The two orders differ only for
  characters outside the Basic Multilingual Plane. Only the order in which
  the cursor visits keys depends on this. Which records the sweep deletes
  does not.
