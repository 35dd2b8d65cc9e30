# OptiCut nesting core — a Dafny model

OptiCut is a single-page application that lays demand shapes (rectangles,
squares, circles and right-angled triangles) onto one rectangular board. The
packing itself is done by an external bin-packing library; the application's
own logic is what this project models:

- **the shape catalog and the job queue** (`app.py`, `add_item`): for every
  requested copy of a shape it derives a bounding box and an exact area from
  the shape's parameters, tags it with the shape's colour, the caller's
  rotation flag and a fresh id, and appends the batch to the session's job
  list;
- **the result assembly** (`app.py`, `solve_nesting` after the packer has
  run): it matches every rectangle the packer placed to the first queued
  item with the same id, decides whether it was turned by 90 degrees, builds
  the cutting-list records, and computes the unplaced count, the efficiency
  (exact placed area over board area, as a percentage) and the waste.

Files:

- `basics.dfy` — `Option`, `Result`, `Outcome`, and `Error`, the exceptions
  that can escape the modelled code (the unbound local of an unknown shape
  name, a missing parameter key, division by a zero board area).
- `shapes.dfy` — `ShapeKind`, `Item`, the dispatch `Measure`, the colour map
  `ColorOf` and the exact-area-versus-box lemma.
- `job_queue.dfy` — the class `JobQueue` whose field `items` is the session's
  job list, the `AddItem` loop, and `NewItems`, the function that specifies
  the batch one call appends.
- `nesting.dfy` — the packer output as data (`PackedRect`), the records and
  report, the specification functions `Records`, `PlacedIds`, `UsedArea`, the
  assembly loop `AssembleReport`, and the lemmas about the assembly.

Modelling choices:

- The shape name is a string in the application. It is modelled as
  `ShapeKind` with a fifth case `Other(name)`; `KindOf` maps a name to its
  kind, so `Other` never carries one of the four known names. This way the default colour `#666`
  and the failure on an unknown name are both visible. Such a name assigns no
  box, and building the record raises; with a quantity of 0 or less the loop
  never runs and nothing fails.
- The parameter dictionary is a `map<string, real>`. A missing key is the
  `MissingParameter` error, reported for the first key the code reads.
- Numbers are `real`. The circle area uses the literal 3.14159, exactly.
- The fresh ids (`uuid4` truncated to eight characters) are supplied by the
  caller as the sequence `uids`. Copy k takes `uids[k]`.
- The packer's output is the sequence of rectangles in the first bin. It is
  empty when the packer opened no bin.
- The board is never validated. A board of area 0 is not a precondition:
  `AssembleReport` returns `Failure(ZeroDivision)`, as the division raises.
- The packer is always created with rotation allowed (`app.py:117`). The
  item's `allow_rotation` flag is stored but never consulted, and
  `RotatedDespiteFlag` shows a record reported rotated for an item that does
  not allow rotation.
- Facts about the packer's behaviour are never assumed globally. Lemmas that
  need them take them as preconditions: `DistinctRids` (no two placed
  rectangles share an id) and `PackerKeepsBoxes` (a placed rectangle is the
  item's box, possibly turned).

## Model

| member | source | states |
|---|---|---|
| `Shapes.Measure` | app.py:89-98 | Rectangle and Square give a `w × h` box with area `w·h`. Circle gives a `2r × 2r` box with area `3.14159·r²`. Triangle gives a `b × h` box with area `0.5·b·h`. It succeeds exactly when the kind is known and its keys are present. An unknown kind raises `UnknownShape`. Otherwise the error is a missing key the kind reads. |
| `Shapes.ColorOf` | app.py:84 | The fixed colour map. The default `#666` is returned exactly for a kind outside the map. |
| `Shapes.KindOf` | app.py:90-96 | Maps the shape name to its kind: the four names the dispatch and the colour map compare against become their own kinds, and every other string becomes `Other`. The result is canonical and gives back the same name. |
| `Shapes.KindOfNameOf` | app.py:84 | Every canonical kind is the kind of its own name, so shape names and canonical kinds correspond one to one. |
| `Shapes.ExactAreaWithinBox` | app.py:90-98 | With positive parameters the box sides and the exact area are positive, and the area is at most `w·h`. The area equals `w·h` exactly for Rectangle and Square. |
| `JobQueue.NewItems` | app.py:83-108 | The batch has exactly `qty` records for a positive quantity and none otherwise. Copy k has id `uids[k]`, the caller's kind, parameters and rotation flag, the kind's colour, and the box and area of `Measure`. It fails exactly when at least one copy is requested and the dispatch fails, and then with the dispatch's error. |
| `JobQueue.NewItemsWithinBox` | app.py:89-105 | Every freshly added copy of a known shape with positive parameters has a positive box and `0 < area ≤ w·h`. A circle, and a square whose `w` equals `h`, has equal box sides. |
| `JobQueue.JobQueue.constructor` | app.py:74-75 | A new session starts with an empty job list. |
| `JobQueue.JobQueue.AddItem` | app.py:81-110 | On success the new job list is the old one followed by the batch `NewItems`: earlier entries are unchanged and in order. On failure it reports the dispatch error and the job list is unchanged. |
| `JobQueue.JobQueue.Reset` | app.py:260-262 | The reset action empties the job list. |
| `Nesting.FirstMatch` | app.py:135 | Returns the index of the first item whose id is `rid`, or nothing exactly when no item carries that id. |
| `Nesting.Rotation` | app.py:140-152 | The reported rotation is always 0 or 90. |
| `Nesting.AssembleReport` | app.py:127-164 | Fails with `ZeroDivision` exactly when the board area is 0. Otherwise the placed list is `Records`, `unplaced_count` is the item count minus the number of placed ids, efficiency is `100·UsedArea/(bin_w·bin_h)`, and efficiency + waste = 100. With no records the efficiency is 0 and the waste 100. With an empty packer result the report is `([], len(items), 0, 100)`. |
| `Nesting.RecordsFaithful` | app.py:133-155 | Each record comes from a packed rectangle whose id names a queued item. It copies `x, y, width, height` from that rectangle, and kind, colour and parameters from the first item with that id. Its rotation is 90 exactly when that item's box width differs from the packed width, and 0 otherwise. |
| `Nesting.RecordsComplete` | app.py:133-155 | The converse of `RecordsFaithful`, with order. There is one record per packed rectangle that matches a queued item. The record of rectangle j sits at the index given by the number of matched rectangles before it. So records follow packing order, and none is repeated or omitted. |
| `Nesting.PlacedIdsExact` | app.py:133-138 | An id is in the placed-id set exactly when some packed rectangle and some queued item both carry it. Rectangles whose id matches no item contribute nothing. |
| `Nesting.UnplacedNonNegative` | app.py:128-160 | The placed ids are ids of queued items, so `unplaced_count` is never negative. |
| `Nesting.Conservation` | app.py:145-160 | When no two packed rectangles share an id, there is one record per placed id. Then `len(placed) + unplaced_count == len(items)`. |
| `Nesting.NothingPlacedNothingUsed` | app.py:129-161 | Without any record the used area is 0, so the efficiency is 0. |
| `Nesting.RotationMeansSwapped` | app.py:141-152 | If the packer keeps each item's box, possibly turned, an unrotated record has the item's own box. A rotated record has the box swapped and a non-square box. So an item with `w == h` is never reported rotated. |
| `Nesting.UsedAreaWithinBoxes` | app.py:156 | The used area sums exact item areas. When every exact area lies within its item's box and the packer keeps boxes, the used area is between 0 and the summed box area of the records. |
| `Nesting.DuplicateIdsBreakConservation` | app.py:135-160 | Two queued items with the same id, both packed, give two records that both copy the first item. They count as one placed id, so records plus unplaced is 3 for a queue of 2. |
| `Nesting.RotatedDespiteFlag` | app.py:117 | The packer always may rotate and the flag is not consulted. An item with `allow_rotation` false, packed turned, is reported with rotation 90. |

## Left out

- The packing itself: the external bin-packing library (`app.py:5`, `app.py:117-124`) is not part of this model. Its output is an input. No-overlap and containment of the placements are neither assumed nor proved.
- The solve duration (`time.time()`, `app.py:123-125`) and the delay before solving (`app.py:326`) are wall-clock I/O. The `Report` has no time field.
- Id generation (`uuid4`, `app.py:87`) is random. The ids are a parameter, and they may collide, which is why `Conservation` requires distinct ids.
- The chart (`plot_interactive_nesting`, `app.py:166-243`) and the page, the sidebar, the input widgets, the queue preview and the CSV export (`app.py:1-77`, `app.py:245-373`) are presentation.
- Floating point: efficiency and waste are computed over exact reals, so the rounding of Python floats is not modelled.
- Fractional quantities: `int(qty)` is modelled on an integer quantity, as the input widget provides one. The truncation of a fractional quantity is not modelled.
