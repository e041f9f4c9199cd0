# Sparse Game of Life engine, modelled in Dafny

This project models the simulation engine of a Game of Life viewer: the class
`GameOfLife` in `GameOfLife.py`. The engine keeps only the set of live cells, as
integer pairs on an unbounded grid where negative coordinates are allowed. One
generation works in three steps:

- tally the live neighbours of every cell that touches a live cell;
- apply Conway's rule: birth on 3, survival on 2 or 3;
- swap the new set in.

A seed comes from a decoded RGB image. Pixels are sampled with a stride. Only pure
white `(255, 255, 255)` pixels are alive. Pixel `(x, y)` becomes cell
`(x / stride, y / stride)`. The result can be cropped so that its smallest x and
smallest y are 0.

Files:

- `grid.dfy` (module `Grid`): cells, Moore adjacency, the 8-neighbour enumeration,
  translation of a set of cells, and least/greatest coordinates.
- `life.dfy` (module `Life`): the rule and `NextGeneration`, a set-level reference
  definition of one generation. It also holds the two loops of a step as methods
  and the class `GameOfLife`, with its constructor, `Step`, `Bounds` and `FromImage`.
- `seeding.dfy` (module `Seeding`): pixels, the sampling loops and the crop.
- `patterns.dfy` (module `Patterns`): the block still life and the period-2 blinker,
  worked out against the rule.

`Step` is proved against `NextGeneration`. `NextGeneration` is in turn proved to
have the closed form "alive next iff (alive and 2 or 3 live neighbours) or (dead and
exactly 3)". The image loader is proved against `SampledCells` and `Crop`, whose
properties are stated and proved separately.

## Model

| member | source | states |
|---|---|---|
| `Grid.Neighbors` | GameOfLife.py:24-30 | yields 8 pairwise distinct cells. Each is adjacent to (x, y): it differs by at most 1 per axis and is not (x, y) itself. Every adjacent cell is among them. |
| `Grid.Translate` | GameOfLife.py:88 | the set comprehension that moves every cell by the same offset; the moved set is empty exactly when the original is |
| `Grid.TranslateMember` | GameOfLife.py:88 | a cell is in the shifted set iff the cell it was shifted from is in the original set |
| `Grid.TranslateCardinality` | GameOfLife.py:88 | shifting every cell by the same offset keeps the number of cells, so no two cells merge |
| `Grid.MinOf` | GameOfLife.py:86-87 | `min` over a non-empty set of coordinates gives a member of the set that no member undercuts |
| `Grid.MaxOf` | GameOfLife.py:98-100 | `max` over a non-empty set of coordinates gives a member of the set that no member exceeds |
| `Life.LiveCountAtMostEight` | GameOfLife.py:36-41 | no cell has more than 8 live neighbours |
| `Life.TallyInsert` | GameOfLife.py:39-41 | counting one more live cell a adds one to the tally of each neighbour of a, and to nothing else |
| `Life.BumpNeighbors` | GameOfLife.py:40-41 | starting from the tally of the cells counted so far, the loop over the 8 neighbours of one more live cell a gives that tally with 1 added for each neighbour of a. A neighbour not yet in the tally starts at 0. Every other cell keeps its count. |
| `Life.TallyBounded` | GameOfLife.py:36-41 | every count in a complete tally lies between 1 and 8 |
| `Life.TallyNeighbors` | GameOfLife.py:36-41 | after the counting loop, the tally's keys are exactly the cells with at least one live neighbour. Each key maps to its number of live Moore neighbours, which lies between 1 and 8. |
| `Life.NextFromTally` | GameOfLife.py:43-51 | the rule loop over a tally of `live` builds exactly the next generation of `live` |
| `Life.LivesOn` | GameOfLife.py:46-51 | the B3/S23 branch: 3 live neighbours always gives a live cell; 2 keeps a cell as it was, alive or dead; any other count gives a dead cell |
| `Life.NextGenerationMembers` | GameOfLife.py:43-53 | a cell is alive next iff it is alive with 2 or 3 live neighbours, or dead with exactly 3 |
| `Life.EmptyIsFixedPoint` | GameOfLife.py:36-53 | the empty grid stays empty |
| `Life.BornNextToLife` | GameOfLife.py:39-51 | every cell alive after a step was adjacent to a cell alive before it |
| `Life.IsolatedCellDies` | GameOfLife.py:39-51 | a live cell with no live neighbour is dead after a step |
| `Life.LiveNeighborsTranslate` | GameOfLife.py:36-41 | shifting the live set shifts every cell's live neighbours with it and keeps their count |
| `Life.TranslationCommutes` | GameOfLife.py:35-53 | one generation of a shifted pattern is the shifted generation of the pattern |
| `Life.TranslationCommutesN` | GameOfLife.py:35-53 | the same holds for any number n of generations. So the crop in the loader changes where a seed sits, never how it evolves. |
| `Life.GameOfLife.constructor` | GameOfLife.py:18-19 | the engine starts with the given cells, or with no live cell when none are given. The argument defaults to `None`, as `alive=None` does. |
| `Life.GameOfLife.Step` | GameOfLife.py:35-53 | the live set is replaced by the next generation of the old live set |
| `Life.GameOfLife.Bounds` | GameOfLife.py:95-100 | None iff nothing is alive. Otherwise every live cell lies in [minX, maxX] × [minY, maxY], and a live cell touches each of the four edges. |
| `Life.GameOfLife.FromImage` | GameOfLife.py:58-90 | the new engine's live set is the sampled seed. When cropping is asked for and the seed is non-empty, it is the cropped seed instead. An empty seed is never cropped. The stride and the crop flag are name-only parameters with defaults 1 and `true`, like the keyword-only `sample_step=1` and `crop_to_content=True`. |
| `Seeding.SampledCells` | GameOfLife.py:78-81 | cell (i, j) is in the seed iff the stride is positive, i·s < width, j·s < height and pixel (i·s, j·s) is exactly (255, 255, 255) |
| `Seeding.SampleImage` | GameOfLife.py:76-81 | the nested stride loops collect exactly the seed cells above. A negative stride collects nothing. |
| `Seeding.UnalignedPixelIgnored` | GameOfLife.py:78-81 | a pixel whose x or y is not a multiple of the stride is never sampled |
| `Seeding.SingleWhitePixel` | GameOfLife.py:78-88 | an image whose only white pixel is (x, y) seeds exactly {(x, y)} with stride 1, and exactly {(0, 0)} once cropped |
| `Seeding.Crop` | GameOfLife.py:85-88 | the crop of a non-empty seed, which moves every cell by (−min x, −min y); it keeps the number of cells, so no two cells merge |
| `Seeding.CropShifts` | GameOfLife.py:85-88 | every cropped cell is the seed cell shifted by the same offset (−min x, −min y) |
| `Seeding.CropNonNegative` | GameOfLife.py:85-88 | no cropped cell has a negative coordinate |
| `Seeding.CropTouchesAxes` | GameOfLife.py:85-88 | after cropping, some cell has x = 0 and some cell has y = 0, so both minima are 0 |
| `Seeding.CropByLeast` | GameOfLife.py:86-88 | shifting by the minima found by the two `min` passes is the crop |
| `Seeding.LeastX` | GameOfLife.py:86 | one pass over a non-empty set finds an x that some cell has and that no cell undercuts |
| `Seeding.LeastY` | GameOfLife.py:87 | one pass over a non-empty set finds a y that some cell has and that no cell undercuts |
| `Patterns.BlockIsStillLife` | GameOfLife.py:35-53 | the 2×2 block {(0,0),(1,0),(0,1),(1,1)} is unchanged by a generation |
| `Patterns.HorizontalBlinks` | GameOfLife.py:35-53 | {(0,0),(1,0),(2,0)} becomes {(1,-1),(1,0),(1,1)} |
| `Patterns.VerticalBlinks` | GameOfLife.py:35-53 | {(1,-1),(1,0),(1,1)} becomes {(0,0),(1,0),(2,0)} |
| `Patterns.BlinkerHasPeriodTwo` | GameOfLife.py:35-53 | two generations bring the horizontal blinker back to itself |

## Left out

- Image decoding is not modelled. `Image.open(path).convert("RGB")` and `img.load()` open a file and call into PIL. The model takes the decoded image as an `array2<Rgb>` indexed `[x, y]`, with width `Length0` and height `Length1`. Decode errors are not modelled either.
- A zero `sample_step` is a precondition (`sampleStep != 0`), not an error result. Python's `range` raises `ValueError` for a zero step. A negative step is not an error in the code: both `range`s are empty, so the engine starts empty, and the model does the same. Treating every stride below 1 as an invalid argument would differ from the code, so the model does not.
- The constructor accepts any iterable in the code, possibly with repeated cells. In the model it takes the set of those cells, `Option<set<Cell>>`, since duplicates collapse in the code anyway.
- Python iterates the live set in hash order (GameOfLife.py:39 and 86-88) and the tally dict in insertion order (GameOfLife.py:45). The model's loops take elements of both in an unspecified order (`:|`). The proved results do not depend on that order.
- `neighbors` is a generator in the code. In the model it is an 8-element sequence in the same order.
- Life.GameOfLife.Bounds: this is a ghost function. Its minima and maxima are the specification functions `MinOf`/`MaxOf`, not an executable pass. The code's `bounds` is not called by anything in the core.
- Seeding.Crop: this is also ghost, for the same reason. `FromImage` computes the crop for real with the `LeastX`/`LeastY` passes and a `Translate`, and `CropByLeast` proves the two agree.
- The glider (a five-cell pattern that comes back shifted by (1, 1) after 4 generations) is not worked out. Four generations of explicit neighbour counts were left out to keep proofs small. `TranslationCommutes` proves the shift-invariance that such a claim relies on.
- The tkinter viewer (`PixelGridWindow.py`) and the timed driver loop (`main.py`) are not part of this model. They only draw the live set and call `step` on a timer.
