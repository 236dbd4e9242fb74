# Game of Life seeding and SSD1306 frame serialiser, in Dafny

This project models two pieces of sequential logic from an MSP430 firmware.
The firmware runs Conway's Game of Life on a 128x64 SSD1306 OLED panel.

**Seeding** (`GameOfLifeInitializations.c`). Each stamp routine calls the
engine's cell-activation primitive at fixed offsets from an anchor. The
stamps are a vertical line, a glider, a lightweight spaceship (LWSS) and a
pulsar built from two row sub-shapes. The `initializeGame*` routines place
stamps at anchors computed from the grid size `REDUCED_WIDTH` x
`REDUCED_HEIGHT`.

- The activation primitive is not part of this model. `Seeding.Seeder`
  records each call as one `Cell` appended to the field `log`.
- Every stamp or seeding routine is a method of `Seeder`. Its postcondition
  says that it appends exactly the cells of a pure shape or layout function.
- The shapes are in module `Patterns`; the layouts, on a grid of `w` by `h`
  cells, are in module `Layouts`.
- `placeGlider` and `placeLWSS` take `uint8_t` parameters, so their anchors
  are reduced modulo 256 (`CTypes.ToUint8`).
- `initializeGameWithGliders` divides with C's truncating division
  (`CTypes.CDiv`). Its nested loops return only for some grid sizes, given by
  `Layouts.GlidersTerminate`.
- The inner `for` loop of `initializeGameWithGliders` is the separate method
  `Seeder.PlaceGliderColumn`.

**Frame serialiser** (`main.c`). `copy_image` cuts an image into I2C frames.
Each frame is the control byte `0x40` followed by at most `I2C_DATA_CHUNK`
image bytes. `solid_background` sends a whole panel of one byte value.

- `Display.Link` records every `i2c_transmit` call as one frame in its field
  `sent`.
- `Display.Frames` is the frame sequence for an image. `Display.Payloads`
  is the receiving side, which strips the control bytes and joins the
  payloads.

## Model

| member | source | states |
|---|---|---|
| `CTypes.ToUint8` | GameOfLifeInitializations.c:41 | conversion to a `uint8_t` parameter: differs from the value by a multiple of 256, and is the identity on 0..255 |
| `CTypes.CDiv` | GameOfLifeInitializations.c:65-66 | C `int` division truncates toward zero: the quotient times the divisor lies within one divisor of the dividend, on the dividend's side of zero |
| `Patterns.GliderShape` | GameOfLifeInitializations.c:41-47 | placeGlider's five cells are pairwise distinct and lie in the 3x3 box at the anchor |
| `Patterns.GliderMatchesPicture` | GameOfLifeInitializations.c:41-47 | placeGlider's cells are exactly those of the standard glider picture placed at the anchor |
| `Patterns.LwssShape` | GameOfLifeInitializations.c:16-36 | placeLWSS emits nine pairwise-distinct cells in reading order, inside the 5-wide, 4-tall box at the anchor |
| `Patterns.LwssMatchesPicture` | GameOfLifeInitializations.c:17-35 | placeLWSS emits exactly the cells of the diagram in its comment, row by row: columns {0,3}, {4}, {0,4}, {1,2,3,4} |
| `Patterns.DoubleTripleShape` | GameOfLifeInitializations.c:93-100 | drawDoubleTriple emits six cells left to right on row y, and a cell is among them exactly when its column offset is in {2,3,4,8,9,10} |
| `Patterns.QuadrupleSingleShape` | GameOfLifeInitializations.c:102-107 | drawQuadrupleSingle emits four cells left to right on row y, and a cell is among them exactly when its column offset is in {0,5,7,12} |
| `Patterns.PulsarShape` | GameOfLifeInitializations.c:109-124 | drawPulsar emits 4x6 + 6x4 = 48 cells in reading order, hence pairwise distinct |
| `Patterns.PulsarMembers` | GameOfLifeInitializations.c:109-124 | a cell is in the pulsar exactly when its offset pairs double-triple columns with quadruple-single rows, or the reverse |
| `Patterns.PulsarInBox` | GameOfLifeInitializations.c:109-124 | the pulsar lies in the 13x13 box at its anchor |
| `Patterns.PulsarSymmetry` | GameOfLifeInitializations.c:109-124 | the pulsar's cell set is unchanged by dx to 12-dx, by dy to 12-dy, and by transposing dx and dy |
| `Layouts.VerticalLineCells` | GameOfLifeInitializations.c:4-9 | drawVerticalLine emits (x,2), (x,3), ..., (x,h-3) in order: h-4 distinct cells when h >= 4, none otherwise, and exactly the cells of column x in rows 2..h-3 |
| `Layouts.VerticalLinesColumns` | GameOfLifeInitializations.c:11-14 | the two lines hold 2(h-4) cells; from two columns on they are in different columns and no cell repeats; below that both are in column 0 and cells repeat |
| `Layouts.AnchorsValues` | GameOfLifeInitializations.c:70-71 | a `for (v = start; v < limit; v += step)` counter takes the values start + i*step, all in [start, limit), and stops at the first value at or past limit |
| `Layouts.GlidersTerminateIff` | GameOfLifeInitializations.c:63-75 | the glider loops return exactly when w <= 2, or when w >= 8 and h is at most 2 or at least 5 |
| `Layouts.GlidersDiverge` | GameOfLifeInitializations.c:65-71 | on every other grid a loop guard holds while its spacing is 0, so the routine never returns |
| `Layouts.GliderColumnBlocks` | GameOfLifeInitializations.c:71-73 | each y anchor yields exactly one glider: the j-th block of five cells is the glider at the j-th anchor |
| `Layouts.GliderGridLength` | GameOfLifeInitializations.c:70-74 | the layout holds five cells for each (x, y) anchor pair |
| `Layouts.GliderGridColumns` | GameOfLifeInitializations.c:70-74 | x is the outer loop: the column of gliders at the i-th x anchor follows those at earlier anchors and precedes those at later ones |
| `Layouts.GliderLayoutCells` | GameOfLifeInitializations.c:63-75 | on grids up to 257 a side every glider cell lies in columns 1..w and rows 1..h: never left of or above the grid, at most one past its far edge |
| `Layouts.GliderLayoutPanelCount` | GameOfLifeInitializations.c:59-75 | on a 32x16 grid the loops place 6 x 3 = 18 gliders, matching NUMBER_OF_GLIDERS_PER_ROW and _PER_COLUMN |
| `Layouts.GliderLayoutPanelInBox` | GameOfLifeInitializations.c:63-75 | on a 32x16 grid every glider cell lies inside the grid |
| `Layouts.GliderLayoutEdge` | GameOfLifeInitializations.c:63-75 | on a 33-column grid the glider at the last x anchor reaches column 33, past the grid's last column |
| `Layouts.LwssLayoutFits` | GameOfLifeInitializations.c:79-90 | on grids from 16 to 256 a side the four spaceships are 36 distinct cells inside the grid |
| `Layouts.LwssLayoutWraps` | GameOfLifeInitializations.c:79-90 | below 16 columns xLeft is negative, and the uint8_t conversion puts the first two spaceships at column 252 + w/4 |
| `Layouts.PulsarLayoutFits` | GameOfLifeInitializations.c:131-133 | the single pulsar lies inside the grid exactly when w >= 19 and h >= 15 |
| `Layouts.TwoPulsarLayoutDistinct` | GameOfLifeInitializations.c:126-129 | from 26 columns on the two pulsars are 96 distinct cells |
| `Layouts.TwoPulsarLayoutFits` | GameOfLifeInitializations.c:126-129 | from 29 columns and 15 rows on both pulsars lie inside the grid |
| `Layouts.TwoPulsarsOverlap` | GameOfLifeInitializations.c:126-129 | on a 24-column grid the two pulsars share a cell |
| `Seeding.Seeder.DrawVerticalLine` | GameOfLifeInitializations.c:4-9 | appends exactly VerticalLine(x, height) to the log |
| `Seeding.Seeder.InitializeGameWithVerticalLine` | GameOfLifeInitializations.c:11-14 | appends the line at column width/4, then the line at column 3*width/4 |
| `Seeding.Seeder.PlaceLwss` | GameOfLifeInitializations.c:16-36 | appends exactly the nine LwssAt cells, in source order |
| `Seeding.Seeder.PlaceGlider` | GameOfLifeInitializations.c:41-47 | appends exactly the five GliderAt cells, in source order |
| `Seeding.Seeder.InitializeGameWithGliders` | GameOfLifeInitializations.c:63-75 | on grids where the loops return, appends exactly GliderLayout(width, height) |
| `Seeding.Seeder.PlaceGliderColumn` | GameOfLifeInitializations.c:71-73 | the inner loop appends one glider per y anchor, in order |
| `Seeding.Seeder.InitializeGameLwss` | GameOfLifeInitializations.c:79-90 | appends the four spaceships at the converted anchors, in source order |
| `Seeding.Seeder.DrawDoubleTriple` | GameOfLifeInitializations.c:93-100 | appends exactly the six DoubleTripleAt cells |
| `Seeding.Seeder.DrawQuadrupleSingle` | GameOfLifeInitializations.c:102-107 | appends exactly the four QuadrupleSingleAt cells |
| `Seeding.Seeder.DrawPulsar` | GameOfLifeInitializations.c:109-124 | appends exactly the 48 PulsarAt cells, sub-shape by sub-shape |
| `Seeding.Seeder.InitializeGameWith2Pulsars` | GameOfLifeInitializations.c:126-129 | appends the pulsar at (2,2), then the one at (width/2+2, 2) |
| `Seeding.Seeder.InitializeGameWithPulsar` | GameOfLifeInitializations.c:131-133 | appends the pulsar at (width/4+2, 2) |
| `Display.Min` | main.c:11 | the min macro: a lower bound of both arguments and equal to one of them |
| `Display.FramesWellFormed` | main.c:202-208 | every frame starts with 0x40 and has 2..I2C_DATA_CHUNK+1 bytes, so it fits data_buf; all but the last are full |
| `Display.FramesRoundTrip` | main.c:199-210 | stripping the control bytes and joining the payloads gives back the image, whole and in order |
| `Display.PayloadsRoundTrip` | main.c:199-210 | every well-formed frame sequence is exactly what copy_image sends for the image it carries |
| `Display.FramesCount` | main.c:201 | the number of frames is ceil(length / I2C_DATA_CHUNK); an empty image sends none |
| `Display.FramesAt` | main.c:201-206 | frame k starts at offset k*I2C_DATA_CHUNK, which is below the length, and carries the bytes from there to the next offset or the end |
| `Display.SolidBackgroundFrames` | main.c:212-216 | since I2C_DATA_CHUNK == SSD1306_BYTES, a solid background is one frame: 0x40 and SSD1306_BYTES copies of the value |
| `Display.Link.Transmit` | main.c:147-161 | i2c_transmit sends buf[0..length) as one frame |
| `Display.Link.CopyImage` | main.c:199-210 | appends exactly Frames(img[0..length)); a length of 0 or less sends nothing |
| `Display.Link.SolidBackground` | main.c:212-216 | appends exactly one frame: 0x40 followed by SSD1306_BYTES copies of the value |

## Left out

- `activateCellAndIncrementCount` and the engine are not part of this model. That covers the generation step, neighbour counting, wrap-around and the packed framebuffer. `Seeder.Activate` records the coordinates it is given and nothing more.
- No capacity limit is modelled for the activation log. `MAX_ACTIVE_CELLS` (GameOfLifeInitializations.h:11) is not enforced.
- The coordinates are not narrowed to the `uint8_t` fields of `Cell` (GameOfLifeInitializations.h:13-16). What the unseen primitive does with them is unknown.
- `DISPLAY_WIDTH` and `DISPLAY_HEIGHT` are not defined in the shown files. The grid size is therefore the constructor parameters `width` and `height` of `Seeder`, taken as non-negative.
- The panel lemmas are about the 128x64 SSD1306 with 4-pixel cells, i.e. a 32x16 grid.
- Register-level I2C is not modelled: start and stop conditions, busy-waits and `__delay_cycles`. `Link.Transmit` only records the bytes of a frame.
- Not modelled: `ssd1306_init`, `reset_addresses`, `image_draw`, `main`, the watchdog and the LED. They are hardware bring-up and timing.
- Integers are unbounded. On the MSP430 `int` is 16 bits, so `i += I2C_DATA_CHUNK` in `copy_image` would overflow for lengths above 31744. `solid_background` passes 1024, so it is not affected.
- The image of `copy_image` is a `char` array in C and a `uint8` array in this model. `memcpy` copies its bytes unchanged either way.
- Layouts.GliderLayoutCells: bounds are stated only for grids up to 257 cells a side. On those grids no anchor wraps in the `uint8_t` conversion.
- Layouts.LwssLayoutFits: stated only for grids from 16 to 256 cells a side. `Layouts.LwssLayoutWraps` covers narrower grids.
- Layouts.TwoPulsarLayoutDistinct: stated from 26 columns on. The one overlapping width shown is 24 (`Layouts.TwoPulsarsOverlap`).
