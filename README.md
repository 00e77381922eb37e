# blur-decrypter core, modelled in Dafny

blur-decrypter reads back text that was rendered in 25x25-pixel cells and then
blurred. This project models and proves three parts of `src/blur.rs`:

- **The box blur** `ImageBlur::blur`. It is an in-place square-window filter
  over an RGBA raster:
  - the requested box size is made odd and at least 3, or 15 when none is
    given;
  - each window is clipped at the image edges;
  - each channel is averaged with truncating division;
  - pixels are rewritten in row-major order in the same buffer the windows
    read from;
  - the whole pass runs `round` times (default 1).

  The model keeps that as a method over a mutable `array2<Pixel>`. It is
  proved against a value-level specification, `BoxBlur.Blurred`, that scans
  the raster pixel by pixel.
- **The cell classifier** `find_character`. A 25x25 cell is read column by
  column and trimmed at its first all-background column (the background
  pixel is opaque black). Each reference glyph, blurred at the current
  strength, is trimmed the same way, and:
  - a blank glyph meeting a blank cell gives a space at once;
  - a glyph of another trimmed length is skipped;
  - every other glyph is scored by the percentage of positions whose summed
    signed channel difference is at most 5 (strict mode) or 10 (loose mode);
  - the last best-scoring glyph in alphabet order wins if it reaches 100
    (strict) or 70 (loose).
- **The recovery loop** of `unblur_text`. Cells are visited line by line and
  left to right:
  - while the blur strength is unknown, every cell runs a search. The search
    probes the *top-left* cell in strict mode at strengths 0.0, 0.1, ...,
    5.0;
  - the first strength that reads that cell is kept for good, and the
    character it read is pushed;
  - every later cell is read in loose mode at that strength;
  - cells that are not recognised add nothing.

The image library's Gaussian blur is a parameter `gauss` of the model. It is
assumed only to return a raster of the size it was given. Blur strengths are
counted in tenths, so the search tries the integers 0 to 50.

Files:

- `images.dfy`: the `Option` type; the `Byte`, `Pixel` and column-major
  `Raster` types; the background pixel; the 25x25 cell size.
- `box_blur.dfy`: the box blur.
- `classifier.dfy`: `find_character`.
- `recovery.dfy`: the recovery loop of `unblur_text`.

## Model

| member | source | states |
|---|---|---|
| Images.Raster.Set | src/blur.rs:68 | defines `put_pixel` on a value raster: the same raster with the pixel at (x, y) replaced, of the same width and height |
| Images.Raster.SetReplaces | src/blur.rs:68 | `put_pixel` replaces the pixel at (x, y) and leaves every other pixel as it was |
| BoxBlur.NormalizeBoxSize | src/blur.rs:30-33 | the box size is odd and at least 3; it is 15 when none is given; otherwise it is the least odd number at least both the request and 3 |
| BoxBlur.RadiusAsWritten | src/blur.rs:34 | defines the radius as the source computes it: the box size cast to 32 bits, minus the centre, halved |
| BoxBlur.Radius | src/blur.rs:34 | the radius is at least 1 and the box is exactly 2·radius + 1 wide (corrected, untruncated radius) |
| BoxBlur.RadiusAsWrittenBelow32Bits | src/blur.rs:34 | below 2^32 the radius computed after the 32-bit cast equals the corrected radius |
| BoxBlur.RadiusTruncationCounterexample | src/blur.rs:34 | for box size 2^32 + 1 the cast leaves radius 0 where the box calls for 2^31 |
| BoxBlur.RoundCount | src/blur.rs:39 | defines the number of passes: the requested count, or 1 when none is given |
| BoxBlur.ClipSpan | src/blur.rs:43-47 | the neighbour range along one axis contains the centre, stays inside the image, and reaches exactly `rad` from the centre unless clipped at an edge |
| BoxBlur.Gather | src/blur.rs:42-51 | defines the neighbour list: the clipped rectangle's pixels, column by column, each column top to bottom |
| BoxBlur.GatherLength | src/blur.rs:42-51 | the neighbour loops push one pixel per position of the rectangle |
| BoxBlur.Window | src/blur.rs:42-53 | the window around a pixel is never empty, so the average never divides by zero |
| BoxBlur.GatherAt | src/blur.rs:43-50 | the neighbour loops lay the rectangle out column by column: pixel (xn, yn) is at its column-major index |
| BoxBlur.WindowIsGather | src/blur.rs:42-51 | the window around a pixel is the neighbour list of its clipped square |
| BoxBlur.WindowLayout | src/blur.rs:42-51 | the window has the clipped square's size and holds every position within `rad` of the centre (the centre too) at its column-major index |
| BoxBlur.ChannelSum | src/blur.rs:53-67 | defines the `fold` over one channel: the sum of that channel over the neighbours |
| BoxBlur.Mean | src/blur.rs:53-67 | defines one averaged channel: the channel sum divided by the neighbour count, truncated, then cast to `u8` |
| BoxBlur.Average | src/blur.rs:53-67 | defines the new pixel: the four averaged channels |
| BoxBlur.ChannelSumLower | src/blur.rs:54-66 | a channel sum is at least the length times the smallest value of that channel |
| BoxBlur.ChannelSumUpper | src/blur.rs:54-66 | a channel sum is at most the length times the largest value of that channel |
| BoxBlur.AverageInRange | src/blur.rs:53-67 | each averaged channel is the truncated channel mean and lies between the window's smallest and largest value, so the `u8` cast never truncates |
| BoxBlur.AverageOfConstant | src/blur.rs:53-67 | the average of equal pixels is that pixel |
| BoxBlur.Step | src/blur.rs:68 | rewriting one pixel keeps the raster's width and height |
| BoxBlur.ScanFrom | src/blur.rs:40-70 | defines the rest of one pass from (x, y): each later position in row-major order replaced by its window average over the raster as already rewritten |
| BoxBlur.Pass | src/blur.rs:40-70 | defines one whole pass: the scan from (0, 0) |
| BoxBlur.Iterate | src/blur.rs:39-71 | defines `n` passes, each over the result of the one before |
| BoxBlur.Blurred | src/blur.rs:36-71 | the blurred raster has the width and height of the input |
| BoxBlur.StepFixed | src/blur.rs:53-68 | a pixel whose window already averages to it is rewritten with itself |
| BoxBlur.ScanFixedPoint | src/blur.rs:40-70 | a pass over a raster whose every window averages to its centre returns that raster |
| BoxBlur.IterateFixedPoint | src/blur.rs:39-71 | any number of passes over such a raster returns it unchanged |
| BoxBlur.UniformWindow | src/blur.rs:42-67 | every window of a raster of one colour averages to that colour |
| BoxBlur.UniformIsUnchanged | src/blur.rs:26-74 | a raster of one colour is returned unchanged for every box size and round count |
| BoxBlur.ZeroRadiusIsIdentity | src/blur.rs:34-71 | at radius 0, which the 32-bit cast yields for box size 2^32 + 1, any number of passes returns the input |
| BoxBlur.ReadColumn | src/blur.rs:46-50 | the inner neighbour loop reads the column's clipped rows from the buffer |
| BoxBlur.GatherWindow | src/blur.rs:42-51 | the neighbour loops build exactly the clipped window over the buffer as it is now |
| BoxBlur.WritePixel | src/blur.rs:68 | `put_pixel` on the buffer makes it hold the raster with that one pixel replaced |
| BoxBlur.BlurPass | src/blur.rs:40-70 | one in-place `y`/`x` pass leaves the buffer holding the specification pass, later pixels seeing earlier pixels already rewritten |
| BoxBlur.Blur | src/blur.rs:26-74 | `blur` returns a fresh buffer holding `Blurred(image, box_size, round)`, and the input itself when `round` is 0 |
| Classifier.AlphabetShape | src/blur.rs:24 | the alphabet has 92 characters and the space is character 62 |
| Classifier.TrimFrom | src/blur.rs:138-150 | defines the trim from column `k` on: the cell's columns appended one by one up to the first blank column or the cell's right edge |
| Classifier.Trim | src/blur.rs:138-150 | defines the trimmed cell: the trim from column 0 |
| Classifier.TrimFromShape | src/blur.rs:138-150 | the trimmed cell is a whole number of the cell's own columns, taken from the left edge, none of them blank, with the next column (if any) blank |
| Classifier.RetainedCons | src/blur.rs:146-149 | appending the retained column `k` in front of the retained columns from `k + 1` keeps that shape |
| Classifier.ColumnOfTail | src/blur.rs:149 | after `append`, the later columns are those appended before |
| Classifier.TrimBound | src/blur.rs:138-150 | the trimmed cell holds at most 25·25 pixels |
| Classifier.TrimStep | src/blur.rs:149 | appending a retained column moves it from the rest of the trim to the collected prefix |
| Classifier.ReadCellColumn | src/blur.rs:140-144 | the row loop reads column `k` of the cell, top to bottom |
| Classifier.TrimCell | src/blur.rs:138-150 | the column loop with its `break` returns the trimmed cell |
| Classifier.Distance | src/blur.rs:177-181 | defines the pixel distance: the absolute value of the sum of the four signed channel differences |
| Classifier.SignedChannelDifferencesCancel | src/blur.rs:177-181 | the distance sums signed differences, so opposite channel differences cancel (red and green at distance 0) |
| Classifier.CommonCount | src/blur.rs:174-186 | defines the number of positions below `n` whose pixels are within 5 (strict) or 10 (loose) |
| Classifier.CommonCountBounds | src/blur.rs:174-186 | at most every position is common, and all are exactly when every position is within tolerance |
| Classifier.CountCommon | src/blur.rs:174-186 | the `commun_pixel` loop counts the positions within tolerance 5 (strict) or 10 (loose) |
| Classifier.PercentBounds | src/blur.rs:187 | `common·100/len` is at most 100, and exactly 100 when all positions are common |
| Classifier.MatchPercent | src/blur.rs:187 | defines the score: common positions times 100, divided by the length, truncated |
| Classifier.MatchPercentBounds | src/blur.rs:187 | a match percentage is at most 100, and exactly 100 when every pixel is within tolerance |
| Classifier.ScoreGlyph | src/blur.rs:173-187 | the scored percentage is the match percentage of the glyph against the cell |
| Classifier.SelfMatchIsFull | src/blur.rs:174-187 | identical sequences score 100 in either mode |
| Classifier.LastMax | src/blur.rs:194 | `max_by` finds nothing only without guesses; otherwise it returns one of the guesses, scoring at least as much as all of them |
| Classifier.LastMaxIsLastMaximum | src/blur.rs:194 | `max_by` returns the last of the maximal guesses |
| Classifier.NoCandidateNoGuess | src/blur.rs:173-190 | without a glyph of the cell's length, nothing is pushed |
| Classifier.LastMaxSnoc | src/blur.rs:194 | `max_by` over one more guess keeps the earlier maximum only when it is strictly greater |
| Classifier.Guesses | src/blur.rs:152-190 | defines the `guesses` vector: for each glyph in alphabet order whose trim has the non-empty cell's length, its letter and match percentage |
| Classifier.GuessesSelect | src/blur.rs:152-194 | the pushed guesses select the guess of the last best-scoring glyph of the cell's length |
| Classifier.SelectedGlyph | src/blur.rs:152-194 | the selected glyph is the last best candidate, and `max_by` lands on its guess |
| Classifier.LaterCandidate | src/blur.rs:173-194 | a later glyph of the cell's length keeps the selection when it scores less and takes it over otherwise |
| Classifier.FirstCandidate | src/blur.rs:173-194 | the first glyph of the cell's length is the only guess and the last best so far |
| Classifier.LastBestSkips | src/blur.rs:173 | a glyph of another length leaves the last best where it was |
| Classifier.LastBestKeeps | src/blur.rs:194 | a later glyph scoring strictly less leaves the last best where it was |
| Classifier.LastBestMoves | src/blur.rs:194 | a later glyph scoring at least as much becomes the last best |
| Classifier.LastBestUnique | src/blur.rs:194 | the last best glyph is unique |
| Classifier.ClassifyTrimmed | src/blur.rs:170-200 | defines the answer for a trimmed cell: a space when a blank cell meets a blank glyph, else the letter of the `max_by` guess when it clears the threshold, else nothing |
| Classifier.BlankCell | src/blur.rs:170-173 | a blank cell is a space exactly when some blurred glyph is blank too, in either mode; otherwise it is unclassified |
| Classifier.ClassifyPicksLastBest | src/blur.rs:188-200 | a non-empty cell reads as the letter of its last best glyph when that glyph's percentage reaches 100 (strict) or 70 (loose), and as nothing otherwise |
| Classifier.NoCandidateIsUnclassified | src/blur.rs:173-200 | a non-empty cell that no glyph matches in length is unclassified |
| Classifier.ClassifiedIsLastBest | src/blur.rs:188-200 | a classified non-empty cell reads as the letter of its last best glyph, whose percentage clears the threshold |
| Classifier.ClassifiedInAlphabet | src/blur.rs:170-200 | whatever the classifier answers is a character of the alphabet |
| Classifier.Accepted | src/blur.rs:196 | defines the threshold: a percentage of at least 100 (strict) or 70 (loose) |
| Classifier.StrictMatchIsExact | src/blur.rs:183-196 | in strict mode an accepted glyph scores every pixel of the cell within distance 5 |
| Classifier.ExactGlyphIsAccepted | src/blur.rs:173-200 | a glyph whose trimmed pixels equal the cell's makes the cell classified in either mode |
| Classifier.BlurredGlyphTrimShape | src/blur.rs:156-168 | the trim of every blurred glyph is a whole number of that blurred glyph's own columns from the left edge, none of them blank, the next column (if any) blank, and at most 25·25 pixels |
| Classifier.GlyphTrimShape | src/blur.rs:156-168 | the trim of a raster's top-left cell has that shape and that bound |
| Classifier.Classify | src/blur.rs:130-201 | defines `find_character`: the cell at (lid, cid) trimmed, answered against the glyphs blurred at the strength and trimmed |
| Classifier.ClassifyInAlphabet | src/blur.rs:130-201 | whatever `find_character` reads from a cell of the image is a character of the alphabet |
| Classifier.FindCharacter | src/blur.rs:130-201 | `find_character` returns the classification of the trimmed cell against the blurred, trimmed glyphs |
| Classifier.ScoreGlyphs | src/blur.rs:152-191 | the glyph loop stops with a space exactly when a blank glyph meets a blank cell, and otherwise pushes the guesses of the glyphs of the cell's length, in order |
| Classifier.TrimGlyph | src/blur.rs:154-168 | a glyph is blurred at the strength and then trimmed like a cell |
| Classifier.PushGuess | src/blur.rs:173-190 | a glyph of the cell's length pushes its letter and percentage, and any other glyph pushes nothing |
| Classifier.Choose | src/blur.rs:194-200 | the result is the last best guess if it clears the threshold, and nothing otherwise |
| Recovery.Chars | src/blur.rs:93-96 | defines `chars_count`: the number of whole 25-pixel cell columns |
| Recovery.Lines | src/blur.rs:93-96 | defines `lines_count`: the number of whole 25-pixel cell lines |
| Recovery.CellInside | src/blur.rs:93-98 | every cell the loops visit lies inside the image, and so does the top-left cell |
| Recovery.Search | src/blur.rs:102-116 | defines the search from strength `step`: the first probe up to 5.0 that reads a character, with that strength, or nothing |
| Recovery.Calibrate | src/blur.rs:101-117 | defines the calibration outcome: the search over strict readings of the top-left cell, from strength 0.0 |
| Recovery.SearchFindsFirst | src/blur.rs:102-116 | the search returns the first strength from 0.0 to 5.0 whose strict probe of the top-left cell succeeds, with the character read; it finds nothing exactly when every probe fails |
| Recovery.SearchSkips | src/blur.rs:113-116 | a failed probe moves the search on to the next tenth |
| Recovery.SearchSigma | src/blur.rs:101-117 | the search loop yields the calibrated strength and character, or nothing when the search fails |
| Recovery.Visit | src/blur.rs:99-119 | defines one cell's step: with a known strength, a loose reading at it; without one, the calibration outcome, whose strength is kept |
| Recovery.RecoverFrom | src/blur.rs:89-126 | defines the characters pushed from cell (lid, cid) on, in row-major order, given the strength state on arrival |
| Recovery.Recover | src/blur.rs:89-126 | defines the text `unblur_text` returns: the cells from (0, 0), with no strength known yet |
| Recovery.RecoverLength | src/blur.rs:97-123 | each remaining cell pushes at most one character |
| Recovery.StrengthIsKept | src/blur.rs:99-100 | once the strength is known, every later cell is read in loose mode at that strength |
| Recovery.UncalibratedIsEmpty | src/blur.rs:99-123 | when the search fails it fails at every cell, and nothing is pushed |
| Recovery.RecoveredFrom | src/blur.rs:99-122 | every pushed character comes from the calibration or from a loose cell reading |
| Recovery.RemainingFromStart | src/blur.rs:97-98 | from the first cell, `lines_count·chars_count` cells remain to visit |
| Recovery.RecoverBound | src/blur.rs:93-124 | the text has at most `lines_count·chars_count` characters |
| Recovery.FailedCalibrationGivesEmpty | src/blur.rs:101-124 | when no strength up to 5.0 reads the top-left cell, the result is empty |
| Recovery.CalibratedRecovery | src/blur.rs:97-124 | after a successful calibration the text is the probed character, then the loose readings of every other cell in row-major order |
| Recovery.RecoveredInAlphabet | src/blur.rs:120-122 | every character of the text is a character of the alphabet |
| Recovery.ReadCell | src/blur.rs:99-119 | the inner loop body reads the cell at the known strength, or else runs the search, and returns the strength state after the cell |
| Recovery.ReadLine | src/blur.rs:98-123 | the inner loop pushes the characters of one line of cells and passes the strength state on |
| Recovery.CellStep | src/blur.rs:120-122 | pushing one cell's character keeps the text built so far a prefix of the final text |
| Recovery.UnblurText | src/blur.rs:89-126 | `unblur_text` returns the specified text: search until calibrated, then read every later cell in loose mode at the strength found |

## Left out

- The Gaussian blur of the image library (src/blur.rs:154) is floating-point
  code from outside the repository. It is the parameter `gauss`, which is
  assumed only to preserve size.
- Classifier.BlurredGlyphTrims: the blur strength is a count of tenths, not
  an `f64`.
- Recovery.SearchSigma: the floating-point counter (`+= 0.1`, stop past 5.0)
  is modelled as the integer tenths 0 to 50. The `f64` counter takes the 51
  values 0.0 up to 4.999999999999998 before it passes 5.0. Each of them, and
  its `{:.2}` round trip, converts to the same `f32` as i/10, by hand IEEE
  arithmetic (not executed). So counting in tenths gives the Gaussian the
  same argument. The float counter itself is not modelled.
- Building the glyph set (src/blur.rs:77-87) is left out:
  - the rayon parallel iterator, font rendering and PNG decoding, which all
    come from outside libraries;
  - the error path of that build.

  The glyphs are an input with one glyph per alphabet character, each at
  least 25x25. text2img.rs is not part of this model beyond the cell size 25
  (src/text2img.rs:8-9).
- File decoding (`Image::try_from`), `println!`, and the whole of main.rs
  (command line, files) are I/O and are not modelled.
- BoxBlur.Blur: the `u32` coordinate arithmetic is unbounded. The model's
  radius is the corrected one, `(b - 1) / 2` (see Findings), which can exceed
  2^32, and then `x + radius` would overflow a `u32`; that overflow is not
  modelled. The source's truncated radius is at most 2^31 - 1, so its own
  `x + radius` overflows only on images wider than 2^31 pixels.
- Classifier.FindCharacter: `usize`/`isize` overflow of `cid * 25`,
  `commun_pixel * 100` and the signed sums is not modelled. The letter of
  guess `j` is character `j` of the alphabet; the glyph loop takes it as the
  `letters` argument of Classifier.ScoreGlyphs. The precondition
  `|glyphs| <= |Alphabet|` stands for the `unwrap` that would otherwise panic.
- Recovery.UnblurText: an uncalibrated cell re-runs the search in the method,
  as the source does. The specification records its one deterministic outcome
  once, as `Calibrate`.

## Findings

| source | as written | input that shows it | evidently intended | confidence | as-written member | corrected member |
|---|---|---|---|---|---|---|
| src/blur.rs:34 | the box size is cast to 32 bits before the radius is computed | `blur(Some(4294967297), round)`: the cast leaves box size 1 and radius 0, so every pass returns the image unchanged | radius 2^31, half of the box that was asked for, which blurs every window across the whole clipped image | low, not executed | BoxBlur.RadiusTruncationCounterexample | BoxBlur.Radius |
