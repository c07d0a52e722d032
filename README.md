# ASCII Art Player — verified model of the converter and the player

The ASCII Art Player turns a folder of video frames into a text animation
and plays it back in the console. This project models its algorithmic
core in Dafny:

- **Luminance** — the glyph of a pixel: brightness
  sqrt(0.241 R² + 0.691 G² + 0.068 B²), scaled by (N-1)/255 for a ramp of N
  glyphs, rounded half to even and used as an index into the ramp
  `" .-+*#&%$"` or `" *"`. The model is exact. Weights are the rationals
  241/1000, 691/1000 and 68/1000. The square root is never taken: the index
  is compared through its square. `IsRoundedRoot` is the reference rounding
  rule, stated over the reals. `GlyphIndex` computes the index over the
  integers and is proved to follow that rule.
- **Encoder** — `GenerateAsciiArt`: the loop over the directory entries.
  The loop runs |entries| - 1 times. A separate cursor `frameIndex` starts
  at 1, so entry 0 is never decoded. Each image is written row by row
  (`WriteImage`), through a `LineWriter` holding the finished lines and
  the line being written. The loading bar is drawn after each image. `EncodeFrame` and
  `StoredText` are the reference definitions of what is written.
- **Progress** — `LoadingBar`: '[' at column 0, ']' at column 21, then a
  loop of '#' cells and a loop of '-' cells, both moving `loadPosition`.
  The percentage value is also modelled. The console row is a map from
  column to character.
- **Playback** — `Player`: the stored file's lines, the reader's position,
  the frame counter and the end time of the last frame. `DrawFrame` is one
  timer tick: it reads and draws 64 lines and counts one frame.
- **Pipeline** — what playback shows of a file the encoder wrote.

Decoding an image file is a parameter `decode: E -> Option<Image>`. It
stands for loading the Bitmap (Program.cs:105) and for the resize that
follows (Program.cs:108-109). An image already LargestWindowWidth ×
LargestWindowHeight is kept as it is. Any other image is stretched to
(LargestWindowWidth - 3) × (LargestWindowHeight + 1), which is not the
console's size. One stored file can therefore mix images of two heights.
`decode` leaves the size unconstrained. `None` stands for the exception that `new Bitmap`
throws; nothing catches it, so the program ends there. The
ordered directory listing is the input sequence `entries`. The clock
reading at the end of a tick is the parameter `now`.

What the program does, and the model with it:

- No frame-delay header line is written or read. The file holds only pixel
  rows, and the delay is the constant 25.2 ms.
- The entry that is skipped is the first one in LastWriteTime order
  (index 0), not a trailing one. Entries are ordered by modification time,
  not by name.
- An empty or one-entry folder is not an error: the file is simply left
  empty.
- The index is not clamped. Clamping is unnecessary because the weights
  add up to one (`GlyphIndex` ensures `k < n`).
- The player reads a fixed 64 lines per tick, while the encoder writes
  `image.Height` lines per image. The two agree only when images are 64
  rows high (`StoredFramesPlayInOrder`). That holds for stretched images
  only when LargestWindowHeight is 63, and for images kept as they are
  only when it is 64. `ShortFramesRunTogether` shows what happens with
  shorter images.
- A tick at the end of the file draws empty lines and still counts a frame.

## Model

| member | source | states |
|---|---|---|
| `Luminance.ScaledSquare` | Program.cs:116 | 1000 × brightness² is at most 1000 × 255², with equality exactly for white: the weights add up to one |
| `Luminance.GlyphIndex` | Program.cs:116-118 | the index is below the ramp length, so the ramp lookup never fails, and it is the half-to-even rounding of brightness / 255 × (N-1) |
| `Luminance.GlyphIndexIsRounding` | Program.cs:116-118 | the rounding rule determines the index: any k that rounds the unrounded index half to even equals GlyphIndex |
| `Luminance.Glyph` | Program.cs:118 | the glyph drawn for a pixel is a character of the ramp |
| `Luminance.BlackIsFirstGlyph` | Program.cs:116-118 | a black pixel gets index 0 |
| `Luminance.WhiteIsLastGlyph` | Program.cs:116-118 | a white pixel gets index N-1, the last glyph |
| `Luminance.SingleGlyphRamp` | Program.cs:116-118 | with a one-glyph ramp every pixel gets index 0 |
| `Luminance.GlyphIndexMonotone` | Program.cs:116-118 | a pixel with a larger weighted brightness never gets an earlier glyph |
| `Luminance.GlyphIndexMonotoneInChannels` | Program.cs:116-118 | raising any of R, G and B never moves a pixel to an earlier glyph |
| `Luminance.RampEndpoints` | Program.cs:82-86 | both ramps draw black as ' '; white is '$' in the colour ramp and '*' in the two-glyph ramp |
| `Luminance.RampsHaveNoLineBreaks` | Program.cs:84-85 | neither ramp contains '\n' or '\r', so each written line reads back as one line |
| `Encoder.EncodeRow` | Program.cs:113-121 | one glyph per pixel of a row, in x order, each the glyph of its pixel |
| `Encoder.EncodeFrame` | Program.cs:111-123 | an image gives exactly height lines of exactly width characters; character (x, y) is the glyph of pixel (x, y) |
| `Encoder.LineWriter.constructor` | Program.cs:102 | the writer starts with no finished lines and nothing pending: the file is created empty, replacing any existing one |
| `Encoder.LineWriter.Write` | Program.cs:119 | a glyph is appended to the current line; finished lines are unchanged |
| `Encoder.LineWriter.WriteLine` | Program.cs:122 | the current line is finished and a new empty one begins |
| `Encoder.WriteImage` | Program.cs:111-123 | the row loops append exactly the text of the image to the finished lines and leave no line pending |
| `Encoder.FirstUndecodable` | Program.cs:103-105 | the first entry from index 1 on whose image cannot be loaded; every entry before it, from 1, loads |
| `Encoder.GenerateAsciiArt` | Program.cs:99-127 | the text handed to the writer is that of entries 1, 2, … in order, up to the first undecodable entry or the end of the list; a failure names that entry; entry 0 is never used; the loading bars drawn are, in order, the column maps and percentages for progress 2, 3, … of the total, never above it |
| `Encoder.FirstEntryIgnored` | Program.cs:101-105 | entry lists that differ only at index 0 give the same file and the same failure |
| `Encoder.EncodeAllLength` | Program.cs:111-123 | images all h rows high give h lines each, so h × count lines in all |
| `Encoder.EncodeAllUniform` | Program.cs:111-123 | with images of height h the file is h × count lines, and lines h·k to h·k + h - 1 are the text of image k |
| `Encoder.EncodeAllUsesRamp` | Program.cs:118-119 | every character of the file is a glyph of the chosen ramp |
| `Encoder.Checkerboard` | Program.cs:111-123 | the 2×2 image [[black, white], [white, black]] with ramp " *" is written as " *" and "* " |
| `Progress.FilledCells` | Program.cs:143-152 | the number of '#' cells is the least c with c ≥ 19.1 × progress / total |
| `Progress.EmptyCells` | Program.cs:154-159 | the '-' cells make up the rest of the 20 cells, or none when the '#' cells already fill them |
| `Progress.Percent` | Program.cs:161-163 | the percentage is 100 × progress / total rounded to the nearest integer, halves away from zero |
| `Progress.LoadingBar` | Program.cs:131-165 | the columns drawn are '[' at 0, '#' from 1 on, then '-' up to 20, and ']' at 21 unless written over; the percentage is Percent |
| `Progress.BarFillsBrackets` | Program.cs:134-159 | while progress ≤ total, '#' plus '-' cells fill exactly the 20 columns between the brackets, and nothing beyond column 21 is written |
| `Progress.FullBar` | Program.cs:143-163 | progress = total gives 20 '#' cells, no '-' cells, and 100% |
| `Progress.FilledMonotone` | Program.cs:143-152 | more progress never draws fewer '#' cells |
| `Progress.SomeProgressShows` | Program.cs:148-152 | any positive progress draws at least one '#' |
| `Progress.PercentBounds` | Program.cs:161 | for 0 ≤ progress ≤ total the percentage is between 0 and 100 |
| `Playback.Player.constructor` | Program.cs:216 | the reader opens at line 0 of the file, with no frames played and no frame end time yet (the static starting values of Program.cs:13-15) |
| `Playback.Player.EndOfStream` | Program.cs:224 | true exactly when every line of the file has been read; a tick then draws only empty lines |
| `Playback.Player.ReadLine` | Program.cs:247 | the next line of the file, advancing the reader by one, or no line at the end, leaving the reader where it is |
| `Playback.Player.DrawFrame` | Program.cs:246-251 | draws the next 64 lines (empty past the end), advances the reader by 64 or to the end of the file, increments framesPlayed by one, records the end time; nothing else changes |
| `Playback.Window` | Program.cs:246-247 | a tick draws 64 lines: the file's lines from the reader position while they last, then empty lines |
| `Playback.PlayTicks` | Program.cs:216-219 | k ticks from the start draw, in order, the windows at reader positions 0, 64, 128, …; framesPlayed is k; the stream has ended exactly when 64k reaches the file's length |
| `Playback.CursorAfterTicks` | Program.cs:246-247 | after k ticks the reader is at min(64k, file length) |
| `Playback.EndOfStreamAfter` | Program.cs:224 | the end of the stream is reached after k ticks exactly when 64k ≥ file length, so after ceil(length / 64) ticks and not before |
| `Playback.TickShows` | Program.cs:246-247 | tick k draws line 64k + i of the file as its line i |
| `Pipeline.StoredFramesPlayInOrder` | Program.cs:246-247 | for images written 64 rows high, tick k of playback draws exactly the text of image k, and the stream ends after as many ticks as there are images |
| `Pipeline.ShortFramesRunTogether` | Program.cs:111 | for images written fewer than 64 rows high, the first tick already draws the first row of the second image |

## Left out

- Argument parsing in `Main` (Program.cs:21-46) and `Default`: command-line glue.
- The prompts and their re-prompt loops: `GetInput`, `GetYesOrNo`, `AskForCreationPaths`, `GetAsciiSaveLocation`, `GetSoundPath`, and the character-set choice (Program.cs:63-78, 89-96, 167-203, 265-269). These are console input. The ramp is a parameter; the model's two constants are the ones offered.
- Encoder.GenerateAsciiArt: on a decode failure the program ends on an unhandled exception (Program.cs:105, called from Program.cs:77 and 37 with no `try`), so playback never starts. `file` is the text passed to the buffered writer; how much of it reaches the disk is not modelled.
- Loading and stretching the Bitmap (Program.cs:105-109): a foreign library, given as the `decode` parameter. Which pixels the stretch produces, and the sizes it produces (width - 3, height + 1 of the largest console window), are not modelled; `decode` may return any size.
- Directory enumeration and ordering by LastWriteTime (Program.cs:99): file-system input, given as the ordered `entries`.
- `PlaySound` (Program.cs:256-263): an audio call.
- Window sizing, cursor placement, hiding the cursor and clearing the top line (Program.cs:133, 137-141, 208-214, 240, 248): console control. The bar's columns are modelled as positions in a map.
- The timer and the 750 ms polling loop (Program.cs:12, 217-227, 232, 253): concurrency and wall-clock timing. `PlayTicks` runs the tick callbacks one after another instead, and `EndOfStream` is the condition the polling loop tests.
- The FPS, frame-time and accuracy line (Program.cs:235-243): wall-clock values and float formatting.
- The label text and the "[progress/total]" text after the percentage (Program.cs:163-164). Only the percentage value is modelled.
- The blank line after the conversion loop (Program.cs:128), and the newline characters that end each line. The file is modelled as a sequence of lines. So the pipeline lemmas take the lines written to be the lines read back. That holds only for a ramp with no line break. The two ramps offered have none (`RampsHaveNoLineBreaks`), but a ramp parameter holding '\n' or '\r' is not treated.
- Floating point. The weights are exact rationals rather than doubles, 19.1f is 191/10, and the percentage is an exact ratio. Where the program's double or float result lands on the other side of a rounding boundary than the exact value, the model follows the exact value.
- 32-bit overflow of `framesPlayed` and of the loop counters: not reachable at any realistic file size.
