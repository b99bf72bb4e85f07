# A verified model of Magic Rescue

Magic Rescue finds files in raw disk images. This project models the
algorithms of its programs in Dafny and proves what they are for:

* **The streaming carver** (`Carver.dfy`, with `Scanner.dfy`, `Recipe.dfy`, `RecipeFile.dfy`
  and `Util.dfy` below it). `scan_disk` slides one buffer over an image of any length and
  carries `overlap` bytes from one window to the next; `scan_buf` runs every scanner over each
  window, filters candidates through a slot array of "skip ranges", and calls an external
  program that may move the file position. `CarverSpec.dfy` holds what that is supposed to
  amount to, a left-to-right pass over the whole image that knows no buffer, no windows and no
  slots. `CarverTheorems.dfy` says what the log of a run tells about the image, `CarverRuns.dfy` what
  holds and what fails of whole runs.
* **The checksum and duplicate elimination** (`LinearMaps.dfy`, `Crc.dfy`, `Polynomials.dfy`, `Checksum.dfy`,
  `Dupemap.dfy`). The table-driven CRC in an unmasked `long` is proved to be the polynomial
  division that the cksum utility is specified by (POSIX.1-2017, Shell & Utilities, cksum,
  DESCRIPTION), and to detect every burst of up to 32 bits; the scan loop is proved to act on
  exactly the files that the history of the run singles out.
* **The text extractor** (`TextScore.dfy`, `TextLaws.dfy`, `TextExtract.dfy`, `TextTables.dfy`). The running
  counters of `inspect_char` are tied to closed statements about the bytes seen, the flushing
  and compacting buffer of `read_forward` to a function of the input alone.
* **The directory iterator** (`Recur.dfy`). The explicit stack with one path string is proved
  to unroll the recursive listing of a file system.

What a specification function says is stated a second time in elementary terms, by lemmas that
do not use its name: sums over octets, bits and bytes at their places, runs and lines as
stretches of bytes, ranges in numbers, paths name by name. Their names mostly end in
`ExactlyWhen`.

`Bits.dfy` has bytes and the bitwise "and" on integers, `Device.dfy` the input device of the
carver and how far a loop of reads gets on it, `Spacing.dfy` how close two hits can be.

## How the program's form is kept

Code that updates state in place is modelled by classes and methods: the globals of
`magicrescue.c` and the input device (`Carver.MagicRescue`, `Devices.Device`), `struct scores` and
the extractor with its buffer (`TextExtract.Scores`, `TextExtract.Extractor`), the two lookup
tables (`TextTables.Tables`), the database of `dupemap.c` (`Dupemap.Dupes`), `struct dirstack`
and `struct recur` (`Recur.DirStack`, `Recur.Walker`). Long loops are cut into methods, one per
step. Pure code is functions. What the outside world decides is left open:

* `extract()` is an arbitrary function of everything extracted before, the position and the
  recipe. It may return any number, and afterwards the file position is anywhere.
* What the k-th `read` of the carver returns is an arbitrary function of k, cut to what there
  is: a short read, an early end and an error are all possible. `fread`, and `read` of the text
  extractor, return any positive number of bytes there is room for, until the end. Opening a
  file and `lseek` may fail.
* A file system is two finite maps from path strings, one for what `opendir` and `readdir`
  deliver and one for `lstat`. It need not be a tree, and it does not change during a traversal.
* The dbm database is a set of keys.

The integers are mathematical integers except where width matters: the CRC uses 32-bit and
64-bit words (with the signed shifts of `long` and the sign extension of `char`), and
`op_int32` has the sign extension of its `int` expression written out.

## Where the code does not do what it seems to promise

Each of these is the code's own behaviour, with its exact condition.

* **Scanner offsets lose hits.** The guard at `src/magicrescue.c:150` compares a position that
  includes the scanner's offset with a length that does not. For a char or string scanner no
  image loses a hit of a window if and only if the offset is less than the length of the window
  and less than the least distance at which the pattern can repeat itself
  (`NothingLostExactlyWhen`); for a single character that means offset 0
  (`CharLosesNothingExactlyWhen`). Over all runs only offset 0 is safe
  (`RunLosesNothingExactlyWhen`, `LosingRun`, `OffsetLosesHits`). Where nothing is lost the run is still the simple pass (`ScanDisk`, `AllKeepUp`).
* **The tail is not scanned.** The loop at `src/magicrescue.c:270` ends at the first read of at
  most `overlap` bytes, so the last `overlap` positions are never scanned, and with full reads
  exactly `Tail(size, overlap)` are not (`TailIsLeft`, `ScanDisk`).
* **With several scanners the sizes of the reads can matter** (`CutsMatter`). They do not if no
  recipe is exclusive (`ExtractedExactlyWhen`).
* **A later device can begin with old ranges** if the scan of an earlier one failed, and then
  whole windows are skipped (`StaleRangeHidesWindow`), which is right only where every range
  begins before the window (`SkippedIsClosed`).
* **A retained letter can be lost.** After a flush `tools/textextract.c:286` forgets
  `last_letter` although that letter is now the first byte of the buffer. If no later letter comes
  the output is one byte short of what the comment on `inspect_char` promises:
  `PromiseKeptExactlyWhen`. `LastByteLost`: any text of exactly as many letters as the buffer is
  long.
* **max_bytes can be exceeded by one**, exactly when the first byte too many is a letter:
  `ByteLimitExactlyWhen`, `OneByteTooMany`.
* **A buffer may be too short to be flushed** if max_score is set to its length less one or more.
  That happens at the first full buffer without a letter after its first byte (`Ends`, `Stuck`),
  which the bytes alone decide (`EndsUnique`).
* **The forward pass after a backward pass starts from a moved offset**
  (`tools/textextract.c:303`): it sees the block boundaries where they are if and only if the
  backward pass inspected a multiple of 512 bytes, or they are worth nothing
  (`BoundariesRightExactlyWhen`).
* **Equal checksum and size do not mean equal content.** They are equal exactly if the generator
  polynomial divides the difference of the two files (`CksumCollidesExactlyWhen`,
  `CollideExactlyWhenMultiple`). A content is
  lost in a run exactly if the first file that differs from it by such a multiple, zero included,
  is an earlier and different one (`ContentLostExactlyWhen`); nothing is lost exactly if no two
  different files differ by one (`NothingLostExactlyWhen`, `ScanAll`). `DeletesADifferentFile` gives two
  such files of five bytes.
* **Masks of more than 32 bits see the sign extension** of `op_int32`, exactly if the first byte
  is 128 or more (`SignExtensionVisibleExactlyWhen`).
* **A string of escapes can be cut exactly outside an escape** (`SplitExactlyWhenComplete`), and a
  trailing backslash swallows the terminating NUL.
* **A range such as `x-`** at the end of a rule covers the dash, but not `x` (`TrailingDash`).

## Model

| member | source | states |
|---|---|---|
| Bits.PowerOfTwoTest | src/magicrescue.c:574 | the test on the block size lets exactly the powers of two pass, which scanner_block relies on |
| Util.HexToLL | src/util.c:42-51 | or-ing shifted digits together gives the number that the digit string denotes by position |
| Util.DigitsReadBack | src/util.c:42-51 | every number is read back from its hex digits |
| Util.DigitValues | src/util.c:35-40 | the digits 0 to 9, a to f and A to F have their values, and any other byte counts as 0 |
| Util.Decode | src/util.c:112-117 | decoding never yields more bytes than the source has, so the allocated buffer suffices |
| Util.StringInit | src/util.c:112-144 | the in-place loop writes exactly the decoded items, within `strlen(src)` bytes |
| Util.NextItem | src/util.c:119-140 | one turn consumes one item: a plain byte, a simple escape, a hex escape, or a lone final backslash |
| Util.DecodePlainByte | src/util.c:137-139 | a byte that is no backslash stands for itself |
| Util.DecodeHexEscape | src/util.c:119-124 | backslash, x and two more bytes stand for 16 times the first digit plus the second |
| Util.DecodeEscape | src/util.c:125-136 | the simple escapes stand for the control characters of C, an unknown one for the byte itself |
| Util.DecodeLastBackslash | src/util.c:119-136 | a backslash at the very end stands for NUL |
| Util.SplitExactlyWhenComplete | src/util.c:112-144 | decoding is piecewise for every continuation if and only if the first part ends outside an escape |
| Util.CompleteSplits | src/util.c:112-144 | decode(a + b) = decode(a) + decode(b) for every a that ends outside an escape |
| Util.IncompleteWitness | src/util.c:119-136 | for every other a there is a continuation that decodes differently |
| Util.SpelledDecodesBack | src/util.c:119-124 | the hex spelling of any byte string decodes back to it |
| Recipes.OpInWindow | src/recipe.c:29-39 | an operation tested in a buffer that holds a piece of the image tells the truth about the image, if its reach stays inside |
| Recipes.StringHoldsExactlyWhen | src/recipe.c:29-32 | a string operation accepts exactly the places where every byte of the string is in its place |
| Recipes.Int32HoldsExactlyWhen | src/recipe.c:34-39 | an int32 operation accepts a place if and only if four bytes are there and each bit i of the mask finds bit i of the value: bit i % 8 of byte 3 - i / 8, and above 32 the highest bit of the first byte |
| Recipes.JpegMarker | src/recipe.c:34-39 | the test ffd80000 under ffff0000 of recipes/jpeg-jfif accepts exactly what begins FF D8 |
| Recipes.WordBit | src/recipe.c:34-39 | bit by bit, the first of the four bytes is the most significant one |
| Recipes.ExtendedBit | src/recipe.c:34-39 | and the upper 32 bits repeat its highest bit |
| Recipes.SignExtensionVisibleExactlyWhen | src/recipe.c:34-39 | the sign extension of the int expression makes a difference if and only if the first byte is 128 or more and the mask is longer than 32 bits |
| Recipes.Int32Meaning | src/recipe.c:34-39 | for every mask, an int32 operation accepts exactly the sign-extended words that agree with the value on every bit of the mask |
| Recipes.ShortMaskMeaning | src/recipe.c:34-39 | for masks of up to 32 bits, exactly the big-endian words themselves that do |
| RecipeFile.ScannerOfLine | src/magicrescue.c:367-388 | a string line turned into a scanner stops exactly where the line's operation would hold |
| RecipeFile.ScannerLineKeepsMeaning | src/magicrescue.c:367-394 | making a line the scanner function does not change which positions a recipe accepts |
| RecipeFile.OpLineKeepsMeaning | src/magicrescue.c:396-421 | neither does making it an operation |
| RecipeFile.StringLineExactlyWhen | src/magicrescue.c:367-394 | a string or char line holds exactly where its decoded text occurs, byte by byte, and nowhere if that is empty |
| RecipeFile.Int32LineExactlyWhen | src/magicrescue.c:402-421 | an int32 line holds exactly where the bits of its second word find those of its first one |
| RecipeFile.OtherLineExactlyWhen | src/magicrescue.c:359-437 | no other match line is good, and these only with a text, or with both words |
| RecipeFile.AcceptedExactlyWhen | src/magicrescue.c:354-491 | a file is accepted if and only if it has a command, a string or char line unless a scanner is forced on it, and no bad line |
| RecipeFile.AllowOverlapIs | src/magicrescue.c:467 | the bytes that may overlap are those of the last directive, 0 without one |
| Scanners.ScannerChar | src/scanner.c:31-35 | the first position at which the byte occurs, or NULL if there is none |
| Scanners.ScannerBlockFindsFirst | src/scanner.c:37-48 | with a power-of-two block size: the first block multiple among the len positions, or NULL |
| Scanners.ScannerString | src/scanner.c:50-67 | rare-byte search is naive search: the least start below len where the whole pattern matches, or NULL |
| Scanners.NulIsMostFrequent | src/scanner.c:77-88 | every other byte scores less than NUL, so the initial winner is always replaced unless the pattern is all NUL |
| Scanners.ScannerStringInit | src/scanner.c:70-101 | leaves s[magicoff] = magicchar, of minimal score, and the first such byte |
| Scanners.CallScanner | src/magicrescue.c:150-153 | whichever scan function is set, the least position in the stretch where it stops, or none |
| Scanners.HitExactlyWhen | src/scanner.c:31-67 | a hit of a char or string scanner: its bytes are there, behind its offset; of a block scanner: the place behind its offset is a multiple of the block |
| Scanners.FoundInWindow | src/scanner.c:31-67 | what a scan function stops at in a buffer is what it would stop at in the image |
| Spacing.HitsApart | src/scanner.c:31-67 | two hits of a scanner are at least its distance apart: 1, the block size, or the least shift at which the string matches itself |
| Spacing.ClosestHits | src/scanner.c:31-67 | on some image two hits of a char or string scanner are exactly that far apart |
| Devices.Device.Read | src/magicrescue.c:270 | read: a piece of the image at the position, as long as the script, the request and the image allow, or nothing, or failure |
| Devices.EnteredStep | src/magicrescue.c:270-296 | a read of more than overlap bytes enters the loop and the reads go on behind it, any other ends it |
| Devices.ReadLoopBounds | src/magicrescue.c:270-296 | what the loop reads lies within the image, and the read that ends it has at most overlap bytes |
| Devices.FullReadsLeave | src/magicrescue.c:270-296 | what a loop of full reads leaves is the remainder, if that is at most overlap bytes long |
| Devices.TailIsLeft | src/magicrescue.c:270-296 | with full reads the tail that is never scanned has exactly the stated length |
| Devices.TailBounds | src/magicrescue.c:270-296 | which is at least overlap, or all there is, and at most 2 * overlap if 2 * overlap < bufsize |
| CarverSpec.StreamingRefinesGreedy | src/magicrescue.c:120-220 | one scanner: scanning any adjacent windows, pruned or not, makes exactly the extractions of one greedy pass over the whole image, if the guard loses no hit of them |
| CarverSpec.KeepingUpLosesNothing | src/magicrescue.c:148-153 | it loses none if the offset is less than the distance of two hits and than the length of the window |
| CarverSpec.PassIsGreedy | src/magicrescue.c:147-216 | where every hit is visited the loop is the greedy pass |
| CarverSpec.GreedySplits | src/magicrescue.c:270-296 | the greedy pass can be cut anywhere |
| CarverSpec.GreedySkips | src/magicrescue.c:130-145 | positions closed by an earlier extraction can be skipped without a look |
| CarverSpec.PruningIsInvisible | src/magicrescue.c:130-145 | for any number of offset-0 scanners, pruning a window beforehand and filtering its candidates one by one give the same run |
| CarverTheorems.RunHistory | src/magicrescue.c:120-220 | any scanners, offsets and windows: every extraction is justified by a hit, by its operations and by no earlier extraction having closed the place; none starts inside an earlier exclusive one |
| CarverTheorems.RunHasNoOverlap | src/magicrescue.c:191-207 | in numbers: after an extraction of n bytes at b with 0 <= allow_overlap < n none begins strictly between b and b + n - allow_overlap, whatever the scanners and windows |
| CarverTheorems.RunFails | src/magicrescue.c:185-190 | a run fails if and only if its last extraction reported a negative size, and no earlier one did |
| CarverTheorems.HistoryHasNoOverlap | src/magicrescue.c:191-207 | a justified log has no later extraction at q with b < q < b + n - allow_overlap |
| CarverTheorems.TryRecipesServes | src/magicrescue.c:168-209 | at a candidate every matching recipe is applied, or an earlier one made an exclusive extraction |
| CarverTheorems.TryRecipesStops | src/magicrescue.c:168-209 | only the last extraction at a candidate can be longer than what may overlap: after it no other recipe is tried |
| CarverTheorems.GreedyStops | src/magicrescue.c:147-216 | so with one scanner none begins where an earlier one began that is longer than what may overlap |
| CarverTheorems.PassComplete | src/magicrescue.c:147-216 | every hit the loop visits is closed by an extraction or each of its matching recipes is served |
| CarverTheorems.GreedyComplete | src/magicrescue.c:147-216 | the greedy pass misses no hit of its range, whatever the offset: for every matching recipe the hit is strictly between b and b + n - allow_overlap of an extraction, or the recipe was applied there, or an earlier one of the list with an extraction longer than what may overlap |
| CarverTheorems.GreedyAscending | src/magicrescue.c:147-216 | the greedy pass extracts from left to right |
| CarverTheorems.RunComplete | src/magicrescue.c:120-220 | any scanners and windows: in a run that did not fail, the same of every hit that some window visits or has pruned |
| CarverTheorems.RunHandles | src/magicrescue.c:120-220 | which follows window by window: a visited hit is closed by history, or each of its matching recipes is served |
| CarverTheorems.NothingLostExactlyWhen | src/magicrescue.c:148-153 | a char or string scanner visits all hits of a window on every image if and only if its offset is less than the distance of two hits and than the length of the window |
| CarverTheorems.CharLosesNothingExactlyWhen | src/magicrescue.c:148-153 | for a single character if and only if the offset is 0 |
| CarverRuns.OffsetLosesHits | src/magicrescue.c:148-153 | however "aaaaaaaaaaa" is scanned for an 'a' at offset 1 with full reads, the hit at 2 is neither extracted nor closed |
| CarverRuns.RunLosesNothingExactlyWhen | src/magicrescue.c:120-220 | a char or string scanner visits every hit of the scanned range in every run if and only if its offset is 0 |
| CarverRuns.LosingRun | src/magicrescue.c:120-220 | for every other offset, a run with full reads that loses the hit at the start of the image |
| CarverRuns.CutsMatter | src/magicrescue.c:120-220 | two scanners, one of them with an exclusive recipe: the same image read in one piece and in two gives different extractions |
| CarverRuns.ExtractedExactlyWhen | src/magicrescue.c:120-220 | any number of scanners without exclusive recipes that lose no hit: what is extracted is exactly what is called for in the range, wherever the windows are cut |
| CarverRuns.SkippedIsClosed | src/magicrescue.c:136-137 | skipping a whole window is right if every range in use begins before it |
| CarverRuns.StaleRangeHidesWindow | src/magicrescue.c:136-137 | a range left behind by an earlier device makes a window be skipped of which it closes nothing |
| CarverRuns.OneMoreFile | src/magicrescue.c:494-495 | installing another recipe changes nothing about what the recipes of earlier files mean |
| CarverRuns.LoadRecipes | src/magicrescue.c:592-616 | succeeds exactly if all recipe files are valid; then every recipe of every scanner comes from one of them |
| CarverRuns.ExtractionsFollowFiles | src/magicrescue.c:147-216 | every extraction of a run lies where all lines of its recipe file hold, with the overlap that the file allows |
| Carver.MagicRescue.ScannerAddOrReuse | src/magicrescue.c:91-103 | an equal scanner of the list is reused, otherwise the scanner is appended; the list is otherwise unchanged |
| Carver.MagicRescue.ParseMatchLine | src/magicrescue.c:359-448 | accepts exactly the good lines, makes one a scanner or an operation, and raises overlap to what the line looks at |
| Carver.MagicRescue.ParseLines | src/magicrescue.c:354-474 | accepts exactly the files all of whose lines are good; scanner and operations together mean what the lines say |
| Carver.MagicRescue.ParseRecipe | src/magicrescue.c:326-502 | accepted exactly when valid; lookahead stays sufficient for every scanner and operation ever added; overlap is a multiple of 8; the recipe accepts exactly the positions where all its lines hold |
| Carver.MagicRescue.RoundOverlap | src/magicrescue.c:497-499 | rounds up to the next multiple of the word size |
| Carver.MatchLineKeepsMeaning | src/magicrescue.c:359-448 | a good match line, whatever becomes of it, narrows scanner and operations by exactly that line |
| Carver.MagicRescue.AddRange | src/magicrescue.c:194-206 | reusing or adding a slot closes exactly the new range besides what was closed, and grows the array only when no slot is free |
| Carver.MagicRescue.Apply | src/magicrescue.c:180-209 | an extraction of n bytes closes exactly the positions strictly between its start and n - allow_overlap bytes on, if allow_overlap is not negative, besides what was closed; the slots again agree with the whole history |
| Carver.MagicRescue.TryOne | src/magicrescue.c:168-210 | one recipe: extracts if and only if all operations hold in the image |
| Carver.MagicRescue.TryAll | src/magicrescue.c:168-210 | the recipe loop equals its recursive definition over the whole image |
| Carver.MagicRescue.IsSkipped | src/magicrescue.c:160-166 | the range filter, as a statement about all slots |
| Carver.MagicRescue.FindNext | src/magicrescue.c:150-158 | the next hit of the image in the rest of the window, or none |
| Carver.MagicRescue.Consider | src/magicrescue.c:155-210 | a candidate is tried if and only if history leaves it open |
| Carver.MagicRescue.Turn | src/magicrescue.c:150-216 | one turn of the candidate loop advances the pass to right behind the next hit |
| Carver.MagicRescue.RunScanner | src/magicrescue.c:147-217 | one scanner over a window makes exactly the pass over the positions that its loop visits |
| Carver.PassFinds | src/magicrescue.c:150-158 | nothing can happen before the next candidate |
| Carver.PassEnds | src/magicrescue.c:150 | where the guard ends the loop, no later position of the window is visited |
| Carver.MagicRescue.PruneRanges | src/magicrescue.c:130-145 | skips everything if a range reaches beyond the window, else as far as the longest range reaches; frees only slots that close nothing any more |
| Carver.PrunedIsBlocked | src/magicrescue.c:130-145 | as every live range begins before the window, what is pruned is closed, and slots and history keep agreeing |
| Carver.OpsInWindow | src/magicrescue.c:168-177 | overlap bytes of lookahead suffice: testing a candidate in the buffer is testing it in the image |
| Carver.FoundAreHits | src/magicrescue.c:150-153 | the scan function finds in the buffer exactly the hits of the image |
| Carver.MagicRescue.ScanBuf | src/magicrescue.c:120-220 | all scanners over one window, as one pass after another; result 0 exactly if nothing was extracted, and then the position has not moved |
| Carver.MagicRescue.FillBuffer | src/magicrescue.c:270 | the buffer holds the image from the window's position on, whatever size the read had |
| Carver.MagicRescue.ReadPlanned | src/magicrescue.c:270 | each read is the next one of those that the device's script determines, and ends the loop exactly when they do |
| Carver.MagicRescue.CarryOver | src/magicrescue.c:287 | the last overlap bytes become the start of the next window |
| Carver.MagicRescue.ScanWindow | src/magicrescue.c:273-285 | after extractions the descriptor is put back behind the window |
| Carver.MagicRescue.ScanAndCarry | src/magicrescue.c:273-287 | the window invariant holds again for the next window |
| Carver.PlanAfterRead | src/magicrescue.c:270 | what one read does to the sequence of reads that is still to come |
| Carver.WhereItEnds | src/magicrescue.c:270-296 | the scan ends overlap bytes before what the reads that entered the loop have reached |
| Carver.WholeRun | src/magicrescue.c:223-320 | the theorems about whole runs, for what a scan leaves behind |
| Carver.RunLeavesNothingOut | src/magicrescue.c:120-220 | no visited or pruned hit is left out, in numbers as above, for all windows at once |
| Carver.MagicRescue.ScanLoop | src/magicrescue.c:270-296 | one window for each read that enters the loop, cut where it ends, all of them unless an extraction or lseek fails |
| Carver.MagicRescue.ResetRanges | src/magicrescue.c:314-319 | all slots are free again |
| Carver.MagicRescue.ScanDisk | src/magicrescue.c:223-320 | a whole run: the range scanned is [S, S + N - overlap), N being the bytes of the reads that entered the loop, whatever their sizes, and with full reads exactly the tail is left; for any scanners, soundness, and in numbers no extraction inside an earlier one less what may overlap, and no visited hit left out; fails only at the last extraction; for one scanner that keeps up, as with offset 0, the log is that of the greedy pass over the image |
| LinearMaps.FeedIsAhead | src/dupemap.c:215-221 | a register that adds f^k(one) per set bit is k steps ahead of long division, for any linear f |
| LinearMaps.FeedUpFront | src/dupemap.c:220 | feeding the top bits of a word one by one is adding the word first and shifting afterwards |
| Crc.ShiftOneToOne | src/dupemap.c:151-190 | multiplication by x modulo the generator loses nothing |
| Crc.FeedIsOneToOne | src/dupemap.c:220 | no step of the register loses information |
| Crc.RegisterIsRemainder | src/dupemap.c:215-234 | the register is the remainder of the message followed by 32 zero bits, by schoolbook division |
| Crc.RegisterZeroExactlyWhen | src/dupemap.c:215-221 | the register is zero exactly for the multiples of the generator |
| Crc.CollisionExactlyWhen | src/dupemap.c:215-221 | messages of the same length have the same register if and only if the generator divides their difference |
| Polynomials.TimesLeavesNothing | src/dupemap.c:151-190 | the remainder of the generator times any polynomial is zero |
| Polynomials.Quotient | src/dupemap.c:151-190 | what leaves no remainder is the generator times a quotient |
| Polynomials.MultipleExactlyWhen | src/dupemap.c:151-190 | a remainder of zero means: a multiple of the generator |
| Crc.ReachZero | src/dupemap.c:215-221 | a register can be brought to zero by n bits only if its 32 - n low bits are zero |
| Crc.BurstsDiffer | src/dupemap.c:215-221 | from the same register different bursts of up to 32 bits lead to different registers |
| Crc.BurstDetected | src/dupemap.c:215-234 | messages that differ only within 32 consecutive bits end in different registers |
| Checksum.EntryIsEightShifts | src/dupemap.c:151-190 | all 256 entries of crctab are eight shifts of their index |
| Checksum.TableStepIsFeed | src/dupemap.c:220 | one table step has the effect of feeding the octet's eight bits |
| Checksum.LongStepIsTableStep | src/dupemap.c:220 | the low half of the unmasked signed long follows the 32-bit register, sign extensions notwithstanding |
| Checksum.ReadContent | src/dupemap.c:215-226 | the register after the whole file, however fread splits it; fails exactly for unreadable files |
| Checksum.FinishChecksum | src/dupemap.c:231-234 | length and complement: the result is that of the cksum specification |
| Checksum.ReadChunk | src/dupemap.c:219-220 | the data loop, over one buffer |
| Checksum.LengthTrailer | src/dupemap.c:231-232 | the octets of the length enter, least significant first; which ones they are say OctetsDenote and OnlyTheseOctets |
| Checksum.OctetsDenote | src/dupemap.c:231-232 | the sum of octet i times 256^i is the length, and the last octet is not 0 |
| Checksum.OnlyTheseOctets | src/dupemap.c:231-232 | no other octets are like that |
| Checksum.ChecksumCalc | src/dupemap.c:199-237 | succeeds exactly for readable files, and then the result is that of the cksum specification, however the file is split into reads |
| Checksum.CksumIsRegister | src/dupemap.c:215-234 | the specification in terms of the register |
| Checksum.CksumWithLength | src/dupemap.c:199-237 | the specification for any octets that spell the length: the complement of the remainder of file and octets |
| Checksum.MessageBitAt | src/dupemap.c:219-220 | bit 8 i + j of the message is bit j of octet i, counted from the most significant one |
| Checksum.CheckValue | src/dupemap.c:199-237 | the file "123456789" has the checksum 0x377A6011 |
| Checksum.EmptyFile | src/dupemap.c:199-237 | the empty file has the checksum 0xFFFFFFFF |
| Checksum.CksumCollidesExactlyWhen | src/dupemap.c:199-237 | equally long files have the same checksum if and only if the generator divides their difference |
| Checksum.CollideExactlyWhenMultiple | src/dupemap.c:199-237 | that is, if and only if their difference is the generator times some polynomial |
| Checksum.BitBurstDetected | src/dupemap.c:199-237 | equally long files that differ only within 32 consecutive bits have different checksums |
| Checksum.ByteBurstDetected | src/dupemap.c:199-237 | equally long files that differ only within 4 consecutive bytes have different checksums |
| Checksum.FiveByteBurstMissed | src/dupemap.c:199-237 | five bytes are too many: a concrete collision |
| Dupemap.ParseMode | src/dupemap.c:256-295 | which operations are valid with and without a database, and which kind of database they use |
| Dupemap.Dupes.ReportAndDelete | src/dupemap.c:308-311 | report and delete as the mode says |
| Dupemap.Dupes.ScanFile | src/dupemap.c:297-337 | what happens to one file and to the database |
| Dupemap.Dupes.ScanAll | src/dupemap.c:433-435 | exactly the files that the history singles out are reported and deleted, in their order, which is also said in terms of sizes, limits, checksums and readability; the database afterwards; deleting with a temporary database loses no content if and only if no two different files collide |
| Dupemap.OneMoreFile | src/dupemap.c:304-336 | the decision made on the database is the one the history calls for |
| Dupemap.ActsExactlyWhen | src/dupemap.c:297-337 | a file is acted on if and only if it is readable, its size is within both limits, inclusive, and its size and checksum are known, or an earlier such file has them, as the kind of database says |
| Dupemap.NamedExactlyWhen | src/dupemap.c:433-435 | the names are those of exactly these files, in their order |
| Dupemap.HeldExactlyWhen | src/dupemap.c:304-336 | a database that is not only read gains size and checksum of every file that is checked, and nothing else |
| Dupemap.FirstOfEachKeySurvives | src/dupemap.c:304-315 | deleting with a temporary database: a qualifying file survives if and only if it is the first of its key |
| Dupemap.KeptRepresentative | src/dupemap.c:304-315 | for every deleted file an earlier one of the same key is kept |
| Dupemap.ScanThenDelete | src/dupemap.c:317-336 | a scan followed by a delete, each with its own size limits, removes exactly the qualifying files whose key was scanned |
| Dupemap.DeletesADifferentFile | src/dupemap.c:304-315 | two different files of which the second is deleted |
| Dupemap.DeletedDiffersWidely | src/dupemap.c:304-315 | for every deleted file an earlier one of its size is kept, and if they differ at all, not only within four consecutive bytes |
| Dupemap.SameKeyExactlyWhen | src/dupemap.c:192-196 | equal keys mean equal size and a difference that the generator divides |
| Dupemap.LostExactlyWhenDisplaced | src/dupemap.c:304-315 | for any key: a content is lost if and only if the first file of its key is an earlier one with another content |
| Dupemap.ContentLostExactlyWhen | src/dupemap.c:304-315 | a content is lost if and only if the first file that differs from it by a multiple of the generator is an earlier and different one |
| Dupemap.NothingLostExactlyWhen | src/dupemap.c:304-315 | no content is lost if and only if no two different files differ by a multiple of the generator |
| TextScore.NextScoreIsMax | tools/textextract.c:86-98 | the clamped running score is max(0, the largest suffix sum), a suffix at a block boundary earning the block score |
| TextScore.MaxScoreStops | tools/textextract.c:105-108 | so the score stop fires exactly when some suffix scores more than max_score |
| TextScore.InspectedUnique | tools/textextract.c:81-141 | how many bytes a pass inspects is determined by the bytes |
| TextScore.LetterWithin | tools/textextract.c:94-108 | while the text goes on no more than max_score bytes in a row are not letters |
| TextScore.RunsAreShort | tools/textextract.c:111-122 | no inspected run of one byte is longer than its limit plus two |
| TextScore.LinesAreShort | tools/textextract.c:125-132 | no inspected stretch without a newline is longer than max_line plus one |
| TextScore.BytesAreFew | tools/textextract.c:135-138 | at most max_bytes plus one bytes are inspected |
| TextLaws.RepeatStopExactlyWhen | tools/textextract.c:111-122 | a byte that may be repeated r > 0 times ends the text if and only if it is the last of r + 2 in a row, a NUL being thought before the first byte; r = 0 is no limit, r < 0 allows none |
| TextLaws.LineStopExactlyWhen | tools/textextract.c:125-132 | the line limit ends the text if and only if the last max_line + 1 bytes hold neither CR nor LF |
| TextLaws.ScoreStopExactlyWhen | tools/textextract.c:86-108 | the score ends it if and only if some stretch up to here, summed byte by byte, a boundary of 512 bytes right before it counted, is worth more than max_score |
| TextLaws.GoesOnExactlyWhen | tools/textextract.c:81-141 | n bytes do not end the text if and only if none of their stretches scores too much, no run and no line is too long and they are at most max_bytes |
| TextLaws.InspectedExactlyWhen | tools/textextract.c:81-141 | a pass stops at the first byte where that fails, and nowhere else |
| TextExtract.Scores.constructor | tools/textextract.c:65-72 | the counters agree with having seen nothing |
| TextExtract.Scores.HandleScore | tools/textextract.c:86-108 | the score is that maximum after every byte; stops exactly when it is too high |
| TextExtract.Scores.HandleRepeat | tools/textextract.c:111-122 | stops exactly when the last r + 2 bytes are equal, r > 0 being the repeats that the byte may have |
| TextExtract.Scores.HandleLine | tools/textextract.c:125-138 | stops exactly when the line or the whole is too long |
| TextExtract.Scores.InspectChar | tools/textextract.c:81-141 | returns 1 exactly when the bytes seen so far end the text; otherwise all counters mean what they should |
| TextExtract.FlushedKeepsLetter | tools/textextract.c:273-287 | after a flush the buffer begins with a letter and holds no other |
| TextExtract.FullBufferHasLetter | tools/textextract.c:273-287 | if max_score < bufsize - 1 the branch that "shouldn't happen" and the empty flush are unreachable, and every flush makes room |
| TextExtract.PromiseKeptExactlyWhen | tools/textextract.c:74-80 | the end of the output is after the last letter if and only if nothing was flushed or a letter came after the last flush; otherwise exactly one byte is missing |
| TextExtract.PromisedExactlyWhen | tools/textextract.c:99-100 | what is promised ends with the last inspected byte that has no positive score |
| TextExtract.ByteLimitExactlyWhen | tools/textextract.c:135-138 | the output exceeds max_bytes if and only if the first byte too many is a letter, and then by one |
| TextExtract.LastByteLost | tools/textextract.c:273-287 | a text of exactly as many letters as the buffer holds loses its last byte |
| TextExtract.OneByteTooMany | tools/textextract.c:135-138 | a text of max_bytes + 1 letters is written as a whole |
| TextExtract.DefaultIsLenient | tools/textextract.c:34-38 | the two texts before go on with the default options and tables |
| TextExtract.BoundariesRightExactlyWhen | tools/textextract.c:302-303 | after a backward pass of n bytes the forward pass has the block boundaries right if and only if n is a multiple of 512 or they are worth nothing |
| TextExtract.EndsUnique | tools/textextract.c:258-290 | where a forward pass ends, and whether it fails, is determined by the bytes |
| TextExtract.FailsOnlyIfShort | tools/textextract.c:273-287 | it fails only if max_score >= bufsize - 1 |
| TextExtract.UnspeakableIsNotWritten | tools/textextract.c:94-108 | a byte that alone scores too much, as NUL does by default, is never written |
| TextExtract.Extractor.ReadIn | tools/textextract.c:265 | the next bytes of the input follow those in the buffer |
| TextExtract.Extractor.InspectChunk | tools/textextract.c:266-271 | the inner loop goes as far as the text does |
| TextExtract.Extractor.WriteAndMove | tools/textextract.c:280-285 | what was written plus what is in the buffer stays what was read |
| TextExtract.Extractor.FlushBuffer | tools/textextract.c:273-287 | flushes up to the last letter; fails if and only if there is none after the first byte |
| TextExtract.Extractor.ReadChunk | tools/textextract.c:265-271 | one read and its inspection, whatever size the read had |
| TextExtract.Extractor.ReadTurn | tools/textextract.c:265-288 | one turn of the read loop keeps the buffer state, or ends as the bytes demand |
| TextExtract.Extractor.ReadForward | tools/textextract.c:258-290 | written plus buffered equals consumed throughout; ends where the bytes alone say, and fails exactly at the first full buffer that cannot be flushed |
| TextExtract.EndsHere | tools/textextract.c:304-306 | what is left to write at the end, from the buffer state |
| TextExtract.Extractor.InspectDown | tools/textextract.c:238-251 | the same counters, over the bytes in reverse |
| TextExtract.BackExactlyWhen | tools/textextract.c:238-254 | after a stop the backward part begins with the first inspected byte that has no positive score, in the order of the file; without a stop it is everything |
| TextExtract.Extractor.WriteBack | tools/textextract.c:240-254 | from the first letter of the text on, or everything if the text did not begin in between |
| TextExtract.Extractor.ReadBackward | tools/textextract.c:220-256 | writes the end of what lies at most max_reverse bytes before the position, and leaves the position where it was |
| TextExtract.Extractor.WriteForward | tools/textextract.c:302-307 | the forward output, and whether it is cut short, is a function of the input, the buffer size and the parameters, not of the read sizes |
| TextExtract.Extractor.DoTextExtract | tools/textextract.c:292-308 | the whole output, backward and forward part, is one piece of the file around the start that reaches back at most max_reverse bytes |
| TextExtract.Extractor.TextIsDetermined | tools/textextract.c:292-308 | which piece, and whether the buffer was long enough, does not depend on the read sizes |
| TextTables.WrittenReadsBack | tools/textextract.c:173-186 | a list of ranges in which no range beginning with a dash comes right behind a single byte, written as a string, is read back as it was meant |
| TextTables.WrittenReadsOn | tools/textextract.c:173-186 | also between two other pieces, if the one behind does not begin with a dash right behind a single byte |
| TextTables.TrailingDash | tools/textextract.c:177-181 | a byte and a dash at the end of a rule: the dash covers itself but takes away the byte |
| TextTables.Tables.SetRange | tools/textextract.c:182-185 | sets the entries of a range and no others |
| TextTables.Tables.NextRange | tools/textextract.c:177-181 | takes one range, or the terminating NUL, off the string |
| TextTables.Tables.ApplyRule | tools/textextract.c:173-186 | sets the entries that the rule's string covers and no others |
| TextTables.Tables.MakeLuts | tools/textextract.c:143-187 | every entry is that of the last rule that covers it |
| TextTables.DefaultLetters | tools/textextract.c:145-170 | with the built-in rules the letters are printable ASCII, tab, newline and carriage return, and NUL scores 10 |
| TextTables.DefaultScores | tools/textextract.c:145-170 | the built-in score of every byte |
| TextTables.DefaultRepeats | tools/textextract.c:145-170 | the built-in number of repeats of every byte |
| Recur.ListedExactlyWhen | src/recur.c:117-154 | an entry is listed if and only if every directory on the way is entered; none is more than 100 names down |
| Recur.ListedOnce | src/recur.c:117-154 | if no directory repeats a name, no path is listed twice |
| Recur.LeadsExactlyWhen | src/recur.c:117-154 | being reached, step by step: every name is one of the directory before it, that directory is entered, and the path is short enough and exists |
| Recur.ArgumentsExactlyWhen | src/recur.c:176-207 | an item is listed if and only if some argument brings it: one that cannot be opened brings itself if it exists, any other what names lead to from it, a trailing slash dropped, at most 100 levels down |
| Recur.ArgumentsInOrder | src/recur.c:182-203 | the items of the arguments come in the order of the arguments |
| Recur.EntriesInOrder | src/recur.c:117-154 | and those of the entries of a directory in the order of the entries |
| Recur.EntryComesFirst | src/recur.c:136-153 | an entry comes before everything below it |
| Recur.ParentUndoesPush | src/recur.c:78-88 | taking the parent of a path extended by a name gives the path back |
| Recur.ParentDir | src/recur.c:78-88 | the in-place truncation, on a NUL-terminated array |
| Recur.ReadOne | src/recur.c:125-139 | reading one name takes its listing off the front of what is pending |
| Recur.PushOne | src/recur.c:141-147 | entering a directory puts its listing in front of what is pending |
| Recur.DirStack.constructor | src/recur.c:90-110 | a fresh stack has the whole listing of its directory pending, a trailing slash dropped |
| Recur.DirStack.Pop | src/recur.c:126-134 | leaving a finished directory changes nothing that is pending |
| Recur.DirStack.ReadDir | src/recur.c:126 | the next name of the innermost directory |
| Recur.DirStack.Enter | src/recur.c:141-147 | prefix and stack stay in step |
| Recur.DirStack.NextName | src/recur.c:125-134 | the next name anywhere on the stack; none only if nothing is pending |
| Recur.DirStack.VisitName | src/recur.c:136-147 | a name is skipped, or its entry is the next one and its listing goes in front |
| Recur.DirStack.Next | src/recur.c:117-154 | yields the head of the recursive listing that is pending, with its full path, and leaves the tail; fails only if it is empty |
| Recur.Walker.Open | src/recur.c:156-168 | fails exactly for an empty list or a first path that is too long |
| Recur.Walker.NextArgument | src/recur.c:182-203 | goes on to the next argument: its listing, itself if it cannot be opened, or nothing |
| Recur.Walker.Next | src/recur.c:176-207 | yields the head of what remains of all arguments and leaves the tail |
| Recur.Walker.ListNext | src/dupemap.c:433-435 | one turn of a caller's loop |
| Recur.Walker.ListAll | src/dupemap.c:433-435 | a caller's loop sees exactly the concatenated recursive listings of the arguments: an item if and only if some argument brings it |

## Left out

- Processes, pipes, signals, resource limits and shell commands (src/extract.c and most of the three `main` functions): effects of the operating system. Of `extract` only the returned size matters here.
- Option parsing, messages, machine-readable output, `sscanf` and `fgets`: a recipe line is modelled after `sscanf` has taken it apart.
- Negative match offsets, which `%d` would accept (src/magicrescue.c:359): offsets are natural numbers.
- Carver.MagicRescue.CarryOver: the `memcpy` at src/magicrescue.c:287 is modelled by the old contents of its source; with a first read shorter than twice the overlap the C call would have overlapping operands.
- Carver.MagicRescue.ScanDisk: starts from free slots. The error returns at src/magicrescue.c:275-285 bypass the reset of the slots, so a later device of the same invocation begins with old ranges, see above.
- Several scanners with active ranges: the refinement to one greedy pass is about one scanner, as the cuts matter otherwise, see above; soundness and anti-overlap are about any number.
- Util.HexToLL: does not model the overflow of a long long, which takes more than 15 digits; parse_recipe passes at most 15, only `rich_seek` could pass more.
- TextExtract.Extractor.ReadBackward: that `lseek` and `read` deliver the bytes before the position is part of the model of the input; whether they may fail is a parameter of it.
- A `read` that fails in the forward pass of the text extractor (tools/textextract.c:265): the loop takes it for the end, so the input of the model is what came before.
- Failing writes in the text extractor (write_all, tools/textextract.c:189-200), except the zero-length flush.
- Block alignment of a forward pass after a backward pass: the code starts it from a moved offset, see above.
- Recur: deletion during a traversal, and what happens when `recur_next` is called again after it has returned -1.
- dupemap: anything but regular files, and the dbm library and its temporary directories (src/dupemap.c:59-137). Of the length only the lowest octet passes the mask at src/dupemap.c:232, so only that octet is formed.
- src/array.c, tools/safecat.c, tools/inputseek.c, `atol_calc`, `rich_seek` and `rm_rf`: they would only add easy members.
