# InstantGrat menu and matrix multiplication, modelled in Dafny

The repository holds two small Java programs.

- **InstantGrat** (`HelloGratification.java`) is an interactive terminal menu. Each prompt
  reads one line, trims it and dispatches on an exact match with the tokens `"1"`–`"7"` and
  `"0"`. The commands show a random compliment, joke or piece of ASCII art, run a countdown,
  a progress bar or a spinner, or print system information. `"0"` says goodbye and ends the
  session; anything else prints "Unknown option" and prompts again.
- **MatrixMultiplication** (`src/main/java/matrixMultiplication.java`) multiplies the fixed
  2×3 matrix `[[1,2,3],[4,5,6]]` by the fixed 3×2 matrix `[[7,8],[9,10],[11,12]]` with the
  textbook triple loop.

The model keeps the logic under the console output and proves what it computes. The
Dafny files are:

- `wrappers.dfy`: `Option`.
- `java_text.dfy` (module `JavaText`): the library calls the menu relies on.
  `String.trim` is `Trim`. `Integer.parseInt` in radix 10 is `ParseInt`, with `None` for
  NumberFormatException. `Decimal` is the decimal rendering that `Integer.toString` writes, and
  that `%d` writes in a locale whose digits are ASCII.
- `menu.dfy` (module `Menu`): the command datatype, the switch as `ParseCommand`, the
  running condition as `Step`, and the read-dispatch loop of `main`. The loop is a
  reference function `Session` and a method `RunSession` with a `while true` loop proved
  equal to it.
- `effects.dfy` (module `Effects`): the countdown, the progress demo and the spinner. Each
  is a method with the source's loops. The frames of the progress demo are specified by
  the function `Frame`.
- `content.dfy` (module `Content`): the three content banks and the random choice of an
  entry.
- `matrix.dfy` (module `Matrix`): `Multiply` over `array2<int>` with three nested loops,
  proved against the recursive partial sum `DotRowCol`, and the literal example.

Randomness is a parameter: a draw `r` with `0 <= r < n` stands for `R.nextInt(n)`. Console
input is a parameter too: the sequence of lines that `Scanner.nextLine` would return.

Some points where the model takes a side:

- The matrix file ends at line 26, right after `sum += A[i][k] * B[k][j];`. The store
  `C[i][j] = sum` after the inner loop is what the comment on line 21 states, and the
  model does that store.
- `Multiply` requires `A.Length1 <= B.Length0` (colsA ≤ rows of B), not equality. That is
  what the accesses `B[k][j]` for `k < colsA` need, and the code computes a result for
  every such input. The comment `// or k < B.length` on line 25 assumes equality, which is
  the case where the result is the matrix product. `DotRowColUsesLeadingRows` shows that
  when B has extra rows, they are ignored.
- Lines 17–18 read `A[0]` and `B[0]`. The method therefore requires both matrices to be
  non-empty, because Java throws an ArrayIndexOutOfBoundsException there otherwise.
- The countdown clamps only a value that parsed: `Math.max(1, n)`. Text that does not
  parse produces no frames and goes back to the menu. The code prints "Done!" once after
  the last count, not after every frame.
- `"0"` is the only exit. When a read finds no line, `Scanner.nextLine` throws
  NoSuchElementException and the session ends without a farewell. `Session` records that
  outcome as `exited == false`.

## Model

| member | source | states |
|---|---|---|
| `JavaText.SkipLeading` | HelloGratification.java:26 | the start of the trimmed part is at or after the given index and holds a character above U+0020, or is the end of the line |
| `JavaText.SkipTrailing` | HelloGratification.java:26 | the end of the trimmed part lies between its start and the given end, and the character before it is above U+0020 unless the part is empty |
| `JavaText.SkipLeadingBlanks` | HelloGratification.java:26 | every character skipped at the front is ≤ U+0020 |
| `JavaText.SkipTrailingBlanks` | HelloGratification.java:26 | every character dropped at the end is ≤ U+0020 |
| `JavaText.SkipLeadingPadding` | HelloGratification.java:26 | the front scan stops exactly at the first character above U+0020 |
| `JavaText.SkipTrailingPadding` | HelloGratification.java:26 | the end scan stops exactly after the last character above U+0020 |
| `JavaText.Trim` | HelloGratification.java:26 | the trimmed line is no longer than the line, and it is empty or neither starts nor ends with a character ≤ U+0020 |
| `JavaText.TrimCuts` | HelloGratification.java:26 | the trimmed line is the contiguous slice of the line between the two scans, and everything cut off before and after it is ≤ U+0020 |
| `JavaText.TrimPadded` | HelloGratification.java:26 | any token with non-blank ends, in any padding of characters ≤ U+0020, trims to exactly that token (so `" 1 \t"` selects command 1) |
| `JavaText.TrimIdempotent` | HelloGratification.java:26 | a law of `String.trim`: trimming an already trimmed line changes nothing |
| `JavaText.DigitValue` | HelloGratification.java:96 | a decimal digit stands for a number below 10 |
| `JavaText.DigitChar` | HelloGratification.java:120 | the character written for a number below 10 is the digit whose value it is |
| `JavaText.Decimal` | HelloGratification.java:120 | the rendering is a non-empty string of digits without a leading zero |
| `JavaText.DecimalValue` | HelloGratification.java:96 | reading the decimal rendering of `n` gives `n` back |
| `JavaText.DecimalLength` | HelloGratification.java:120 | numbers below 10, 100 and 1000 have at most 1, 2 and 3 digits |
| `JavaText.ParseInt` | HelloGratification.java:96 | a parsed value lies in the Java `int` range, and the text it came from is an optional sign followed by digits only |
| `JavaText.ParseDecimal` | HelloGratification.java:96 | every non-negative `int`, written in decimal with or without a leading `+`, parses to itself |
| `JavaText.ParseNegativeDecimal` | HelloGratification.java:96 | every negative `int` written as `-` and its magnitude parses to itself, down to -2^31 |
| `JavaText.ParseOutOfRange` | HelloGratification.java:96 | 2^31 and -2^31-1 are well formed but rejected as out of range |
| `JavaText.ParseRejectsNonDigit` | HelloGratification.java:104-105 | a non-digit anywhere except a leading sign makes the parse fail |
| `JavaText.ParseRejectsEmpty` | HelloGratification.java:104-105 | the empty line and a lone sign fail to parse |
| `Menu.Token` | HelloGratification.java:28-35 | every token the switch matches is a single digit from `0` to `7` |
| `Menu.ParseCommand` | HelloGratification.java:27-36 | a recognised choice is exactly its command's token; an unrecognised one is no command's token |
| `Menu.ParseToken` | HelloGratification.java:28-35 | each token selects its own command, and the eight tokens are distinct |
| `Menu.Step` | HelloGratification.java:23-40 | after a prompt the session is still running exactly when it was running and the trimmed choice is not `"0"` |
| `Menu.StepDecidesRound` | HelloGratification.java:23-35 | the first prompt ends the session at once exactly when `Step` turns the running condition off |
| `Menu.Session` | HelloGratification.java:20-42 | every completed round reads at least two lines, so twice the number of choices is at most one more than the number of lines; a session that does not exit has used up its input, at most three lines per choice; and there is at least one choice when there is any input |
| `Menu.RoundLength` | HelloGratification.java:26-40 | a round that does not exit reads at least the choice line and the acknowledgement line, and a third line, the countdown's argument read at line 95, exactly when it runs the countdown |
| `Menu.ExitsLastCons` | HelloGratification.java:27-40 | prefixing a round whose choice is not the exit keeps the exit as the last and only exit choice of the transcript |
| `Menu.SessionExitsLast` | HelloGratification.java:35-40 | a session exits exactly when its last dispatched choice is the exit command, and no earlier choice is the exit |
| `Menu.SessionExitNeedsZero` | HelloGratification.java:26-35 | a session that exits has read a line that trims to `"0"`; the lemma returns its position, and that line is the last one the session reads, since the session over the lines up to it is the same |
| `Menu.ExitAtFirstPrompt` | HelloGratification.java:35 | a `"0"` at the first prompt ends the session with no further prompt |
| `Menu.RunSession` | HelloGratification.java:20-42 | the read-dispatch loop produces exactly the transcript of `Session` on the same input lines |
| `Effects.CountdownStart` | HelloGratification.java:96 | the start value is `max(1, n)`: at least 1, at least `n`, and equal to one of them |
| `Effects.QuickCountdown` | HelloGratification.java:92-107 | no frames when the trimmed line does not parse; otherwise exactly `s = max(1, n)` frames, frame `k` showing `s - k` |
| `Effects.CountdownDecreases` | HelloGratification.java:98-101 | countdown frames strictly decrease, from `s` down to exactly 1, the single frame of the clamped countdown included |
| `Effects.CountdownFive` | HelloGratification.java:95-101 | the line `" 5 "` counts 5, 4, 3, 2, 1 |
| `Effects.CountdownClamped` | HelloGratification.java:96-101 | the line `"-3"` counts once, from 1 |
| `Effects.CountdownRejected` | HelloGratification.java:96-105 | the line `"five"` produces no frames |
| `Effects.Percent` | HelloGratification.java:113 | the percentage of every unit 0..30 lies in [0, 100] |
| `Effects.Bars` | HelloGratification.java:114 | the filled slots of every unit 0..30 lie in [0, 20] |
| `Effects.ProgressMonotone` | HelloGratification.java:112-114 | percentage and filled slots never decrease as the unit grows |
| `Effects.ProgressMilestones` | HelloGratification.java:111-114 | unit 0 gives 0% and 0 slots, unit 15 gives 50% and 10, unit 30 gives exactly 100% and 20, and no earlier unit reaches 100% |
| `Effects.Repeat` | HelloGratification.java:117-118 | `n` copies of a character: length `n`, every position that character |
| `Effects.PadLeft` | HelloGratification.java:120 | right justification: the text ends the result, the positions before it are spaces, the length is the larger of width and text length |
| `Effects.PercentLabelWidth` | HelloGratification.java:120 | `%3d%%` of every percentage 0..100 takes four characters and ends in `%` |
| `Effects.PercentLabel` | HelloGratification.java:120 | `%3d%%`: the digits of `p` right-justified in a field of three spaces, never cut when wider, then `%` |
| `Effects.Bar` | HelloGratification.java:116-119 | the bar is 23 characters, opening with `[` and closing with `] ` |
| `Effects.BarLayout` | HelloGratification.java:116-119 | the bar is 23 characters: `[`, the first `bars` of 20 slots `=`, the rest spaces, then `] ` |
| `Effects.LineLayout` | HelloGratification.java:116-120 | a frame is 27 characters: the bar, then the four-character percentage |
| `Effects.Frame` | HelloGratification.java:113-120 | frame `i` is 27 characters: the bar for `Bars(i)` filled slots, then the label for `Percent(i)` |
| `Effects.FrameLayout` | HelloGratification.java:113-120 | frame `i` is 27 characters: `[`, `Bars(i)` `=` then spaces for 20 slots, `] `, then `Percent(i)` right-justified and `%` |
| `Effects.FinalFrame` | HelloGratification.java:112-120 | the last frame is the bar with all 20 slots filled followed by `100%` |
| `Effects.BuildFrame` | HelloGratification.java:113-120 | the StringBuilder loops build exactly frame `i` |
| `Effects.ProgressDelay` | HelloGratification.java:122 | the delay `60 + r` for a draw in [0, 120) lies in [60, 180) ms |
| `Effects.ProgressDemo` | HelloGratification.java:109-125 | the demo shows the 31 frames for units 0 to 30 in order, each followed by a delay of `60 + r` in [60, 180) ms |
| `Effects.Glyph` | HelloGratification.java:129-131 | the glyph of every frame index is one of the four spinner glyphs |
| `Effects.GlyphCycle` | HelloGratification.java:129-131 | glyph `i` equals glyph `i + 4`, and the cycle runs vertical bar, slash, dash, backslash |
| `Effects.SpinnerDemo` | HelloGratification.java:127-135 | exactly 30 frames, frame `i` being `Working ` followed by glyph `i mod 4` |
| `Content.Size` | HelloGratification.java:62-88 | every bank is non-empty, so the draw bound is positive |
| `Content.SwitchShowsBank` | HelloGratification.java:27-30 | exactly the choices `"1"`, `"2"` and `"3"` reach the compliment, joke and art banks respectively, and no other choice reaches any bank |
| `Content.Show` | HelloGratification.java:61-90 | for a literal array of the bank's size and a draw below that size, the entry shown is one of the array's |
| `Content.Pick` | HelloGratification.java:70-89 | for a draw `0 <= r < length`, the index is in bounds and the shown entry is one of the bank's |
| `Content.PickInjective` | HelloGratification.java:70 | in a bank without repeated entries, different draws show different entries |
| `Content.PickCovers` | HelloGratification.java:80 | every entry of a bank is shown for some draw |
| `Matrix.Multiply` | src/main/java/matrixMultiplication.java:16-26 | a new matrix with `rowsA` rows and `colsB` columns whose every entry `C[i,j]` is the sum over `k < colsA` of `A[i,k] * B[k,j]`; all accesses stay in bounds |
| `Matrix.DotRowColIdentity` | src/main/java/matrixMultiplication.java:21 | against the identity matrix the sum picks out exactly `A[i,j]`, so the product with the identity is `A` |
| `Matrix.DotRowColUsesLeadingRows` | src/main/java/matrixMultiplication.java:25 | only the first `colsA` rows of B take part in the sum |
| `Matrix.LiteralProduct` | src/main/java/matrixMultiplication.java:4-13 | the literal inputs give `[[58,64],[139,154]]` |

## Left out

- Console output: the ANSI colour constants, the banner, the menu text, the farewell and
  the other fixed messages. The `\r` that overwrites the terminal line is left out too, so
  frames are modelled without it.
- `Thread.sleep` and InterruptedException. The countdown's 1000 ms and the spinner's
  120 ms waits are not modelled; the progress demo's delays are returned as values.
- `Effects.QuickCountdown`: assumes no interrupt. In `quickCountdown` the `catch` of
  InterruptedException encloses the whole `for` loop, so an interrupt would end the
  countdown early, skipping the remaining counts and "Done!"; the model always shows all
  `s` counts.
- `Effects.PercentLabel`: renders ASCII digits. `String.format` uses the default locale,
  which may replace the digits of `%d` by its own; the model matches a locale whose zero
  digit is `'0'`.
- `java.util.Random`: each draw is a parameter in the range Java guarantees.
- `systemInfo`: it only passes through platform properties and JVM memory figures.
- The literal text of the compliment, joke and ASCII-art banks (emoji included). The model
  keeps only the bank sizes 6, 4 and 3.
- `JavaText.ParseInt`: accepts ASCII digits only; `Integer.parseInt` also accepts other
  Unicode decimal digits.
- `JavaText.Trim`: works on Unicode scalar values, whereas Java compares UTF-16 code units;
  both remove exactly the characters up to U+0020.
- `Menu.RunSession`: records which command each prompt dispatched. It does not record the
  output of the command. The countdown's frames for its argument line are given by
  `Effects.QuickCountdown`, and the entry shown by a bank by `Content.Pick`.
- `Matrix.Multiply`: uses unbounded integers, so Java's 32-bit wrap-around in
  `sum += A[i][k] * B[k][j]` is not modelled. Matrices are `array2`, whose rows all have
  one length, so Java's ragged `int[][]` rows and the exceptions they would cause are not
  modelled either. It requires both matrices to have at least one row, so the
  ArrayIndexOutOfBoundsException that `A[0].length` and `B[0].length` throw on an empty
  matrix at lines 17-18 is not modelled.
- Java file names: both source files declare a public class whose name differs from the
  file name (`MatrixMultiplication`, `InstantGrat`). That is a build concern, not logic.
