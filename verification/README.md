# Verified models of the TMS9900 demos and runtime

This Dafny 4.11 project models the parts of the repository whose results are easy to specify and hard to
compute, and proves the specifications for all inputs and all runs. `dafny verify dfyconfig.toml` checks it.
The files fall into four groups.

**Game of Life** (`LifeWord`, `LifeBoard`, `LifeTiles`, `LifeRegion`, `LifeWindowed`, `LifeScaled`, `Life2x`).
The specification is Conway's rule on single cells of a torus and, for the display, "the pixel at (x, y) shows
the cell at (x/2, y/2)". Against it stand the 16-cells-at-a-time carry-save adder, the sliding windows over
packed big-endian words, the tile maps that let whole rows be skipped, and the pattern table that is rewritten
only where tiles changed. `life2_2x.c` is modelled for every width of at least two words and every height of at
least one tile row (the screen limits them to 8 and 24, which are the code's own values). `life.c` and `life2.c`
are modelled on any window of any screen, and are proved against one specification, so that the optimised loop
refines the plain one for every active map, right or wrong.

**Arithmetic runtime** (`Bits`, `UnsignedDivide`, `SignedDivide`, `Multiply`, `IntToFloat`, `Ball`). Words are
integers in range, with C's shifts and bitwise operators defined on their binary digits. Division is compared
with Euclidean division, signed division with section 6.5.5 of ISO C11, integer-to-float conversion with "nearest
binary32 value, ties to the even pattern" (section 4.3.1 of IEEE 754-2008) quantified over all finite patterns,
and the ball's energy with an interval that no run leaves.

**State machines** (`Lfsr`, `WorkQueue`, `WorkDelays`, `Conversion`, `NulInput`, `InputPieces`, `Iconv`, `IconvWitness`).
`main_queue.c` becomes a transition system of atomic steps in any order, and its delay generator is proved to have
the maximal period that its comment claims; in every run the items are sent as the generator draws them, taken in that
order, and delay their takers by as many ticks. `iconv` becomes a descriptor class over an arbitrary pair of character sets with arbitrary shift states;
its specification `Encoding` says what a stretch of input converts to, and a call moves bytes between "consumed",
"emitted" and "pending" without loss.

**Buffers and tables** (`Options`, `Memory`, `Argz`, `ArgzSplit`, `ArgzEdit`, `Tokenizer`, `ArgzVector`, `CtypeTable`,
`MkCtype`). An argz buffer stands for a list of strings; search and replace, split, join, insert and delete are
proved to do on the list what they are for. The class table is the run-length code that `mkctype.py` prints for an arbitrary
classification, and the C search decodes it.

Where the code does not meet what one would expect, the exact condition is proved:

- The library's `strsep` returns empty tokens except one at the very end (`string/strtok_r.c:61-64`). Hence
  splitting and joining gives back a string, and the split has one entry more than there are separators, exactly
  when the string does not end with the separator (`ArgzSplit.RoundTrip`, `ArgzVector.Vector.SplitThenJoin`;
  `ArgzSplit.TrailingSeparatorLost` is the smallest counterexample).
- `mkctype.py` starts its gap pointer at 1 and closes the table only after a run that has a class. Searches in the
  four-byte table find the class of every generated code exactly when no code has a class, or the last one has and
  code 0 is found: code 0 has a class, or codes 0 and 1 have none and the table, with one entry more than there are
  runs, is not of a size in which the search underflows. For the two-byte table the last code (0xffff) must have no
  class, and the table has one entry for each run (`MkCtype.Generator.DumpTable`; `EmptyAtZero`, `EmptyAtEnd`,
  `EmptyAtZeroAndOne`, `EmptyThroughout` and `FiveEntriesUnderflow` are one classification for each case).
- The streaming writer of `life2_2x.c` always starts at character (0, 0), whereas `vdp_write_tile_scaled` honours
  the centred region: the two agree exactly for the full width and 23 or 24 tile rows (`StreamingPlacement`, with
  `NarrowRegionDiffers`).
- `INT64_MIN / -1` wraps in `__divdi3`; quotient and remainder recombine without wrapping exactly otherwise
  (`SignedDivide.Recombine`).
- The comment above `_buf_findstr` says that the buffer pointer becomes NULL at the end; the code sets it to the
  end, and so does the model.
- A call of `_buf_findstr` with the empty string stops at the first terminator and does not pass it. The counting
  loop of `argz_replace` therefore ends exactly when the search string is not empty or the vector is
  (`Argz.CountingEnds`, with `Argz.EmptySearchLoops`).
- An `iconv` call fails exactly when the input gets stuck at some place (a malformed character, or one that the
  target set does not have) and what is due in front of that place takes less than the room. A failing call reports
  its input position but no output (`iconv.c:137-141`), so it keeps the conservation law exactly when nothing was
  due (`Iconv.Converter.Convert`). It does keep the shift states, which are those behind the character that could not
  be converted (`IconvWitness.SkipAndGoOn`, `IconvWitness.ShiftKept`). `IconvWitness.LoseByte` loses an 'A' in front of a malformed byte;
  `IconvWitness.DivisionShows` is the case in which the division of the room shows.
- `iconv` consumes everything behind a NUL and converts none of it (`iconv.c:76-79`). A call agrees with the
  conversion that goes on behind NULs, for target sets whose characters take at least one byte each, exactly when
  no consumed NUL has more behind it than an unfinished character
  (`NulInput.CompleteExact`; `IconvWitness.ByteBehindNul`).
- `__ctype_table_lookup` with a code below the first entry, such as a negative `wchar_t`, takes its upper index from
  h to h/2 - 1, which steps below 0 exactly in tables of 3 * 2^k - 1 to 4 * 2^k - 2 entries for some k
  (`CtypeTable.UnderflowExact`, with `TwoEntriesUnderflow`). In the two tables that the repository has it does not:
  the search answers with the class of the first entry (`CtypeTable.ShippedTablesDoNot`).
- A worker can finish exactly when as many ticks have passed as its item says, or more. Exactly that many have passed
  when it does finish if and only if the clock never ticked while it was ready (`WorkDelays.ExactDelay`); that it may
  is shown by a run in which another worker's longer delay goes on (`WorkDelays.LateMark`).
- `argz_delete` takes the null pointer that the library's `realloc` returns for size 0 (`stdlib/realloc.c`) for a
  failure: it reports ENOMEM exactly when the deleted string fills the vector, although the string is gone
  (`ArgzVector.Vector.Delete`, with `DeleteOnlyEntry`).

## Model

| member | source | states |
|---|---|---|
| LifeWord.FullAdder | cart_example/life2_2x.c:368-379 | In every lane, three bits equal the sum bit plus twice the carry bit. |
| LifeWord.AdderTree | cart_example/life2_2x.c:368-388 | The four result words hold, lane by lane, the binary count of the eight neighbour bits: no carry is lost in any of 16 lanes. |
| LifeWord.NextWordLane | cart_example/life2_2x.c:364-393 | Each lane of the result is alive exactly when Conway's rule says so for that lane and its neighbour count. |
| LifeWord.SimplifiedRule | cart_example/life.c:331-361 | The n2/n3 rule of life.c and the six-operation rule of life2.c give the same word for all nine input rows. |
| LifeBoard.RowLanes | cart_example/life.c:433-451 | The shifted words hold the left and right neighbours of each of the 16 cells, across word borders and the wrap. |
| LifeBoard.WordAtIsLife | cart_example/life2_2x.c:480-541 | The word computed from nine loads is the naive toroidal successor of its 16 cells. |
| LifeBoard.WordsGiveSuccessor | cart_example/life2_2x.c:435-543 | A board with that word everywhere is the naive Life successor, cell by cell. |
| LifeBoard.BoardExt | cart_example/life2_2x.c:435-543 | A packed board is determined by its cells, so there is only one successor board. |
| LifeBoard.QuietCell | cart_example/life2_2x.c:462-476 | A cell whose tile lies outside the 3x3 dilation of the live tiles is dead in the successor. |
| LifeBoard.QuietWord | cart_example/life2_2x.c:462-476 | A word all of whose tiles lie outside the dilation would be computed as 0, so not computing it is sound. |
| LifeBoard.MaskTest | cart_example/life2_2x.c:563-578 | A nibble or byte mask test is true exactly when one of that tile's lanes is alive. |
| LifeTiles.TileMaps.MarkNine | cart_example/life2_2x.c:316-329 | Exactly the nine tiles around a tile, wrapped at the edges, become active; every other flag stays. |
| LifeTiles.TileMaps.BuildActiveFromLive | cart_example/life2_2x.c:300-333 | The active map becomes exactly the 3x3 toroidal dilation of the live map. |
| LifeTiles.TileMaps.MarkAllDirty | cart_example/life2_2x.c:642-651 | Every tile is marked dirty. |
| LifeTiles.AroundMore | cart_example/life2_2x.c:310-332 | Adding a tile to a set adds exactly the nine tiles around it to the dilation, in whichever order tiles are scanned. |
| LifeTiles.DilationOfLive | cart_example/life2_2x.c:300-333 | With an exact live map, the dilation of the map is the dilation of the board's live tiles. |
| LifeRegion.FoundAll | cart_example/life2.c:506-519 | Marking tiles word by word over the whole window finds exactly the tiles with a live cell. |
| LifeRegion.SkippingIsSound | cart_example/life2.c:454-460 | If the active map is the dilation of the live tiles, the board with skipped words left 0 is the naive successor. |
| LifeRegion.ChangesAreExact | cart_example/life2.c:506-519 | Under the same condition the change mask marks exactly the cells that differ, skipped words included. |
| LifeRegion.DirtyIsChange | cart_example/life2.c:506-513 | Under the same condition a tile is dirty exactly when one of its cells changes. |
| LifeWindowed.MarkWord | cart_example/life.c:456-469 | Exactly the flags of the two tiles of a word whose byte is not zero are set. |
| LifeWindowed.SkipWord | cart_example/life2.c:456-460 | Skipping a word leaves what emitting 0 for it would leave: destination and both maps. |
| LifeWindowed.StepBoard | cart_example/life.c:394-483 | life.c's step_board: the window becomes the planned result, the rest of the screen stays, live and dirty maps flag exactly the tiles of result and changes, the active map is the dilation of the result. |
| LifeWindowed.SlideRow | cart_example/life2.c:439-521 | One row with the one-load skip and the sliding window that reloads only after a gap emits what full loads would. |
| LifeWindowed.StepBoardSliding | cart_example/life2.c:411-533 | life2.c's step_board meets the same specification as life.c's, for every board and every active map. |
| LifeWindowed.SideBySide | cart_example/life2.c:411-533 | From equal boards and equal maps both programs leave equal windows and equal live, dirty and active maps. |
| LifeWindowed.StepLife | cart_example/life2.c:411-533 | With the dilation as active map, the window steps by naive Life, dirty is exactly the set of changed tiles, and live and active are right for the next step. |
| LifeScaled.SuccessorIsLife | cart_example/life2_2x.c:435-543 | A board equals the computed successor if and only if it is the naive Life successor. |
| LifeScaled.AccTile | cart_example/life2_2x.c:549-578 | A nibble of the four accumulated words is not zero exactly when its 4x4 tile has a live cell. |
| LifeScaled.ExpandDoubles | cart_example/life2_2x.c:249-254 | The expansion table doubles each of four cells: pixel j shows cell j/2. |
| LifeScaled.TilePixel | cart_example/life2_2x.c:593-616 | Pixel j of pattern byte r of a tile is the cell half as far across and down. |
| LifeScaled.ShownIsDisplayed | cart_example/life2_2x.c:653-735 | If each tile's eight bytes are right, every pixel of the screen is the cell at half its coordinates. |
| LifeScaled.CleanRowShown | cart_example/life2_2x.c:676-689 | A tile row without a changed cell already shows the new board, so skipping it is sound. |
| LifeScaled.PatternAddrLinear | cart_example/life2_2x.c:599-602 | The group and pattern address of a character is 256 * row + 8 * column: the three groups are contiguous. |
| LifeScaled.RegionCentred | cart_example/life2_2x.c:63-64 | A region has as many free columns left of it as right, and at most one more free row below it than above. |
| LifeScaled.StreamingPlacement | cart_example/life2_2x.c:653-720 | Streaming and per-tile writing use the same addresses for all tiles if and only if the width is 8 words and there are 23 or 24 tile rows. |
| LifeScaled.NarrowRegionDiffers | cart_example/life2_2x.c:593-602 | With four words and 24 rows the first tile belongs at address 64 and is streamed to 0. |
| Life2x.StepRow | cart_example/life2_2x.c:481-541 | Every word of one destination row becomes the word that nine loads give, with the wrap at both ends; other rows stay. |
| Life2x.QuietRow | cart_example/life2_2x.c:467-476 | A tile row without an active flag has an all-zero successor. |
| Life2x.ComputeSuccessor | cart_example/life2_2x.c:462-543 | The first pass leaves exactly the successor board although whole tile rows are skipped. |
| Life2x.BuildLiveDirty | cart_example/life2_2x.c:545-579 | The second pass leaves the live map exact for the new board and the dirty map exact for the difference of the boards. |
| Life2x.StepBoard | cart_example/life2_2x.c:435-591 | If active is the dilation for the source, the destination is the naive Life successor, live and dirty are exact, and active is the dilation for the destination. |
| Life2x.BuildActiveTiles | cart_example/life2_2x.c:256-298 | A scan of the board itself leaves the dilation of its live tiles. |
| Life2x.AnyNibble | cart_example/life2_2x.c:268-280 | The accumulated nibble is not zero exactly when the tile has a live cell. |
| Life2x.Demo.VdpData | cart_example/life2_2x.c:99-109 | A data write stores one byte at the write address, which advances. |
| Life2x.Demo.StreamTile | cart_example/life2_2x.c:703-714 | Eight consecutive bytes become the doubled rows of a tile and all others stay. |
| Life2x.Demo.WriteDirtyPatterns | cart_example/life2_2x.c:653-735 | If the rows that will be skipped already show the board, afterwards every row shows it, and no byte outside the dirty rows has changed. |
| Life2x.Demo.Reseed | cart_example/life2_2x.c:883-893 | Arbitrary cells in the current board, an exact active map, and no tile row that a redraw would skip. |
| Life2x.Demo.Frame | cart_example/life2_2x.c:915-973 | One pass of the frame loop, with or without a reseed, keeps "active is the dilation and video memory shows the board", and the board becomes the successor or the seed. |
| Life2x.Run | cart_example/life2_2x.c:896-974 | After any number of frames with any reseeds, the boards are a history in which each is the naive Life successor of the one before or the seed, and every screen pixel is the cell at half its coordinates. |
| Life2x.HistoryUnique | cart_example/life2_2x.c:915-973 | There is only one such history. |
| Life2x.Demo.WriteTileScaled | cart_example/life2_2x.c:593-616 | The eight bytes at the tile's place in the region become its pattern and no other byte changes. |
| Life2x.Demo.RewriteRow | cart_example/life2_2x.c:593-735 | At full width and with 23 or 24 tile rows, writing the tiles of a streamed row one by one changes no byte. |
| UnsignedDivide.Funnel | libtms9900/builtins/i64/udivmoddi4.c:91-97 | The hand-written funnel shifts give the 64-bit quotient and the shifted-out remainder of a division by a power of two. |
| UnsignedDivide.PartialFits | libtms9900/builtins/i64/udivmoddi4.c:162-167 | The doubled partial remainder is bounded by the consumed prefix of the dividend, so it never exceeds 64 bits. |
| UnsignedDivide.KeepDividing | libtms9900/builtins/i64/udivmoddi4.c:162-182 | One iteration keeps the loop invariant: prefix = quotient * divisor + partial remainder, with the latest quotient bit delayed in the carry. |
| UnsignedDivide.SubtractIfFits | libtms9900/builtins/i64/udivmoddi4.c:172-181 | The 32-bit comparison and hand-written borrow compute the 64-bit conditional subtraction. |
| UnsignedDivide.ShiftRegisters | libtms9900/builtins/i64/udivmoddi4.c:163-167 | The register pair shifts left as one 128-bit value and takes the delayed quotient bit in. |
| UnsignedDivide.ShiftSubtract | libtms9900/builtins/i64/udivmoddi4.c:161-187 | From any start count in 1..63 the loop ends with dividend = quotient * divisor + remainder, remainder below the divisor. |
| UnsignedDivide.NearShift | libtms9900/builtins/i64/udivmoddi4.c:141-160 | The normalisation for a divisor of two words, shift counts in 1..32, meets the loop's precondition. |
| UnsignedDivide.DivideByWord | libtms9900/builtins/i64/udivmoddi4.c:98-131 | All paths for a one-word divisor: power of two, and the three normalisations around a shift of 32. |
| UnsignedDivide.DivideHalves | libtms9900/builtins/i64/udivmoddi4.c:47-188 | Every path of the function divides, for every dividend and every non-zero divisor. |
| UnsignedDivide.UDivMod | libtms9900/builtins/i64/udivmoddi4.c:34-188 | a == q * b + r with r < b, hence the Euclidean quotient and remainder, for all 64-bit a and b != 0. |
| SignedDivide.TruncIsC | libtms9900/builtins/i64/divdi3.c:13-21 | Truncating quotient and dividend-signed remainder are the one pair that ISO C11 section 6.5.5 allows. |
| SignedDivide.MaskNegates | libtms9900/builtins/i64/divdi3.c:17-20 | Xor with the sign mask and subtraction of it negates modulo 2^64 for mask -1 and does nothing for mask 0. |
| SignedDivide.DivDi3 | libtms9900/builtins/i64/divdi3.c:13-21 | The quotient truncates toward zero, except that INT64_MIN / -1 wraps to INT64_MIN. |
| SignedDivide.ModDi3 | libtms9900/builtins/i64/moddi3.c:13-22 | The remainder has the sign of the dividend and a magnitude below the divisor's, for all operands. |
| SignedDivide.Recombine | libtms9900/builtins/i64/moddi3.c:13-22 | (a/b)*b + a%b equals a modulo 2^64 always, and exactly except for INT64_MIN / -1. |
| Multiply.Columns | libtms9900/builtins/i64/muldi3.c:22-33 | The 16-bit column sums never overflow a word and add up to the full product. |
| Multiply.MulDsi3 | libtms9900/builtins/i64/muldi3.c:17-36 | The exact 64-bit product of any two 32-bit words. |
| Multiply.MulDi3 | libtms9900/builtins/i64/muldi3.c:41-51 | The product modulo 2^64 of any two signed 64-bit values. |
| IntToFloat.Clzsi2 | libtms9900/builtins/softfloat/clzsi2.c:19-48 | The branchless steps compute the leading-zero count of every non-zero word. |
| IntToFloat.RoundsUnique | libtms9900/builtins/softfloat/floatunsisf.c:20-49 | No number has two nearest patterns under the tie rule. |
| IntToFloat.RoundsMonotone | libtms9900/builtins/softfloat/floatunsisf.c:20-49 | A larger number never rounds to a smaller pattern. |
| IntToFloat.RoundsBetween | libtms9900/builtins/softfloat/floatunsisf.c:37-44 | Between two neighbouring patterns the tested remainder decides which is nearest, ties to even. |
| IntToFloat.RoundedBits | libtms9900/builtins/softfloat/floatunsisf.c:36-47 | A significand longer than 24 bits is rounded to the nearest pattern, also when rounding carries into the exponent. |
| IntToFloat.FloatUnsiSf | libtms9900/builtins/softfloat/floatunsisf.c:20-49 | The pattern nearest to the integer among all finite ones, ties to even, and the exact value up to 2^24. |
| IntToFloat.FloatSiSf | libtms9900/builtins/softfloat/floatsisf.c:20-58 | The sign of the integer and its magnitude rounded so, for all 2^32 inputs; exact up to 2^24 in magnitude. |
| IntToFloat.SignedMonotone | libtms9900/builtins/softfloat/floatsisf.c:20-58 | Conversion is monotone over all signed inputs, across zero. |
| Ball.DigitStep | cart_example/ball2.c:138-146 | One digit of the square root: the comparison of the remaining value with the trial decides whether the next bit of the root is set. |
| Ball.Isqrt16 | cart_example/ball2.c:130-148 | The exact floor square root of every 16-bit value; no intermediate value leaves 16 bits. |
| Ball.RootMonotone | cart_example/ball2.c:130-148 | Floor square roots are monotone, hence unique. |
| Ball.BorderIndexExact | cart_example/ball2.c:181-195 | On screen the index is within the border array exactly for border cells, and no two cells share one. |
| Ball.Rebalanced | cart_example/ball2.c:346-364 | Giving one component what the other leaves of the energy keeps speed2 - 2*max_axis <= vx^2 + vy^2 <= speed2. |
| Ball.Jitter | cart_example/ball2.c:321-366 | The draw decides which component moves by the clamped step; the other becomes the root of the rest. |
| Ball.Simulation.Frame | cart_example/ball2.c:286-381 | One pass of the loop is one specified move, with every 16-bit operation in range. What a move is for positions and velocities is stated by the next rows. |
| Ball.TurnsAtWalls | cart_example/ball2.c:297-319 | A move that would leave the box ends at the wall and leaves the velocity pointing away from it or zero; a move that stays inside adds the velocity to the position and does not reverse it. |
| Ball.PlainBounce | cart_example/ball2.c:321-371 | Unless the first draw is below the threshold, a wall reverses its own component and changes nothing else. |
| Ball.OpenMove | cart_example/ball2.c:321 | In the open the velocity stays, whatever is drawn. |
| Ball.JitterAtX | cart_example/ball2.c:334-354 | At an x wall, and in a corner if the third draw is low, a draw below the threshold moves the x speed by 7 within 0 to 90, upwards if the second draw is high, and the y speed becomes the root of the rest. |
| Ball.JitterAtY | cart_example/ball2.c:334-364 | The same at a y wall, and in a corner if the third draw is high. |
| Ball.FirstWall | cart_example/ball2.c:233-319 | From the start state, for every random sequence, eleven frames run diagonally and the twelfth stops at the lower wall. |
| Ball.BorderCounts | cart_example/ball2.c:286-295 | In every run each border cell shows, as a digit of base 36, how often the ball has left it. |
| Ball.MoveKeeps | cart_example/ball2.c:286-381 | Every move keeps the ball in the box and the energy in its band. |
| Ball.MoveUnique | cart_example/ball2.c:286-381 | The specification of a move has one outcome for each random draw. |
| Ball.RunKeeps | cart_example/ball2.c:233-381 | In every run, for every random sequence, the ball stays in the box and the energy never drifts out of its band. |
| Ball.Run | cart_example/ball2.c:233-381 | The program's states are such a run, from the start state on. |
| WorkDelays.QueueKept | FreeRTOS/main_queue.c:114-160 | In every run the k-th item sent is one more than the remainder by 6 of the register's k-th state after the seed, and the queue holds the items sent and not received in the order of sending. |
| WorkDelays.FirstItems | FreeRTOS/main_queue.c:46-67 | The first item sent is 3 and the second 5. |
| WorkDelays.DelayLeft | FreeRTOS/main_queue.c:114-127 | In every run the worker of the k-th receive delays for the k-th item sent, less the ticks since. |
| WorkDelays.DelayingTook | FreeRTOS/main_queue.c:114-127 | Every delaying worker has received an item and not finished since. |
| WorkDelays.MarkExactly | FreeRTOS/main_queue.c:114-132 | It can finish if and only if at least as many ticks as that item says have passed since it received it. |
| WorkDelays.ExactDelay | FreeRTOS/main_queue.c:122-132 | Exactly as many have passed if and only if no tick came while it could finish. |
| WorkDelays.LateMark | FreeRTOS/main_queue.c:122-132 | A run in which the worker with the item 3 finishes after five ticks, while another delays for 5. |
| WorkQueue.StepKeepsInv | FreeRTOS/main_queue.c:114-164 | Every atomic step of every task keeps the invariant that ties queue contents, event bits, program points and counters together. |
| WorkQueue.Lockstep | FreeRTOS/main_queue.c:114-164 | In every interleaving ROUNDS <= WORKER_X <= ROUNDS + 1, each worker has taken as many items as rounds allow, all are at ROUNDS + 1 when the manager leaves the barrier, and the queue holds at most 3 items. |
| WorkQueue.NoDeadlock | FreeRTOS/main_queue.c:114-164 | In every state of the invariant some task can move or time can pass. |
| WorkQueue.StepLowersRank | FreeRTOS/main_queue.c:114-164 | Every step but the one that completes a round lowers a measure. |
| WorkQueue.RoundsKeepComing | FreeRTOS/main_queue.c:62-67 | With delays of 1 to 6 ticks, no schedule takes more than 134 steps from any reachable state to the completion of a round. |
| Lfsr.NextCombine | FreeRTOS/main_queue.c:52-61 | A step of a sum of states is the sum of their steps: the register is linear over its digits. |
| Lfsr.JumpIs | FreeRTOS/main_queue.c:52-61 | Where the unit state gets in n steps tells where every state gets. |
| Lfsr.Returns | FreeRTOS/main_queue.c:46-61 | Every state returns after 65535 steps. |
| Lfsr.MaximalPeriod | FreeRTOS/main_queue.c:46-61 | From the seed the register is back after d steps if and only if d is a multiple of 65535. |
| Lfsr.AllDifferent | FreeRTOS/main_queue.c:46-61 | The 65535 states from the seed on are all different. |
| Lfsr.NeverZero | FreeRTOS/main_queue.c:46-61 | None of the states from the seed on is ever zero. |
| Lfsr.EveryState | FreeRTOS/main_queue.c:46-61 | Every 16-bit state but zero is reached from the seed within 65535 steps. |
| WorkQueue.RandomTicks | FreeRTOS/main_queue.c:64-67 | Delays are 1 to 6 ticks, one more than the remainder of the drawn state by 6. |
| Conversion.EncodingConcat | libtms9900/picolibc/libc/iconv/iconv.c:61-131 | Converting a stretch of input and then what follows, with the shift states handed on, is converting both at once. |
| Conversion.ConvertsOrSticks | libtms9900/picolibc/libc/iconv/iconv.c:73-126 | Every input has a conversion or gets stuck at a place, never both. |
| Conversion.StuckUnique | libtms9900/picolibc/libc/iconv/iconv.c:81-109 | There is only one place at which an input gets stuck. |
| Conversion.OneUnit | libtms9900/picolibc/libc/iconv/iconv.c:74-109 | What each result of in_mbtowc and out_wctomb means: a character, a NUL that ends the input, an unfinished rest, or a failure. |
| Iconv.Converter.Drain | libtms9900/picolibc/libc/iconv/iconv.c:62-71 | As many pending bytes as fit go out, in order, and the rest stays pending. |
| Iconv.Converter.Emit | libtms9900/picolibc/libc/iconv/iconv.c:100-126 | An encoded character goes whole to the output when any character would fit, and whole to the carry buffer otherwise. |
| Iconv.Converter.ConvertUnit | libtms9900/picolibc/libc/iconv/iconv.c:73-126 | One unit of input is consumed and its encoding is split between output and carry buffer, or the call fails at an inconvertible character. Then the decoder is in the state behind that character, and the encoder in the state in which refusing it left it, or in its old one if the character is malformed. |
| Iconv.Converter.Convert | libtms9900/picolibc/libc/iconv/iconv.c:61-141 | A call fails if and only if the input gets stuck at a place in front of which less is due than there is room. A call that does not fail satisfies pending + encoding of the consumed input == emitted + new pending, and stops early only with nothing left. A call that fails has written what was due and reports none of it, and leaves the shift states of the place where the input got stuck, moved on by the character that could not be converted. Everything due is reported or pending if and only if the call does not fail with something due. It agrees with the conversion that goes on behind NULs if and only if no NUL drops input. Bytes outside the room stay. It terminates. |
| Conversion.FailureLoses | libtms9900/picolibc/libc/iconv/iconv.c:137-141 | A failing call keeps the conservation law if and only if nothing was due. |
| NulInput.NulExact | libtms9900/picolibc/libc/iconv/iconv.c:76-79 | The conversion up to a NUL and the one that goes on behind it give the same bytes if and only if no NUL has more than an unfinished character behind it. |
| NulInput.CompleteExact | libtms9900/picolibc/libc/iconv/iconv.c:76-79 | The same for what a call carries over. |
| IconvWitness.StuckBehindA | libtms9900/picolibc/libc/iconv/iconv.c:81-88 | On an ASCII 'A' and a malformed byte a call fails, and loses, exactly with room for more than one byte. |
| IconvWitness.LoseByte | libtms9900/picolibc/libc/iconv/iconv.c:137-141 | That call writes the 'A' and reports no output. |
| IconvWitness.DivisionShows | libtms9900/picolibc/libc/iconv/iconv.c:137-141 | Rooms of 1 and 15 report the 'A', one room of 16 does not. |
| IconvWitness.SkipAndGoOn | libtms9900/picolibc/libc/iconv/iconv.c:61-141 | After a failing call, a call on the input behind it, with or without bytes skipped, fails if and only if that input gets stuck with room left, and otherwise converts it, from the shift states behind the character that could not be converted. |
| IconvWitness.ShiftKept | libtms9900/picolibc/libc/iconv/iconv.c:74-141 | With shift codes on both sides, a letter behind a malformed or unencodable character is still the shifted letter and needs no new shift code. |
| IconvWitness.ByteBehindNul | libtms9900/picolibc/libc/iconv/iconv.c:76-79 | Of 'A', NUL, 'B' the last byte is consumed and not converted. |
| Conversion.StuckIsNone | libtms9900/picolibc/libc/iconv/iconv.c:81-109 | Input at which a call fails has no conversion, so calls on convertible input never fail. |
| Conversion.Chain | libtms9900/picolibc/libc/iconv/iconv.c:61-131 | The law of one call composes over calls. |
| Iconv.Converter.Stream | libtms9900/picolibc/libc/iconv/iconv.c:61-141 | For any division of the output room into calls, one fails if and only if a single call with all the room would. On convertible input the stream is the pending bytes and the encoding cut off at the total room; on input that gets stuck it is what is due in front of that place, cut off at the total room or, with a failure, at the last room filled before. A failure leaves the same input position and shift states as if all calls had been one. |
| InputPieces.Divide | libtms9900/picolibc/libc/iconv/iconv.c:91-98 | For a decoder that resumes, what is converted of a first piece need not be looked at again when more input follows. |
| InputPieces.Unfinished | libtms9900/picolibc/libc/iconv/iconv.c:91-94 | An unfinished character consumed by one call and what completes it in the next convert as one. |
| Iconv.Converter.Pieces | libtms9900/picolibc/libc/iconv/iconv.c:61-141 | With such a decoder and NUL-free input in any pieces and rooms, no call fails if the joined input has a conversion, and once everything is consumed and nothing pending the stream is that conversion. If the joined input gets stuck, the stream is a prefix of what is due in front of that place. |
| InputPieces.DivideStuck | libtms9900/picolibc/libc/iconv/iconv.c:81-98 | Where the joined input gets stuck, the rest does after a first piece is consumed, with the same bytes due in front of it in all. |
| IconvWitness.TwoByteResumes | libtms9900/picolibc/libc/iconv/iconv.c:91-94 | A decoder of two-byte characters that keeps a lone lead byte in its state resumes. |
| Argz.FlattenEntries | libtms9900/picolibc/libc/argz/argz_replace.c:15-25 | Every well-formed buffer is the flattening of its entries, which hold no NUL. |
| Argz.EntriesFlatten | libtms9900/picolibc/libc/argz/argz_replace.c:15-25 | Every list of NUL-free strings is recovered from its buffer. |
| Argz.FirstAcross | libtms9900/picolibc/libc/argz/buf_findstr.c:16-41 | A NUL-free search string never matches across the end of an entry. |
| Argz.PiecesKept | libtms9900/picolibc/libc/argz/argz_replace.c:34-63 | A string falls into pieces around its leftmost occurrences, none of which begins earlier; replacing puts the same pieces around copies of the replacement, and the count is one less than the pieces. |
| Argz.ReplacedFlatten | libtms9900/picolibc/libc/argz/argz_replace.c:34-63 | Leftmost non-overlapping replacement in the whole buffer is that replacement in each entry; number and order of entries stay, and the counts add up. |
| Argz.ReplacedAllClean | libtms9900/picolibc/libc/argz/argz_replace.c:34-63 | Replacement keeps entries NUL-free. |
| ArgzVector.FindStr | libtms9900/picolibc/libc/argz/buf_findstr.c:16-41 | Finds the first occurrence and moves past it, or moves to the end of the buffer; the empty string is found at the first terminator, which is not passed. Never reads outside the buffer. |
| Argz.CountingEnds | libtms9900/picolibc/libc/argz/argz_replace.c:34-39 | The counting loop ends if and only if the search string is not empty or the vector is empty. |
| Argz.EmptySearchLoops | libtms9900/picolibc/libc/argz/argz_replace.c:34-39 | Searching a vector of one empty string for the empty string never gets anywhere. |
| ArgzVector.Vector.CountAndSize | libtms9900/picolibc/libc/argz/argz_replace.c:31-39 | Whenever its loop ends, the first pass counts the replacements and computes the exact new length. |
| ArgzVector.Vector.Rebuild | libtms9900/picolibc/libc/argz/argz_replace.c:41-63 | The second pass fills exactly that length with the replaced buffer. |
| ArgzVector.Vector.Replace | libtms9900/picolibc/libc/argz/argz_replace.c:15-83 | The entries become the replaced entries and the count is the total over all entries; with nothing to replace, the empty search string on the empty vector included, the buffer stays. |
| Tokenizer.ScanToken | libtms9900/picolibc/libc/string/strtok_r.c:67-84 | Finds the first separator or terminator behind a token's first character. |
| Tokenizer.StrSep | libtms9900/picolibc/libc/string/strtok_r.c:34-86 | Returns the next of the tokens that the split of the remaining string has, as a string of its own, and leaves the pointer at the others; nothing when none is left. |
| ArgzVector.Vector.SizeTokens | libtms9900/picolibc/libc/argz/argz_create_sep.c:36-43 | The sizing pass counts the tokens and the bytes that they need. |
| ArgzVector.Vector.CopyTokens | libtms9900/picolibc/libc/argz/argz_create_sep.c:50-61 | The copying pass fills exactly those bytes with the tokens. |
| ArgzVector.Vector.CreateSep | libtms9900/picolibc/libc/argz/argz_create_sep.c:15-63 | The vector holds the tokens of the string, empty ones included; the empty string gives the empty vector. |
| ArgzVector.Vector.Stringify | libtms9900/picolibc/libc/argz/argz_stringify.c:12-22 | In place, every NUL but the last becomes the separator and nothing else changes. |
| ArgzSplit.EntryCount | libtms9900/picolibc/libc/argz/argz_create_sep.c:36-43 | The number of tokens is the number of separators, plus one unless the string ends with one. |
| ArgzSplit.JoinSplit | libtms9900/picolibc/libc/argz/argz_stringify.c:12-22 | Joining the split gives the string without a separator at its end. |
| ArgzSplit.RoundTrip | libtms9900/picolibc/libc/argz/argz_create_sep.c:15-63 | The round trip is the identity, and there is one entry more than separators, if and only if the string does not end with the separator. |
| ArgzSplit.TrailingSeparatorLost | libtms9900/picolibc/libc/string/strtok_r.c:61-64 | A lone comma is split into one empty entry and joined to the empty string. |
| ArgzVector.Vector.SplitThenJoin | libtms9900/picolibc/libc/argz/argz_stringify.c:12-22 | create_sep followed by stringify on the same vector restores the string if and only if it does not end with the separator. |
| ArgzVector.Vector.EntryStartOf | libtms9900/picolibc/libc/argz/argz_insert.c:27-28 | The back-scan finds the start of the entry that holds the position. |
| ArgzEdit.EntryBoundary | libtms9900/picolibc/libc/argz/argz_insert.c:27-31 | That start is the boundary between the entries before the one that holds the position and the others. |
| ArgzEdit.InsertedEntries | libtms9900/picolibc/libc/argz/argz_insert.c:27-41 | The new entry stands immediately before the entry that holds the position, and all others stay in order. |
| ArgzEdit.DeletedEntries | libtms9900/picolibc/libc/argz/argz_delete.c:14-36 | Deleting at the start of an entry removes that entry and no other. |
| ArgzEdit.DeleteUndoesInsert | libtms9900/picolibc/libc/argz/argz_delete.c:14-36 | Deleting the inserted entry gives back the original buffer. |
| ArgzVector.Vector.Add | libtms9900/picolibc/libc/argz/argz_add.c:14-30 | The string becomes the last entry; without a string nothing changes. |
| ArgzVector.Vector.Insert | libtms9900/picolibc/libc/argz/argz_insert.c:16-44 | Without a position the entry is appended; a position outside the vector is refused and nothing changes; otherwise the entry is inserted at the start of the entry that holds the position. |
| ArgzVector.Vector.Delete | libtms9900/picolibc/libc/argz/argz_delete.c:14-36 | The string at the position goes away with its terminator, and the vector shrinks by as much; without a position nothing changes. ENOMEM is reported if and only if the string filled the vector. |
| ArgzVector.Vector.DeleteOnlyEntry | libtms9900/picolibc/libc/argz/argz_delete.c:27-28 | Deleting the only entry leaves the empty vector and reports ENOMEM. |
| ArgzVector.Vector.InsertEntry | libtms9900/picolibc/libc/argz/argz_insert.c:16-44 | On entries: insertion in front of the entry that holds the position. |
| ArgzVector.Vector.InsertThenDelete | libtms9900/picolibc/libc/argz/argz_delete.c:14-36 | Insert and delete in sequence restore bytes and length, and succeed. |
| CtypeTable.Lookup | libtms9900/picolibc/libc/ctype/ctype_table.c:53-82 | For every increasing table and every code, negative ones included: the class of the last entry that does not lie above the code, or, for a code below the first entry, the first entry's class unless the upper index steps below 0. WEOF has no class, and in the C locale neither has anything from 0x80 on; ASCII has the classes of the table in every locale. |
| CtypeTable.AnswerCovers | libtms9900/picolibc/libc/ctype/ctype_table.c:60-82 | In both kinds of locale: the class of the entry from which on and below whose successor the code lies, unless the code is WEOF or, in the C locale, 0x80 or more; those have none. |
| CtypeTable.CoveredExact | libtms9900/picolibc/libc/ctype/ctype_table.c:70-81 | There is such an entry if and only if the code does not lie below the first one. |
| CtypeTable.BelowFirst | libtms9900/picolibc/libc/ctype/ctype_table.c:69-82 | For a searched code below the first entry: underflow for the table sizes in question, and the first entry's class for all others, in both kinds of locale. |
| CtypeTable.StepsBelowExact | libtms9900/picolibc/libc/ctype/ctype_table.c:69-72 | From the last index on, the sequence h, h/2 - 1, ... reaches 1 if and only if the number of entries lies between 3 * 2^k - 1 and 4 * 2^k - 2 for some k. |
| CtypeTable.UnderflowExact | libtms9900/picolibc/libc/ctype/ctype_table.c:69-79 | The upper index steps below 0 if and only if the code is searched for, lies below the first entry, and the table has such a number of entries. |
| CtypeTable.TwoEntriesUnderflow | libtms9900/picolibc/libc/ctype/ctype_table.c:69-72 | With two entries a negative code does that, in both kinds of locale. |
| CtypeTable.ShippedTablesDoNot | libtms9900/picolibc/libc/ctype/ctype_table.h:39-2263 | With 1216 or 2221 entries none does. |
| CtypeTable.DecodeAt | libtms9900/picolibc/libc/ctype/ctype_table.c:70-81 | The entry with the code between itself and its successor decides the class. |
| MkCtype.Generator.DumpResult | libtms9900/picolibc/libc/ctype/mkctype.py:297-304 | A run with a class is printed, after the gap in front of it if there is one; a run without a class prints nothing. |
| MkCtype.DumpRun | libtms9900/picolibc/libc/ctype/mkctype.py:297-304 | After a run is printed, what is printed describes every code up to its end, from 0 on or, if 0 has no class, from 1 on, with one entry for each run. |
| MkCtype.NewRun | libtms9900/picolibc/libc/ctype/mkctype.py:350-356 | Starting a new run, after printing the old one or not, keeps the invariant of the scan. |
| MkCtype.Generator.Scan | libtms9900/picolibc/libc/ctype/mkctype.py:350-370 | A scan over a range of codes keeps it. |
| MkCtype.Generator.DumpTable | libtms9900/picolibc/libc/ctype/mkctype.py:347-375 | Both tables are strictly increasing, repeat no class in consecutive entries, and answer every code from their end on with no class. Searches find the class of every generated code if and only if the classification meets a condition on its last code, its first two codes and the number of its runs. |
| CtypeTable.TableUnique | libtms9900/picolibc/libc/ctype/mkctype.py:297-304 | A strictly increasing table without repeated classes is the only one with its first code that decodes to its classification. |
| MkCtype.LookupGenerated | libtms9900/picolibc/libc/ctype/ctype_table.c:53-82 | For every classification that meets the condition, generating and then looking up returns the original class of every generated code and none above; in the C locale that holds for ASCII, and nothing else has a class. |
| MkCtype.EmptyAtZero | libtms9900/picolibc/libc/ctype/mkctype.py:347-375 | For the classification that is empty only at 0 neither table is right. |
| MkCtype.EmptyAtZeroAndOne | libtms9900/picolibc/libc/ctype/mkctype.py:347-375 | For the one that is empty only at 0 and 1, and constant otherwise, the four-byte table starts at 1 and is right all the same. |
| MkCtype.EmptyThroughout | libtms9900/picolibc/libc/ctype/mkctype.py:347-375 | For the empty classification both tables are right. |
| MkCtype.FiveEntriesUnderflow | libtms9900/picolibc/libc/ctype/mkctype.py:347-375 | With two runs more the four-byte table has five entries and the search for code 0 underflows. |
| MkCtype.EmptyAtEnd | libtms9900/picolibc/libc/ctype/mkctype.py:347-375 | For the classification with a class only at 0 the two-byte table is right and the four-byte one is not. |

## Left out

- Video, keyboard and sound ports, inline assembly, tracepoints, name and colour tables, the debug overlays and the border of the Life demos: hardware I/O. Video memory is a byte array with an advancing write address, and its contents before the first picture are arbitrary.
- Life2x.Demo.Reseed: takes the new cells as an argument; which cells the random seeding chooses is not modelled.
- The frame loops of life.c and life2.c, which copy dirty 8x8 tiles to the screen; their step functions are modelled.
- LifeWindowed.ClearRegion: the code clears the whole destination or its region by flat word writes; the model clears the window row by row.
- Board sizes of one word in life2_2x.c: its inner loops read word 1 of every row.
- FreeRTOS itself: queue operations, delays and xEventGroupSync are atomic steps. Waits with portMAX_DELAY are assumed not to time out; FreeRTOS/FreeRTOSConfig.h:51 sets INCLUDE_vTaskSuspend to 0, so this is an assumption, under which the receive always succeeds.
- WorkQueue.Lockstep: counters are natural numbers, taken before they wrap at 16 bits.
- Division by zero in the 64-bit routines, which is undefined in C.
- Allocation failure (the ENOMEM returns, except the one of argz_delete for an emptied vector), and the null pointer of an empty vector: an empty vector is an array of length 0.
- size_t and int lengths wider than the buffers, except where a member's types say 16, 32 or 64 bits: lengths and indices are unbounded.
- ArgzVector.Vector.Replace: asks for a non-empty search string or an empty vector; otherwise the loop in the code does not end, as CountingEnds proves.
- ArgzVector.Vector.Delete: asks for a position inside a well-formed vector, as strlen does.
- envz functions and argz_extract.
- iconv modes other than the default, iconv_open's lookup of names, iconv_close, calls without an input buffer, and the character set tables: the codec is any pair of functions that keep the promises of mbtowc and wctomb.
- Iconv.Converter.Pieces: says nothing of the shift states after a failure; Iconv.Converter.Convert does, for the call that fails.
- CtypeTable.Lookup: asks for an increasing table; what the C does after its upper index has stepped below 0 (it reads outside the table) is not part of this model.
- The Unicode data files and the class predicates that define the classification: it is an arbitrary function.
- ball.c, banner.c, the soft-float operations other than conversion from integers, malloc.c and the remaining library files.
