# Verified models of algorithms from the eddys_snippets toolbox

The repository is a collection of small C programs. This project models the ones whose
correctness is hard to see, each in the form its source has (arrays, linked nodes and loops where
the source has them), and proves what they are for. `dafny verify dfyconfig.toml` checks it all.

| file | what it models |
|---|---|
| `Mediator.dfy`, `Sorting.dfy` | the running median of `_snippets/med.c`: a max-heap, the median and a min-heap in one array, cross-linked with a circular queue |
| `SearchTree.dfy` | the binary search tree of `_snippets/B-trees.c`: search, insert, remove |
| `Vines.dfy` | flattening that tree to a vine and folding the vine to a low tree |
| `ZernikeRadial.dfy`, `ZernikeIndex.dfy`, `ZernikeFit.dfy` | factorial sums, index conversion, and greedy decomposition of images of `Zernike/` |
| `Sieve.dfy` | the prime sieve of `_snippets/simple_Eratosfen_sieve.c`, sequential and with eight threads |
| `SerialLine.dfy` | line reassembly from a serial device in `TeAmanagement/sersock.c` |
| `Modbus.dfy` | register dictionary, aliases and request handler of `modbus_params/` |
| `Tetris.dfy`, `TetrisGame.dfy` | board and game of `Tetris/` |
| `StrFunc.dfy` | printing and reading numbers in `stringHash4MCU_/strfunc.c` |
| `Circle.dfy` | the circle of `_snippets/Bresenham_circle.c` |
| `MessageQueue.dfy` | the message lists of `thread_array_management/test.c` |

Where a property that one would expect does not hold of the code, the code is modelled as it is,
a concrete input shows the failure, and the exact condition for the property is proved:

- removal from the search tree drops what hangs below the substitute node (`Removal.RemovalLoses`,
  `SearchTrees.SearchTree.Remove`);
- flattening loses the left subtree of a greatest node that is not the root
  (`Vines.FlatteningLoses`, `Vines.FlattenedExactly`);
- rolling the Tetris board compacts it just when the board is rollable (`Rows.RollExactly`;
  `Rows.TopRowDoubled` is a board of any size that is not, `TidyGames.PileInGame` a game), and
  a figure lifted over the rim can be locked where it hangs (`TidyGames.FloatingLock`,
  `TidyGames.LockExactly`);
- the value stored as the maximum of the window is the median (`Mediators.MedianIsMaximum` says
  when the two agree, `Mediators.WrongMaximum` is a window on which they do not);
- zero bytes in an overflowing serial buffer are lost with what follows them
  (`SerialLine.ZeroBytesLose`, `SerialLine.ExcessEmpty`);
- a reset of the sieve that is not atomic can be lost for good (`SplitResets.LostReset`); the
  final table is right just when nothing cleared is marked again (`SplitResets.FinalExactly`), as
  when loads and stores of one byte are kept apart (`SplitResets.FinalTable`);
- an alias request is handled without end just when it loops (`Requests.EndsExactly`,
  `Requests.AcyclicExactly`; `Requests.TwoAliasesLoop` is such a table);
- order 100 passes the check of the Zernike orders and overruns the table of factorials
  (`ZernikeRadial.TableSuffices`, `ZernikeRadial.OrderHundredOverruns`);
- a line that is complete in the buffer is not returned once the device has closed
  (`SerialLine.DisconnectKeepsLine`; `SerialLine.Delivered` says when all lines are);
- the least 32-bit integer is printed but not read back (`NumberPrinters.SignedReadBack`);
- a message that cannot be copied leaves its direction locked (`Mailbox.LockedExactly`), and the
  read with which an add ends can find the list empty (`Mailbox.PeekExactly`, `Mailbox.PeekFails`).

Code and documentation disagree in these places, and the model follows the code: on overflow the
parsers of `strfunc.c` store 0xffffff, the comments say 0xffffffff; the comment of `getnum`
promises 0b-prefixed binary numbers, the code reads those as zero and takes b-prefixed ones; the
comment of `zernfun` allows order 100, whose factorial is outside the table of 100 entries.

## Model

| member | source | states |
|---|---|---|
| `Mediators.Mediator.constructor` | _snippets/med.c:84-97 | a new mediator of any size at least 1 is valid: position and heap tables mutually inverse, nothing stored |
| `Mediators.Mediator.FillPattern` | _snippets/med.c:92-95 | the loop leaves slots 0, 1, 2, 3… linked to cells 0, -1, 1, -2… and back |
| `Mediators.PatternIsLinked` | _snippets/med.c:92-95 | that pattern is a permutation and its inverse, and for every count the first slots are in the cells in use |
| `Mediators.Mediator.Exchange` | _snippets/med.c:35-42 | the values of two cells are exchanged and both tables stay inverse to each other |
| `Mediators.Mediator.ExchangeIfLess` | _snippets/med.c:45-47 | swaps exactly when the first value is less, and says so |
| `Mediators.Mediator.MinSortDown` | _snippets/med.c:50-55 | a min-heap broken at one cell is a min-heap again, the rest of the array untouched, the tables linked |
| `Mediators.Mediator.MaxSortDown` | _snippets/med.c:58-63 | the same for the max-heap in the negative cells |
| `Mediators.Mediator.MinSortUp` | _snippets/med.c:67-70 | a value raised in the min-heap finds its place; true exactly when the median cell was reached |
| `Mediators.Mediator.MaxSortUp` | _snippets/med.c:74-77 | the same for the max-heap |
| `HeapOrder.MinSinkRound` | _snippets/med.c:50-55 | one round of sinking moves the single fault one level down or ends with a heap |
| `HeapOrder.MaxSinkRound` | _snippets/med.c:58-63 | the same in the max-heap |
| `HeapOrder.MinRiseRound` | _snippets/med.c:67-70 | one round of rising moves the single fault one level up or ends with a heap |
| `HeapOrder.MaxRiseRound` | _snippets/med.c:74-77 | the same in the max-heap |
| `HeapOrder.MinAboveMedian` | _snippets/med.c:49-55 | everything in the min-heap is at least the median cell |
| `HeapOrder.MaxBelowTop` | _snippets/med.c:57-63 | everything in the max-heap is at most its top, and that at most the median cell |
| `Mediators.SwapKeepsLinks` | _snippets/med.c:35-42 | the swap with its two position updates keeps the tables inverse |
| `Mediators.InsertPlan` | _snippets/med.c:101-107 | storing the new value in its slot breaks the order at one known cell only, whether the slot is new or reused |
| `Mediators.Mediator.Rebalance` | _snippets/med.c:108-117 | from there the five-way case split restores both heaps around the median, in every case |
| `Mediators.Mediator.Insert` | _snippets/med.c:101-118 | every insert keeps the whole invariant, and the window becomes the last N of the old window and the new value |
| `Mediators.WindowStep` | _snippets/med.c:104-107 | the circular queue read in order of age is the last N values of the history |
| `Mediators.PermutedValues` | _snippets/med.c:35-42 | reading the data through inverse tables loses and doubles no value |
| `Mediators.OccupiedValues` | _snippets/med.c:26-27 | the cells in use hold exactly the values stored so far |
| `Mediators.HeapMedian` | _snippets/med.c:120-123 | ordered half-heaps hold the middle of the sorted values in cell 0 and its lower neighbour in cell -1 |
| `Mediators.MedianValue` | _snippets/med.c:122-123 | so cell 0, or the mean of both, is the middle of the sorted values |
| `Mediators.MiddleMeans` | _snippets/med.c:122-123 | the middle has as many sorted values before it as behind it, and the mean of two loses its fraction towards zero |
| `Mediators.MinimumFound` | _snippets/med.c:125-133 | the least of the median and the max-heap values is the least of all values in the window |
| `Mediators.Mediator.Median` | _snippets/med.c:121-144 | for any history: the middle of the sorted window (mean of two for an even count), its least value, and the median once more in place of the maximum |
| `Mediators.SlidingMedians` | _snippets/med.c:101-144 | over a whole run each reported pair is the middle and the least of the sorted last min(k, N) inputs |
| `Mediators.MedianIsMaximum` | _snippets/med.c:134-142 | the value stored as maximum is the maximum if and only if the greatest value fills more than half the window (or half of it in one truncation case) |
| `Mediators.WrongMaximum` | _snippets/med.c:134-142 | with 1, 2, 3 in the window the stored maximum is 2 |
| `TreeShapes.PlugRep` | _snippets/B-trees.c:79-94 | a subtree replaced below a path of links gives a tree with exactly the nodes of both |
| `TreeShapes.FitsBounds` | _snippets/B-trees.c:69-94 | all keys left of the search path are smaller and all right of it greater than the key looked for |
| `SearchTrees.SearchTree.constructor` | _snippets/B-trees.c:287-287 | an empty tree is valid and holds the empty set |
| `SearchTrees.SearchTree.Search` | _snippets/B-trees.c:69-94 | finds a node if and only if the key is in the set, with its parent, or the place where it belongs |
| `SearchTrees.SearchTree.Insert` | _snippets/B-trees.c:105-124 | the set gains exactly the key, order is kept, and nothing changes if the key was there |
| `SearchTrees.SearchTree.Attach` | _snippets/B-trees.c:113-122 | the new node hangs where the search ended |
| `SearchTrees.SearchTree.Redirect` | _snippets/B-trees.c:165-175 | the parent, or the root, now leads to the other node |
| `SearchTrees.SearchTree.Substitute` | _snippets/B-trees.c:176-184 | the substitute takes the place of the removed node and both its subtrees, and its own child is lost |
| `SearchTrees.SearchTree.Excise` | _snippets/B-trees.c:189-196 | the subtree without its root is in place, for each number of children |
| `Removal.NearestSubstitutes` | _snippets/B-trees.c:197-209 | where the removed key was, there is now the key of its subtree nearest to it, the smaller one on a tie; with one child or none, that child |
| `SearchTrees.SearchTree.ExciseBoth` | _snippets/B-trees.c:197-209 | with two children the neighbour that is nearer in value takes over; `Removal.NearestSubstitutes` says what nearer means |
| `SearchTrees.SearchTree.Remove` | _snippets/B-trees.c:163-210 | the tree stays a search tree; the nearest key of its subtree takes the place of a key with two children; the set loses the key and what hung below the substitute, so exactly the key if and only if nothing hung there |
| `Removal.RootRemoved` | _snippets/B-trees.c:189-209 | removing a root keeps the order of all other keys except the dropped ones |
| `Removal.MaxParts` | _snippets/B-trees.c:127-137 | the greatest node, its left subtree and the rest make up the tree in order |
| `Removal.MinParts` | _snippets/B-trees.c:139-148 | the same for the least node |
| `Removal.RemovalLoses` | _snippets/B-trees.c:176-184 | a concrete tree in which removing 3 also loses 1 |
| `Vines.RotateCw` | _snippets/B-trees.c:247-260 | the links after a right rotation, and no other link changed |
| `Vines.RotateCcw` | _snippets/B-trees.c:213-228 | the links after a left rotation and the node that needs the next one |
| `Vines.PassKeeps` | _snippets/B-trees.c:272-280 | one pass keeps the in-order sequence and halves the left spine, rounding up |
| `Vines.FoldOnce` | _snippets/B-trees.c:272-280 | the loop over linked nodes does exactly one pass and keeps the node set |
| `Vines.PassesBound` | _snippets/B-trees.c:270-281 | k passes keep the order, divide the spine by 2^k and let right subtrees grow by at most k |
| `Vines.SpineDivided` | _snippets/B-trees.c:270-281 | k passes divide the spine by 2^k rounding up, exactly |
| `Vines.FoldedSpine` | _snippets/B-trees.c:263-282 | the number of passes leaves one node on the spine for a power of two and else two |
| `Vines.FoldedHeight` | _snippets/B-trees.c:263-282 | a vine of n nodes is folded to height at most floor(log2 n) + 2 |
| `Vines.FoldedHeightReached` | _snippets/B-trees.c:263-282 | seven nodes reach that height, so the bound is tight |
| `Vines.VineToTree` | _snippets/B-trees.c:263-282 | on linked nodes: same keys in order, same nodes, one or two nodes left on the spine, and the height bound for every vine |
| `Vines.Climb` | _snippets/B-trees.c:232-236 | the first loop ends; with the root as maximum nothing changes, otherwise the maximum is passed and keeps one left link |
| `Vines.Flatten` | _snippets/B-trees.c:236-243 | the second loop terminates with a left-only vine of the same nodes in the same order |
| `Vines.MoveToGreatest` | _snippets/B-trees.c:233-233 | the new root is the greatest node |
| `Vines.FlattenedExactly` | _snippets/B-trees.c:230-244 | all nodes survive if and only if the root is the maximum or the maximum has no left child |
| `Vines.LostByFlattening` | _snippets/B-trees.c:230-244 | and otherwise exactly the keys of the maximum's left subtree are lost |
| `Vines.TreeToVine` | _snippets/B-trees.c:230-244 | for every search tree: a left-only vine rooted at the maximum, with exactly the described nodes, all of them under that condition and only then |
| `Vines.FlatteningLoses` | _snippets/B-trees.c:234-235 | a concrete tree of 1, 2, 3 that comes out as 1, 3 |
| `Vines.Rebalance` | _snippets/B-trees.c:230-282 | flattening and folding: logarithmic height always, the same set under the condition |
| `Binomials.BinomFact` | Zernike/zernike.c:200-204 | binomial coefficients are the quotients of factorials |
| `Binomials.AltSumValue` | Zernike/zernike.c:200-206 | the alternating binomial sum has a closed form |
| `ZernikeRadial.CoefIsQuotient` | Zernike/zernike.c:201-204 | every radial coefficient is an integer: it times the three factorials is the signed numerator |
| `ZernikeRadial.RimValue` | Zernike/zernike.c:200-206 | for all valid n and m the coefficients sum to 1: the radial polynomial is 1 at radius 1 |
| `ZernikeRadial.PowLaws` | Zernike/zernike.c:141-150 | the powers in the table obey the laws of powers |
| `ZernikeRadial.MirrorLaw` | Zernike/zernike.c:200-206 | a radial polynomial is even or odd as its order is |
| `ZernikeRadial.CentreValue` | Zernike/zernike.c:200-206 | at radius 0 it is 0, or 1 or -1 by the order if there is no angular order |
| `ZernikeRadial.OuterPolynomials` | Zernike/zernike.c:200-206 | for m = n it is r^n, and for m = n - 2 it is n r^n - (n - 1) r^(n-2) |
| `ZernikeRadial.BuildFactorial` | Zernike/zernike.c:71-79 | the table holds 0! to 99! |
| `ZernikeRadial.BuildPowers` | Zernike/zernike.c:141-150 | the table holds the powers of the radius up to n |
| `ZernikeRadial.TableSuffices` | Zernike/zernike.c:75-78 | of the orders up to 100 all terms find their factorials in the table if and only if the order is below 100 |
| `ZernikeRadial.OrderHundredOverruns` | Zernike/zernike.c:173-174 | orders (100, 0) are accepted and read behind the table |
| `ZernikeRadial.RadialValue` | Zernike/zernike.c:173-206 | rejects exactly the invalid orders, overruns its table exactly for the valid ones of order 100, and otherwise the loop over the tables gives the radial polynomial, 1 at the rim |
| `ZernikeIndex.IndexToOrders` | Zernike/zernike.c:100-104 | every index gives a valid pair of orders, and the other conversion gives the index back |
| `ZernikeIndex.OrdersToIndex` | Zernike/zernike_annular.c:156-158 | every valid pair gives an index that converts back to the pair |
| `ZernikeIndex.IndexSuccessor` | Zernike/zernike.c:100-104 | from (0, 0) on each index adds 2 to m, or goes on to the next n with m = -n |
| `ZernikeIndex.IndexInjective` | Zernike/zernike.c:100-104 | different indexes give different pairs |
| `ZernikeIndex.GradientPartnerIs` | Zernike/zernike.c:507-510 | the index computed for gradients is that of the pair (n+2, m), always a later one |
| `Vectors.EnergyOfSum` | Zernike/zernike.c:270-272 | the energy of an image after adding a multiple of another |
| `ZernikeFit.Project` | Zernike/zernike.c:261-263 | the loop computes the projection coefficient |
| `ZernikeFit.Subtract` | Zernike/zernike.c:270-272 | the loop takes the multiple of the polynomial out of the picture |
| `ZernikeFit.CoefficientKept` | Zernike/zernike.c:261-268 | a coefficient is the whole projection, unless that is smaller than the precision on both sides, and then zero |
| `ZernikeFit.LeftAlong` | Zernike/zernike.c:258-274 | after its step less than the precision is left along each polynomial, or nothing |
| `ZernikeFit.Decompose` | Zernike/zernike.c:250-278 | each coefficient is kept or dropped by that rule; those after the reported last index are zero and that one was kept, if it is not 0; the image is unchanged and the energy balance holds |
| `ZernikeFit.Compose` | Zernike/zernike.c:287-301 | each pixel is the sum over the coefficients that are not smaller than the precision on both sides |
| `ZernikeFit.ComposedPlusResidual` | Zernike/zernike.c:250-301 | after any number of steps what is composed and what is left make up the image |
| `ZernikeFit.EnergyBalance` | Zernike/zernike.c:258-274 | the energy of the residual is that of the image minus the sum of K^2 norm, for any basis |
| `ZernikeFit.TakenOutBounded` | Zernike/zernike.c:258-274 | so no more energy is taken out than the image has, over any basis |
| `ZernikeFit.ResidualShrinks` | Zernike/zernike.c:258-274 | so the residual never grows from an earlier to a later step |
| `ZernikeFit.DotComposed` | Zernike/zernike.c:287-301 | for an orthogonal basis each coefficient can be read off the composed image |
| `ZernikeFit.RoundTrip` | Zernike/zernike.c:250-301 | then decomposing a composed image gives its coefficients back and leaves nothing |
| `ZernikeFit.ResidualOrthogonal` | Zernike/zernike.c:258-274 | over an orthogonal basis and with precision 0, what is left is orthogonal to everything taken out |
| `ZernikeFit.BestApproximation` | Zernike/zernike.c:250-301 | so no other coefficients compose an image closer to the given one |
| `ZernikeFit.Restore` | Zernike/zernike.c:250-301 | decompose and then compose gives the image minus the final residual exactly |
| `Primes.PrimeFactor` | _snippets/simple_Eratosfen_sieve.c:25-48 | every number from 2 on is a prime times a cofactor, at least 2 if it is not prime |
| `BitTable.ClearedBits` | _snippets/simple_Eratosfen_sieve.c:13-23 | a reset clears the one bit that get reads at that number and no other |
| `Sieve.InitialTable` | _snippets/simple_Eratosfen_sieve.c:28-29 | the initial bytes mark all primes, and not 0, 1 and the even numbers above 2 |
| `Sieve.MarkMultiples` | _snippets/simple_Eratosfen_sieve.c:31-35 | all proper multiples are cleared, no prime is, and no bit is set |
| `Sieve.SieveSmall` | _snippets/simple_Eratosfen_sieve.c:25-36 | the first phase clears the multiples of all primes below 65, and no prime and no number without divisors below 64 |
| `ParallelSieve.StepInv` | _snippets/simple_Eratosfen_sieve.c:40-48 | one step of any thread keeps the invariant of all eight |
| `ParallelSieve.RunInv` | _snippets/simple_Eratosfen_sieve.c:40-48 | so does every interleaving |
| `ParallelSieve.PrimesSurvive` | _snippets/simple_Eratosfen_sieve.c:40-48 | at no moment of any interleaving is a prime's bit cleared |
| `ParallelSieve.FinalTable` | _snippets/simple_Eratosfen_sieve.c:25-48 | when all threads are through, a bit is set if and only if its number is prime |
| `ParallelSieve.InterleavingsEnd` | _snippets/simple_Eratosfen_sieve.c:40-48 | every interleaving of busy threads is bounded by the work at the start, so all end |
| `SplitResets.PrimesSurvive` | _snippets/simple_Eratosfen_sieve.c:19-23 | primes survive even when the read and the write of a reset are separate steps |
| `SplitResets.StepWhole` | _snippets/simple_Eratosfen_sieve.c:19-23 | if no other thread holds the byte that is stored, every step is no step or one step of the whole resets |
| `SplitResets.EverCleared` | _snippets/simple_Eratosfen_sieve.c:25-48 | on every schedule, when all threads are through, a number was cleared at some moment if and only if it is not prime |
| `SplitResets.FinalExactly` | _snippets/simple_Eratosfen_sieve.c:25-48 | so the final table is right if and only if it marks nothing that was cleared at some moment |
| `SplitResets.FinalTable` | _snippets/simple_Eratosfen_sieve.c:25-48 | and it is right on every schedule that keeps loads and stores of one byte apart |
| `SplitResets.RaceReached` | _snippets/simple_Eratosfen_sieve.c:40-48 | from the start of the threads a schedule leads to two resets in one byte, with 4489 = 67 * 67 still marked |
| `SplitResets.LostReset` | _snippets/simple_Eratosfen_sieve.c:19-23 | on the losing schedule from the start 4489 stays marked however the run goes on, though it is not prime |
| `SerialLine.LineReader.constructor` | TeAmanagement/sersock.c:137-138 | an empty buffer with all its space free |
| `SerialLine.LineReader.StrChr` | TeAmanagement/sersock.c:156-156 | the first newline before any zero byte, if there is one |
| `SerialLine.LineReader.Store` | TeAmanagement/sersock.c:148-158 | the bytes read are appended to the pending ones |
| `Readings.TakenAmount` | TeAmanagement/sersock.c:141-163 | a call reads all the bytes that its polls announce, as far as the stream and the space go |
| `Readings.TakenPolls` | TeAmanagement/sersock.c:141-163 | each of its polls but the last announced bytes |
| `Readings.TakenReason` | TeAmanagement/sersock.c:141-163 | it stops because there is nothing to read, the wait failed, the device was closed, a newline was read or the space is used up, each with its evidence |
| `Readings.TakenNewline` | TeAmanagement/sersock.c:156-162 | without zero bytes it stops at a newline if and only if it has read one |
| `SerialLine.LineReader.Round` | TeAmanagement/sersock.c:142-162 | one poll and the read after it, as the session of the call continues |
| `SerialLine.LineReader.Collect` | TeAmanagement/sersock.c:141-163 | the bytes of the session move from the stream behind the pending ones, its polls are used, and length 0 or -1 tells an interrupted wait from a closed device |
| `SerialLine.LineReader.Shift` | TeAmanagement/sersock.c:179-196 | what is behind the line moves to the front of the buffer |
| `SerialLine.LineReader.Deliver` | TeAmanagement/sersock.c:170-197 | the item is the line up to its newline or the full buffer, what follows stays, and every byte is accounted for |
| `SerialLine.LineReader.GetSerData` | TeAmanagement/sersock.c:136-198 | the whole outcome of a call: line, length, pending bytes, polls used and stream left; all bytes accounted for; free space at every entry |
| `SerialLine.LineReader.Drain` | TeAmanagement/sersock.c:136-198 | several calls do what the runs of calls do |
| `SerialLine.LinesAreFrames` | TeAmanagement/sersock.c:136-198 | over any polls and any number of calls the lines are the items of the first frames of pending bytes and stream, in order |
| `SerialLine.Delivered` | TeAmanagement/sersock.c:136-198 | if no poll fails and each announces bytes that are there, enough calls use all polls and return the items of all frames of what was read |
| `SerialLine.WholeStream` | TeAmanagement/sersock.c:136-198 | with a poll for each byte the whole stream is returned as the items of its frames |
| `SerialLine.NothingRead` | TeAmanagement/sersock.c:142-147 | an interrupted wait, or nothing to read without a frame pending, gives no line and length 0 |
| `SerialLine.DisconnectKeepsLine` | TeAmanagement/sersock.c:148-153 | at the end of the stream a call gives no line and length -1, even if a whole line is pending |
| `Framing.FramesAfter` | TeAmanagement/sersock.c:136-198 | a stream of frames, lines or full buffers, is split into exactly these frames |
| `SerialLine.LineReader.ReturnedItems` | TeAmanagement/sersock.c:136-198 | for every stream the frames taken and the pending bytes are the framing of all bytes received, and the items returned are those of the frames |
| `SerialLine.LineReader.NothingAstray` | TeAmanagement/sersock.c:136-198 | every byte received was returned, dropped or is pending, and without zero bytes none is dropped |
| `SerialLine.ChunkingIrrelevant` | TeAmanagement/sersock.c:148-163 | for every stream, zero bytes included: two readers of it have returned, or still hold, the same items and the same rest, however it was cut into reads |
| `SerialLine.ExcessEmpty` | TeAmanagement/sersock.c:172-176 | nothing is lost if and only if a newline comes before any zero byte or there is no zero byte |
| `SerialLine.ZeroBytesLose` | TeAmanagement/sersock.c:173-176 | a full buffer that starts with a zero byte is dropped as an empty line |
| `Lookup.HalveFinds` | modbus_params/dictionary.c:179-196 | on ascending answers the binary search finds whatever is there |
| `Lookup.BinSearch` | modbus_params/dictionary.c:179-196 | the loop with any comparison is that search, and asks it at positions inside the index only |
| `Indexes.SortedIndexSorted` | modbus_params/dictionary.c:142-147 | the index is sorted |
| `Indexes.SortedIndexComplete` | modbus_params/dictionary.c:142-147 | and names every entry |
| `Dictionary.ByCodeIsScan` | modbus_params/dictionary.c:199-202 | lookup by code finds an entry with it if and only if a scan of the table would |
| `Dictionary.ByRegIsScan` | modbus_params/dictionary.c:203-207 | the same by register |
| `Requests.AliasForIsScan` | modbus_params/dictionary.c:487-505 | if no alias is found, a scan finds none |
| `Requests.EndsExactly` | modbus_params/server.c:127-136 | the expansion of a request ends if and only if no request comes up twice among the first few, as many as there are aliases and two |
| `Requests.EndsWithinAliases` | modbus_params/server.c:129-133 | and then within as many steps as there are aliases |
| `Requests.AcyclicExactly` | modbus_params/server.c:127-136 | all requests end if and only if no alias text leads back to itself over any number of aliases |
| `Requests.CycleNeverEnds` | modbus_params/server.c:129-133 | a cycle of aliases of any length is never left |
| `Requests.TwoAliasesLoop` | modbus_params/server.c:129-133 | the aliases a for b and b for a over an empty table are such a cycle: neither request ends |
| `Requests.Server.constructor` | modbus_params/dictionary.c:142-147 | both indexes and the sorted aliases belong to the table given |
| `Requests.Server.FindByCode` | modbus_params/dictionary.c:199-202 | an entry with the code if and only if the table has one, also for an empty table |
| `Requests.Server.FindByReg` | modbus_params/dictionary.c:203-207 | an entry with the register if and only if the table has one, also for an empty table |
| `Requests.Server.FindAlias` | modbus_params/dictionary.c:487-505 | an alias of the name if and only if there is one, also for an empty list |
| `Requests.Server.ReadEntry` | modbus_params/modbus.c:41-54 | the cached value becomes that of the device, or nothing changes |
| `Requests.Server.WriteEntry` | modbus_params/modbus.c:56-70 | the device changes at the entry's register only, and never for a read-only entry |
| `Requests.Server.DefHandler` | modbus_params/server.c:112-151 | for every request and every stack: answered if and only if the expansion ends within the stack, then with answer, values and device of the fully expanded request, and otherwise without any change; with a frame more than there are aliases, answered if and only if the request does not loop, so always over an acyclic table |
| `Requests.AnswerKinds` | modbus_params/server.c:112-151 | which requests are answered with a bad key or a bad value, and that only getters get a value and only setters a confirmation |
| `Requests.NoAliasNeeded` | modbus_params/server.c:127-133 | an entry comes before an alias of the same name, and setters are no aliases |
| `Requests.AliasMeans` | modbus_params/server.c:129-133 | the name of an alias does what the alias's text does |
| `Requests.GetterAnswers` | modbus_params/server.c:137-139 | a getter, by code, by register number or through aliases, answers what the register holds |
| `Requests.SetIsReadBack` | modbus_params/server.c:112-151 | what was set is read back modulo 2^16, after any requests that set no entry of the same register |
| `Requests.RefusedSetter` | modbus_params/server.c:145-146 | a setter of a read-only entry fails and leaves the device alone, but not the cached value |
| `Requests.ReadonlyGuards` | modbus_params/modbus.c:57-61 | with distinct registers a read-only entry guards its register |
| `Requests.GuardedUnchanged` | modbus_params/server.c:112-151 | no run of requests changes a guarded register of the device |
| `Requests.SetterWrites` | modbus_params/server.c:140-147 | setting an entry that may be written stores the number modulo 2^16 in its register and touches no other |
| `Requests.AlterableExactly` | modbus_params/server.c:112-151 | with distinct codes that the parser can set, the registers that some run alters are exactly those not guarded |
| `Rows.RollExactly` | Tetris/displaybuf.c:107-122 | the scan leaves exactly the rows that are not full, in order, under empty rows, if and only if the board is rollable |
| `Rows.StackedRolls` | Tetris/displaybuf.c:107-122 | a stack of rows under an empty top row is compacted and stays one |
| `Rows.NotRollableFails` | Tetris/displaybuf.c:107-122 | every other board comes out different from the compacted one |
| `Rows.TopRowDoubled` | Tetris/displaybuf.c:116-118 | in a cup of any size from 2 by 2 up, 30 by 15 included, a full row under a pile that reaches the top: the top row comes out twice, where the compacted board has an empty row |
| `Figures.TurnInverse` | Tetris/displaybuf.c:92-104 | a turn stays within the figure's square, and the opposite turn undoes it |
| `Figures.FourTurns` | Tetris/displaybuf.c:92-104 | four turns the same way give the figure back |
| `Figures.PaintAt` | Tetris/displaybuf.c:83-89 | a cell has the new value if the figure covers it and the old one otherwise |
| `Figures.ClearUndoesPut` | Tetris/displaybuf.c:74-89 | clearing undoes putting on free cells, for every figure and place |
| `Figures.SettledCellsStay` | Tetris/displaybuf.c:83-89 | a figure put on free cells alters no taken cell |
| `Figures.FitsIsFree` | Tetris/displaybuf.c:51-71 | the check guarantees free cells |
| `GameRules.Catalog` | Tetris/displaybuf.c:28-48 | the four figures lie in their square and have a colour |
| `GameRules.StepKeeps` | Tetris/main.c:80-126 | every key keeps the active figure on cells that are free on the settled board |
| `GameRules.Run` | Tetris/main.c:80-126 | so does every run of keys |
| `TidyGames.TurnedTapered` | Tetris/displaybuf.c:92-104 | all positions of the figures stay connected to their centre along rows and columns |
| `KeyMeanings.FitsMeansRoom` | Tetris/displaybuf.c:51-71 | the check, said cell by cell |
| `KeyMeanings.ShownCell` | Tetris/displaybuf.c:83-89 | the cup shows the figure's colour where it covers a cell and the settled board elsewhere |
| `KeyMeanings.MoveKeys` | Tetris/main.c:106-114 | with room on the side of its key every cell of the figure moves one column or row that way, and else nothing changes |
| `KeyMeanings.TurnKeys` | Tetris/main.c:115-120 | RotateRight turns the cells a quarter to the right around the centre and RotateLeft to the left, if there is room |
| `KeyMeanings.OppositeKeys` | Tetris/main.c:106-120 | the opposite key takes every move and turn back |
| `KeyMeanings.PlaceKeys` | Tetris/main.c:83-105 | after a lock the next figure starts in the middle of the top row if there is room for it, and else the game is over; Reset does so with the figure itself |
| `KeyMeanings.RunsGoOn` | Tetris/main.c:80-126 | a run goes on where it stopped, until Quit or the end of the game |
| `KeyMeanings.StartShows` | Tetris/main.c:73-75 | a new game shows two cells in the middle of the top row |
| `KeyMeanings.FigureCells` | Tetris/displaybuf.c:28-48 | the cells of the four figures |
| `TidyGames.Supported` | Tetris/main.c:93-93 | a figure that cannot go down with its centre in the cup stands on the floor or on a settled cell |
| `TidyGames.LockExactly` | Tetris/main.c:92-104 | locking a figure leaves no empty row below a taken one if and only if the figure has no cell in the cup or its lowest one there is not above the stack |
| `TidyGames.RollStacked` | Tetris/displaybuf.c:107-122 | rolling keeps a stack a stack, and compacts it if and only if there is no full row or the top row is empty |
| `TidyGames.PileInGame` | Tetris/main.c:92-104 | in a cup of two by two the two keys Down lead to such a board |
| `TidyGames.StepStanding` | Tetris/main.c:80-126 | every key that does not lock a figure in the air keeps the stack, and a lock compacts the board if and only if it has no full row or its top row is empty |
| `TidyGames.StepTidy` | Tetris/main.c:80-126 | a key keeps the figure's centre below the rim, and with it all this, if and only if it is not an Up from the top row that fits |
| `TidyGames.RunExactly` | Tetris/main.c:80-126 | over every run the boards that figures are locked into are stacks without gaps if and only if every locked figure rests |
| `TidyGames.RunTidy` | Tetris/main.c:80-126 | in particular over every run without such an Up |
| `TidyGames.StartTidy` | Tetris/main.c:73-75 | the game starts that way on any cup at least two columns wide |
| `TidyGames.FloatingLock` | Tetris/displaybuf.c:59-65 | in a cup of any size from 3 rows and 2 columns up, 30 by 15 included: Up, Left to the side, two turns and Down lock a figure in mid-air |
| `TetrisGame.Game.constructor` | Tetris/main.c:71-76 | the first figure is drawn on an empty cup |
| `TetrisGame.Game.ChkFigure` | Tetris/displaybuf.c:51-71 | true if and only if the figure fits there |
| `TetrisGame.Game.ClearFigure` | Tetris/displaybuf.c:74-80 | all its cells in the cup become empty and no other |
| `TetrisGame.Game.PutFigure` | Tetris/displaybuf.c:83-89 | all its cells in the cup get its colour and no other |
| `TetrisGame.Game.RotateFigure` | Tetris/displaybuf.c:92-104 | the figure turned a quarter |
| `TetrisGame.Game.CheckAndRoll` | Tetris/displaybuf.c:107-122 | the nested loops do the scan, and return true if and only if some row was full |
| `TetrisGame.Game.ScanRow` | Tetris/displaybuf.c:110-119 | a full row gives way to the rows above it, an empty row bounds what moves later, and rows below stay |
| `TetrisGame.Game.MvFig` | Tetris/main.c:31-43 | the figure moves if it fits, the settled board stays, and the result says which |
| `TetrisGame.Game.RotFig` | Tetris/main.c:45-56 | the figure turns if it fits, and the settled board stays |
| `TetrisGame.Game.Place` | Tetris/main.c:95-103 | the figure starts at the top, or the game is over with the board as it was |
| `TetrisGame.Game.Command` | Tetris/main.c:82-124 | the cup always shows the settled board and the figure; the settled board changes in the locking step only |
| `TetrisGame.Game.Play` | Tetris/main.c:80-126 | the key loop refines the rules over every run |
| `Numerals.DecimalMeans` | stringHash4MCU_/strfunc.c:37-54 | the decimal text is made of digits, denotes its number and has no leading zero |
| `Numerals.HexBytesMeans` | stringHash4MCU_/strfunc.c:75-94 | so does the hexadecimal text |
| `Numerals.DecimalRoundTrip` | stringHash4MCU_/strfunc.c:211-233 | the decimal text of a number of any size is read to its end as that number |
| `Numerals.HexRoundTrip` | stringHash4MCU_/strfunc.c:211-233 | so is the hexadecimal text with its prefix |
| `Numerals.SignedRoundTrip` | stringHash4MCU_/strfunc.c:236-249 | and the signed text, with its sign |
| `Numerals.OctalAndBinary` | stringHash4MCU_/strfunc.c:217-227 | so are octal digits behind a zero and binary digits behind a b |
| `Numerals.CapitalHexRead` | stringHash4MCU_/strfunc.c:144-147 | and capital hexadecimal digits |
| `Numerals.ZeroBinary` | stringHash4MCU_/strfunc.c:221-224 | a number with prefix 0b is read as zero up to the b |
| `Numerals.ValueGrows` | stringHash4MCU_/strfunc.c:123-126 | a value once too large stays too large with every further digit |
| `NumberReaders.OmitSpaces` | stringHash4MCU_/strfunc.c:101-107 | the first character greater than a space, or the end |
| `NumberReaders.GetDec` | stringHash4MCU_/strfunc.c:115-133 | for digits of any length: their value and end, or the start and the overflow mark if it needs more than 32 bits |
| `NumberReaders.GetHex` | stringHash4MCU_/strfunc.c:135-162 | the same in base 16 |
| `NumberReaders.GetOct` | stringHash4MCU_/strfunc.c:164-182 | the same in base 8 |
| `NumberReaders.GetBin` | stringHash4MCU_/strfunc.c:184-202 | the same in base 2 |
| `NumberReaders.GetNum` | stringHash4MCU_/strfunc.c:211-233 | returns its start if and only if there is no digit or the value is at least 2^32, and otherwise the value and its end |
| `NumberReaders.GetInt` | stringHash4MCU_/strfunc.c:236-249 | the signed value if it fits 31 bits; otherwise nothing is stored |
| `NumberPrinters.Printer.ToStr` | stringHash4MCU_/strfunc.c:37-54 | the buffer filled from its end holds sign, digits and terminator, within its 12 characters |
| `NumberPrinters.Printer.U2Str` | stringHash4MCU_/strfunc.c:57-59 | the decimal text of every 32-bit value |
| `NumberPrinters.Printer.I2Str` | stringHash4MCU_/strfunc.c:60-68 | the signed text of every 32-bit value |
| `NumberPrinters.Printer.UHex2Str` | stringHash4MCU_/strfunc.c:75-94 | the prefix and two digits for each byte from the first that is not zero |
| `NumberPrinters.UnsignedReadBack` | stringHash4MCU_/strfunc.c:211-233 | every 32-bit value is read back from both buffers |
| `NumberPrinters.SignedReadBack` | stringHash4MCU_/strfunc.c:236-249 | a signed value is read back if and only if it is not the least one |
| `Circle.NearestMeans` | _snippets/Bresenham_circle.c:24-44 | the integer test says: less than half a unit from the true circle |
| `Circle.Stays` | _snippets/Bresenham_circle.c:37-39 | a step with negative error keeps the error formula and the nearest point |
| `Circle.Inwards` | _snippets/Bresenham_circle.c:37-43 | so does a step inwards, as long as the octant goes on |
| `Circle.Done` | _snippets/Bresenham_circle.c:28-28 | when the loop ends no nearest point is left |
| `Circle.NextPoints` | _snippets/Bresenham_circle.c:29-36 | the eight reflections are all the nearest points with this smaller coordinate |
| `Circle.OnePixel` | _snippets/Bresenham_circle.c:17-23 | a pixel changes the one character that shows it, inside the buffer and never a newline, in both geometries |
| `Circle.Blank` | _snippets/Bresenham_circle.c:7-16 | spaces, a newline at the end of each line, and the terminator |
| `Circle.DrawReflections` | _snippets/Bresenham_circle.c:29-36 | all eight pixels are in the buffer and added to the picture |
| `Circle.DrawCircle` | _snippets/Bresenham_circle.c:5-46 | for every radius 1 to 200 and both geometries the picture shows exactly the points nearest to the circle; other radii give nothing |
| `Circle.SmallestPictures` | _snippets/Bresenham_circle.c:5-46 | the text of the smallest circle in both geometries |
| `Mailbox.FirstInFirstOut` | thread_array_management/test.c:112-141 | over every sequence of calls: waiting and pushed is, in order, popped and still waiting, for each direction |
| `Mailbox.PoppedIsPrefix` | thread_array_management/test.c:112-141 | so the texts popped are always the first ones pushed |
| `Mailbox.OpenLine` | thread_array_management/test.c:112-141 | as long as no push failed, a get hands out the oldest text left if there is one, and a push of a text that could be copied is accepted |
| `Mailbox.Independent` | thread_array_management/test.c:112-141 | what a direction holds depends on its own calls only |
| `Mailbox.LockedExactly` | thread_array_management/test.c:122-124 | a direction stays locked if and only if one of its pushes failed |
| `MessageQueue.Channel.PushMessage` | thread_array_management/test.c:52-70 | the list stays acyclic with the head knowing its last node, and gains one node at its end |
| `MessageQueue.Channel.PopMessage` | thread_array_management/test.c:77-86 | the first node leaves, its text is returned, and the next one knows the last |
| `Mailbox.PeekExactly` | thread_array_management/test.c:125-125 | the read after the unlock finds a node if and only if fewer texts were popped than there were, and then the oldest one left |
| `Mailbox.PeekAfterPush` | thread_array_management/test.c:122-125 | it does find one if no get of the direction came in between |
| `Mailbox.PeekFails` | thread_array_management/test.c:124-125 | one get in between makes it read through an empty list |
| `MessageQueue.Channel.Add` | thread_array_management/test.c:122-124 | state and reply after the locked section of an add are those of the line of texts; the lock is given back unless the copy failed; only new nodes join the list |
| `MessageQueue.Channel.Peek` | thread_array_management/test.c:125-125 | the text of the first node, or a fault on an empty list |
| `MessageQueue.Channel.Get` | thread_array_management/test.c:135-140 | state and reply after a get are those of the line of texts, and the lock is given back |
| `MessageQueue.Mesg.Push` | thread_array_management/test.c:112-124 | wrong index and empty text are refused; the other direction is untouched |
| `MessageQueue.Mesg.ReadBack` | thread_array_management/test.c:125-125 | the read after the unlock, as the line of texts gives it at that moment |
| `MessageQueue.Mesg.AddText` | thread_array_management/test.c:112-126 | an add that is not interrupted returns the oldest text waiting |
| `MessageQueue.Mesg.GetText` | thread_array_management/test.c:129-141 | wrong index is refused; the other direction is untouched |
| `MessageQueue.Mesg.Serve` | thread_array_management/test.c:112-141 | every sequence of locked sections and reads on the linked lists gives the replies of the two lines |

## Left out

- Sockets, serial and Modbus device access, OpenSSL, HID and I2C, daemons, signals and command lines: input and output over libraries. Reads and polls are parameters, the Modbus device is a map of registers, and a failing device is a flag of the request.
- `sl_get_keyval` and `sl_str2i` are functions given to the Modbus model; `qsort` is any way to a sorted permutation, written as insertion.
- Curses, OpenGL, web pages and all other display code.
- Floating-point rounding: doubles are exact numbers. Square roots, the angular factor and the normalisation of the Zernike functions, the annular recurrences and the solvers of GSL are not modelled; the index conversion uses the integer square root.
- Mediators.Mediator.Median: not stated for a mediator without values, where the code reads memory it never wrote; minimum and maximum are always asked for.
- Requests.Server.DefHandler: the stack is a number of nested calls; the answer text sent to the client is left out, and so are the limits of key and value length.
- The cached value of a Modbus entry on a refused write is overwritten before the check, so read-only safety is stated for device registers.
- Allocation failures, except of a message's copy, and freeing memory. Null arguments, except a missing serial device.
- SerialLine: the copy of a line for the caller is the returned value itself.
- The eight threads of the sieve run one iteration each; a bit is read and tested in one step, and a reset is one step in ParallelSieve and two in SplitResets.
- A locked section of a message call is one step, and so is the read after the unlock; that a text read there may have been freed meanwhile is not modelled.
- Characters are unsigned; a signed `char` would make bytes from 128 on count as spaces in `omit_spaces`.
- Integers are exact: the sum in `ItemMean`, the differences `v - L` and `R - v` of keys and the negation of the least integer in `i2str` do not overflow (the last is taken to give 2^31).
- The random choice of the next Tetris figure is a number given with each key. The cup is an array of rows, each row a value.
- bt_destroy, printing, the threads' registration and everything else in the repository: short wrappers, tables and user interface that would add easy members only.
