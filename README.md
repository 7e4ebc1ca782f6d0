# Image segmentation by Markov-random-field relaxation, and a maze solver

This project models in Dafny the computational core of a small collection of
C and C++ programs.

- **The scalar segmenter** (`scalar/segmentation.c`) starts from the bitmap's info
  header and derives:
  - the bytes per pixel;
  - the padding that aligns each row to 4 bytes;
  - the row stride;
  - the radius R of the Markov neighbourhood, which is the smaller side divided by 80.

  It copies the image into two buffers and then runs `ITERATIONS` relaxation
  passes, swapping the buffers before each pass. In a pass, every channel of
  every pixel at least R away from the border does the following:
  - Each candidate luminance gets a Gibbs energy: 5 for each sample of the
    radius-R disc that differs from the candidate.
  - The energies are turned into a 257-entry cumulative distribution.
  - The first candidate whose normalised CDF exceeds the threshold is chosen.

  Finally a mask pass zeroes every byte whose relaxed value differs from the
  relaxed value of the middle byte of the buffer.
- **The second-order program** (`Scalar/mrf.c`) runs the same relaxation once.
  It uses the eight neighbours of each pixel and unpadded rows, and writes
  into a separate mask.
- **The maze solver** (`hw7/TheMazeRunner.cpp`) works as follows:
  - It reads rows of characters into a grid. A `'0'` is a wall and is preset
    as visited.
  - It runs a breadth-first search from cell (0, 0). The queue holds copies of
    vertices, and the search stops inspecting a vertex's neighbours once the
    goal is marked.
  - It reports the distance of cell (N-1, N-1).
- **The VideoCore IV host program** (`optimized/videocore4/qpu.cpp`) contributes:
  - the normalising `timespec` subtraction that times the run;
  - the same header geometry, with a partition of 120;
  - the loop that fills four shared arrays with the neighbour offsets handed
    to the GPU kernel, one batch per row offset.

Modules:
- `Geometry`: buffer layout, padding, radius and byte offsets.
- `Gibbs`: energy, CDF and threshold scan.
- `Relaxation`: one pass as a function of the source buffer, with the loop
  invariant the i/j/k loops keep.
- `Segmentation` and `SecondOrder`: the two programs, with their in-place
  array loops.
- `Maze`: the search state, its invariants and shortest-path reachability.
- `MazeRunner`: the parsing and search loops.
- `Qpu`: the VideoCore IV host code.

The maze model reproduces a few behaviours of the program as it is written:
- A 1×1 maze whose only cell is open reports no path. The start is queued
  without being marked visited, and the goal test is never run for it.
- A goal cell that is a wall reports distance 0.
- A start cell that is a wall is searched from all the same.

`MazeRunner.Solve` states all three.

## Model

| member | source | states |
|---|---|---|
| Geometry.BytesPerPixel | scalar/segmentation.c:140 | `bitPerPix / 8` is the number of whole bytes in a pixel |
| Geometry.Padding | scalar/segmentation.c:141 | with C's precedence the padding expression lies in 0..3 and brings a row of pixel bytes to a multiple of 4 |
| Geometry.PaddedLayout | scalar/segmentation.c:140-142 | `byte_width` is a multiple of 4, at least `Width * byte_depth` and less than 4 bytes more |
| Geometry.Radius | scalar/segmentation.c:143-144 | `byte_offset` is the quotient of the smaller side by the partition constant |
| Geometry.IndexInBounds | scalar/segmentation.c:175 | the offset `row*byte_width + col*byte_depth + k` of a channel of a pixel inside the picture lies inside the buffer |
| Geometry.IndexDecodes | scalar/segmentation.c:183 | the row, column and channel are recovered from a byte offset, so distinct pixels write distinct bytes |
| Gibbs.CDiv | scalar/segmentation.c:176 | C's `/` truncates toward zero for negative energies |
| Gibbs.Energy | scalar/segmentation.c:171-175 | the energy of a candidate is a multiple of 5 between 0 and 5 per sample |
| Gibbs.EnergyAppend | scalar/segmentation.c:175 | each sample adds its own penalty to the running `Eq` |
| Gibbs.EnergySameSamples | scalar/segmentation.c:171-175 | the energy depends on the buffer only through the samples read |
| Gibbs.CdfTableStep | scalar/segmentation.c:176 | `gibbs_CDF[lum+1] = gibbs_CDF[lum] + exp(-Eq/TEMPERATURE)` |
| Gibbs.CdfStrictlyIncreasing | scalar/segmentation.c:176 | with strictly positive weights the CDF is strictly increasing |
| Gibbs.CdfShape | scalar/segmentation.c:165-177 | the CDF starts at 0, ends strictly positive and is strictly increasing, so the division in the threshold loop is defined |
| Gibbs.SelectFrom | scalar/segmentation.c:180-185 | the scan returns the first candidate whose normalised CDF exceeds the threshold, or reports that none does |
| Gibbs.SelectAlwaysSucceeds | scalar/segmentation.c:180-185 | with a threshold below 1 some candidate is always chosen, since the last normalised entry is 1 |
| Gibbs.Choose | scalar/segmentation.c:180-185 | the chosen luminance is above the threshold and every smaller candidate is not |
| Gibbs.Threshold | scalar/segmentation.c:180-185 | the loop that sets `lum = 256` to stop finds exactly the candidate `SelectFrom` specifies |
| Gibbs.UniqueSelection | scalar/segmentation.c:180-185 | the first-above-threshold property determines the scan's result |
| Relaxation.InteriorReadsInBounds | scalar/segmentation.c:157-159 | a byte at least the margin away from the border reads its whole stencil inside the buffer |
| Relaxation.ProgressByte | scalar/segmentation.c:157-185 | writing one byte moves the i/j/k loop invariant one channel on; other bytes keep their value |
| Relaxation.ProgressDone | scalar/segmentation.c:157-159 | when the i loop ends the destination holds the whole pass |
| Relaxation.PaddingNeverWritten | scalar/segmentation.c:141-159 | padding bytes of a row are never written |
| Relaxation.TailNeverWritten | Scalar/mrf.c:102-110 | bytes of a `biSizeImage` buffer past `byte_width * Height` lie in no row and are never written |
| Segmentation.RowOffsetsMembers | scalar/segmentation.c:173-174 | the m loop visits exactly the offsets of row l inside the disc |
| Segmentation.DiscOffsetsMembers | scalar/segmentation.c:172-174 | the l loop visits exactly the disc offsets of the rows it has passed |
| Segmentation.DiscMembers | scalar/segmentation.c:171-174 | the neighbourhood is exactly the offsets with l² + m² ≤ R², the centre included |
| Segmentation.DiscPrefixBounded | scalar/segmentation.c:172-173 | every offset visited lies in [-R, R]² |
| Segmentation.DiscInBounds | scalar/segmentation.c:157-175 | every disc sample of an interior byte lies inside the buffer |
| Segmentation.RowPenaltiesAddRow | scalar/segmentation.c:173-175 | the m loop's running `Eq` is the energy of the disc offsets visited so far |
| Segmentation.EnergyStep | scalar/segmentation.c:174-175 | one m step adds a penalty exactly when (l, m) is in the disc |
| Segmentation.RowEnergy | scalar/segmentation.c:173-175 | the m loop adds the energy of row l of the disc |
| Segmentation.DiscEnergy | scalar/segmentation.c:171-175 | the l/m loops compute the candidate's Gibbs energy over the disc |
| Segmentation.PixelCdf | scalar/segmentation.c:162-177 | the lum loop fills `gibbs_CDF` with the CDF of the 256 candidate energies |
| Segmentation.RelaxByte | scalar/segmentation.c:160-186 | one byte of the destination gets the chosen luminance; nothing else changes |
| Segmentation.RelaxPass | scalar/segmentation.c:157-186 | the i/j/k loops write the pass into the destination: interior bytes relaxed, all others untouched |
| Segmentation.RelaxedKeepsUnwritten | scalar/segmentation.c:146-188 | border, margin and padding bytes keep their original value through every iteration |
| Segmentation.Relax | scalar/segmentation.c:120-155 | the setup copy and the swapping ITERATIONS loop leave the last pass in `img_mask` and the one before in `img_copy` |
| Segmentation.MaskedKeepsOrZeroes | scalar/segmentation.c:191-192 | each byte is kept or zeroed, kept exactly when its mask byte equals the middle one, and the middle byte is kept |
| Segmentation.MaskedIdempotent | scalar/segmentation.c:191-192 | masking twice with the same mask is masking once |
| Segmentation.ApplyMask | scalar/segmentation.c:191-192 | the mask loop leaves `img` as the masked image |
| Segmentation.Segment | scalar/segmentation.c:140-192 | geometry, ITERATIONS relaxations and the mask pass, composed |
| SecondOrder.UnpaddedLayout | Scalar/mrf.c:104-105 | a pixel is the whole bytes of `biBitCount` bits, rows are `Width * byte_depth` bytes with no padding, and the image takes `Width * byte_depth * Height` bytes |
| SecondOrder.UnpaddedWithinPadded | Scalar/mrf.c:102-105 | the unpadded image takes no more bytes than the 4-byte aligned rows of the bitmap, and the same number exactly when the picture is empty or its rows need no padding |
| SecondOrder.StencilMembers | Scalar/mrf.c:120-128 | the eight reads are the 3×3 block without its centre, each read once |
| SecondOrder.EnergyRange | Scalar/mrf.c:120-128 | a candidate's energy is a multiple of 5 between 0 and 40 |
| SecondOrder.StencilStep | Scalar/mrf.c:120-128 | each `Eq +=` statement adds that neighbour's penalty |
| SecondOrder.NeighboursInside | Scalar/mrf.c:120-128 | for a pixel one away from the border every read is a true neighbour inside the image |
| SecondOrder.Mismatch | Scalar/mrf.c:120 | one term is 5 when the neighbour differs from the candidate, else 0 |
| SecondOrder.PixelEnergy | Scalar/mrf.c:120-128 | the eight statements compute the Gibbs energy of the stencil |
| SecondOrder.CentreNotSampled | Scalar/mrf.c:120-128 | no read lands on the byte being relaxed |
| SecondOrder.CentreIgnored | Scalar/mrf.c:118-141 | the new value of a byte does not depend on its own old value |
| SecondOrder.PixelCdf | Scalar/mrf.c:111-132 | the lum loop fills `gibbs_CDF` with the CDF of the eight-neighbour energies |
| SecondOrder.RelaxByte | Scalar/mrf.c:109-141 | one byte of the mask gets the chosen luminance; nothing else changes |
| SecondOrder.SecondOrderPass | Scalar/mrf.c:106-142 | with the corrected bounds the loops write the pass into the mask and leave the border untouched |
| SecondOrder.AsWrittenReadsPastBuffer | Scalar/mrf.c:106-121 | as written, the loops visit the last row, whose lower neighbour lies past the end of the image |
| SecondOrder.AsWrittenWrapsToNextRow | Scalar/mrf.c:107-123 | as written, the right neighbour of the last column is the first pixel of the next row |
| SecondOrder.CorrectedBoundsSafe | Scalar/mrf.c:106-107 | the corrected loops read only true neighbours, and drop exactly the last row and column of the loops as written |
| Maze.StepsAreNeighbours | hw7/TheMazeRunner.cpp:45-49 | the four offsets of the rotation lead to adjacent cells, every adjacent cell is reached by one of them, and no two of them lead to the same cell |
| Maze.ReachZero | hw7/TheMazeRunner.cpp:41 | only the start is reached in no moves |
| Maze.ReachMonotone | hw7/TheMazeRunner.cpp:57 | what is reached in a moves is reached in any larger count |
| Maze.ReachOpen | hw7/TheMazeRunner.cpp:51-54 | a reached cell other than the start is an open cell of the square |
| Maze.ReachExtend | hw7/TheMazeRunner.cpp:48-57 | one more move to an adjacent open cell |
| Maze.ReachPredecessor | hw7/TheMazeRunner.cpp:48-57 | a cell first reached in n + 1 moves is open and has a neighbour reached in n |
| Maze.ShortestIsMinimal | hw7/TheMazeRunner.cpp:66-67 | a distance that reaches a cell when one less does not is its shortest |
| Maze.BitAnd | hw7/TheMazeRunner.cpp:60 | `x & y` is at most each of its operands |
| Maze.GoalTest | hw7/TheMazeRunner.cpp:60 | inside the square `(x & y) == N-1` holds exactly at the goal |
| Maze.Mark | hw7/TheMazeRunner.cpp:56-57 | marking changes only the chosen vertex: it is visited with the new distance |
| Maze.Initial | hw7/TheMazeRunner.cpp:39-41 | the parsed grid with the start queued satisfies the search invariants |
| Maze.MarkUnvisited | hw7/TheMazeRunner.cpp:53-56 | marking removes exactly that cell from the unvisited cells |
| Maze.MarkExact | hw7/TheMazeRunner.cpp:56-57 | marking a cell first reached in `dist` moves keeps every settled cell at its shortest distance |
| Maze.MarkSorted | hw7/TheMazeRunner.cpp:57-58 | queueing at the front's distance plus one keeps the queue's distances sorted within one level |
| Maze.MarkClosed | hw7/TheMazeRunner.cpp:45-56 | marking keeps every dequeued cell's neighbours visited and visits neighbour i of the front |
| Maze.MarkTracked | hw7/TheMazeRunner.cpp:58 | every discovered cell is dequeued or in the queue |
| Maze.MarkLevel | hw7/TheMazeRunner.cpp:42-58 | everything reached within the front's distance stays visited |
| Maze.FrontReached | hw7/TheMazeRunner.cpp:44-57 | the front was reached in its recorded distance |
| Maze.FirstReached | hw7/TheMazeRunner.cpp:53-57 | an unvisited neighbour of the front is open and first reached in one move more |
| Maze.MarkGoal | hw7/TheMazeRunner.cpp:56-61 | once marked, the goal holds its shortest distance |
| Maze.MarkStartFirst | hw7/TheMazeRunner.cpp:41-58 | the start is dequeued first, at distance 0 |
| Maze.MarkSearching | hw7/TheMazeRunner.cpp:53-58 | marking and queueing an unvisited neighbour keeps every breadth-first invariant |
| Maze.PopSearching | hw7/TheMazeRunner.cpp:63 | dequeuing a front whose neighbours are all visited keeps every breadth-first invariant |
| Maze.LevelDequeued | hw7/TheMazeRunner.cpp:42-63 | a cell reached in fewer moves than the front is already dequeued |
| Maze.NextLevel | hw7/TheMazeRunner.cpp:42-63 | a cell first reached one move beyond the front is already visited once the front is done |
| Maze.DoneHoldsReached | hw7/TheMazeRunner.cpp:42-64 | with the queue empty, every reachable cell has been dequeued |
| Maze.Unreached | hw7/TheMazeRunner.cpp:66-69 | if the queue empties with the goal unvisited, no walk reaches the goal |
| Maze.Visit | hw7/TheMazeRunner.cpp:56-58 | visiting neighbour i keeps the inner-loop invariant and uses up one unvisited cell |
| Maze.Pop | hw7/TheMazeRunner.cpp:63 | the pop after the inner loop restores the outer-loop invariant |
| Maze.LogInitial | hw7/TheMazeRunner.cpp:41 | the record of pushes starts with the start, the one cell queued |
| Maze.LogPush | hw7/TheMazeRunner.cpp:53-58 | pushing an unvisited cell appends it to the record: the queue stays the record's tail and no cell the search pushed repeats |
| Maze.VisitLogged | hw7/TheMazeRunner.cpp:53-58 | marking and queueing neighbour (x, y) keeps the inner-loop invariant and the record, and uses up one unvisited cell per queue entry |
| Maze.LogPop | hw7/TheMazeRunner.cpp:63 | dequeuing the front keeps the queue a tail of the record |
| Maze.PushedAtMost | hw7/TheMazeRunner.cpp:41-58 | in a record without repeats after the start, no cell occurs twice except the start, which occurs at most twice |
| MazeRunner.Parse | hw7/TheMazeRunner.cpp:22-36 | every character becomes a vertex with its position, distance 0, visited when it is `'0'` |
| MazeRunner.InspectNeighbour | hw7/TheMazeRunner.cpp:48-61 | one pass of the inner loop skips a cell off the square or already visited, and otherwise marks and queues it and tests it for the goal; the queue only grows at its end and the record of pushes grows by exactly the entries queued |
| MazeRunner.Inspect | hw7/TheMazeRunner.cpp:45-62 | the inner loop inspects all four neighbours or stops once the goal is marked; the queue only grows at its end and the record of pushes grows by exactly the entries queued |
| MazeRunner.Search | hw7/TheMazeRunner.cpp:39-64 | after the search the goal is visited exactly when it is a wall or a walk reaches it, and then holds its shortest distance; no cell is pushed twice, except the start, pushed at most twice |
| MazeRunner.Solve | hw7/TheMazeRunner.cpp:22-69 | the report gives a distance exactly when the goal is a wall or reachable in a maze of side at least 2: 0 for a wall, else the shortest walk length |
| Qpu.Diff | optimized/videocore4/qpu.cpp:53-64 | the difference preserves the total nanoseconds, and is normalised when both readings are |
| Qpu.DiffIsElapsed | optimized/videocore4/qpu.cpp:53-64 | on clock readings, `diff` is the unique normalised form of the elapsed nanoseconds |
| Qpu.DiffBorrows | optimized/videocore4/qpu.cpp:56-62 | it borrows one second exactly when the end's nanoseconds are smaller, and otherwise subtracts componentwise |
| Qpu.NormalisedUnique | optimized/videocore4/qpu.cpp:53-64 | a normalised timespec is determined by its nanosecond count |
| Qpu.CodeDuration | optimized/videocore4/qpu.cpp:199-201 | `code_duration` is the elapsed time in nanoseconds, non-negative when the clock does not go back |
| Qpu.Host | optimized/videocore4/qpu.cpp:164-170 | the padded layout, the radius quotient by 120, `R2 = R * R` and `D = 2R + 1`, a disc of squared radius `R2` inside [-R, R]², and `D` lanes per batch |
| Qpu.DiscInSquare | optimized/videocore4/qpu.cpp:121 | every offset the kernel's `dl*dl + dm*dm <= dord` accepts lies in the square the host sweeps |
| Qpu.BatchCovers | optimized/videocore4/qpu.cpp:186-191 | a batch pairs `l` with each column offset in [-R, R] exactly once |
| Qpu.DispatchedAt | optimized/videocore4/qpu.cpp:184-192 | entry t of everything sent is the offset (t / D - R, t % D - R) |
| Qpu.AllOffsetsSent | optimized/videocore4/qpu.cpp:184-192 | across the whole loop the kernel receives every offset of [-R, R]² and nothing else |
| Qpu.AllOffsetsOnce | optimized/videocore4/qpu.cpp:184-192 | no offset is sent twice |
| Qpu.FillBatch | optimized/videocore4/qpu.cpp:186-191 | the n loop sets `hl`, `hm` to the batch for `l`, `hord` to `R2` and `hr` to 0 |
| Qpu.OffsetLoop | optimized/videocore4/qpu.cpp:184-192 | the l loop hands the kernel the batches for l = -R .. R in order |

## Left out

- Loading and saving bitmaps is not modelled: `load_bitmap`, `overwrite_bitmap` and the packed header structs are file I/O. The image arrives as an array and the header as the width, the height and the bits per pixel.
- `Scalar/mrf.c:51` passes the buffer pointer by value, so the image in `main` is never set. This is a fault of the I/O layer, and the model hands the pass a loaded image.
- The linked-list region code after the mask pass (`scalar/segmentation.c:195-345`) is not part of this model.
- `exp` is a call into the C maths library. It is a parameter `w`, any strictly positive function of the integer exponent.
- Gibbs.SelectAlwaysSucceeds: relies on every weight being strictly positive. In `double`, `exp(q)` is 0.0 once q is at most about -746. In `scalar/segmentation.c` (TEMPERATURE 23) that happens when every candidate has at least 3432 mismatching samples, which a disc of radius 34 or more (3625 samples, a shorter side of at least 2720 pixels) allows when no luminance covers more than 193 of them. Then `gibbs_CDF[256]` is 0, every ratio is NaN, the lum loop writes nothing and the byte keeps its previous value. The model, with exact positive weights, always writes a candidate (Segmentation.RelaxByte), and does not cover this underflow.
- The model computes the CDF in exact real arithmetic, not in rounded `double`s.
- `printf` progress messages are not modelled, nor `clock_gettime`: the two clock readings are parameters.
- The maze file is a parameter: the sequence of lines `getline` returned before end of file. The loop's end-of-file check drops a last line that has no trailing newline; the model receives only the lines kept.
- The QPU kernel `is_neighbor` is not modelled, and neither are `compile`, `SharedArray` or `setNumQPUs`. These come from a GPU library with SIMD `Where` semantics. Each kernel call is recorded as the pairs it receives, and the kernel's output array `hr` is not modelled.
- Segmentation.Segment: takes the header's width and height as non-negative and the buffer to hold at least `byte_width * Height` bytes. A bitmap may store its rows top-down with a negative height, and may give a size of 0 for an uncompressed image. With a negative height `byte_offset` is at most 0, no relaxation pass writes anything and the program only masks. With a size of 0 the program allocates empty buffers. The model covers neither header.
- Bytes past `byte_width * Height` in a larger buffer, such as the row padding that `biSizeImage` counts in `Scalar/mrf.c`, lie in no row of the layout and are never written (Relaxation.TailNeverWritten).
- SecondOrder.SecondOrderPass: models the corrected loop bounds. The bounds as written are exhibited by the lemmas in the Findings table.
- MazeRunner.Search: restricted to square files, with at least one row and at least N characters in every row, N being the number of rows. The program itself indexes only the cells the search inspects, (0, 0) and (N-1, N-1), so a file with shorter rows that the search never reaches past their ends also runs; the model does not cover such files.
- MazeRunner.Solve: restricted to square files in the same way as MazeRunner.Search.
- MazeRunner.InspectNeighbour: the bounds test `(x|y) < 0` is modelled as `x < 0 || y < 0`. The two agree on two's-complement integers.
- MazeRunner.Inspect: after the goal stops the inner loop, the returned count is one past the goal's index, where the program's `i` is not incremented. The count is not used after the loop.
- Qpu.CodeDuration: computed on unbounded integers. Where `long` is 32 bits, `1000000000 * result.tv_sec` overflows once a run takes more than about two seconds.
- Qpu.Diff: the `timespec` fields are unbounded integers, so overflow of `time_t` is not modelled.

## Findings

| source | as written | input that shows it | evidently intended | confidence | as-written member | corrected member |
|---|---|---|---|---|---|---|
| Scalar/mrf.c:106-107 | the loops run `i` up to `biHeight - 1` and `j` up to `biWidth - 1`, so the neighbour reads of the last row fall past the `Width * depth * Height` bytes of the image (past the buffer unless `biSizeImage` counts row padding, into that padding otherwise), and those of the last column wrap to the opposite border of the next row | any image of at least 2×2 pixels: pixel (Height-1, 1) reads row Height, past the image data | `i < biHeight - 1` and `j < biWidth - 1`, so that only pixels with all eight neighbours inside the image are relaxed | not executed | SecondOrder.AsWrittenReadsPastBuffer | SecondOrder.SecondOrderPass |
