# Distributed 2-D FFT benchmark: the compute pipeline of a node

This project models the work each compute cluster does in the in-chip flat FFT
benchmark. Every cluster holds a tile of `TILE_HEIGHT = TILE / NB_CLUSTER` rows
of a `TILE x TILE` matrix of complex samples. Each of the `NB_FFT_ITER`
iterations of `main` runs a fixed series of stages:

1. get the tile;
2. transpose it across the clusters;
3. a radix-2 FFT of every row;
4. transpose back;
5. twist each row by a power of its correction root;
6. a second FFT of every row;
7. transpose again;
8. put the tile.

The model covers:

- the tables built once before the loop: the twiddle table, the bit-reversal
  swap table and the per-cluster correction table;
- the in-place radix-2 kernel;
- the row partition over the cores of a cluster;
- the row FFT stage and the correction stage;
- the transpose with its remote puts and the local diagonal block;
- the stage order of `main`.

Modules follow the source:

- `Config` holds the constants and the build-time guards of `config.h`.
- `Twiddle`, `BitReverse`, `Radix2` and `Correction` model the kernels of `fft_kernels.c`.
- `Partition`, `Ffts`, `Correction`, `Transpose` and `Driver` model `cluster.c`.
- `Powers` and `Cplx` hold the arithmetic both sides share.

Complex samples are pairs of exact reals. `cos` and `sin` are a parameter `trig`
of type `Trig`, two total functions of an angle measured in whole turns.

- The loop-driven code is modelled as methods over arrays, each proved to compute
  a specification function of its inputs:
  - twiddle fill;
  - bit-reversal;
  - swap and butterfly passes;
  - phasor loop;
  - per-core chunks;
  - transposes;
  - the iteration loop.
- The specification functions have their own properties proved as lemmas:
  - the table's layout and length;
  - every swap pair ordered, distinct and below `size`;
  - the swap pass realising the bit-reversal permutation;
  - every butterfly reading the twiddle generated for its own `(m, k, j)`;
  - the partition being a balanced disjoint cover;
  - the correction multiplying column `j` by `omega^j`.

The transposes are proved to form a global transpose. One iteration is proved to
compute the four-step form of its input: every column transformed, twisted,
every row transformed, read out transposed.

`NB_CLUSTER` and `N_CORES` are build-time choices in the source, so they are
parameters `nb` and `cores` here. The correction-table builder and the
transpose require `Config.ValidClusterCount`, and the driver requires both
`config.h` guards (`Config.ValidClusterCount` and `Config.ValidCoreCount`). The
twiddle and bit-reversal builders are proved for any power-of-two size. The
partition, the row FFT stage and the correction stage are proved for any tile
height `th >= 0` and any `cores >= 1`.

All clusters' tiles are held in one flat row-major array of `TILE * TILE`
samples. Cluster `q`'s tile is global rows `q * TILE_HEIGHT ..`. One cluster's
part of a stage becomes one step on that array, and the clusters run one after
the other. The cores of a cluster likewise run one after the other.

## Model

| member | source | states |
|---|---|---|
| Config.ValidClusterCount | include/common/config.h:45-47 | the build guard admits 1, 2, 4, 8 or 16 clusters; ClusterGuard states which counts these are |
| Config.ClusterGuard | include/common/config.h:45-47 | the admitted cluster counts are exactly the powers of two up to 16, in both directions |
| Config.ValidCoreCount | include/common/config.h:49-51 | the build guard admits 1 to 16 cores; CoresFitTile gives every core a row under it |
| Config.TileHeight | include/common/config.h:33 | TILE_HEIGHT lies between 16 and TILE for every supported cluster count |
| Config.TileHeightFacts | include/common/config.h:31-33 | TILE_HEIGHT equals TILE / NB_CLUSTER. TILE_HEIGHT * NB_CLUSTER is exactly TILE, and TILE_HEIGHT is a power of two |
| Config.Height | include/common/config.h:36-37 | HEIGHT = TILE_HEIGHT * NB_CLUSTER equals WIDTH, so the global matrix is square |
| Config.TileWidthIsPow2 | include/common/config.h:31-32 | TILE_WIDTH = 256 is a power of two, 2^8, as the radix-2 kernel needs |
| Config.RowOffStride | src/cluster/cluster.c:151 | row r of a tile starts at sample r * TILE_WIDTH, and consecutive rows are TILE_WIDTH samples apart |
| Config.CoresFitTile | include/common/config.h:45-51 | under both guards, TILE_HEIGHT / N_CORES >= 1, so every core has a row |
| Partition.RowStart | src/cluster/cluster.c:169 | the first row of core i (also start_twid at line 237), nonnegative; StartNext, StartEnds and InTile give its properties |
| Partition.RowCount | src/cluster/cluster.c:168 | nb_fft is TH / C or TH / C + 1, and it is the larger one exactly when i < TH % C |
| Partition.StartNext | src/cluster/cluster.c:168-169 | the rows of core i end where the rows of core i + 1 begin (contiguous) |
| Partition.StartEnds | src/cluster/cluster.c:166-169 | core 0 starts at row 0, and the ranges of all C cores end at row TH |
| Partition.StartMonotone | src/cluster/cluster.c:169 | start offsets never decrease with the core number |
| Partition.Disjoint | src/cluster/cluster.c:166-169 | the row ranges of two different cores do not overlap |
| Partition.InTile | src/cluster/cluster.c:166-169 | every core's row range lies inside [0, TH) |
| Partition.OwnerFrom | src/cluster/cluster.c:166-169 | every row from core i's start up to TH is owned by some core k >= i |
| Partition.UniqueOwner | src/cluster/cluster.c:166-169 | every row of the tile is owned by exactly one core (cover and disjointness) |
| Partition.Balanced | src/cluster/cluster.c:168 | any two cores' row counts differ by at most one, and the counts never increase with i |
| Partition.RowsTotal | src/cluster/cluster.c:166-169 | the counts of cores 0 .. n-1 add up to core n's start, and all C counts add up to TH |
| Partition.NoIdleCore | src/cluster/cluster.c:168 | when TH >= C, every core gets at least one row |
| Correction.CorrectionReads | src/cluster/cluster.c:236-238 | twiddle_correction uses the same partition as ffts. A row of core i reads correction floats 2 * (start + row) and the next one, both below 2 * TH |
| Twiddle.PairCountFloats | src/cluster/fft_kernels.c:39-48 | two floats per butterfly make size * log2(size) floats |
| Twiddle.TwiddleCount | src/cluster/fft_kernels.c:37-48 | the counting pass leaves i = 2 * (size / 2 * log2(size)) |
| Twiddle.StageGuard | src/cluster/fft_kernels.c:39 | the stage loop guard m <= size holds exactly for the log2(size) stages |
| Twiddle.BlockGuard | src/cluster/fft_kernels.c:41 | the block loop guard k < size holds exactly for the size / m blocks of a stage |
| Twiddle.BlocksCover | src/cluster/fft_kernels.c:41-43 | the blocks of a stage hold size / 2 butterflies and span the size samples |
| Twiddle.WithinStage | src/cluster/fft_kernels.c:58-73 | within a stage the pair counter stays below size / 2, and a block k .. k + m fits in size |
| Twiddle.BlockEnd | src/cluster/fft_kernels.c:58-73 | after block c of stage s the counter has not passed the total pair count |
| Twiddle.NextIndex | src/cluster/fft_kernels.c:58-73 | the next trip of the loop nest is a trip again, and it advances the pair counter by exactly one |
| Twiddle.StepIndex | src/cluster/fft_kernels.c:58-73 | the p-th trip of the nest is a valid trip at which the counter reads p |
| Twiddle.StepAt | src/cluster/fft_kernels.c:58-73 | each trip (m, k, j) is the trip numbered by its own counter value |
| Twiddle.RootPairs | src/cluster/fft_kernels.c:58-73 | one twiddle per butterfly: size / 2 * log2(size) values; TwiddleEntry gives each value |
| Twiddle.InterleaveAt | src/cluster/fft_kernels.c:67-68 | value p sits as real part at float 2p and imaginary part at float 2p + 1 |
| Twiddle.HoldsAll | src/cluster/fft_kernels.c:57-73 | a table of the right length holding every value is exactly their interleaving |
| Twiddle.PairsInterleave | src/cluster/fft_kernels.c:141-142 | read back two floats at a time, the interleaving gives the values it was made from |
| Twiddle.TwiddleTable | src/cluster/fft_kernels.c:49-50 | the table holds 2 * (size / 2 * log2(size)) floats; TablePairs and TwiddleEntry give its contents |
| Twiddle.TablePairs | src/cluster/fft_kernels.c:57-73 | read two floats at a time, the table is the per-butterfly roots in loop-nest order |
| Twiddle.TwiddleEntry | src/cluster/fft_kernels.c:60-71 | the pair at (m, k, j) is (cos(2πj/m), -sin(2πj/m)) and equals the pair at (m, 0, j), so each stage repeats its first block |
| Twiddle.FillStep | src/cluster/fft_kernels.c:62-70 | at each trip, the pair the fill loop computes from i / m is the twiddle of the counter's butterfly |
| Twiddle.FillBlock | src/cluster/fft_kernels.c:63-71 | the inner loop writes block c's m / 2 pairs from float 2p0 on, and ends with f = 2(p0 + m/2) |
| Twiddle.GetTwiddle | src/cluster/fft_kernels.c:34-75 | the returned array is newly allocated and is exactly the twiddle table: its length and every entry |
| BitReverse.Rev | src/cluster/fft_kernels.c:90 | the n-bit reversal of i is below 2^n |
| BitReverse.RevInvolutive | src/cluster/fft_kernels.c:90 | reversing twice gives the index back |
| BitReverse.RevZero | src/cluster/fft_kernels.c:92 | j = 0 is the reversal of i = 0, where the loop starts |
| BitReverse.RevShift | src/cluster/fft_kernels.c:90 | the bottom bit of x becomes the top bit of its reversal |
| BitReverse.RevTopClear | src/cluster/fft_kernels.c:105-109 | a clear top bit becomes a clear bottom bit of the reversal |
| BitReverse.RevTopSet | src/cluster/fft_kernels.c:105-109 | a set top bit becomes a set bottom bit of the reversal |
| BitReverse.Carry | src/cluster/fft_kernels.c:103-111 | the carry rule: the result is positive and below 2 * k, so it stays within the counter's bits; CarryIsReversedIncrement gives its meaning |
| BitReverse.CarryIsReversedIncrement | src/cluster/fft_kernels.c:103-111 | the carry rule (clear the leading ones from the top, set the first zero) maps Rev(i) to Rev(i + 1) |
| BitReverse.CarryStep | src/cluster/fft_kernels.c:103-111 | starting from k = size >> 1, the carry rule takes j = Rev(i) to Rev(i + 1) and terminates |
| BitReverse.CarryRule | src/cluster/fft_kernels.c:103-111 | the inner while loop and the final j += k compute the carry rule |
| BitReverse.LutSeq | src/cluster/fft_kernels.c:95-101 | the emitted table always has an even number of entries |
| BitReverse.LutMember | src/cluster/fft_kernels.c:95-101 | an emitted index is below size and is either the smaller or the larger end of a pair (i, Rev(i)) |
| BitReverse.LutPairs | src/cluster/fft_kernels.c:95-101 | every emitted pair (i, j) has 0 <= i < j < size and j = Rev(i) |
| BitReverse.LutDistinct | src/cluster/fft_kernels.c:95-101 | no index is emitted twice |
| BitReverse.LutBound | src/cluster/fft_kernels.c:114-119 | count stays strictly below size, so the exit branch is never taken |
| BitReverse.LutStep | src/cluster/fft_kernels.c:95-101 | step i appends (i, Rev(i)) exactly when i < Rev(i), and stays below size |
| BitReverse.LutEnd | src/cluster/fft_kernels.c:93 | the loop stops at i = size - 1 with the table complete and shorter than the buffer |
| BitReverse.EmitPair | src/cluster/fft_kernels.c:97-100 | appends (i, j) to the first count entries and returns count + 2 |
| BitReverse.GetBitReverse | src/cluster/fft_kernels.c:79-121 | the buffer is newly allocated and has size ints. The published count is even, at least 0 and below size, and the first count entries are the complete pair table |
| BitReverse.Swap | src/cluster/fft_kernels.c:130-132 | exchanging two whole complex values (the dword swap) moves each to the other's place and changes nothing else |
| BitReverse.Swaps | src/cluster/fft_kernels.c:128-133 | the swap pass keeps the row length; LutRealisesBitReversal states its effect with the built table |
| BitReverse.SwapsPrefix | src/cluster/fft_kernels.c:128 | the swap pass depends only on the first count entries of the table |
| BitReverse.SwapsAppend | src/cluster/fft_kernels.c:128-133 | one more emitted pair is one more swap at the end of the pass |
| BitReverse.SwapsLast | src/cluster/fft_kernels.c:128-133 | the last pair of the first c entries is the last swap applied |
| BitReverse.SwapsLut | src/cluster/fft_kernels.c:91-113 | after the pairs of indices below i, every element comes from its partially reversed source |
| BitReverse.PartialRevStep | src/cluster/fft_kernels.c:95-101 | the pair of p leaves every other element's source where it was |
| BitReverse.LutRealisesBitReversal | src/cluster/fft_kernels.c:91-113 | applying the whole table puts x[Rev(t)] at every t: the bit-reversal permutation |
| Radix2.PairAt | src/cluster/fft_kernels.c:145-155 | the two indices k + j < k + j + m/2 of every butterfly are below size |
| Radix2.PairIndices | src/cluster/fft_kernels.c:135-139 | one index pair per butterfly of the nest; PairIndicesAt gives each pair |
| Radix2.PairIndicesInRow | src/cluster/fft_kernels.c:145-155 | every butterfly index addresses a sample of the row |
| Radix2.PairIndicesAt | src/cluster/fft_kernels.c:145-155 | at trip (m, k, j), the pair at the counter is (k + j, k + j + m/2) |
| Radix2.PairIndicesTable | src/cluster/fft_kernels.c:135-155 | the pair table holds the trip's own indices at every trip of the nest |
| Radix2.Butterfly | src/cluster/fft_kernels.c:145-155 | a butterfly keeps the row length; ButterflyOf and ButterflyEffect give its effect |
| Radix2.ButterflyEffect | src/cluster/fft_kernels.c:151-155 | per sample: u − t at the upper index, u + t at the lower one, and every other sample unchanged |
| Radix2.TwiddleAtFloat | src/cluster/fft_kernels.c:141-142 | floats i = 2p and i + 1 are the real and imaginary parts of the p-th twiddle |
| Radix2.TripPair | src/cluster/fft_kernels.c:139-143 | butterfly (m, k, j) reads table index i = 2p, where p is its own counter, and its samples are the pair generated for (m, k, j) |
| Radix2.Stages | src/cluster/fft_kernels.c:135-159 | the butterfly network keeps the buffer length; StagesNext, StagesRow and TraceNet give its effect |
| Radix2.StagesRow | src/cluster/fft_kernels.c:135-159 | on a row held from off, the network acts on that row alone |
| Radix2.TraceNet | src/cluster/fft_kernels.c:139-157 | the intermediate states of the network chain butterfly after butterfly, from the input to the result |
| Radix2.SwapsAt | src/cluster/fft_kernels.c:128-133 | the swap pass on the row held from off keeps the buffer length; SwapsAtRow ties it to the swap pass of the row |
| Radix2.SwapsAtRow | src/cluster/fft_kernels.c:128-133 | the swap pass on the row at off is the swap pass of that row, and samples outside it are unchanged |
| Radix2.Radix2 | src/cluster/fft_kernels.c:123-160 | the kernel maps a row of size samples to a row of size samples; KernelWithTables states what it computes |
| Radix2.Radix2At | src/cluster/fft_kernels.c:123-160 | the kernel on a row held in a larger buffer keeps the buffer length; Radix2AtRow states which samples it changes |
| Radix2.Radix2AtRow | src/cluster/fft_kernels.c:123-160 | the kernel on the row at off transforms exactly that row and leaves every other sample alone |
| Radix2.BitReversed | src/cluster/fft_kernels.c:90 | the bit-reversed row has the row's length; LutRealisesBitReversal shows the swap pass produces it |
| Radix2.KernelWithTables | src/cluster/fft_kernels.c:123-160 | with the builders' tables, the kernel is the butterfly network over the bit-reversed row, with root (cos, −sin) of 2πj/m at (m, k, j) |
| Radix2.SwapPass | src/cluster/fft_kernels.c:128-133 | the swap loop leaves the buffer as the swap pass on the row at off |
| Radix2.ButterflyBlock | src/cluster/fft_kernels.c:139-157 | the j loop runs block k's m/2 butterflies. The read index rises by 2 per butterfly, ending at 2(p0 + m/2) |
| Radix2.ButterflyStage | src/cluster/fft_kernels.c:137-158 | the k loop runs the stage's size/2 butterflies, with the read index ending at 2 * (s+1) * size/2 |
| Radix2.Butterflies | src/cluster/fft_kernels.c:134-159 | the three-level nest applies every butterfly of the network in order, and the twiddle read index ends at the table length |
| Radix2.FftRadix2 | src/cluster/fft_kernels.c:123-160 | the kernel on the size samples from a[off] leaves the buffer as Radix2At of the old buffer |
| Correction.CorrectionRoots | src/cluster/fft_kernels.c:171-178 | one root per row of the tile; CorrectionEntry gives each root |
| Correction.CorrectionTable | src/cluster/fft_kernels.c:168-178 | the table holds 2 * TILE_HEIGHT floats; CorrectionEntry gives each float |
| Correction.CorrectionEntry | src/cluster/fft_kernels.c:171-177 | floats 2r and 2r + 1 are cos and −sin of (r + cid * TH) / (w * h) turns. This is the root of global row cid * TH + r |
| Correction.GetCorrectionTwiddle | src/cluster/fft_kernels.c:162-181 | the returned array is newly allocated, has 2 * TILE_HEIGHT floats and is exactly the correction table of cluster cid |
| Correction.ScaleRow | src/cluster/cluster.c:210-222 | scaling a row keeps the buffer length; ScaleRowAt gives its effect |
| Correction.ScaleRowAt | src/cluster/cluster.c:205-222 | column j of the row ends up multiplied by omega^j, and no sample outside the row changes |
| Correction.PhasorStep | src/cluster/cluster.c:213-220 | the source's sample update and phasor update are complex multiplications in this component order |
| Correction.ScaleRowLoop | src/cluster/cluster.c:205-222 | the phasor loop, started at (1, 0), leaves the buffer as the row scaled column by column by omega^j |
| Correction.CorrectRows | src/cluster/cluster.c:203-223 | correcting rows keeps the buffer length; CorrectRowsAt gives its effect |
| Correction.CorrectRow | src/cluster/cluster.c:203-223 | correcting rows up to R keeps the buffer length |
| Correction.CorrectRowsAt | src/cluster/cluster.c:203-223 | sample c of a corrected row R is the input times the c-th power of R's root. Samples outside the rows are unchanged |
| Correction.CorrectRowsSplit | src/cluster/cluster.c:234-248 | correcting two consecutive row ranges one after the other corrects their union |
| Correction.CorrectRowsSameRoots | src/cluster/cluster.c:207-208 | two tables that give the same roots to the rows correct them alike |
| Correction.CorrectionFactor | src/cluster/cluster.c:201-221 | with cluster cid's table, sample c of global row R is multiplied by the c-th power of the root of R / (w * h) |
| Correction.CorrectionIsRoot | src/cluster/cluster.c:201-221 | under exact trigonometry, that factor is the root of c · R / (w * h) turns |
| Correction.CorrectionChunk | src/cluster/cluster.c:196-227 | twiddle_correction_ corrects exactly rows start .. start + height − 1, reading entries from 2 * start on |
| Correction.TwiddleCorrection | src/cluster/cluster.c:230-253 | all the cores' chunks correct the whole tile, each row once with its own root |
| Ffts.Row | src/cluster/cluster.c:151 | the row at offset r * TILE_WIDTH has size samples |
| Ffts.Step | src/cluster/cluster.c:151 | transforming one row keeps the buffer length; StepAt gives its effect |
| Ffts.StepAt | src/cluster/cluster.c:151 | one kernel call replaces the first size samples of row r with the transform of that row. Nothing else changes |
| Ffts.SpliceAt | src/cluster/cluster.c:151 | writing a row back changes only that row's samples |
| Ffts.FftRows | src/cluster/cluster.c:149-152 | transforming rows keeps the buffer length; FftRowsAt and FftRowsFrame give its effect |
| Ffts.FftRow | src/cluster/cluster.c:149-152 | transforming rows up to r keeps the buffer length |
| Ffts.FftRowsFrame | src/cluster/cluster.c:149-152 | no sample outside rows lo .. hi − 1 changes |
| Ffts.FftRowsTail | src/cluster/cluster.c:149-152 | samples of a row past the kernel's size are left alone |
| Ffts.FftRowsAbove | src/cluster/cluster.c:149-152 | rows from hi on still hold their input |
| Ffts.FftRowsAt | src/cluster/cluster.c:149-152 | each row of the range ends up as the transform of its own input: the FFT is applied to it exactly once |
| Ffts.FftRowsRow | src/cluster/cluster.c:149-152 | row r of the range is K of row r of the input |
| Ffts.FftRowsSplit | src/cluster/cluster.c:166-181 | the cores' consecutive chunks together transform the union of their rows |
| Ffts.KernelStep | src/cluster/cluster.c:151 | the kernel on the row at offset r * TILE_WIDTH is one Step of the row transform |
| Ffts.RowFft | src/cluster/cluster.c:151 | one kernel call extends the transformed rows by row r |
| Ffts.FftsChunk | src/cluster/cluster.c:143-156 | ffts_ transforms exactly its height rows from its start |
| Ffts.Ffts | src/cluster/cluster.c:162-186 | ffts with rows split over the cores transforms every row of the tile once, and nothing else |
| Transpose.At | src/cluster/cluster.c:123 | sample (r, c) of a TILE-wide matrix sits at r * TILE + c, row r and column c recoverable |
| Transpose.AtCover | src/cluster/cluster.c:123 | every flat index is the index of its own row and column |
| Transpose.ClusterLayout | include/common/config.h:33 | NB_CLUSTER bands of TILE_HEIGHT rows make up the TILE rows |
| Transpose.Blk | src/cluster/cluster.c:123 | row x of band t is global row TH * t + x, below TILE |
| Transpose.BlkCover | src/cluster/cluster.c:123 | every global row is in exactly one band, at one offset |
| Transpose.Transposed | src/cluster/cluster.c:89-133 | the transpose has B[r][c] = A[c][r] everywhere |
| Transpose.CellsEqual | src/cluster/cluster.c:89-133 | two matrices equal at every (row, column) are equal |
| Transpose.CellOf | src/cluster/cluster.c:107-108 | the flat index of row x of band p, column y of band q lies in the matrix |
| Transpose.CellIsAt | src/cluster/cluster.c:107-108 | that index is the index of global row TH·p + x, column TH·q + y |
| Transpose.CellOfInjective | src/cluster/cluster.c:107-108 | different band coordinates name different cells |
| Transpose.Put | src/cluster/cluster.c:107-109 | one spaced put keeps the matrix size; PutAt gives its effect |
| Transpose.PutAt | src/cluster/cluster.c:107-109 | the j-th put from cid fills row j of band t, columns of band cid, with column TH·t + j of cid's rows. Nothing else changes |
| Transpose.Send | src/cluster/cluster.c:104-114 | all puts to one peer keep the matrix size; SendAt gives their effect |
| Transpose.SendAt | src/cluster/cluster.c:104-114 | the TILE_HEIGHT puts to peer t fill band t's rows in column band cid with the transposed samples. Nothing else changes |
| Transpose.Column | src/cluster/cluster.c:121-124 | one column of the local block keeps the matrix size; ColumnAt gives its effect |
| Transpose.ColumnAt | src/cluster/cluster.c:121-124 | the x loop sets b[x][TH·cid + y] = a[y][TH·cid + x] for x below n, and nothing else |
| Transpose.Local | src/cluster/cluster.c:119-125 | the local block keeps the matrix size; LocalAt gives its effect |
| Transpose.LocalAt | src/cluster/cluster.c:119-125 | the local block sets b[x][TH·cid + y] = a[y][TH·cid + x] for all x, y < TH, and nothing else |
| Transpose.TargetOf | src/cluster/cluster.c:99-101 | i % NB_CLUSTER visits cid + 1 .. NB_CLUSTER − 1 and then 0 .. cid − 1 |
| Transpose.Sends | src/cluster/cluster.c:99-116 | the transfer loop keeps the matrix size; SendsAt gives its effect |
| Transpose.SendsAt | src/cluster/cluster.c:99-116 | the transfer loop fills column band cid of every peer's rows seen so far, and skips cid itself |
| Transpose.Node | src/cluster/cluster.c:89-133 | one cluster's call keeps the matrix size; NodeAt gives its effect |
| Transpose.NodeAt | src/cluster/cluster.c:89-133 | one cluster's call fills its column band of every row band with the transposed samples, and changes nothing else |
| Transpose.Exchange | src/cluster/cluster.c:89-133 | the calls of clusters 0 .. k − 1 keep the matrix size; ExchangeBefore and ExchangeAt give their effect |
| Transpose.Exchanged | src/cluster/cluster.c:89-133 | the calls up to cluster c keep the matrix size |
| Transpose.ExchangeBefore | src/cluster/cluster.c:89-133 | before cluster q's call, the cells of its column band hold what B held |
| Transpose.ExchangeAt | src/cluster/cluster.c:89-133 | after cluster q's call, the cells of its column band hold the transposed samples, and later calls keep them |
| Transpose.ExchangeCell | src/cluster/cluster.c:89-133 | node p ends with B[x][TH·q + y] = node q's A[y][TH·p + x] |
| Transpose.ExchangeTransposes | src/cluster/cluster.c:89-133 | all clusters' calls together make B the transpose of A, whatever B held |
| Transpose.SpacedPut | src/cluster/cluster.c:107-109 | the spaced put copies TILE_HEIGHT samples of stride TILE_WIDTH into one row of the peer |
| Transpose.SendTile | src/cluster/cluster.c:104-114 | the puts to one peer, with nb_job_dma raised by TILE_HEIGHT |
| Transpose.LocalBlock | src/cluster/cluster.c:117-125 | the nested loops of the local block leave b as Local |
| Transpose.NodeTranspose | src/cluster/cluster.c:89-133 | one flat_transpose call leaves b as Node and raises nb_job_dma by (NB_CLUSTER − 1) · TILE_HEIGHT |
| Transpose.Clusters | src/cluster/cluster.c:89-133 | every cluster's call in turn, each raising its own job counter by (NB_CLUSTER − 1) · TILE_HEIGHT |
| Transpose.FlatTranspose | src/cluster/cluster.c:89-133 | B becomes the global transpose of A. Every counter grows by (NB_CLUSTER − 1) · TILE_HEIGHT, and with one cluster no put is issued |
| Driver.KernelIsKernel | src/cluster/fft_kernels.c:123-160 | with acceptable tables, the kernel as a row map is fft_radix2_float with those tables |
| Driver.BenchTables | src/cluster/cluster.c:264-265 | the tables main builds for TILE_WIDTH are ones the kernel accepts |
| Driver.SwapBufferTables | src/cluster/fft_kernels.c:128 | only the first count entries of the swap buffer matter to the kernel's requirements |
| Driver.SwapBufferKernel | src/cluster/fft_kernels.c:128 | only the first count entries of the swap buffer matter to what the kernel computes |
| Driver.BenchKernelIs | src/cluster/cluster.c:264-265 | given the tables built in main, the benchmark's row transform is the kernel |
| Driver.BenchKernelNetwork | src/cluster/cluster.c:310 | the benchmark's row transform is the butterfly network with roots of 2πj/m over the 8-bit-reversed row |
| Driver.FftAll | src/cluster/cluster.c:310 | ffts on every cluster keeps the matrix size; FirstPassAt gives its effect after the transposes |
| Driver.GlobalTable | src/cluster/cluster.c:266 | one root per global row: 2 * TILE floats |
| Driver.GlobalRoot | src/cluster/fft_kernels.c:166-174 | the global table gives row R the root of R / (WIDTH * HEIGHT) turns |
| Driver.CorrectAll | src/cluster/cluster.c:322 | the correction on every cluster keeps the matrix size; CorrectedRow gives its effect |
| Driver.Pipeline | src/cluster/cluster.c:300-338 | one iteration's output keeps the matrix size; PipelineIsFourStep states what it computes |
| Driver.Column | src/cluster/cluster.c:304-310 | a column of the stacked matrix has TILE samples |
| Driver.Twisted | src/cluster/cluster.c:316-322 | a twisted row of the four-step form has TILE samples |
| Driver.FourStep | src/cluster/cluster.c:300-338 | the four-step form keeps the matrix size |
| Driver.TransposedRow | src/cluster/cluster.c:304-310 | row r of the transposed matrix is column r of the matrix |
| Driver.FirstPassAt | src/cluster/cluster.c:304-316 | after transpose, ffts, transpose, sample (R, c) is sample R of the transform of column c of the input |
| Driver.CorrectedRow | src/cluster/cluster.c:316-322 | after the correction, row R is the transformed columns' row R times the c-th power of R's root |
| Driver.PipelineIsFourStep | src/cluster/cluster.c:300-338 | one iteration computes the four-step form of its input |
| Driver.TileBaseProduct | src/cluster/cluster.c:300 | cluster q's tile starts at global row q · TILE_HEIGHT |
| Driver.TileRows | src/cluster/cluster.c:300-301 | the tiles follow one another from row 0, and the last ends at row TILE |
| Driver.ClusterRoot | src/cluster/fft_kernels.c:166-174 | cluster q's own table gives each of its rows the root the global table gives it |
| Driver.ClusterTable | src/cluster/cluster.c:322 | cluster q's table corrects its rows as the global table does |
| Driver.ClusterCorrected | src/cluster/cluster.c:322 | with the tiles above corrected, cluster q's call extends the corrected rows through its tile |
| Driver.Ingest | src/cluster/cluster.c:300-301 | get_spaced on every cluster leaves A holding the input matrix |
| Driver.Emit | src/cluster/cluster.c:337-338 | put_spaced on every cluster leaves the output holding B |
| Driver.ClusterFfts | src/cluster/cluster.c:310 | cluster q's ffts extends the transformed rows through its tile |
| Driver.AllFfts | src/cluster/cluster.c:310 | ffts on every cluster transforms every row of the stacked matrix |
| Driver.ClusterCorrection | src/cluster/cluster.c:322 | cluster q's twiddle_correction, with its own table, extends the corrected rows through its tile |
| Driver.AllCorrections | src/cluster/cluster.c:322 | the correction on every cluster twists every global row by its own root |
| Driver.CorrectionTables | src/cluster/cluster.c:266 | each cluster builds the correction table of its own rows for WIDTH × HEIGHT |
| Driver.Iteration | src/cluster/cluster.c:297-344 | runs the stages in the source's order, and the output is one iteration's pipeline. Each transpose raises every job counter by (NB_CLUSTER − 1) · TILE_HEIGHT |
| Driver.Iterations | src/cluster/cluster.c:297-344 | after NB_FFT_ITER iterations the output is the pipeline of the input, and each counter is NB_FFT_ITER · 3 · (NB_CLUSTER − 1) · TILE_HEIGHT |
| Driver.Run | src/cluster/cluster.c:256-344 | main builds the three tables and runs the loop. The output is the pipeline with the benchmark's kernel, and the counters are as above |

## Left out

- Floating point: samples, twiddles and the phasor are exact reals. Rounding, `float`/`double` casts and the numerical quality of the result are not modelled.
- The values of `cos` and `sin`: they are the fields of `Trig`, two functions of the angle in turns, with no properties assumed. `Cplx.Exact` names the identities that `Correction.CorrectionIsRoot` needs.
- Numerical equality with a true 2-D DFT is not proved. The model proves the structure: the butterfly network over the bit-reversed row with the right roots, and the four-step composition.
- Allocation failures of `posix_memalign` and the `assert` in `fft_get_correction_twiddle`: Dafny allocation cannot fail, so these exits are left out.
- BitReverse.GetBitReverse: the `count >= size` exit is proved unreachable (`BitReverse.LutBound`), so it has no error result.
- Concurrency: pthread create/join becomes a sequential loop over the cores. The clusters' calls of one stage become a sequential loop over the clusters on one array holding all tiles. This ordering is harmless because the cores' rows are disjoint and the clusters write disjoint column bands. The disjointness is proved.
- Synchronisation runtime: the `go` rendezvous counter, `mppa_async_postadd`/`evalcond`, `afdau`, events, fences, the barriers and the cache builtins (`dinval`, `wpurge`, `fence`) only order the stages, and they are not modelled.
- The asynchronous-transfer runtime: `mppa_async_sput_spaced`, `get_spaced` and `put_spaced` become plain copies. Every transfer is assumed to succeed. On a failed put the source prints a message, still counts the job in `nb_job_dma` and leaves the peer's slice stale; that path is not modelled, and `Transpose.ExchangeTransposes` and `Transpose.FlatTranspose` rely on every put succeeding. The input segment is a value `inp` that nothing writes.
- Timing, `printf`, `dump_submatrix`, the bandwidth and average reports, and the `com_average` exchange in `main`.
- The static globals (`fft_radix_count_bit_reverse`, `nb_job_dma`, the table pointers, the `fft[]`/`twid[]` descriptors) become parameters and results. There is one job counter per cluster.
- The double-buffer index `buffer` with `N = 1`: it is always 0, so one A and one B buffer are modelled.
- Ffts.Ffts: the row transform is a ghost parameter `K`, tied to `fft_radix2_float` by `Ffts.IsKernel`. Only `Ffts.RowFft` runs the kernel itself.
- Driver.Kernel maps rows of any other length to themselves. The source never calls the kernel on them.
- Correction.GetCorrectionTwiddle requires `w > 0` and `h > 0`; the source is only called with `WIDTH` and `HEIGHT`, both 256.
- Config.TileHeight is written out for the five cluster counts the guard admits, not as a division; `Config.TileHeightFacts` proves it equals `TILE / NB_CLUSTER`.
- `src/io/io_main.c` (cluster spawning, reference FFT and result checker) and `src/host/host_main.c` are not part of this model.
