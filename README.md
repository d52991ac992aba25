# dada2 `Rmain.cpp`: pair sampling, input gate and round loop

This project models three parts of the R entry points of the DADA denoiser.

- **`calibrate_kmers` pair sampling** (`calibrate.dfy`, module `Calibrate`). This entry point compares pairs of input sequences by two measures: the aligner's substitution rate and the k-mer distance. The model covers the following.
  - The schedule: either every pair in row-major order, or a strided sample cut at `max_aligns`.
  - The loop nest itself. It writes the two distances of each compared pair into two zero-filled result buffers at slot `npairs`, and both loops stop once the cap is reached.
  - The under-sampling warning.
  - The distances are opaque function parameters of the pair `(i, j)`.
- **The `dada_uniques` input gate** (`dada_uniques.dfy`, module `DadaUniques`). This covers the nine argument checks, made in a fixed order with an early nil return, and the entry-wise copy of the 4x4 score and error matrices into C arrays. A successful gate yields the argument record `run_dada` is called with.
- **The `run_dada` round loop** (`run_dada.dfy`, module `RunDada`). This covers the order of the calls into the clustering state: create, update families, update p-values, bud; then repeated rounds while the last bud returned a non-zero index. The clustering operations are uninterpreted. The values that successive `b_bud` calls return are a parameter.

The loops are modelled as methods over arrays. Each method is proved against a specification function:
- `Compared`/`RowCompared` mirror the source's loop nest, with its tests on the cap after each store.
- `Grid`/`Row` form the uncapped strided grid, and `Take` cuts it at the cap.
- `Validate` with `Fails`/`Rank` is the gate.
- `Trace` is the sequence of calls.

Behaviour of the code worth noting:
- **The warning is reachable only through the overrun.** For every max_aligns >= 1 the loops produce exactly max_aligns pairs: the strided grid always holds more pairs than the cap (`Calibrate.SampleReachesCap`), so the under-sampling warning is never issued (`Calibrate.CalibrateKmers`). As written it fires only with max_aligns 0, after the out-of-range store described under Findings.
- **Order of the input checks.** `dada_uniques` builds the uniques table after the length check and before the matrix checks, so that state exists when a later check rejects the input.
- **Sample layout.** The strided sample is not necessarily spread evenly over the pair space. When `nseqs / n_iters` is 0, the same pair (0, 1) is compared `max_aligns` times (`Calibrate.ZeroStrideSample`, `Calibrate.ZeroStrideOccurs`).

## Model

| member | source | states |
|---|---|---|
| Calibrate.ISqrt | src/Rmain.cpp:219-220 | `(int)(2*sqrt(m))` is the s with s*s <= 4m < (s+1)*(s+1) |
| Calibrate.ISqrtUnique | src/Rmain.cpp:219-220 | that integer square root is unique, so concrete n_iters values can be fixed |
| Calibrate.Plan | src/Rmain.cpp:218-226 | the cap is min(max_aligns, nseqs(nseqs-1)/2); full enumeration has stride 1 and n_iters = nseqs; stride 0 only happens with at least two sequences and a cap below the pair count |
| Calibrate.NItersExceedsCap | src/Rmain.cpp:218-220 | in the capped branch n_iters >= 2 and n_iters*(n_iters-1)/2 > max_aligns, the comment's claim |
| Calibrate.Compared | src/Rmain.cpp:235-258 | the loop nest as written, from row i with `done` pairs already stored: each row's pairs, then the outer test on the cap; with stride 0 only the cap ends it |
| Calibrate.ComparedAsWritten | src/Rmain.cpp:215-258 | the pairs calibrate_kmers compares, in order, exactly as written, starting from row 0 with no pair stored |
| Calibrate.Capped | src/Rmain.cpp:235-258 | the loop nest with the cap also tested before the first comparison, so a cap of 0 compares nothing |
| Calibrate.Sampled | src/Rmain.cpp:215-258 | the pairs of the corrected calibrate_kmers: the schedule of Plan run through Capped |
| Calibrate.Row | src/Rmain.cpp:239 | reference definition: row i of the strided grid, columns j, j + s, ... below n, with no cap |
| Calibrate.Grid | src/Rmain.cpp:235-239 | reference definition: rows i, i + s, ... below n, each from the column after its row, with no cap |
| Calibrate.RowCompared | src/Rmain.cpp:239-254 | the inner loop as written stores at least one pair whenever it is entered (cap tested after the store) |
| Calibrate.RowMembers | src/Rmain.cpp:239 | a pair is in grid row i from column j exactly when it is (i, j') with j <= j' < n and j' - j a multiple of the stride |
| Calibrate.GridMembers | src/Rmain.cpp:235-239 | a pair is in the strided grid from row i exactly when i <= p.i < p.j < n, p.i - i and p.j - p.i - 1 are multiples of the stride |
| Calibrate.RowIncreasing | src/Rmain.cpp:239 | a grid row lists its pairs in strictly increasing row-major order |
| Calibrate.GridIncreasing | src/Rmain.cpp:235-239 | the grid lists its pairs in strictly increasing row-major order, so no pair repeats |
| Calibrate.RowLength | src/Rmain.cpp:239 | with stride 1 row i from column j has n - j pairs |
| Calibrate.GridLength | src/Rmain.cpp:235-239 | with stride 1 the grid from row i has (n-i)(n-i-1)/2 pairs |
| Calibrate.RowComparedIsTake | src/Rmain.cpp:239-254 | with stride >= 1 the inner loop as written stores the grid row cut at the remaining cap |
| Calibrate.ComparedIsTake | src/Rmain.cpp:235-258 | with stride >= 1 the loop nest as written stores the grid cut at the remaining cap |
| Calibrate.RowComparedZeroStride | src/Rmain.cpp:239-254 | with stride 0 the inner loop stores the same pair until the cap is reached |
| Calibrate.FullEnumeration | src/Rmain.cpp:222-262 | when max_aligns covers all pairs: cap clamped to the pair count, stride 1, every pair i < j < nseqs compared exactly once in row-major order, count equal to the cap (no warning) |
| Calibrate.RowAtLeast | src/Rmain.cpp:239 | a grid row whose first c columns are below n holds at least c pairs |
| Calibrate.GridAtLeast | src/Rmain.cpp:235-239 | when t rows of stride s fit below n, the grid from row k*s holds at least (t-k)(t-k-1)/2 pairs |
| Calibrate.GridCoversCap | src/Rmain.cpp:218-239 | with stride >= 1 the strided grid holds at least cap pairs: n_iters rows of the stride fit below nseqs and n_iters(n_iters-1)/2 > max_aligns |
| Calibrate.StridedSample | src/Rmain.cpp:221-258 | with stride >= 1: the sample is the strided grid cut at the cap, every pair has i < j < nseqs with i a multiple of the stride and j = i+1+k*stride, no repeats, and exactly cap pairs are produced |
| Calibrate.SampleReachesCap | src/Rmain.cpp:218-262 | for every nseqs and max_aligns the corrected loops produce exactly cap pairs, so the count always reaches the cap |
| Calibrate.ZeroStrideSample | src/Rmain.cpp:221-258 | with stride 0 the loops terminate only by the cap break, after comparing pair (0, 1) max_aligns times |
| Calibrate.ZeroStrideOccurs | src/Rmain.cpp:218-253 | 10 sequences with max_aligns 44 give stride 0 and 44 copies of pair (0, 1) |
| Calibrate.TenSequencesFivePairs | src/Rmain.cpp:218-262 | 10 sequences with max_aligns 5 give n_iters 6, stride 1 and exactly 5 pairs |
| Calibrate.SampledWithinCap | src/Rmain.cpp:228-257 | the number of pairs stored never exceeds the buffer length nor max_aligns, so every write index is in range |
| Calibrate.ZeroCapOverrun | src/Rmain.cpp:229-253 | as written, max_aligns 0 with nseqs >= 2 stores pair (0, 1) into buffers of length 0 |
| Calibrate.AsWrittenAgrees | src/Rmain.cpp:235-258 | testing the cap before the first store changes nothing unless the cap is 0 |
| Calibrate.RowComparedStep | src/Rmain.cpp:239-254 | one inner iteration: store (i, j), then stop at the cap or move to column j + stride |
| Calibrate.ComparedStep | src/Rmain.cpp:235-258 | one outer iteration: the row's pairs, then stop at the cap or move to row i + stride |
| Calibrate.OuterContinues | src/Rmain.cpp:257 | after a row below the cap, the pairs still to come are those from row i + stride |
| Calibrate.OuterCapped | src/Rmain.cpp:257 | a row that reaches the cap ends the sample |
| Calibrate.BufferExtend | src/Rmain.cpp:247-250 | storing the distances of one more pair at slot npairs extends the filled prefix by that pair |
| Calibrate.CalibrateKmers | src/Rmain.cpp:215-262 | both buffers have cap slots; slot k holds the two distances of the k-th sampled pair; slots from npairs on stay 0; npairs is the sample size; the warning is issued exactly when npairs differs from the cap, and it never is |
| Calibrate.CompareAll | src/Rmain.cpp:235-258 | the loop nest stores exactly the capped sample, in order, and leaves the other slots at 0 |
| Calibrate.CompareRow | src/Rmain.cpp:239-254 | the inner loop stores exactly the pairs of the row as written, from slot npairs on |
| DadaUniques.RejectsIffSomeCheckFails | src/Rmain.cpp:43-123 | the gate returns nil exactly when the lengths differ, a matrix is not 4x4, or a scalar argument does not have length 1 |
| DadaUniques.RejectsAtFirstFailure | src/Rmain.cpp:43-123 | a rejection names a failing check and every check made before it passed (source order) |
| DadaUniques.AcceptsWithCopies | src/Rmain.cpp:43-123 | on success both matrices are 4x4, c_score[i][j] = score(i,j) and c_err[i][j] = err(i,j), the sequences and abundances pass through, and each scalar is the vector's first element (use_kmers: non-zero) |
| DadaUniques.CopyMatrix | src/Rmain.cpp:59-64 | the nested copy loops fill the 4x4 array with c[i][j] = m(i,j) |
| DadaUniques.Gate | src/Rmain.cpp:43-123 | the early-return chain with its copies yields the gate's outcome: the first failing check or the arguments of run_dada |
| DadaUniques.Rank | src/Rmain.cpp:43-123 | the position of each check in the order dada_uniques makes them |
| DadaUniques.Fails | src/Rmain.cpp:43-123 | the condition under which each check returns nil: unequal lengths, a matrix not 4x4, a scalar argument not of length 1 |
| DadaUniques.Validate | src/Rmain.cpp:43-123 | the gate as a value: the first failing check in source order, or the arguments of run_dada |
| RunDada.Start | src/Rmain.cpp:164-167 | the calls before the loop: b_new, b_fam_update, b_p_update, b_bud |
| RunDada.Round | src/Rmain.cpp:170-176 | the seven calls of one round, in source order, ending with b_bud |
| RunDada.Trace | src/Rmain.cpp:160-179 | the whole call sequence of a run of n rounds: Start followed by n Rounds |
| RunDada.FirstZero | src/Rmain.cpp:165-177 | the loop stops at the first b_bud result that is 0; every earlier result was non-zero |
| RunDada.Run | src/Rmain.cpp:160-179 | run_dada makes the set-up calls and then one round for every non-zero bud result before the first 0 |
| RunDada.TraceLength | src/Rmain.cpp:160-179 | a run of n rounds makes 4 + 7n calls |
| RunDada.TraceStep | src/Rmain.cpp:168-177 | a further round appends consensus, lambda, shuffle, consensus, family, p-value and bud calls |
| RunDada.BudPositions | src/Rmain.cpp:160-179 | b_bud is called exactly at positions 3, 10, 17, ...: once before the loop and once at the end of each round |
| RunDada.RoundAt | src/Rmain.cpp:168-177 | round k occupies the seven calls from position 4 + 7k, in the source's order, with use_kmers and kdist_cutoff passed to the lambda update |
| RunDada.TraceEnds | src/Rmain.cpp:160-179 | every run starts with b_new and ends with the b_bud call that returned 0 |

## Left out

- Floating point: `sqrt` is replaced by the exact integer square root of 4·max_aligns. Where 4·max_aligns lies just below a perfect square, a double `2*sqrt` rounded up to that square's root would give an n_iters one larger; this is not modelled.
- The distance values: the substitution count over the shorter length (`nsubs/minlen`) and the k-mer distance are opaque functions of the pair `(i, j)`. `nwalign_endsfree`, `al2subs`, `intstr`, `get_kmer` and `kmer_dist` are not part of this model.
- Calibrate.Plan: the `int` overflow of `nseqs*(nseqs-1)` above 46341 sequences, and the conversion of that count to `size_t`, are not modelled. Counts are unbounded integers.
- Calibrate.CalibrateKmers: this method tests the cap before the first comparison. The source does not, and the difference matters only for max_aligns 0, where the source stores out of range and then warns; see Findings and `Calibrate.ZeroCapOverrun`.
- The c_score copy inside `calibrate_kmers` (lines 209-214) is the same loop as `DadaUniques.CopyMatrix`, and it is not repeated there. Neither `calibrate_kmers` nor this model checks that its score matrix is 4x4.
- Rcpp marshalling and the construction of R output objects are not modelled. Neither is the `Rcout`/`printf` logging, apart from the under-sampling warning, which is modelled as a flag. The logged lengths in the gate's messages are not modelled either.
- `uniques_from_vectors` is not modelled. Params carries the sequences and abundances in its place.
- The R `NA` values of logical and integer vectors are not modelled. A `NaN` use_kmers is not modelled either: reals have no NaN.
- The `TESTING` diversion (lines 126-129) is not modelled. Neither are the clustering run after the gate, the extraction of its results (lines 132-157), malloc/free, or the leak of `uniques` on the early returns after line 49.
- The `b_*` clustering operations are uninterpreted constructors of `Op`.
- RunDada.Run: termination of the round loop depends on the unseen `b_bud`. The model takes the sequence of bud results as given and requires that it contains a 0.

## Findings

| source | as written | input that shows it | evidently intended | confidence | as-written member | corrected member |
|---|---|---|---|---|---|---|
| src/Rmain.cpp:229-253 | the cap is tested only after a pair is stored, so with max_aligns 0 pair (0, 1) is stored at slot 0 of two zero-length buffers; the count 1 then differs from the cap 0, the only case in which the warning at line 261 fires | nseqs = 2, max_aligns = 0 | no comparison when the cap is 0, so every write index is below the buffer length | not executed | Calibrate.ZeroCapOverrun | Calibrate.SampledWithinCap |
