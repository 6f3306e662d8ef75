# phyloHiC core in Dafny

This project models the core of phyloHiC. phyloHiC builds phylogenies from Hi-C contact maps. It compares, species pair by species pair, the contact values of pairs of orthologous genes. The model covers seven source files.

- `src/hic.py`, class `HiC`: the in-memory store for one Hi-C experiment (module `HiCExperiment`, class `HiC`). Its metadata and the contents of its sparse map files are given as values. One dense "current" matrix (an `array2<real>`) is loaded on demand, either from `row|col` or from `col|row`. `get_contact` looks up the contact between two genes and returns NaN when a probe falls outside the matrix. The two Fisher-Yates scramblers change the matrix in place: the inter-chromosomal one for a rectangular matrix, and the intra-chromosomal one, which checks symmetry and swaps mirror cells. The specification functions of these in-place algorithms live in module `ContactGrid` (`contact_grid.dfy`). There the inter scrambler is proved to preserve the multiset of all cells. The intra scrambler is proved to preserve symmetry and the multiset of the upper triangle (diagonal included). It does not preserve the multiset of all cells: swapping a diagonal cell with an off-diagonal one changes how often each value occurs.
- `src/distlib.py` (module `DistLib`) and `src/dist_pairs.py` (module `DistPairs`): the scaled-L2 distance over a fixed list of species pairs, and the constraint filter on value records. The model also covers main's `intersection` selection, which feeds `distances_scaledl2` one complete record at a time.
- `src/distances.py` (module `Distances`): the two distance engines that discover their species pairs from the records, `scaled_ratio_l2` and `scaled_count_pairs`. `NaNinValuesError` is an `Err` that carries the offending record.
- `src/iolib.py` (module `IoLib`): reading the ortholog table and the value tables, and printing a PHYLIP matrix.
- `src/join_pairs.py` (module `JoinPairs`): selecting rows, the adjacency status, the threshold, and `get_records`. `get_records` works on the pending-records dict of the join loop, which is modelled as the class `Pending`.
- `src/genes.py` (module `Genes`): BED parsing with its two stable sorts, BED printing, and the left/right neighbours of every gene.

Shared vocabulary lives in `common.dfy` (module `Common`): a Python float as `Num(real) | NaN`, a dict as a key order plus a map, `itertools.combinations(_, 2)`, and the scaled-L2 term. String splitting, joining and decimal numbers live in `text.dfy` (module `Text`).

Conventions of the model:
- A square root is kept symbolic. A finished distance is `Root(sum, size)`, read as sqrt(sum)/sqrt(size), or `Sentinel`, the constant 1.0 given to a pair that was never observed. Because sqrt is monotone, "the distance lies in [0, 1]" is stated as `0 <= sum <= size`.
- `random.randrange(n)` is the k-th draw of a stream `rand: nat -> nat`, reduced modulo n (`ContactGrid.Randrange`). Every draw is counted, so the whole run of a scrambler is a function of the stream.
- Reading a file is replaced by its text or its parsed rows, given as a parameter. Python's `float`, `strtobool` and `str` on a float are parameters in the same way (`JoinPairs.Conversions`, and `parse` in `IoLib.ReadValues`).
- An exception becomes an `Err`/`Fail` value that names it. When the source changes state before it raises, the model states that changed state too.

Behaviours of the code that the model keeps as they are:
- `read_values` raises on a line without six fields; it does not skip the line.
- Within one value file, a later line silently replaces an earlier one with the same group key.
- `load_all_maps` is eager: it builds one flat array and leaves it as the current data.
- `read_orthos` gives a gene the number of the last row it appears in.
- `scaled_ratio_l2` and `scaled_count_pairs` choose the orientation of each observation by whether its first species already heads a row, so one pair can be filed both ways (see "## Findings").

## Model

| member | source | states |
|---|---|---|
| Common.PairsMembership | src/distlib.py:29 | `combinations(s, 2)` yields exactly the pairs (s[i], s[j]) with i < j |
| Common.PairsOriented | src/distlib.py:29-31 | over distinct species no pair is diagonal, and no pair appears in both orientations |
| Common.PairsCover | src/distances.py:51-58 | every two distinct keys of a record are visited in one orientation or the other |
| Common.CountPairs | src/distances.py:51 | for one record, each unordered pair of its keys is visited exactly once, and a pair with a missing key is never visited |
| Common.TermProperties | src/distlib.py:40-45 | the term (1 - mi/ma)^2 ignores the pair's orientation, is 0 on equal values, and lies in [0, 1] for non-negative values |
| Common.RatioInUnit | src/distances.py:116-122 | mi/ma of non-negative values lies in [0, 1] |
| Common.Finalise | src/distlib.py:48-52 | a pair gets the sentinel exactly when its size is 0; otherwise it keeps its sum and size, and lies in [0, 1] when 0 <= sum <= size |
| Text.SplitJoin | src/iolib.py:106-107 | splitting a tab- or newline-joined text on its separator gives back the parts, when no part holds the separator |
| Text.LinesOfJoin | src/iolib.py:36 | dropping the empty pieces of `text.split('\n')` gives back joined non-empty lines |
| Text.ParseNatToString | src/genes.py:50-51 | `int(str(n)) == n` for every natural n |
| ContactGrid.Filled | src/hic.py:116-120 | the dense matrix built from the triples has the declared dimensions |
| ContactGrid.LastWriteWins | src/hic.py:117-120 | a cell holds the value of the last triple that lands in its bin |
| ContactGrid.LastWriteUntouched | src/hic.py:116-120 | a cell that no triple lands in keeps the 0 of `np.zeros` |
| ContactGrid.Randrange | src/hic.py:193-194 | a draw of `randrange(n)` lies in [0, n) |
| ContactGrid.SwapKeepsMass | src/hic.py:199 | exchanging two cells keeps the multiset of all cells |
| ContactGrid.InterRowStep | src/hic.py:191-199 | one turn of the inter loop swaps cell (x, y) with the cell drawn by the next two draws, then continues at (x, y + 1) |
| ContactGrid.InterScrambled | src/hic.py:188-199 | the inter scramble keeps the shape and the multiset of cells |
| ContactGrid.MirrorSwap | src/hic.py:228-230 | the intra swap changes only the cells (x, y), (y, x), (i, j) and (j, i), and keeps the matrix square |
| ContactGrid.MirrorSwapAt | src/hic.py:228-230 | on a symmetric matrix, (x, y) and (y, x) receive the old (i, j), (i, j) and (j, i) receive the old (x, y), and every other cell is unchanged |
| ContactGrid.MirrorSwapSymmetric | src/hic.py:228-230 | a mirror swap keeps a symmetric matrix symmetric and keeps the multiset of its upper triangle |
| ContactGrid.IntraRowSymmetric | src/hic.py:214-230 | on a symmetric matrix the symmetry test of a row never fails, and the row's swaps keep symmetry and the upper-triangle multiset |
| ContactGrid.IntraFromSymmetric | src/hic.py:214-230 | the same for all rows from x onwards |
| ContactGrid.IntraScrambleKeepsSymmetry | src/hic.py:209-230 | the intra scramble of a symmetric matrix succeeds, its result is symmetric, and its upper triangle is a permutation of the original one |
| ContactGrid.IntraRejectsAsymmetric | src/hic.py:216-218 | on the asymmetric matrix [[0, 1], [0, 0]] the symmetry test raises |
| HiCExperiment.Resolve | src/hic.py:92-98 | the key (row, col) is used when it exists, else (col, row); there is no key exactly when neither exists |
| HiCExperiment.HiC.constructor | src/hic.py:57-80 | `inter` holds exactly when some map pairs two different chromosomes; `chromosomes` are exactly the names in the map keys; nothing is loaded, with dims (0, 0) and chroms ('', '') |
| HiCExperiment.HiC.SetCell | src/hic.py:120 | `m[ri, ci] = value` changes that one cell |
| HiCExperiment.HiC.FillMatrix | src/hic.py:116-120 | the fill succeeds exactly when every triple's bin lies in the declared dimensions, and then every cell holds the last write to it |
| HiCExperiment.HiC.LoadKey | src/hic.py:113-127 | dims are recorded first; an out-of-range bin fails with the old matrix kept; otherwise the new matrix is the filled one, scrambled as requested (a non-square intra matrix fails the assert; an asymmetric one fails the symmetry test) |
| HiCExperiment.HiC.LoadMap | src/hic.py:83-127 | resolves the key and records the chromosome pair even on failure; a missing map or missing dims fails with nothing else changed; otherwise behaves as LoadKey, with the intra scrambler chosen exactly when row == col |
| HiCExperiment.HiC.LoadFlattened | src/hic.py:140-142 | loading one map records its chromosome pair; it succeeds exactly when the map is loadable, and then installs the filled matrix and its dims and gives its row-major flattening; on failure the matrix is kept, and the dims are the map's metadata dims when it has some (an out-of-range bin) or are kept (missing dims) |
| HiCExperiment.HiC.LoadNext | src/hic.py:139-142 | one round of the loop either extends the loaded prefix and its gathered cells by one key, or stops at that key with the state `StoppedAt` describes |
| HiCExperiment.HiC.LoadEach | src/hic.py:139-142 | the loop succeeds exactly when every map is loadable, gathering all cells in key order; otherwise it stops at the first key that cannot be loaded, with that key's chroms, its dims as above, and the matrix of the previous key (or the one before the call) |
| HiCExperiment.HiC.FlattenArray | src/hic.py:142 | `flatten()` is the row-major sequence of the cells |
| HiCExperiment.HiC.LoadAllMaps | src/hic.py:130-145 | succeeds exactly when every map is loadable, and then holds the concatenated flattenings in key order, with a 1-tuple shape and chroms ('all', 'all'); when it raises, the state is the one the loop left at the first key that cannot be loaded |
| HiCExperiment.HiC.GetContact | src/hic.py:148-178 | fails when nothing is loaded and when the genes' chromosomes match the current pair in neither orientation; gives NaN exactly when a bin is out of bounds; otherwise gives the matrix cell of the two genes' bins, oriented like the current pair |
| HiCExperiment.HiC.GetContactSymmetric | src/hic.py:159-178 | for genes on different chromosomes, or on a symmetric intra matrix, the contact does not depend on the order of the two genes |
| HiCExperiment.HiC.GetContactOfLoadedMap | src/hic.py:161-178 | after a map is loaded without scrambling, a contact is the last value written to the genes' bins, or NaN outside the dimensions |
| HiCExperiment.HiC.SwapCells | src/hic.py:199 | the array after the swap is `Swap` of the old cells |
| HiCExperiment.HiC.ScrambleInterRow | src/hic.py:191-199 | the loop over one row equals the specification run of that row, draws included |
| HiCExperiment.HiC.ScrambleInterFY | src/hic.py:181-199 | the array after scrambling is `InterScrambled` of the old cells, so it keeps the multiset of cells |
| HiCExperiment.HiC.MirrorSwapCells | src/hic.py:228-230 | the array after the four writes is `MirrorSwap` of the old cells |
| HiCExperiment.HiC.ScrambleIntraRow | src/hic.py:214-230 | the loop over one row equals the specification run of that row, including a failing symmetry test |
| HiCExperiment.HiC.ScrambleIntraFY | src/hic.py:202-230 | a non-square matrix fails the assert unchanged; otherwise the array is the specification run, and the outcome reports whether a symmetry test raised |
| Distances.IncrementSymmetric | src/distances.py:66-72 | an observation's contribution does not depend on which species is filed first |
| Distances.AboveCountsEverything | src/distances.py:124-127 | as written, with `above` set, every observation adds 1 |
| Distances.BelowReadingsAgree | src/distances.py:124-127 | with `above` unset, the code as written counts exactly the ratios at or below the threshold |
| Distances.IntendedCountsSelectedSide | src/distances.py:88-90 | the documented comparison counts the ratios on the side of the threshold that `above` selects, and only those |
| Distances.RecordNaNMeans | src/distances.py:50-64 | a record raises exactly when it has two or more species and one of its values is NaN |
| Distances.FirstNaNRecordMeans | src/distances.py:50-64 | the error carries the first record that raises; no error means no record raises |
| Distances.RatioL2Unit | src/distances.py:66-72 | on non-negative values every ratio-L2 contribution lies in [0, 1] |
| Distances.AboveCountsRecord | src/distances.py:113-127 | as written, with `above` set, every pair a NaN-free record has gets 1 |
| Distances.AboveTotalIsCo | src/distances.py:104-129 | as written, with `above` set, a pair's sum equals its number of observations |
| Distances.AddAt | src/distances.py:59-61 | `g[p][q] += w` on a defaultdict creates the missing entry and changes only (p, q) |
| Distances.Observe | src/distances.py:59-73 | one observation adds 1 to the size and the contribution to the sum of (p, q) only, and keeps sums within their sizes |
| Distances.LayoutHeads | src/distances.py:52-61 | a species heads a row exactly when it starts some filed entry |
| Distances.LayoutEntries | src/distances.py:51-61 | every observation is filed in one of its two orientations, and every entry is an observation in one of them |
| Distances.ByEntryOneWay | src/distances.py:52-58 | with the corrected filing, no pair of two species is ever filed both ways |
| Distances.ByHeadSplitsPair | src/distances.py:52-58 | as written, the records {a, b}, {c, a}, {a, b} file the pair {a, b} both as (b, a) and as (a, b) |
| Distances.SplitExampleObservations | src/distances.py:50-51 | the observations of those three records, in loop order, are (a, b), (c, a), (a, b) |
| Distances.SplitExampleClean | src/distances.py:62-63 | none of those three records raises |
| Distances.OrientKeyed | src/distances.py:52-58 | the loop's orientation test, read on the dicts, picks the orientation the filing rule `Orient` gives |
| Distances.KeyedStep | src/distances.py:59-61 | creating the entry for the chosen orientation extends the dicts' entries and row heads exactly as the filing rule does |
| Distances.FilePair | src/distances.py:51-73 | one pair of the loop raises exactly when one of its values is NaN; otherwise it is filed under the orientation the filing rule gives, and the dicts' entries follow the rule |
| Distances.AddRecord | src/distances.py:51-73 | a record raises exactly when its pairs meet a NaN; otherwise each unordered pair of its keys gains one observation and its contribution, and the entries are those the filing rule gives for all observations so far |
| Distances.FinaliseAll | src/distances.py:75-80 | every filed pair gets sqrt(sum)/sqrt(size), or the sentinel when its size is 0 |
| Distances.TallyRecord | src/distances.py:50-73 | adding record n extends the tallies and the entries of the first n records by that record; a raising record is the stream's first |
| Distances.Accumulate | src/distances.py:47-73 | the loop raises with the first record that meets a NaN; otherwise the entries are those the filing rule gives, and every pair's size and sum, over both orientations, count its observations and contributions |
| Distances.ScaledPairs | src/distances.py:47-82 | the entries are exactly those the filing rule gives; a pair's sizes over both orientations add up to the number of records holding both species, and its sums to the total contribution; with the corrected filing, each entry holds them whole |
| Distances.ScaledRatioL2 | src/distances.py:33-82 | `scaled_ratio_l2` as written: the error cases; the entries are those of the as-written filing rule; a pair is present in some orientation exactly when some record has both species; sizes and sums over both orientations as above; every distance lies in [0, 1] on non-negative values |
| Distances.SplitPairShown | src/distances.py:50-82 | `scaled_ratio_l2` on the records {a, b}, {c, a}, {a, b} succeeds with entries for both (a, b) and (b, a) |
| Distances.ScaledRatioL2Intended | src/distances.py:33-82 | `scaled_ratio_l2` with a pair kept in the orientation it was first filed under: each pair has at most one entry, present exactly when some record has both species, and it is sqrt(total term)/sqrt(co-occurrences) |
| Distances.ScaledCountPairs | src/distances.py:85-138 | `scaled_count_pairs` as written: the error cases, the as-written entries, sizes and sums over both orientations as above, every distance in [0, 1], and every distance exactly 1 when `above` is set |
| Distances.ScaledCountPairsIntended | src/distances.py:85-138 | the documented `scaled_count_pairs` with the corrected filing: each pair has at most one entry, and it is sqrt(count of ratios on the selected side)/sqrt(co-occurrences) |
| DistLib.RecordErrorMeans | src/distlib.py:35-39 | a record raises exactly when some pair of species it both has holds a NaN, and the error names that pair |
| DistLib.FirstErrorMeans | src/distlib.py:34-39 | the loop raises exactly when some record has such a pair |
| DistLib.ZeroSums | src/distlib.py:30-32 | every species pair starts with sum 0 and size 0 |
| DistLib.AddRecord | src/distlib.py:35-46 | one record raises with its first NaN pair, or adds to each pair it has both species of its term and 1 |
| DistLib.FinaliseAll | src/distlib.py:48-52 | the result is keyed on exactly the species pairs, each finished from its sum and size |
| DistLib.ScaledL2Norm | src/distlib.py:22-53 | `scaled_L2norm`: raises exactly on the first NaN pair; otherwise keys are exactly `combinations(species, 2)` and each pair's distance is built from the sum of its terms and its observation count |
| DistLib.PairsDistinct | src/distlib.py:29 | over distinct species, `combinations` yields no pair twice |
| DistLib.SumBounded | src/distlib.py:40-46 | on non-negative values, a pair's sum lies between 0 and its count |
| DistLib.DistanceInUnit | src/distlib.py:48-52 | on non-negative values every distance lies in [0, 1] |
| DistLib.SentinelIffUnobserved | src/distlib.py:34-50 | a pair gets the sentinel 1.0 exactly when no record has both of its species |
| DistLib.EqualValuesZero | src/distlib.py:40-45 | when both species always have equal values, the distance is 0 |
| DistLib.SingleRecordExample | src/distlib.py:40-52 | the values A = 2, B = 1 give the distance sqrt(0.25)/sqrt(1) |
| DistLib.FilterValues | src/distlib.py:56-72 | an unknown constraint is an error, and only an unknown one |
| DistLib.FilterMembers | src/distlib.py:74-82 | a record is kept exactly when the constraint accepts it: length = number of species, length != 1, or always |
| DistLib.FilterAppend | src/distlib.py:74-82 | the filter works record by record and keeps the input order |
| DistLib.UnionKeepsAll | src/distlib.py:81-82 | `union` keeps every record |
| DistPairs.FailingRecordAgrees | src/dist_pairs.py:53-55 | the record printed before `exit(7)` is the first record with a NaN pair, and exits happen exactly when scaled_L2norm would raise |
| DistPairs.DistancesScaledL2 | src/dist_pairs.py:37-69 | `distances_scaledl2` exits with status 7 exactly when a NaN pair is met, printing that record; otherwise it gives the table of `scaled_L2norm` |
| DistPairs.CompleteIsIntersection | src/dist_pairs.py:137 | main's selection of complete records is filter_values with `intersection` |
| DistPairs.CompleteMembers | src/dist_pairs.py:137 | the kept records are exactly those with one value per species |
| DistPairs.CompleteHasAll | src/dist_pairs.py:137 | a kept record has a value for every species |
| DistPairs.SingleRecord | src/dist_pairs.py:149-150 | on one record a pair is the sentinel when a species is missing, else sqrt(term)/sqrt(1) |
| DistPairs.CompleteRecordMatrix | src/dist_pairs.py:137-151 | every matrix main writes has no sentinel: each pair is sqrt(term)/sqrt(1) |
| IoLib.LastRowMeans | src/iolib.py:39-43 | a gene's group is the last data row that lists it, and a gene listed in no row has none |
| IoLib.FileRow | src/iolib.py:40-43 | one row adds its genes to `orthos` and maps them to the row's number, leaving other genes alone |
| IoLib.LastRowStep | src/iolib.py:39-43 | adding a row makes it the last row of its genes |
| IoLib.ReadOrthos | src/iolib.py:26-44 | `orthos` are exactly the genes of the data rows, and each gene's group is the last row listing it |
| IoLib.ValuesOfStep | src/iolib.py:62-82 | one line is skipped, stored under its key, or raises |
| IoLib.ReadValues | src/iolib.py:47-84 | the loop builds the dict of the data lines, or stops at the first line that raises |
| IoLib.ValuesOkMeans | src/iolib.py:62-77 | reading succeeds exactly when no line raises |
| IoLib.ValuesKeys | src/iolib.py:62-82 | the keys are exactly the keys of the kept lines |
| IoLib.ValuesLastWins | src/iolib.py:81-82 | each key holds the record of the last kept line with that key |
| IoLib.KeptLine | src/iolib.py:63-82 | a kept line has six fields, four orthologs, matching group pairs on both sides and two non-NaN floats, and is stored under the sorted group key as {left: f1, right: f2} |
| IoLib.PairRecordFacts | src/iolib.py:82 | the stored dict has the two species as keys, and the right value wins when they are equal |
| IoLib.GroupKeySymmetric | src/iolib.py:81-82 | the group key does not depend on the order of the two groups |
| IoLib.GroupKeySplits | src/iolib.py:81-82 | the group key is the two sorted group numbers joined by '_' |
| IoLib.GroupKeyInjective | src/iolib.py:81-82 | two group keys are equal exactly when their unordered group pairs are equal |
| IoLib.FormatRow | src/iolib.py:98-105 | one PHYLIP row holds '0' on the diagonal and otherwise d[sp1][sp2], or d[sp2][sp1] when that is missing; a pair missing in both raises |
| IoLib.RowCellsMeans | src/iolib.py:98-105 | a row succeeds exactly when every cell exists, cell j being the one for species j; otherwise the first missing cell is reported |
| IoLib.RowsBuiltStep | src/iolib.py:97-106 | each row is the species name followed by its cells, tab-joined, and the first failing row raises |
| IoLib.Phylip | src/iolib.py:87-107 | `phylip` returns the PHYLIP text, or the first species pair missing in both orientations |
| IoLib.RowsMeans | src/iolib.py:96-106 | the rows succeed exactly when every cell exists, and one row is made per species |
| IoLib.CellSymmetric | src/iolib.py:100-105 | when a pair is stored in one orientation only, both cells of the matrix show it |
| IoLib.PhylipLayout | src/iolib.py:96-107 | the text is a count line followed by one line per species: its name, then one cell per species, '0' on the diagonal |
| JoinPairs.SelectLinesMeans | src/join_pairs.py:43-57 | the generator yields exactly the rows whose first two genes are orthologs, in file order, and raises exactly on a row it cannot index |
| JoinPairs.SelectLinesAppend | src/join_pairs.py:52-57 | selection works row by row |
| JoinPairs.AdjacencyStatusInjective | src/join_pairs.py:60-73 | the four statuses are distinct: a status determines both flags |
| JoinPairs.AdjacencyFilter | src/join_pairs.py:113-126 | all keeps every record; none, and, or and xor keep exactly the flag combinations their names say; an unknown mode keeps every record |
| JoinPairs.ThresholdMeans | src/join_pairs.py:75-82 | the threshold is NaN exactly on a NaN value, is at least both the limit and the value, is one of them, and applying it twice changes nothing |
| JoinPairs.Flag | src/join_pairs.py:111 | reading the adjacency flag needs a fourth field |
| JoinPairs.JoinStepMeans | src/join_pairs.py:107-141 | an emitted row passed the adjacency filter, has six fields with the four gene names first, and carries the raw values or the two non-NaN thresholded values |
| JoinPairs.ThresholdDropsNaN | src/join_pairs.py:130-134 | with a threshold, a record whose left value is NaN is never emitted |
| JoinPairs.JoinedMeans | src/join_pairs.py:107-143 | the joined list is complete exactly when no pair raises, and each of its rows was emitted by one of the complete pairs |
| JoinPairs.Completed | src/join_pairs.py:102-105 | `done` holds only keys whose entry has both sides |
| JoinPairs.CompletedHas | src/join_pairs.py:102-105 | every complete entry is in `done` |
| JoinPairs.CompletedDistinct | src/join_pairs.py:100-105 | `done` lists no key twice |
| JoinPairs.Pending.constructor | src/join_pairs.py:199 | `records` starts empty |
| JoinPairs.Pending.Put | src/join_pairs.py:204-213 | storing one side of a key keeps the other side, and adds the key at the end of the order when it is new |
| JoinPairs.Pending.Delete | src/join_pairs.py:110 | `del records[k]` removes the key from the entries and from the order |
| JoinPairs.Pending.CompleteKeys | src/join_pairs.py:100-105 | the complete keys, in dict order |
| JoinPairs.DrainedEnd | src/join_pairs.py:107-110 | once `done` is drained, no complete entry is left |
| JoinPairs.Pending.GetRecords | src/join_pairs.py:84-143 | the rows are the join of the complete entries in dict order; only complete entries are removed; on success none is left; the key order stays that of the surviving keys |
| Genes.LeFacts | src/genes.py:55-56 | each sort key is a total preorder |
| Genes.Insert | src/genes.py:55 | inserting a gene adds exactly that gene to the multiset |
| Genes.SortBy | src/genes.py:55-56 | `sort` permutes the genes |
| Genes.SortBySorted | src/genes.py:55-56 | `sort` orders the genes by its key |
| Genes.SortByStable | src/genes.py:55-56 | `sort` is stable: genes with equal keys keep their relative order |
| Genes.SortedUnique | src/genes.py:55-56 | a sorted, stable result is unique: two sorted sequences with the same genes per key, in the same order, are equal |
| Genes.SortGenesOrders | src/genes.py:55-56 | the two sorts order the genes by chromosome and then start, permute them, and keep ties in input order |
| Genes.SortGenesKeepsOrdered | src/genes.py:55-56 | genes already in (chromosome, start) order are left as they are |
| Genes.ParseLine | src/genes.py:43-53 | a line is skipped exactly when it does not have six tab-separated fields; a parsed gene takes chrom, name and strand from fields 0, 3 and 5 |
| Genes.ReadBed | src/genes.py:31-57 | `read_bed` parses every non-empty line and returns the genes ordered by (chromosome, start), or the first text that `int` rejects |
| Genes.ParseLinesError | src/genes.py:42-53 | the first bad integer stops the reading |
| Genes.BedLineOneLine | src/genes.py:65 | a printed gene is one non-empty line |
| Genes.ParseBedLine | src/genes.py:65 | a printed gene line parses back to the gene |
| Genes.ParsePrinted | src/genes.py:42-53 | the printed lines of a gene list parse back to the list |
| Genes.ReadMakeBed | src/genes.py:60-67 | reading back `make_bed` of genes already in (chromosome, start) order gives the same genes |
| Genes.AdjacencyKeys | src/genes.py:87-105 | the result's keys are exactly the gene names |
| Genes.AdjacencyLookup | src/genes.py:87-105 | each name maps to the entry of the last gene with that name |
| Genes.ComputeAdjacent | src/genes.py:79-107 | fewer than two genes raise; otherwise the result is the entry of every gene, stored in order |
| Genes.IntendedNeighboursAgree | src/genes.py:93-98 | with the intended test, gene k names gene k + 1 as its right neighbour exactly when gene k + 1 names gene k as its left one, which happens exactly when they share a chromosome |
| Genes.AsWrittenCrossesChromosomes | src/genes.py:97-98 | as written, the middle gene b on chr1 gets the chr2 gene c as its right neighbour, while c has no left neighbour |

## Left out

- File and gzip reading, JSON metadata, csv reading and writing, argument parsing, logging, progress bars and the `main` drivers: file contents come in as values, and only the steps of the mains named above are modelled.
- Floating-point rounding, infinities and the `:.8f` formatting: reals stand for floats, NaN is a separate value, and the formatting of a distance is a parameter `fmt` of `IoLib.Phylip`.
- sqrt: kept symbolic as `Root(sum, size)`. The distance bounds are stated on sum and size, which sqrt preserves.
- The `is None` tests and the redraw loops of both scramblers: cells of a float numpy matrix are never None, so those tests always pass and the loops never run.
- `int()` accepts signs, surrounding blanks and underscores. The model parses plain digit strings, so genomic positions are natural numbers; a negative bin index, which numpy would wrap, is not modelled.
- Map keys `row|col` are pairs of chromosome names, assumed free of '|'. `HiC.chromosomes` is a set, because the order of the Python list comes from a set.
- `_scrambleIntraFY` raises `intraSymmetry`, which is not defined, so Python raises a NameError. The model reports `SymmetryCheckFailed` and keeps the partly scrambled matrix, as the source does.
- Distances.ScaledRatioL2: the as-written filing can split a pair over (a, b) and (b, a). The contract states which entries exist and the size and sum added over both orientations, not how the observations are shared between the two entries.
- Distances.ScaledCountPairs: the same as for `ScaledRatioL2`: for a split pair only the size and sum over both orientations are stated.
- Distances.ScaledPairs: with the as-written filing, sizes and sums are stated over both orientations of a pair, not entry by entry.
- HiCExperiment.HiC.GetContact: map cells are reals, so a `nan` value in a map file cannot be represented. A NaN returned by the model therefore always means an out-of-bounds bin, while the source can also return a stored NaN. The scramblers' symmetry test is modelled on reals too: a NaN cell would pass it in the source, since `abs(nan - nan) > .001` is false.
- Distances.FilePair: the source creates a pair's zero entry before its NaN test. When the test raises, the dicts are dropped, so the model tests first.
- JoinPairs.Pending.GetRecords: on the error path only the surviving entries are stated, not exactly which complete entries were already deleted.
- `filter_values` is a generator: an unknown constraint raises only when the first value is requested. `DistLib.FilterValues` reports it eagerly.
- `select_lines` and `get_records` only get their join loop's records through `Pending.Put`. The interleaving of the two files' reads in `join_pairs.main` is not modelled.
- `write_bed`, the normalisation and statistics scripts, the Go pair statistics, bootstrap, `dist_all_pairs`, `dist_pairs_indep`, `informative_traits` and `make_pairs` are not part of this model.
- `read_values`'s message on a group mismatch is not modelled: the line is skipped.
- `strtobool`, `float` and `str` on a float are parameters (`JoinPairs.Conversions`, and `parse` in `IoLib.ReadValues`), not definitions.

## Findings

| source | as written | input that shows it | evidently intended | confidence | as-written member | corrected member |
|---|---|---|---|---|---|---|
| src/genes.py:97 | a middle gene's right-hand test compares `genes[i+1]` (the gene itself) with the gene, so it always holds | genes a, b on chr1 and c on chr2: b's right neighbour is c, while c's left neighbour is absent | compare `genes[i+2]` with the gene, so that a gene on another chromosome is not a neighbour | not executed | Genes.AsWrittenCrossesChromosomes | Genes.IntendedNeighboursAgree |
| src/distances.py:52-58 (and 106-108) | the orientation of an observation is chosen by whether its first species heads a row, not by whether the pair was filed before; the comment there assumes the two agree | records {a: 1, b: 2}, {c: 1, a: 1}, {a: 1, b: 2}: the first observation is filed as (b, a), the second makes `a` head a row, the third is filed as (a, b), so one pair gets two entries and two distances | a pair filed before keeps its orientation, so each pair gets one entry holding all its observations | not executed | Distances.SplitPairShown | Distances.ScaledRatioL2Intended |
| src/distances.py:124-127 | with `above` set, a ratio below the threshold fails the first test and then passes the `elif ratio <= threshold` branch, so every observation is counted | threshold 0.5, values 1 and 4 (ratio 0.25), `above=True`: the pair is counted | with `above` set, count only ratios at or above the threshold, as the docstring says | not executed | Distances.ScaledCountPairs | Distances.ScaledCountPairsIntended |
