# UniqueKmerComputer, modelled in Dafny

This project models the unique-k-mer computer of pangenie, `src/uniquekmercomputer.cpp`.
For every variant site of one chromosome, the computer builds a record (`UniqueKmers`). Each record holds:

- the site's path-to-allele skeleton;
- a local coverage estimate taken from the k-mers of the site's flanks;
- the informative k-mers of the site's alleles, each with its copy-number probabilities.

The files:

- `kmers.dfy` (module `Kmers`): `unique_kmers`.
  - The rolling-window scan with its `extra_shifts` debt counter (`CountWindows`).
  - The append of a tag to every k-mer counted once (`AppendUniques`).
  - The caller-owned table of k-mer owner tags, a class with a map field (`OccurrenceTable`).
  - The specification functions `LoopWindows`, `CountedWindows`, `Tally` and `AddUniques`.
- `coverage.dfy` (module `Coverage`): the estimate of `compute_local_coverage`.
  - The kept k-mers (`Kept`), their read-count sum (`SumOf`) and the mean or fallback (`Estimate`).
  - The lemmas that bound the estimate.
- `selection.dfy` (module `Selection`): the candidate loop of `compute_unique_kmers`.
  - The tests a k-mer must pass (`Informative`).
  - The collected paths (`PathsOf`) and the 300-k-mer break (`Capped`).
  - The loop itself (`SelectKmers`).
- `collaborators.dfy` (module `Collaborators`): the classes the computer calls, kept abstract.
  - The variant reader, a variant, the probability computer, the per-site record and its copy-number entries.
- `computer.dfy` (module `KmerComputer`):
  - `get_error_parameter`;
  - the skeleton loop;
  - class `UniqueKmerComputer` with `compute_local_coverage`, `compute_empty` and `compute_unique_kmers`.

Choices in the model:

- **K-mers.** A k-mer is the sequence of its k symbols. A shift drops the first symbol and appends the new one.
  - The window built from the empty string is an opaque `padding` of length k.
  - The k-mer library's packing of symbols into bits and its global k are not modelled.
- **Counters.** The genomic and read k-mer counters are functions from k-mer to `nat`.
- **Variant reader.** The reader is a value holding the k, the variants of each chromosome and the two overhang functions.
- **Probability computer.** It is a class with a mutable `parameters` field. Its density stays abstract.
- **Records.** A record is a value. The result vector is a sequence of records.
- **Local coverage.** The computer carries a ghost list `siteCoverages`. `Valid()` ties its entry v to the estimate over variant v's flanks of length 2k (`SiteCoverage(v)`).
- **Allele index.** The allele loop counts with an `unsigned char` (cpp:84). It ends only if the variant has at most 255 alleles, or if one of alleles 0..255 holds an undefined symbol and takes the `break` (cpp:87-89). The model requires one of the two (`AlleleLoopEnds`).

Behaviour of the code worth pointing out:

- **Short sequences.** The final count after the scan loop (cpp:25) is unconditional. So a sequence shorter than k still contributes one window: the tail of the padding followed by the sequence (`ShortSequenceWindows`). A sequence ending within k symbols of a non-A/C/G/T symbol also contributes its final window.
- **The candidate table is always empty.** The table is cleared at cpp:95 whether or not an allele held an undefined symbol, so the candidate loop at cpp:99-150 always runs over an empty table.
  - The model keeps the allele extraction (`ExtractAlleles`), the clearing (`OccurrenceTable.Clear`), and the full candidate loop over whatever table it is given (`SelectKmers`, with its own lemmas).
  - As a consequence, `ComputeUniqueKmers` proves that every record it emits has no k-mer.
- **Integer widths.**
  - In the candidate loop, `genomic_count - local_count` is unsigned: `SizeSub` wraps at 2^64, and `SizeSubZero` shows the test means equality.
  - `kmer_coverage` is a `size_t`, so `kmer_coverage/4` is integer division.

## Model

| member | source | states |
|---|---|---|
| Kmers.Debt | src/uniquekmercomputer.cpp:11-23 | the debt stays within 0..k, and it is 0 exactly when the last k symbols read were A/C/G/T |
| Kmers.CountWindows | src/uniquekmercomputer.cpp:10-25 | the counts map is the multiplicity table of the windows counted inside the loop plus the final window. An invariant ties `extra_shifts` to the debt and `current_kmer` to the last k symbols shifted into the padding |
| Kmers.ScanStep | src/uniquekmercomputer.cpp:15-23 | one scan step: the window is counted exactly when the debt is 0; a non-A/C/G/T symbol resets the debt to k after the decrement, otherwise the debt drops by one down to 0; the window shifts by the symbol |
| Kmers.UniqueKmers | src/uniquekmercomputer.cpp:8-31 | the table after the call is the old table with the tag appended to every k-mer counted exactly once in the sequence |
| Kmers.AppendUniques | src/uniquekmercomputer.cpp:28-30 | the append loop adds the tag to exactly the k-mers of multiplicity 1 and leaves every other entry as it was |
| Kmers.OccurrenceTable.Append | src/uniquekmercomputer.cpp:29 | `occurences[w].push_back(tag)`: an absent key starts from an empty list, and no other entry changes |
| Kmers.OccurrenceTable.Clear | src/uniquekmercomputer.cpp:95 | `occurences.clear()`: the table is empty afterwards, whatever it held |
| Kmers.OccurrenceTable.Items | src/uniquekmercomputer.cpp:99 | iterating the table yields every key exactly once, each with its tag list |
| Kmers.TallyMultiplicity | src/uniquekmercomputer.cpp:16-25 | the counts map holds exactly the counted windows, each mapped to its number of occurrences |
| Kmers.ExtractionEffect | src/uniquekmercomputer.cpp:28-30 | an entry gets the tag once exactly when its k-mer occurs once in the counted windows. Other entries are kept unchanged, an existing entry is only extended, and no other key is added |
| Kmers.LoopWindowsAreBases | src/uniquekmercomputer.cpp:14-24 | every window counted inside the loop is k consecutive symbols of the sequence and all of them are A/C/G/T |
| Kmers.AllBasesWindows | src/uniquekmercomputer.cpp:14-25 | for an A/C/G/T-only sequence of length n >= k, the counted windows are exactly the n-k+1 windows s[st..st+k], in order, the last one from the final count |
| Kmers.ShortSequenceWindows | src/uniquekmercomputer.cpp:13-25 | a sequence shorter than k contributes exactly one window (the padding's tail followed by the sequence), and that window is unique |
| Coverage.KeptAdd | src/uniquekmercomputer.cpp:186-194 | scanning one more k-mer adds it to the kept set, with its read count added to the sum, exactly when its genomic count is 1 and its read count lies in [coverage/4, coverage*4] |
| Coverage.EstimateBounds | src/uniquekmercomputer.cpp:186-201 | the local coverage always lies within [coverage/4, coverage*4], on the integer-divided bounds |
| Coverage.EstimateWithoutUniqueKmers | src/uniquekmercomputer.cpp:196-200 | with no k-mer of genomic count 1 in the table, the run's k-mer coverage is returned |
| Coverage.EstimateOfConstantReads | src/uniquekmercomputer.cpp:186-198 | when every genomically unique k-mer has the same admissible positive read count c, the estimate is c |
| Selection.SizeSubZero | src/uniquekmercomputer.cpp:105 | for two size_t values, the wrapped difference is 0 exactly when they are equal |
| Selection.PathsOf | src/uniquekmercomputer.cpp:111-114 | a path is collected exactly when its allele is one of the k-mer's tags |
| Selection.CollectPaths | src/uniquekmercomputer.cpp:111-114 | the loop appending get_paths_of_allele for each tag computes the collected path list |
| Selection.ExamineCandidate | src/uniquekmercomputer.cpp:102-148 | one candidate yields its copy-number entry (regularized exactly when the constant is positive) when it passes all tests, and nothing otherwise |
| Selection.SelectKmers | src/uniquekmercomputer.cpp:98-150 | the candidate loop appends the entries of the informative candidates, in iteration order, stopping once more than 300 were accepted. `used` is the number attached |
| Selection.Capped | src/uniquekmercomputer.cpp:100 | the break keeps a prefix of at most 301 accepted entries, and all of them when there are at most 301 |
| Selection.SelectedSource | src/uniquekmercomputer.cpp:138-148 | every selected entry is the entry of some informative candidate of the table |
| Selection.SelectedComplete | src/uniquekmercomputer.cpp:99-148 | the entry of every informative candidate is selected |
| Selection.PathsCoverAll | src/uniquekmercomputer.cpp:111-124 | with distinct tags, the path list has nr_of_paths() elements exactly when every path carries one of the tagged alleles |
| Selection.PathsNone | src/uniquekmercomputer.cpp:116-119 | the path list is empty exactly when no path carries a tagged allele |
| Selection.InformativeMeaning | src/uniquekmercomputer.cpp:102-138 | a candidate with distinct tags passes exactly when its genomic count equals its number of tags, some path carries one of its alleles and some path carries none, its read count is at most twice the run's coverage, and some copy-number probability is positive |
| Selection.AttachedKmers | src/uniquekmercomputer.cpp:98-150 | at most 301 k-mers are attached, each for an informative candidate. When at most 300 were attached, every informative candidate was |
| Collaborators.ProbabilityComputer.SetParameters | src/uniquekmercomputer.cpp:67 | `set_parameters(cn0, cn1, cn2)`: the computer's parameters become exactly the three given values |
| Collaborators.Variant.PathsOfAllele | src/uniquekmercomputer.cpp:113 | the paths appended for an allele are exactly those carrying it |
| KmerComputer.ErrorParameter | src/uniquekmercomputer.cpp:33-45 | the error parameter is one of 0.99, 0.95, 0.9, 0.8 and lies within [0.8, 0.99] |
| KmerComputer.ErrorParameterBrackets | src/uniquekmercomputer.cpp:33-45 | 0.99 below 10, 0.95 on [10, 20), 0.9 on [20, 40), 0.8 from 40 on |
| KmerComputer.ErrorParameterNonIncreasing | src/uniquekmercomputer.cpp:33-45 | a higher coverage never gives a higher error parameter |
| KmerComputer.SkeletonUpToContents | src/uniquekmercomputer.cpp:76-80 | after paths 0..n-1: each of them maps to its allele, other paths keep their entry, and the alleles are the old ones plus those of these paths |
| KmerComputer.SkeletonContents | src/uniquekmercomputer.cpp:162-167 | every path of the variant maps to get_allele_on_path(p), and every allele on a path has an entry; nothing else is added |
| KmerComputer.InsertSkeleton | src/uniquekmercomputer.cpp:76-80 | the path loop builds the skeleton of the variant |
| KmerComputer.FirstUndefined | src/uniquekmercomputer.cpp:84-90 | the alleles before the returned index are all A/C/G/T, and the allele there (if any) holds another symbol |
| KmerComputer.UniqueKmerComputer.ComputeLocalCoverage | src/uniquekmercomputer.cpp:172-202 | the result is the estimate over the shared table of the left (tag 0) and right (tag 1) flanks, and it lies within [coverage/4, coverage*4] |
| KmerComputer.UniqueKmerComputer.AverageReadCount | src/uniquekmercomputer.cpp:186-201 | the averaging loop returns the mean read count of the kept k-mers, or the run's coverage when none is kept or their counts sum to 0 |
| KmerComputer.UniqueKmerComputer.ComputeEmpty | src/uniquekmercomputer.cpp:155-170 | one record per variant is appended after result, in index order, each with the variant's id, its start and its skeleton, no coverage and no k-mer |
| KmerComputer.UniqueKmerComputer.ExtractAlleles | src/uniquekmercomputer.cpp:83-92 | the unique k-mers of the alleles before the first undefined one are added, tagged with their index, and any_undefined says whether such an allele exists |
| KmerComputer.UniqueKmerComputer.SiteRecordOf | src/uniquekmercomputer.cpp:69-151 | the record of a variant is its skeleton with the given coverage and no k-mer, since the table is cleared before the candidate loop |
| KmerComputer.UniqueKmerComputer.ComputeSite | src/uniquekmercomputer.cpp:59-151 | one iteration computes the variant's local coverage and sets the parameters (error parameter, c/2, c). It emits the variant's record |
| KmerComputer.UniqueKmerComputer.CoveredRecordsAt | src/uniquekmercomputer.cpp:71-80 | record i of the output is the record of variant i: its id, its start, its local coverage, its skeleton and no k-mer |
| KmerComputer.UniqueKmerComputer.ComputeUniqueKmers | src/uniquekmercomputer.cpp:57-153 | one record per variant is appended after result, in index order. The probability computer is left with the parameters of the last variant's coverage, and is untouched when there is no variant |
| KmerComputer.UniqueKmerComputer.constructor | src/uniquekmercomputer.cpp:47-55 | the computer keeps its counters, reader, chromosome and coverage |

## Left out

- The k-mer library's 2-bit encoding, its global `k` setter (cpp:12, 54) and the value of `mer_dna("")`. K-mers are symbol sequences, and the initial window is an opaque padding of length k that is not required to be all `A`.
- The internals of `KmerCounter`, `VariantReader`, `Variant`, `ProbabilityComputer`, `UniqueKmers` and `CopyNumber`. They are not part of this model; only how the computer calls them is modelled.
- `long double` and `double` arithmetic. Coverage and probabilities are `real`, so the order of the floating-point sum and rounding are not modelled.
- The copy-number probability formulas and the regularization math. The density is an abstract function, and only the sign of its values matters to the filter.
- Heap allocation and ownership of the records and of the result vector. The records are values and the vector is a sequence.
- The iteration order of `std::map`. The table is iterated in some fixed order of its keys, each once, which only matters to which k-mers the 300-k-mer break keeps.
- `size_t` overflow of `2*kmer_coverage` and `kmer_coverage*4` in the filters (cpp:128, 191). These are unbounded naturals.
- `src/uniquekmercomputer.hpp` is not part of this model: it holds declarations only.
- KmerComputer.UniqueKmerComputer.ComputeUniqueKmers: requires the allele loop of every variant to end (`AlleleLoopEnds`). A variant with more than 255 alleles whose alleles 0..255 are all A/C/G/T makes the `unsigned char` loop run forever, which is not modelled.
- Windows holding a symbol other than A/C/G/T. The model shifts such a symbol into the window like any other, and it does the same in the final window counted at cpp:25. The k-mer library's 2-bit `mer_dna` cannot hold such a symbol, and its handling of one is not part of this model. So when a sequence ends within k symbols of such a symbol, the value of its final window, and whether that window is unique, may differ from the library's. This reaches the flank tables of `compute_local_coverage`.
