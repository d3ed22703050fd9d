# breakfast matrix — a Dafny model

This project models the `breakfast matrix` subcommand of `src/matrix.rs`. The
subcommand counts, for each BAM file, how many unaligned, non-duplicate
reads are credited to each previously called rearrangement. Each read is
credited to at most one rearrangement: the first whose 40-base junction
signature is confirmed in the read (see Counting). It does this in four
stages:

- **Parsing.** It reads the rearrangement file row by row. Each read of the
  ninth column, `left|right`, gives a 40-character candidate, unless its first
  `|` has fewer than 20 characters before it; such a read is skipped. The
  most frequent candidate of a row becomes its signature (`most_frequent`).
  The signature is upper-cased and kept only if it is pure A/C/G/T. Its
  reverse complement and the row's first eight columns are stored with it.
- **Catalogue.** The rearrangements are sorted by signature. A warning is
  given for each adjacent pair that has equal signatures but different
  annotations. Repeated signatures are then dropped.
- **Counting.** For every BAM file, `count_rearrangements` does the following:
  - It builds a 65536-bucket index keyed by the 2-bit code of bases 16..24 of
    each signature and of its reverse complement.
  - It rolls a 32-bit hash (`hash_nucleotide`) over every unaligned,
    non-duplicate read.
  - It probes the index at every clean 8-mer.
  - It credits the first rearrangement whose signature or reverse complement
    is a substring of the read. Then it stops scanning that read, so a read
    that holds two junctions counts once.
- **Output.** It prints a header and one tab-separated row per rearrangement,
  with one count per BAM file.

Modules, one per file:

| file | module | models |
|---|---|---|
| results.dfy | Results | `Option`, `Result` and the run's fatal errors (panics and `error!`) |
| text.dfy | Text | `find`, `split`, `ends_with`, `contains`, `make_ascii_uppercase`, the decimal `Display` of a count, and byte order on strings |
| nucleotide.dfy | Nucleotide | `reverse_complement`, `hash_nucleotide` on `bv32`, `hash_8bp_sequence`, and the rolling-hash window |
| sorting.dfy | Sorting | the library sort, given by its contract (sorted and a permutation) |
| majority_vote.dfy | MajorityVote | `most_frequent` |
| rows.dfy | Rows | the row loop of `main`, which builds the `Rearrangement`s |
| catalog.dfy | Catalog | `sort_unstable_by`, the conflict-warning loop and `dedup_by` |
| support.dfy | Support | `count_rearrangements`: the index build, the read scan and the counts |
| matrix.dfy | Matrix | sample names, the catalogue, evidence over all files, the printed table and the whole run |

Some parts of `src/matrix.rs` work by changing state step by step. These are
Dafny methods with loops, each proved against a specification function:

- `MostFrequent`
- `Hash8bpSequence`
- `CollectCandidates` and `ParseRows`
- `ConflictWarnings` and `DedupBySignature`
- `BuildIndex`, which keeps the bucket table and the presence bitset in arrays
- `ScanBucket`, `MatchRead` and `CountRearrangements`, the last of which keeps
  `supporting_reads` in an array
- `SampleNames` and `CollectEvidence`

`ParseRow` (one pass of the row loop) and `RunMatrix` (the whole run) are
methods without a loop of their own; they call the methods above.

The pure parts of the source are Dafny functions. `hash_nucleotide` is one of
them; the string formatting of the output is another.

## Behaviour worth knowing

- **Which annotation survives.** The catalogue is sorted with
  `sort_unstable_by` and then deduplicated with `dedup_by`
  (src/matrix.rs:209, src/matrix.rs:220). Among rows that share a
  signature, the unstable sort leaves open which annotation is kept.
  `Matrix.IsCatalogOf` leaves that choice open, and
  `Matrix.CatalogSignaturesUnique` shows that nothing else is open.
- **Index rebuilds.** `count_rearrangements` builds the 65536-bucket index
  afresh for every BAM file (src/matrix.rs:99-112).
  `Support.CountRearrangements` builds it on every call.
- **Index key.** The comment at src/matrix.rs:96-98 says the table is keyed
  by the first 8 bases of the signature. The code keys it by bases 16..24
  of the signature and of its reverse complement (src/matrix.rs:104,
  src/matrix.rs:108-109): the four bases on each side of the breakpoint.
  The model follows the code.
- **Sample names.** Everything up to and including the *first* `/` of a BAM
  path is removed (src/matrix.rs:161-162). For example, `a/b/c.bam` gives
  `b/c`.
- **Header rows.** A line is taken for the header when it starts with
  `"CHROM\t"` (src/matrix.rs:175), wherever it occurs in the file.
- **Panicking rows.** A read without a `|` (src/matrix.rs:181), a read
  whose first `|` has at least 20 characters before it and fewer than 20
  after it (src/matrix.rs:182-184), and a row in which no read gives a
  candidate (the index into an empty vector at src/matrix.rs:88) all panic.
  The model ends the run with an error.

## Model

| member | source | states |
|---|---|---|
| Text.Find | src/matrix.rs:161 | `None` exactly when the character is absent; otherwise the index of its first occurrence |
| Text.Split | src/matrix.rs:177 | at least one part, no part holds the separator, and joining the parts with the separator gives back the string |
| Text.ToUpper | src/matrix.rs:188 | same length; no lower-case ASCII letter is left; each lower-case letter becomes its capital and every other character is kept |
| Text.Contains | src/matrix.rs:139-140 | a contained pattern is no longer than the text; the empty pattern is always contained; a pattern as long as the text is contained exactly when it is the text |
| Text.SplitJoin | src/matrix.rs:177 | splitting separator-free parts joined by the separator gives back the parts |
| Text.JoinAppend | src/matrix.rs:230-239 | joining two non-empty lists is joining each, with one separator between them |
| Text.NatToString | src/matrix.rs:238 | a count prints as a non-empty string of decimal digits, with no leading zero unless the count is 0 |
| Text.DecimalRoundTrip | src/matrix.rs:238 | reading the printed digits back gives the count |
| Text.LexLeReflexive | src/matrix.rs:209 | byte order on strings is reflexive |
| Text.LexLeAntisymmetric | src/matrix.rs:209 | byte order on strings is antisymmetric |
| Text.LexLeTransitive | src/matrix.rs:209 | byte order on strings is transitive |
| Text.LexLeTotal | src/matrix.rs:209 | byte order on strings is total |
| Nucleotide.ReverseComplement | src/matrix.rs:33-35 | same length, ACGT only, and position i is the complement of position n-1-i |
| Nucleotide.ReverseComplementInvolution | src/matrix.rs:33-35 | applying the reverse complement twice gives back the ACGT string |
| Nucleotide.HashNucleotide | src/matrix.rs:50-55 | the low two bits of the new hash are the base's 2-bit code (0 for an ambiguous base), and an ambiguous base sets an ambiguity bit in the upper half |
| Nucleotide.HashSequence | src/matrix.rs:60 | after a string whose last character is not A, C, G or T, an ambiguity bit is set |
| Nucleotide.HashNucleotideNoCarry | src/matrix.rs:50-55 | the mask clears bits 14-15, so the `+` never carries: the result is the shifted masked hash OR the base code, and its low two bits are the base's code |
| Nucleotide.PackFields | src/matrix.rs:44-49 | for a packed (key, ambiguity age) state, the upper 16 bits are zero exactly when no ambiguous base is in the window, and the lower 16 bits are the key |
| Nucleotide.PackInjective | src/matrix.rs:44-49 | the packing loses nothing: equal words come from equal states |
| Nucleotide.StepPacks | src/matrix.rs:50-55 | one `hash_nucleotide` step on a packed state is one step of the abstract (key, ambiguity age) state |
| Nucleotide.HashSequencePacks | src/matrix.rs:60 | feeding a string to `hash_nucleotide` from a packed state is feeding it to the abstract state |
| Nucleotide.FeedFromZero | src/matrix.rs:50-55 | from the zero state, the state after a string depends only on its last eight bases |
| Nucleotide.StepWindow | src/matrix.rs:50-55 | one step moves the eight-base window by one base |
| Nucleotide.AmbiguityDigitsZero | src/matrix.rs:46-49 | the ambiguity age of a window is zero exactly when the window is pure ACGT |
| Nucleotide.DecodeKey | src/matrix.rs:104-109 | an ACGT string of at most eight bases decodes back from its key |
| Nucleotide.KeyOfDecode | src/matrix.rs:104-109 | encoding the n bases decoded from a key gives the key's low 2n bits |
| Nucleotide.KmerKeyRoundTrip | src/matrix.rs:104-109 | an ACGT 8-mer decodes back from its key, and every 16-bit key is the key of one 8-mer |
| Nucleotide.KmerKeyInjective | src/matrix.rs:104-109 | distinct ACGT 8-mers have distinct keys, so two windows share a bucket only when their bases 16..24 are equal |
| Nucleotide.Hash8bp | src/matrix.rs:57-62 | hashing eight bases from 0 leaves the upper half zero exactly when all are ACGT, and puts the base-4 number of their codes, first base most significant, in the lower half |
| Nucleotide.Hash8bpKey | src/matrix.rs:57-62 | for eight ACGT bases, the hash is the base-4 key itself, below 65536 |
| Nucleotide.Hash8bpSequence | src/matrix.rs:57-63 | `hash_8bp_sequence` on eight bases is Ok exactly when all are ACGT, with the 8-mer key as its value; otherwise it fails with `InvalidSequence` |
| Nucleotide.PolyAHashesToZero | src/matrix.rs:50-62 | "AAAAAAAA" has key 0 and hashes to 0 |
| Nucleotide.ReadSeedIsAmbiguousBase | src/matrix.rs:127-130 | the read seed `0b11 << 16` is the state after one ambiguous base |
| Nucleotide.SeededHash | src/matrix.rs:127-132 | rolling a read from the seed is feeding one ambiguous base and then the read from 0 |
| Nucleotide.SeededWindow | src/matrix.rs:127-133 | after the seed and a read, the window is clean exactly when the read has at least eight bases and its last eight are ACGT; the key is the key of the read's last eight bases |
| Nucleotide.RollingHash | src/matrix.rs:127-133 | after rolling a read from the seed, the upper half is non-zero exactly when fewer than eight bases were fed or one of the last eight is not ACGT; the lower half is the key of the last eight bases, an ambiguous base counting as 0 |
| Sorting.InsertBy | src/matrix.rs:69 | inserting into a sorted list keeps it sorted and adds exactly the element |
| Sorting.SortBy | src/matrix.rs:69 | the result is sorted by the key and is a permutation of the input |
| MajorityVote.MostFrequentUnique | src/matrix.rs:65-89 | at most one string is the most frequent, least in byte order among ties, so the vote has one answer |
| MajorityVote.BeatsTransitive | src/matrix.rs:73-87 | "occurs more often, or as often and not above in byte order" is transitive |
| MajorityVote.Best | src/matrix.rs:65-89 | the chosen candidate is one of the candidates and beats each of them |
| MajorityVote.Consensus | src/matrix.rs:65-89 | the result is in the list, nothing occurs more often, and it is least in byte order among the elements that occur as often |
| MajorityVote.RunCount | src/matrix.rs:73-83 | in a sorted list, a maximal run of equal elements holds every occurrence of its element |
| MajorityVote.CountSplit | src/matrix.rs:73-83 | the occurrences of an element are the sum of its occurrences in three consecutive slices |
| MajorityVote.MostFrequentPermutation | src/matrix.rs:68-69 | the most frequent element of a list is the most frequent of any permutation of it, so sorting a clone does not change the vote |
| MajorityVote.ScanCloseRun | src/matrix.rs:76-81 | closing a run keeps the best so far: a position before k whose count is at least every earlier count, least in byte order among ties |
| MajorityVote.ScanStep | src/matrix.rs:73-83 | each of the three branches of the loop body keeps the scan invariant |
| MajorityVote.ScanStart | src/matrix.rs:70-72 | the initial values satisfy the scan invariant |
| MajorityVote.ScanFinish | src/matrix.rs:84-88 | the check after the loop selects the most frequent element |
| MajorityVote.SortStrings | src/matrix.rs:68-69 | the sorted clone is sorted and a permutation of the list |
| MajorityVote.MostFrequent | src/matrix.rs:67-89 | on a non-empty list, the result is the most frequent element, least in byte order among ties, equal to `Consensus` |
| MajorityVote.MostFrequentExampleMajority | src/matrix.rs:65-89 | `["AAA","BBB","AAA"]` gives `"AAA"` |
| MajorityVote.MostFrequentExampleTie | src/matrix.rs:65-89 | `["A","B"]` gives `"A"` |
| Rows.CandidateOf | src/matrix.rs:180-185 | `MissingPipe` exactly when the read has no `\|`; `TruncatedRead` exactly when its first `\|` has at least 20 characters before it and fewer than 20 after it; a candidate exactly when it has at least 20 characters before it and at least 20 after it; the candidate is the 20 characters before the first `\|` followed by the 20 after it |
| Rows.CandidateSkipped | src/matrix.rs:182 | a read gives no candidate, without failing, exactly when its first `\|` has fewer than 20 characters before it |
| Rows.Candidates | src/matrix.rs:179-186 | the row fails exactly when one of its reads is fatal, with the error of the first fatal read; otherwise at most one candidate per read, each the candidate of one of the reads |
| Rows.CandidatesFailFast | src/matrix.rs:179-186 | once a read is fatal, the reads after it do not change the outcome |
| Rows.CandidatesComplete | src/matrix.rs:179-186 | without a fatal read, the candidates are exactly those of the reads that give one, one per such read, in read order |
| Rows.CandidatesSnoc | src/matrix.rs:180-185 | one more read after reads without a fatal one: a fatal read fails the row with its error, a skipped read adds nothing, otherwise its candidate is appended |
| Rows.AllReadsSkipped | src/matrix.rs:180-186 | a row has no candidate, without a fatal read, exactly when every read is skipped |
| Rows.ReadsOutcome | src/matrix.rs:180-186 | a row has no candidate, without a fatal read, exactly when every read has its first `\|` within its first 20 characters |
| Rows.CollectCandidates | src/matrix.rs:178-186 | the loop over the reads computes `Candidates` |
| Rows.RowSpec | src/matrix.rs:174-204 | an accepted row yields a 40-base ACGT signature with its reverse complement (what each kind of row gives is stated by `RowSkipped`, `RowOutcomes` and `AcceptedRow`) |
| Rows.ParseRow | src/matrix.rs:174-204 | the loop body computes `RowSpec` for one line |
| Rows.RowSkipped | src/matrix.rs:175-178 | a line is skipped exactly when it is the header or has fewer than nine columns |
| Rows.AcceptedRow | src/matrix.rs:177-203 | an accepted row is not the header and has at least nine columns; its annotation is its first eight columns joined by tabs, and its signature is the upper-cased candidate of one of its reads |
| Rows.VerdictOutcomes | src/matrix.rs:187-203 | a row panics exactly when a read is fatal (with its error) or there is no candidate (`NoCandidates`); otherwise, for the most frequent candidate `c`, the row is ambiguous exactly when `c` upper-cased is not all A, C, G, T, and is accepted with `c` upper-cased, its reverse complement and the first eight columns otherwise |
| Rows.RowOutcomes | src/matrix.rs:177-203 | for a data row: it panics exactly when a read is fatal or there is no candidate; `NoCandidates` exactly when every read has its first `\|` before index 20; otherwise ambiguous exactly when the upper-cased most frequent candidate is not all A, C, G, T, and accepted with that signature otherwise |
| Rows.Gather | src/matrix.rs:172-204 | the run fails exactly when some row panics; otherwise at most one rearrangement or skip per row, and each rearrangement is that of an accepted row |
| Rows.GatherFailFast | src/matrix.rs:172-204 | the first fatal row decides the outcome |
| Rows.GatherSnoc | src/matrix.rs:174-204 | one more row after rows that parsed: a skipped row changes nothing, an ambiguous one adds one to the skipped count, an accepted one appends its rearrangement, a panicking one fails with its error |
| Rows.GatherStep | src/matrix.rs:174-204 | one pass of the row loop moves the running totals of the first i rows to the first i + 1, and a panicking row decides the whole run |
| Rows.GatherComplete | src/matrix.rs:172-204 | without a panic, the rearrangements are exactly those of the accepted rows, one per accepted row, in row order; the skipped count is the number of ambiguous rows |
| Rows.ParseAll | src/matrix.rs:168-204 | fails exactly when some line panics; otherwise at most one rearrangement or skip per line, and every rearrangement is valid and is that of an accepted line |
| Rows.ParseAllSnoc | src/matrix.rs:174-204 | one more line: after a panic nothing changes; otherwise a skipped line adds nothing, an ambiguous one adds one to the skipped count, an accepted one appends its rearrangement, and a panicking one fails with its error |
| Rows.ParseAllComplete | src/matrix.rs:168-204 | without a panic, the rearrangements are exactly those of the accepted lines, one per accepted line, in line order; the skipped count is the number of ambiguous lines |
| Rows.ParseRows | src/matrix.rs:168-204 | the row loop computes `ParseAll` |
| Catalog.SortBySignature | src/matrix.rs:209 | sorted by signature and a permutation of the input |
| Catalog.ConflictWarnings | src/matrix.rs:210-219 | warns exactly at the positions whose signature equals the previous one and whose annotation differs, in increasing order |
| Catalog.Heads | src/matrix.rs:220 | no longer than the input; keeps the first element and the last signature |
| Catalog.DedupBySignature | src/matrix.rs:220 | `dedup_by`, comparing with the last kept element, keeps exactly the elements whose signature differs from the one before |
| Catalog.HeadsSnoc | src/matrix.rs:220 | the last element is kept exactly when its signature differs from the one before it |
| Catalog.HeadsFromInput | src/matrix.rs:220 | every kept element is an input element |
| Catalog.HeadsStrictlyIncreasing | src/matrix.rs:209-220 | after sorting, the kept signatures are strictly increasing |
| Catalog.HeadsKeepSignatures | src/matrix.rs:220 | every input signature is the signature of a kept element |
| Catalog.NoConflictNoLoss | src/matrix.rs:209-220 | with no conflict, every input rearrangement is still there after deduplication |
| Support.Slot | src/matrix.rs:104-105 | the bucket of a signature, the key of its bases 16..24, lies in 0..65536 |
| Support.SlotOf | src/matrix.rs:104 | `hash_8bp_sequence` of bases 16..24 of a 40-base ACGT signature is its bucket |
| Support.Bucket | src/matrix.rs:102-112 | a bucket holds only indices of rearrangements |
| Support.BucketMembers | src/matrix.rs:102-112 | r is in bucket k exactly when the forward or the reverse-complement window of r has key k |
| Support.BucketOrdered | src/matrix.rs:102-112 | the entries of a bucket are in non-decreasing order |
| Support.BucketTable | src/matrix.rs:99-112 | definition: the 65536 buckets as one table, the closed form `BuildIndex` is proved against; what a bucket holds is stated by `BucketMembers` and `BucketOrdered` |
| Support.FlagsFile | src/matrix.rs:105-106 | setting bit k and pushing onto bucket k keeps "bit set exactly when bucket non-empty" |
| Support.TableSnoc | src/matrix.rs:102-112 | one iteration of the index loop pushes r onto its forward bucket and then onto its reverse-complement bucket |
| Support.FileEntry | src/matrix.rs:105-106 | sets the presence bit of the slot and appends the rearrangement number to its bucket, leaving every other bucket as it was, and keeps "bit set exactly when bucket non-empty" |
| Support.BuildIndex | src/matrix.rs:99-112 | the arrays hold the bucket table, and each presence bit is set exactly when its bucket is non-empty |
| Support.FirstConfirmed | src/matrix.rs:135-144 | the result is an entry of the bucket whose signature or reverse complement the read contains, and no entry before its first position in the bucket is confirmed; none exactly when no entry is confirmed |
| Support.CreditFrom | src/matrix.rs:131-145 | a credited rearrangement exists and its signature or reverse complement is in the read |
| Support.Credit | src/matrix.rs:131-145 | the rearrangement a read credits, if any, is one whose signature or reverse complement occurs in the read (which one is stated by `CreditEarliest`) |
| Support.FirstHitEarliest | src/matrix.rs:131-145 | the first hit from position p is the hit at the earliest position at or after p that has one; none exactly when no such position has a hit |
| Support.CreditEarliest | src/matrix.rs:131-145 | the read is credited to the hit at the earliest position of the scan that has one, that is, the first confirmed rearrangement of the slot at the earliest anchored position whose slot holds a confirmed rearrangement; none exactly when no position has a hit |
| Support.CreditReaches | src/matrix.rs:131-145 | a confirmed hit at a later anchored position guarantees a credit from any earlier start |
| Support.CoreAnchors | src/matrix.rs:131-139 | an occurrence of a 40-base signature at i makes position i+23 a clean 8-mer equal to the signature's bases 16..24 |
| Support.CreditComplete | src/matrix.rs:131-145 | a read that holds some rearrangement's signature or reverse complement credits one |
| Support.RollHash | src/matrix.rs:132-133 | one step of the rolling hash, and the slot to probe exactly when the last eight bases are clean: the key of those eight bases |
| Support.ScanBucket | src/matrix.rs:135-144 | the bucket loop finds the first confirmed rearrangement |
| Support.FirstConfirmedStep | src/matrix.rs:135-143 | the scan of a bucket from entry j looks at entry j first and stops there when the read confirms it |
| Support.MatchRead | src/matrix.rs:125-145 | the scan of one read with the index credits `Credit(read, rs)` |
| Support.Tally | src/matrix.rs:114-146 | one count per rearrangement |
| Support.CountRearrangements | src/matrix.rs:91-148 | an unopenable file is fatal (`UnreadableAlignments`); otherwise the counts are `Tally` of its records |
| Support.TallyTotal | src/matrix.rs:119-146 | the counts add up to the number of eligible reads that hold some junction |
| Support.TallySound | src/matrix.rs:119-146 | each count is at most the number of eligible reads holding that rearrangement's junction |
| Support.TallyStep | src/matrix.rs:119-146 | a mapped or duplicate read, or one holding no junction, changes no count; otherwise exactly one count grows by one, for a rearrangement whose junction the read holds |
| Support.TallySnoc | src/matrix.rs:119-146 | one more record adds one to the count of the rearrangement it credits when it is eligible, and changes nothing otherwise |
| Matrix.SampleStart | src/matrix.rs:161-162 | the start is 0 exactly when the path has no `/`; otherwise it is just after the first `/` |
| Matrix.SampleEnd | src/matrix.rs:163-164 | the end is the path length less 4 when the path ends with ".bam", and the path length otherwise |
| Matrix.SampleBounds | src/matrix.rs:160-165 | the slice bounds satisfy start ≤ end ≤ length, so slicing never panics |
| Matrix.SampleName | src/matrix.rs:160-165 | the path is prefix + name + suffix: the suffix is ".bam" when present, the prefix ends at the first `/`, and the prefix is empty exactly when there is no `/` |
| Matrix.SampleNames | src/matrix.rs:159-166 | one sample name per path, in order |
| Matrix.HeaderColumns | src/matrix.rs:230-234 | with tab-free sample names, the printed header (`HeaderLine`) splits into the eleven leading column names and then the samples |
| Matrix.HeaderSkipped | src/matrix.rs:175 | the printed header starts with "CHROM" and a tab, so reading the printed table back skips it |
| Matrix.Junction | src/matrix.rs:237 | the signature as printed has one more character, a `\|` at index 20, and removing it gives back the signature |
| Matrix.RowIsJoin | src/matrix.rs:235-239 | a printed row (`RowLine`) is its columns joined by tabs: the eight annotation columns, an empty field, the junction, an empty field and the counts in decimal |
| Matrix.JoinRow | src/matrix.rs:235-239 | the eight columns joined by tabs, then two tabs, the junction, a tab and the tab-prefixed counts, is all the columns joined by tabs |
| Matrix.SplitRow | src/matrix.rs:235-239 | tab-free columns joined by tabs split back into themselves |
| Matrix.RowColumns | src/matrix.rs:235-239 | a row splits into the eight annotation columns, an empty field, the signature with `\|` after base 20, an empty field, and the counts in decimal |
| Matrix.AcceptedAnnotation | src/matrix.rs:196-198 | the annotation of an accepted row splits into the first eight columns of its line |
| Matrix.SortedHeadsCatalog | src/matrix.rs:209-220 | deduplicating a sorted permutation gives a catalogue: strictly increasing signatures, only input elements, every input signature kept |
| Matrix.HeadsMembers | src/matrix.rs:209-220 | every element kept from a sorted permutation of the input is an input element |
| Matrix.HeadsSignatures | src/matrix.rs:209-220 | every input signature is the signature of an element kept from a sorted permutation of the input |
| Matrix.CatalogValid | src/matrix.rs:209-220 | a catalogue of valid rearrangements holds only valid ones |
| Matrix.NoConflictKeepsAll | src/matrix.rs:209-220 | without a conflict warning, deduplication keeps every input rearrangement |
| Matrix.BuildCatalog | src/matrix.rs:209-220 | sort, warn and dedup give a catalogue of the input; with no warning, nothing is lost |
| Matrix.IncreasingUnique | src/matrix.rs:209-220 | two strictly increasing lists with the same elements are equal |
| Matrix.CatalogSignaturesUnique | src/matrix.rs:209-220 | any two catalogues of the same rearrangements list the same signatures in the same order |
| Matrix.CollectEvidence | src/matrix.rs:226-228 | fails with `UnreadableAlignments` exactly when some BAM file is unopenable; otherwise one column of counts per file, in argument order |
| Matrix.Column | src/matrix.rs:238 | definition: the counts of rearrangement k, one per BAM file, in argument order, the closed form `Render` and `TableRows` use |
| Matrix.Render | src/matrix.rs:230-240 | the header line first, then row k + 1 printed from catalogue entry k with its count in every BAM file |
| Matrix.RowLines | src/matrix.rs:235-240 | definition: one printed row per catalogue entry, in catalogue order; what each row holds is stated by `RowColumns` and `TableRows` |
| Matrix.RowOrigin | src/matrix.rs:196-198 | a parsed rearrangement is valid, and its row starts with the first eight columns of the line it came from |
| Matrix.CatalogOfLinesValid | src/matrix.rs:168-220 | a catalogue of parsed rearrangements holds only valid ones |
| Matrix.TableRowOrigin | src/matrix.rs:235-240 | row k + 1 of the table is printed from an accepted line, and splits into that line's first eight columns, the junction and the counts of entry k |
| Matrix.TableRows | src/matrix.rs:230-240 | every catalogue entry is valid; the table has a header and one row per rearrangement, in catalogue order; each row is printed from an accepted line and splits into that line's first eight columns, an empty field, the signature with its `\|`, an empty field, and one count per BAM file in argument order |
| Matrix.RunMatrix | src/matrix.rs:150-240 | a malformed rearrangement line stops the run with its error; otherwise the run fails exactly when a BAM file is unopenable; on success the output is the table of some catalogue of the parsed rearrangements with the counts of every file |

## Left out

- Bytes are modelled as characters, one per byte (ASCII). Rust's panics on slicing a non-ASCII string inside a character are not modelled.
- Support.Tally: the counts are unbounded naturals. The `u32` counters of the source could overflow after 2^32 reads; the model does not wrap them.
- Support.BuildIndex: rearrangement numbers are unbounded naturals. The source stores them as `r as u32` (src/matrix.rs:106, src/matrix.rs:111), which would truncate with 2^32 or more rearrangements; the model does not truncate them.
- Nucleotide.ReverseComplement: defined on A/C/G/T only. The IUPAC symbols that `bio::alphabets::dna::revcomp` also handles cannot reach it, because signatures are checked to be ACGT first.
- Reading files is replaced by values: the rearrangement file is given as its lines (`FileReader` is not part of this model). A BAM file is `Unopenable` or a list of records `(sequence, unmapped, duplicate)`; `read_bam_record` and htslib are not part of this model.
- An unopenable rearrangement file is not modelled, because the lines are given.
- The rayon thread pool and `par_iter` are modelled as a sequential loop over the files in argument order; their indexed `collect` keeps that order. A failing thread-pool build is not modelled.
- `eprintln!` diagnostics are not modelled as output. The conflict positions (`Catalog.ConflictWarnings`) and the skipped-ambiguous count (`Rows.ParsedRows`) that they report are.
- `error!` and panics end the run; the model returns an `Err` result instead.
- The `InvalidSequence` failure of `hash_8bp_sequence` during the index build cannot happen, because parsed signatures are ACGT. `Support.BuildIndex` requires valid rearrangements rather than modelling that path.
- The library sorts (`sort_unstable`, `sort_unstable_by`) are given by what they promise: sorted, and a permutation. An insertion sort stands behind that contract. The library's own order among equal keys is not modelled.
- Stdout is modelled as the list of lines (`Matrix.Render`). The header's eleven leading names are joined with tabs (`Matrix.HeaderLine`), which spells out the text of the three `print!` calls at src/matrix.rs:230-232.
- Matrix.RunMatrix: states the output for *some* catalogue of the parsed rearrangements. It does not fix which row survives among rows with equal signatures, because the unstable sort does not.
- The commented-out options (`--count-duplicates`, `--count-aligned`) are not modelled. Neither are `cli.rs` and `main.rs` (argument handling and the `detect` subcommand).
