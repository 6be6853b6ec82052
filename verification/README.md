# corpustools in Dafny

A model of the in-memory core of corpustools. corpustools is a Go library that indexes a corpus of integer
tokens with a suffix array and answers questions about it:

- where a sequence occurs and how often;
- which distinct n-grams the corpus holds;
- which symbols occur next to a sequence;
- how a greedy minimum-description-length segmenter cuts the corpus into accepted n-grams, and what unigram
  and bigram counts that cut has.

The model follows the library file by file:

| module | models |
|---|---|
| `Seqs` | seqs.go: `SeqJoin`, `SeqCmp`, `SeqCmpLimited` and the `Seqs` sort interface |
| `Misc` | misc.go: the older copy of the same three functions, proved to coincide with `Seqs` |
| `Suffixes` | suffixes.go: `Suffix`, `Suffixes.Swap` and the element-walking `BySuffix.Less` |
| `Corpora` | corpus.go: class `Corpus` |
| `NgramSets` | ngram_set.go: class `NgramSet` |
| `Segmenter` | mdl_segmenter.go: class `MDLSegmenter` |
| `Coocs` | cooc.go: class `Cooc` |
| `Results` | result.go |
| `Tokens` | tokens.go: `TokenizeLine` |

`Corpora` covers the suffix array, the two binary searches, the linear oracle `slowSearch`, `Find`,
`Frequency`, `Ngrams`, `CoocVector`, `Corpus`, `ToString` and the vocabulary loop of `CorpusFromFile`.

Specification modules state what these operations compute:

- `SuffixArrays`: suffix arrays, occurrences and windows;
- `Contexts`: neighbour counts;
- `Vocabularies`: first-seen vocabularies;
- `Segmentations`: longest match and greedy cover;
- `SegmentStats`: unigram and bigram tallies and their totals;
- `Scans`: first and last zero of a key list.

Helper modules:

- `Sorting`: an in-place sort that stands for Go's `sort.Sort`;
- `Sums`: sums over finite sets, standing for ranging over a Go map;
- `PrintedLabels`: the segmenter as written, with `"%v"` string labels (see Findings).

Methods that change state are proved against these specifications. Go map iteration order is arbitrary. The
model ranges over a map by picking an arbitrary remaining key. Every result is shown to be the same whichever
key is picked.

## Model

| member | source | states |
|---|---|---|
| Seqs.SeqCmp | seqs.go:33-56 | the three-way comparison is -1, 0 or 1, and 0 only for sequences of equal length |
| Seqs.SeqCmpLimited | seqs.go:58-84 | the prefix-limited comparison is -1, 0 or 1 |
| Seqs.SeqJoin | seqs.go:23-31 | the joined sequence has length \|a\|+\|b\|, its first \|a\| elements are a and the rest are b |
| Seqs.SeqCmpZeroIff | seqs.go:33-56 | SeqCmp is 0 exactly when the two sequences are equal |
| Seqs.SeqCmpAntisymmetric | seqs.go:33-56 | SeqCmp(a, b) == -SeqCmp(b, a) |
| Seqs.SeqCmpTransitive | seqs.go:33-56 | "not greater" is transitive |
| Seqs.SeqCmpStrictTransitive | seqs.go:33-56 | a chain of "not greater" with one "less" link gives "less" |
| Seqs.SeqCmpProperPrefix | seqs.go:49-55 | a proper prefix compares as less (shorter is lesser) |
| Seqs.SeqCmpFirstDifference | seqs.go:39-47 | at the first differing position, the smaller element decides |
| Seqs.Take | seqs.go:60-67 | the first k elements, or all of them when fewer: a prefix of the right length |
| Seqs.SeqCmpTakeMonotone | seqs.go:33-56 | truncating both sides to k elements keeps the order between them |
| Seqs.SeqCmpLimitedZeroIff | seqs.go:58-84 | SeqCmpLimited is 0 exactly when both have at least k elements and agree on the first k |
| Seqs.SeqCmpLimitedWithin | seqs.go:64-76 | when k fits in both, SeqCmpLimited equals SeqCmp of the k-prefixes |
| Seqs.SeqCmpLimitedBeyond | seqs.go:77-83 | with no mismatch and the shorter side under k long, the result is -1 exactly when a is shorter; equal short sequences give 1 |
| Seqs.SeqCmpLimitedQuery | seqs.go:58-84 | comparing a suffix with a query up to the query's length is SeqCmp of the truncated suffix and the query |
| Seqs.SeqCmpLimitedSymmetricZero | seqs.go:58-84 | a zero result does not depend on the order of the arguments |
| Seqs.LessIsStrictOrder | seqs.go:14-19 | Less is irreflexive, asymmetric and transitive, and incomparable entries are equal |
| Seqs.Swap | seqs.go:10-12 | exactly positions i and j are exchanged |
| Misc.Scan | misc.go:27-36 | the index scan of the older copy is -1, 0 or 1 |
| Misc.SeqCmp | misc.go:21-44 | the older SeqCmp, with its length decision spelled out, is -1, 0 or 1, and 0 only for sequences of equal length; SeqCmpCoincides equates it with Seqs.SeqCmp |
| Misc.SeqCmpLimited | misc.go:46-72 | the older SeqCmpLimited is -1, 0 or 1; SeqCmpLimitedCoincides equates it with Seqs.SeqCmpLimited |
| Misc.SeqJoin | misc.go:11-19 | the result is the concatenation of the two arguments |
| Misc.ScanTail | misc.go:27-36 | scanning from position pos is scanning the tails from pos - 1 |
| Misc.SeqCmpCoincides | misc.go:21-44 | the older SeqCmp agrees with the seqs.go one on every input |
| Misc.SeqCmpLimitedCoincides | misc.go:46-72 | the older SeqCmpLimited agrees with the seqs.go one on every input |
| Misc.SeqCmpZeroIff | misc.go:21-44 | the older SeqCmp is 0 exactly when a == b |
| Misc.SeqCmpProperPrefix | misc.go:37-43 | the older SeqCmp gives -1 for a proper prefix |
| Misc.SeqCmpAntisymmetric | misc.go:28-43 | the older SeqCmp is antisymmetric |
| Misc.SeqCmpLimitedZeroIff | misc.go:46-72 | the older SeqCmpLimited is 0 exactly when both agree on k elements |
| Suffixes.Elements | suffixes.go:3-7 | a suffix stands for the corpus from its index on, or nothing past the end |
| Suffixes.Swap | suffixes.go:14 | exactly entries i and j are exchanged |
| Suffixes.Less | suffixes.go:17-31 | the element-by-element walk returns true exactly when suffix i is SeqCmp-less than suffix j |
| Suffixes.SuffixLessIrreflexive | suffixes.go:17-31 | Less(i, i) is false |
| Suffixes.SuffixLessAsymmetric | suffixes.go:17-31 | Less never holds in both directions |
| Suffixes.SuffixLessAtFirstDifference | suffixes.go:23-27 | at the first differing position Less is the comparison of the two elements |
| Suffixes.SuffixLessWhenExhausted | suffixes.go:28-29 | a suffix that runs out first, being a proper prefix of the other, is less |
| Sorting.SortBy | corpus.go:48 | sorting by any asymmetric Less leaves no adjacent inversion and permutes the entries |
| Scans.LowestZeroBounds | corpus.go:78-92 | slowSearch's forward scan finds the first matching position, or keeps its initial value |
| Scans.HighestZeroBounds | corpus.go:78-92 | slowSearch's backward scan finds the last matching position, or keeps its initial value |
| Scans.LowestZeroSnoc | corpus.go:82-85 | one more result moves the lower end to its position exactly when it is 0 and below the end |
| Scans.HighestZeroSnoc | corpus.go:82-88 | one more result moves the upper end to its position exactly when it is 0 and above the end |
| Scans.ZeroScan | corpus.go:78-92 | the two scans bracket every match, and give (n-1, 0) when nothing matches |
| SuffixArrays.Range | corpus.go:44-47 | the initial fill of sfx is 0..n-1 in order |
| SuffixArrays.Key | corpus.go:96-117 | the key a binary search compares against is -1, 0 or 1 |
| SuffixArrays.KeyList | corpus.go:78-92 | slowSearch's list of keys has one entry per position |
| SuffixArrays.KeyListAt | corpus.go:78-92 | entry p of the key list is the key of position p |
| SuffixArrays.ScanStep | corpus.go:81-90 | one iteration of slowSearch's loop keeps (slo, shi) equal to the scans of the keys seen so far |
| SuffixArrays.ScanResult | corpus.go:78-92 | slowSearch's bounds: the first and last match, every match between them, and (n-1, 0) when nothing matches |
| SuffixArrays.RangeMultiplicity | corpus.go:44-47 | each of 0..n-1 occurs once in the initial fill, and nothing else occurs |
| SuffixArrays.PermutationCovers | corpus.go:43-49 | every corpus position appears in the suffix array |
| SuffixArrays.PermutationInRange | corpus.go:43-49 | every entry of the suffix array is a corpus position |
| SuffixArrays.PermutationDistinct | corpus.go:43-49 | no corpus position appears twice |
| SuffixArrays.DistinctCardinality | corpus.go:56-65 | a list without repeats has as many elements as its set |
| SuffixArrays.SortedOrder | corpus.go:32-37 | after sorting, suffixes at increasing positions never decrease under SeqCmp |
| SuffixArrays.KeyMonotone | corpus.go:96-142 | the search key is non-decreasing along the suffix array, which is what both binary searches rely on |
| SuffixArrays.KeyZeroIff | corpus.go:96-142 | a key is 0 exactly when the suffix starts with the query |
| SuffixArrays.MatchesContiguous | corpus.go:68-75 | the matching positions form one block |
| SuffixArrays.OccurrencesFromPositions | corpus.go:56-65 | the corpus positions where the query occurs are the suffix-array entries of the matching positions |
| SuffixArrays.KeyUpFrom | corpus.go:96-117 | no later position has a smaller key |
| SuffixArrays.KeyDownTo | corpus.go:121-142 | no earlier position has a larger key |
| SuffixArrays.KeySortedFromSuffixArray | corpus.go:96-142 | a suffix array is sorted by key for every query |
| SuffixArrays.MatchIffKeyZero | corpus.go:96-142 | matching and a zero key coincide at every position |
| SuffixArrays.MinSearchExit | corpus.go:96-117 | when binarySearchMin's loop ends without an equal key at its final position, nothing in its range matches |
| SuffixArrays.MaxSearchExit | corpus.go:121-142 | when binarySearchMax's loop ends without an equal key at its final position, nothing in its range matches |
| SuffixArrays.OccursIffMatch | corpus.go:68-75 | the query occurs exactly when some suffix-array position matches |
| SuffixArrays.BlockOccurrences | corpus.go:56-65 | the entries of the matching block are the occurrences, without repeats, and there are shi - slo + 1 of them |
| SuffixArrays.WindowList | corpus.go:175-183 | the length-k windows of the corpus, one per start position |
| SuffixArrays.SuffixWindow | corpus.go:175-183 | the first k elements of a long-enough suffix form a window |
| SuffixArrays.WindowSuffix | corpus.go:175-183 | every window is the k-prefix of some suffix in the array |
| SuffixArrays.NgramStep | corpus.go:178 | against the last n-gram kept, a later suffix compares equal on k elements (same n-gram) or strictly greater |
| SuffixArrays.AscendingDistinct | corpus.go:175-183 | a strictly ascending list has no repeats |
| SuffixArrays.AscendingFrom | corpus.go:175-183 | in a strictly ascending list every entry precedes every later one |
| SuffixArrays.NgramsAdvance | corpus.go:176-181 | one iteration of Ngrams keeps its loop state: ascending, and every window seen so far present |
| SuffixArrays.NgramsSkip | corpus.go:178 | a short suffix, or one repeating the last n-gram, leaves the state unchanged |
| SuffixArrays.NgramsKeep | corpus.go:178-180 | a new n-gram is appended in ascending order |
| SuffixArrays.NgramsComplete | corpus.go:175-183 | after the walk the n-grams are exactly the distinct windows, one each |
| SuffixArrays.UnigramWindows | corpus_test.go:30-34 | when the corpus uses every id below n, there are n distinct windows of length 1 |
| SuffixArrays.SingletonsCardinality | corpus_test.go:30-34 | there are n one-element sequences of ids below n |
| SuffixArrays.ToSet | corpus.go:56-65 | the set of a list's elements |
| SuffixArrays.Ids | corpus.go:290-300 | the ids 0..n-1 as a set |
| SuffixArrays.IdsCardinality | corpus.go:290-300 | there are n such ids |
| Corpora.Corpus.FromTokens | corpus.go:284-304 | the vocabulary loop: ids in first-seen order, injective, one id per token, the ids used exactly 0..\|voc\|-1, then a valid suffix array |
| Corpora.Corpus.Swap | corpus.go:28-30 | exactly entries i and j of sfx are exchanged |
| Corpora.Corpus.LessIsStrictOrder | corpus.go:32-37 | suffix Less is a strict order, and incomparable positions hold equal suffixes |
| Corpora.Corpus.SetSuffixArray | corpus.go:43-49 | sfx becomes a fresh permutation of 0..n-1 sorted by suffix; seq and voc are unchanged |
| Corpora.Corpus.BinarySearchMin | corpus.go:96-117 | -1 exactly when nothing in range matches; otherwise the first match, and a right bound beyond which nothing matches |
| Corpora.Corpus.BinarySearchMax | corpus.go:121-142 | -1 exactly when nothing in range matches; otherwise the last match, and a left bound before which nothing matches |
| Corpora.Corpus.SuffixSearch | corpus.go:68-75 | (-1, -1) exactly when q does not occur; otherwise [slo, shi] is exactly the set of matching positions |
| Corpora.Corpus.Find | corpus.go:56-65 | the offsets returned are exactly the occurrences of q, each once, in suffix-array order: they are the block sfx[slo..slo + \|indices\|], and the positions of that block are exactly those whose suffix starts with q |
| Corpora.Corpus.Frequency | corpus.go:190-196 | the number of occurrences of q, 0 exactly when q is absent |
| Corpora.Corpus.Ngrams | corpus.go:175-183 | n-grams of the given length, strictly ascending, exactly the distinct windows; with order 1 on any valid corpus, as many as the vocabulary (corpus_test.go:30-34) |
| Corpora.Corpus.CoocVector | corpus.go:260-277 | the weight of x counts, over every occurrence of q, whether x is the symbol just before its offset and whether it is the symbol just after; keys are exactly the x with a positive count |
| Corpora.Corpus.CountNeighbours | corpus.go:267-275 | after walking a block of offsets, the map holds each symbol's neighbour count over the walked offsets |
| Corpora.Corpus.CorpusCopy | corpus.go:149-154 | the copy equals the corpus sequence |
| Corpora.Corpus.ToString | corpus.go:157-169 | one string per id: the token with that id, or "**UNKNOWN**" |
| Corpora.Corpus.TokenOf | corpus.go:159-166 | the inner search over voc finds the token with the id, or gives "**UNKNOWN**" |
| Corpora.Corpus.SlowSearch | corpus.go:78-92 | the first and last matching positions, and (n-1, 0) when nothing matches |
| Corpora.Corpus.ScanKeys | corpus.go:79-90 | the loop of slowSearch: its ends are the lowest and highest zero scans of the key list, from (n-1, 0) |
| Corpora.Corpus.SearchesAgree | corpus_test.go:36-42 | fast and slow search return the same bounds exactly when q occurs |
| Contexts.Neighbours | corpus.go:268-273 | a position contributes 0, 1 or 2 for x; 0 exactly when neither neighbour is x |
| Contexts.ListCount | corpus.go:267-275 | the weight the CoocVector walk has given x after visiting a list of offsets: between 0 and twice the number of offsets; ListCountAsSum and WalkComplete tie it to ContextCount |
| Contexts.VisitKeepsCounts | corpus.go:268-273 | visiting one more offset keeps the map equal to the counts over the offsets visited |
| Contexts.ListCountAsSum | corpus.go:267-275 | over a list without repeats, the walk's count is the sum over its set |
| Contexts.WalkComplete | corpus.go:260-277 | having walked the matching block, the map holds each symbol's context count over all occurrences |
| Contexts.ContextCountBound | corpus.go:260-277 | a symbol's count is between 0 and twice the number of occurrences |
| Vocabularies.VocabularyEmpty | corpus.go:286-291 | before any token the vocabulary and the id sequence are empty |
| Vocabularies.VocabularyKnown | corpus.go:293-299 | a token already in voc appends its existing id |
| Vocabularies.VocabularyNew | corpus.go:294-299 | a new token gets the next id, type_ctr, and the vocabulary stays injective and first-seen |
| Vocabularies.IdsAppendNext | corpus.go:294-297 | appending the next id extends the ids used from 0..k-1 to 0..k |
| Vocabularies.TokenIdsExtend | corpus.go:299 | after a new token, seq[i] == voc[tokens[i]] still holds for every position |
| Vocabularies.NewTokenFirst | corpus.go:294-297 | a token not in voc occurs here for the first time |
| Vocabularies.NewTokenId | corpus.go:295-296 | giving a new token id \|voc\| keeps voc injective with ids below its size |
| Vocabularies.FirstSeenExtend | corpus.go:290-300 | every first occurrence still holds the number of distinct tokens before it |
| Vocabularies.RenderRoundTrip | corpus.go:157-169 | ToString of the corpus sequence gives back the original tokens |
| Vocabularies.RenderUnknown | corpus.go:159-166 | an id outside the vocabulary renders as "**UNKNOWN**" |
| NgramSets.NgramSet.constructor | mdl_segmenter.go:141 | a new set holds no ngram |
| NgramSets.NgramSet.Add | ngram_set.go:21-24 | the ngram is stored under its key, and nothing else changes |
| NgramSets.NgramSet.Remove | ngram_set.go:26-29 | the ngram's key is deleted, and nothing else changes |
| NgramSets.NgramSet.KeyInjective | ngram_set.go:11-14 | two ngrams share a key exactly when they are equal; this holds by the identity-key abstraction for `"%v"` (see Left out) and is not a proof that `"%v"` is injective |
| NgramSets.AddMembership | ngram_set.go:16-24 | after Add(g), g is in, and every other ngram's membership is unchanged |
| NgramSets.RemoveMembership | ngram_set.go:16-29 | after Remove(g), g is out, others are unchanged, and removing an absent ngram is a no-op |
| NgramSets.AddIdempotent | ngram_set.go:21-24 | adding twice is adding once |
| NgramSets.AddThenRemove | ngram_set.go:21-29 | adding an absent ngram and then removing it restores the set |
| NgramSets.KeyedByValuePreserved | ngram_set.go:21-29 | Add and Remove keep every ngram stored under its own key |
| NgramSets.KeyedValues | mdl_segmenter.go:93 | the ngrams a range over the map visits are exactly its keys |
| Segmentations.LongestUpTo | mdl_segmenter.go:92-114 | a non-empty prefix of s, and accepted when longer than one element |
| Segmentations.LongestUpToIsLongest | mdl_segmenter.go:92-114 | as long as every candidate up to k, itself a candidate when one exists, otherwise the first element |
| Segmentations.LongestMatchSpec | mdl_segmenter.go:91-114 | Match: a non-empty prefix; the longest accepted ngram that starts s; the first element when none does |
| Segmentations.LongestMatchUnique | mdl_segmenter.go:91-114 | any result with those properties is LongestMatch, so the range order cannot change it |
| Segmentations.GreedyCovers | mdl_segmenter.go:80-89 | the labels concatenate back to the sequence and none is empty |
| Segmentations.GreedyNothingAccepted | mdl_segmenter.go:83-87 | with no accepted ngram, one single-element label per element |
| SegmentStats.UnigramStep | mdl_segmenter.go:127 | counting one more label keeps the unigram tally exact |
| SegmentStats.BigramStep | mdl_segmenter.go:128-134 | counting one more adjacent pair, creating its row when missing, keeps the bigram table exact |
| SegmentStats.PairCountsAdd | mdl_segmenter.go:129-133 | adding one pair to a table of pair counts |
| SegmentStats.CountsExtend | mdl_segmenter.go:125-135 | one more label of the loop adds one unigram count and, when a label follows, one bigram count |
| SegmentStats.UnigramCountsTally | mdl_segmenter.go:121-136 | U[x] is the number of occurrences of x, and U has no other key |
| SegmentStats.BigramCountsTally | mdl_segmenter.go:121-136 | B[a][b] is the number of adjacent (a, b) pairs; rows exist only for labels that have a successor |
| SegmentStats.Extend | mdl_segmenter.go:128-134 | one more label adds the previous last label to the labels with a successor, and one pair |
| SegmentStats.PairsInInit | mdl_segmenter.go:128-134 | the first label of a pair always has a row |
| SegmentStats.FirstsOfPairs | mdl_segmenter.go:128-134 | the first labels of the pairs are all labels but the last |
| SegmentStats.SumMultiplicities | mdl_segmenter.go:121-136 | multiplicities summed over any superset of the labels add up to their number |
| SegmentStats.SumRow | mdl_segmenter.go:128-134 | the counts of pairs starting with a add up to the number of such pairs |
| SegmentStats.UnigramTotal | mdl_segmenter.go:121-136 | the U values sum to N |
| SegmentStats.RowTotal | mdl_segmenter.go:128-134 | the row of a sums to the number of times a has a successor |
| SegmentStats.RowTotalUnigrams | mdl_segmenter.go:121-136 | the row of a sums to U[a], less one when a is the last label |
| SegmentStats.BigramTotal | mdl_segmenter.go:121-136 | all B counts sum to N - 1 for a non-empty segmentation |
| Segmenter.MDLSegmenter.constructor | mdl_segmenter.go:140-142 | NewMDLSegmenter: the corpus's sequence and an empty fresh set of accepted ngrams |
| Segmenter.MDLSegmenter.AddNgram | mdl_segmenter.go:17-19 | the ngram becomes accepted; the sequence and every other ngram are unchanged |
| Segmenter.MDLSegmenter.RemoveNgram | mdl_segmenter.go:21-23 | the ngram stops being accepted; the sequence and every other ngram are unchanged |
| Segmenter.MDLSegmenter.Match | mdl_segmenter.go:91-114 | whatever order the range visits the ngrams in, the result is the longest accepted ngram that starts s, or its first element |
| Segmenter.MDLSegmenter.Segment | mdl_segmenter.go:80-89 | the greedy cover: each label is Match of what is left, and the position moves past it |
| Segmenter.MDLSegmenter.SegmentationStats | mdl_segmenter.go:120-137 | N is the number of labels, U and B are the exact unigram and bigram counts |
| Segmenter.PrefixMatches | mdl_segmenter.go:95-102 | the element-by-element loop reports a match exactly when g is a prefix of s |
| Segmenter.AcceptedAreMembers | ngram_set.go:16-19 | an ngram is visited by Match's range exactly when In reports it present |
| Coocs.Cooc.constructor | corpus.go:261 | a new vector holds the query and no weight |
| Coocs.Cooc.Set | cooc.go:13-15 | dat[key] becomes val, and no other key changes |
| Coocs.Cooc.Inc | cooc.go:17-19 | dat[key] grows by 1, from 0 when absent, and no other key changes |
| Coocs.Cooc.Keys | cooc.go:21-30 | every key exactly once, in ascending order, len(dat) of them |
| Coocs.Cooc.Prod | cooc.go:40-57 | whichever map is smaller, the result is the sum over the shared keys of v1 * v2 |
| Coocs.Enumerate | cooc.go:22-26 | the keys collected by ranging over the map, each once |
| Coocs.EnumerationDistinct | cooc.go:22-26 | a list holding each key once has no repeated entry |
| Coocs.SumProducts | cooc.go:43-55 | the loop over one map's keys adds v1 * v2 for the keys both hold |
| Coocs.ProductStep | cooc.go:44-47 | one more key adds its product, or nothing when the other map lacks it |
| Coocs.DotSymmetric | cooc.go:40-57 | a.Prod(b) == b.Prod(a) |
| Coocs.DotDisjoint | cooc.go:40-57 | vectors with no key in common have product 0 |
| Coocs.DotShared | cooc.go:40-57 | a shared key contributes exactly the product of its two weights |
| Results.Swap | result.go:15-17 | exactly positions i and j are exchanged |
| Results.LessIsStrictOrder | result.go:19-21 | "greater value" is irreflexive, asymmetric and transitive |
| Results.SortDescending | result.go:19-21 | sorting with this Less permutes the results into non-increasing value |
| Results.DescendingFromEarlier | result.go:19-21 | in a sorted result list an earlier entry never has a smaller value than a later one |
| Tokens.TokenizeShape | tokens.go:48-50 | one token more than there are spaces, so never empty, and no token contains a space |
| Tokens.JoinTokenize | tokens.go:48-50 | joining the tokens with single spaces gives the line back |
| Tokens.TokenizeJoin | tokens.go:48-50 | splitting the space-joined list of space-free tokens gives the list back |
| Tokens.TokenizeSpaceEnds | tokens.go:48-50 | a trailing or leading space adds an empty token at that end |
| Tokens.TokenizeLine | tokens.go:48-50 | splitting at every space never gives an empty list; TokenizeShape, JoinTokenize and TokenizeJoin give its meaning |
| PrintedLabels.Format | mdl_segmenter.go:105 | the "%v" rendering of n ids is at least n + 2 characters long |
| PrintedLabels.MatchLoop | mdl_segmenter.go:93-107 | the range loop of Match as written, with the id count compared against the printed length kept: the result is the label kept so far or a rendering of at least two characters |
| PrintedLabels.MatchPrinted | mdl_segmenter.go:92-114 | Match as written returns a label of at least two characters |
| PrintedLabels.SegmentFrom | mdl_segmenter.go:81-89 | as written, each label moves the position on by its string length, at least 2, so from pos there are at most (\|s\| - pos + 1) / 2 labels |
| PrintedLabels.SegmentPrinted | mdl_segmenter.go:81-89 | as written, Segment gives at most half as many labels as elements, rounded up, so it never labels every element of a sequence of two or more |
| PrintedLabels.SegmentPrintedSkips | mdl_segmenter.go:86 | as written, [1, 2] with no accepted ngram is cut into the one label "[1]", where the greedy cover has [1] and [2] |
| PrintedLabels.MatchPrintedKeepsShorter | mdl_segmenter.go:104 | as written, with [1, 2] visited before [1, 2, 3], Match of [1, 2, 3] returns "[1 2]", not the longest match [1, 2, 3] |

## Left out

- `NearestNeighbors` and `NearestNeighborWorker` (corpus.go:230-257) are not modelled. They run goroutines over a channel and score with floating-point cosines.
- `Probability`, `ProbabilityTransition`, `ProbabilityTransitions`, `SummarizeProbabilities` and `Cooc.Mag` are not modelled. They are floating-point arithmetic (logarithms, powers, divisions).
- `DescriptionLength`, `DescriptionLengthModel`, `DescriptionLengthData` and `HuffmanBits` (mdl_segmenter.go:29-73) are not modelled. They are float64 `math.Log2` sums over the statistics that `SegmentationStats` produces, and those statistics are modelled.
- File and console I/O is not modelled: `TokensFromFile`, `TokenStreamer` and `Info`. `Corpora.Corpus.FromTokens` takes the token list that `CorpusFromFile` reads from its file. The lower-casing and character options therefore do not appear.
- mdl.go is entirely commented out in the source, so nothing of it is modelled.
- The example programs and the benchmarks are not part of this model.
- Float64 weights are exact `real`s. Rounding is not modelled: a float64 count stops being exact beyond 2^53, and sums of products depend on the order of addition in floating point.
- Integers are unbounded. Go's `int` overflow is not modelled; every length and id in the source stays far below it.
- Keys and labels rendered with `"%v"` are the int sequences themselves. This applies to `NgramSet.Key`, the labels of `Segment` and the keys of U and B. `"%v"` renders distinct `[]int`s as distinct strings, so membership and counting are unchanged.
- Segmenter.MDLSegmenter.Match: follows its doc comment, mdl_segmenter.go:91, and compares ngram lengths in elements. The code compares an element count with the length of the printed label (see Findings).
- Segmenter.MDLSegmenter.Segment: advances by the number of elements in the match, as its doc comment at mdl_segmenter.go:80 describes. The code advances by the length of the printed label (see Findings).
- Corpora.Corpus.Find: requires that q occurs. With an absent query, `SuffixSearch` returns (-1, -1) and the source indexes `sfx[-1]` and panics.
- Corpora.Corpus.CoocVector: requires that q occurs, for the same reason as Find.
- Corpora.Corpus.SearchesAgree: the fast and slow searches agree only for queries that occur. For an absent query `slowSearch` returns (n-1, 0), not (-1, -1). The model states exactly this.
- Corpora.Corpus.Ngrams: takes the order as a `nat`. With a negative order the source slices `corpus_slice[:order]` and panics.
- Seqs.SeqCmpLimited: takes the comparison length as a `nat`. Every caller passes a length or an order.
- Corpora.Corpus.BinarySearchMin and Corpora.Corpus.BinarySearchMax: require the suffix array to be sorted by the query's key. `SuffixSearch` establishes this from `Valid()` before calling them.
- Corpora.Corpus.CountNeighbours, Corpora.Corpus.TokenOf and Corpora.Corpus.ScanKeys: helper methods that hold the loops of `CoocVector`, `ToString` and `slowSearch`.
- `Len` of `Seqs`, `Suffixes`, `Corpus` and `Results` has no contract. Each returns the length of its array; `Corpora.Corpus.Len` returns that of `seq`.
- NgramSets.NgramSet.Key and NgramSets.NgramSet.In have no contract of their own. Key returns the ngram itself (see the `"%v"` line above). The meaning of In is carried by NgramSets.AddMembership, NgramSets.RemoveMembership and Segmenter.AcceptedAreMembers.
- `Seqs.Less`, `Corpora.Corpus.Less` and `Results.Less` are predicates without an ensures clause. Their meaning is stated by the strict-order lemmas beside them.
- Go's `sort.Sort` (introsort) is replaced by `Sorting.SortBy`, an insertion sort by adjacent exchanges with the same `Less`. Only the result is modelled: a permutation with no adjacent inversion. The sequence of swaps is not.
- Ranging over a Go map is modelled by picking an arbitrary remaining key. No particular order is modelled; every result is proved independent of the order.

## Findings

| source | as written | input that shows it | evidently intended | confidence | as-written member | corrected member |
|---|---|---|---|---|---|---|
| mdl_segmenter.go:86 | `pos += len(match)` advances by the length of the printed label, e.g. 3 for "[1]" | sequence [1, 2], no accepted ngram: one label "[1]", and the 2 is never covered | advance by the number of elements matched, so the labels cover the sequence (doc comment, line 80) | high (not executed) | PrintedLabels.SegmentPrintedSkips | Segmenter.MDLSegmenter.Segment |
| mdl_segmenter.go:104 | `len(ngram_seq) > len(match)` compares an element count with the length of the printed label kept so far | accepted [1, 2] and [1, 2, 3], visited in that order, on [1, 2, 3]: "[1 2]" is kept, since 3 > 5 is false | keep the longest matching ngram (doc comment, line 91) | high (not executed) | PrintedLabels.MatchPrintedKeepsShorter | Segmenter.MDLSegmenter.Match |
