# 1BRC aggregator core in Dafny

This project models the core of a "one billion row challenge" solver written in
Rust. The solver reads a buffer of `city;temperature\n` rows. It cuts the buffer
into chunks at line boundaries and scans each chunk on its own worker into a
hash table of per-city records (min, sum, max, count). It then merges those
tables into one map ordered by city name and prints
`{city=min/mean/max, ...}\n`.

The modules follow the program:

- `Bytes` (bytes.dfy): bytes, `Option`, the `memchr` search `IndexOf`, and sequence helpers.
- `LineIterator` (rows.dfy): the `Rows` iterator, as a class with a cursor. Its
  specification function is `Lines`, with lemmas relating the lines to the
  buffer (joining, counting, appending).
- `Split` (split.dfy): `into_chunks`. `IntoChunks` is the loop, proved equal to
  the recursive `Chunks`. Lemmas state what the chunks cover, where they are
  cut, how many there are, and that their rows are the rows of the buffer.
- `SplitVectors` (split_vectors.dfy): the unit tests of `into_chunks`, proved as lemmas.
- `Bits` (bits.dfy): `trailing_zeros` on a 64-bit word.
- `Temperature` (temperature.dfy): the word-parallel decoder `parse_temperature`.
  It is modelled bit for bit as written (`ParseTemperature`) and compared with
  the digit-by-digit decoder left in the source as a comment (`Reference`).
  `ParseTemperatureSigned` is a corrected word decoder; see "## Findings".
- `Records` (records.dfy): `Record` with `new`, `add` and `merge` as functions on
  values. The lemmas say what a record summarizes (min, max, sum and count of
  its samples) and that merge is associative and, for one city, commutative.
- `RecordSlots` (records.dfy): a `Slot` class whose fields `add` and `merge`
  update in place, each proved to follow the `Records` functions.
- `ChunkTable` (table.dfy): one worker. Rows are split at `;`, the city is
  hashed, and the row is upserted into a table keyed by the hash alone
  (`hack_map_entry`). Lemmas give the exact table when no two cities collide,
  and show a collision folding two cities into one record.
- `CityTotals` (totals.dfy): the BTreeMap merge of the chunk tables. It is proved
  independent of the order of records within a table and of the order in which
  tables arrive, and exact per city when nothing collides.
- `Output` (output.dfy): the sorted walk over the map and the `{`, `=`, `, `,
  `}\n` framing.
- `Pipeline` (pipeline.dfy): `parse_from_str` end to end.
  `Pipeline.ParseFromStrExact` states the main result: with no hash collision
  among the rows' cities, the output lists every city of the rows once, in
  ascending byte order, with exactly the min, max, sum and count of its samples.

Temperatures are integers in tenths. The floating-point conversion and the
per-record text of `Record::write` are a parameter `text` (see "## Left out").

Where the code departs from what its comments and tests intend, the model follows the code:

- The chunks need not be exhaustive. When what remains after a cut is a
  single byte, the loop stops and that byte is in no chunk
  (`Split.LastByteDropped`). `Split.ChunksCoverWhenLastLineLong` states when
  the chunks do cover the whole buffer.
- The word decoder loads four bytes, and its sign handling does not produce
  negative values, where the digit-by-digit decoder left in a comment does
  (see "## Findings"). The pipeline decodes with the word decoder as written.

## Model

| member | source | states |
|---|---|---|
| Bytes.IndexOf | src/split.rs:26-29 | `memchr`: the index returned holds the byte and no earlier index does; None exactly when the byte is absent |
| LineIterator.Rows.constructor | src/lib.rs:29-31 | a fresh iterator has its cursor at 0, and the lines still to come are all the lines of the buffer |
| LineIterator.Rows.Next | src/lib.rs:37-56 | None (cursor unchanged) once the cursor is at the end; otherwise the next line, without any '\n', with the cursor strictly advanced and still within the buffer; the lines still to come lose exactly the line returned |
| LineIterator.LinesStep | src/lib.rs:44-48 | a line ends at the first '\n', and the lines after it are those of the buffer past that '\n' |
| LineIterator.LinesNonEmpty | src/lib.rs:39-55 | a non-empty buffer yields at least one line |
| LineIterator.LinesHaveNoNewline | src/lib.rs:44-54 | no line yielded contains '\n' |
| LineIterator.LinesJoin | src/lib.rs:37-56 | joining the lines with '\n', plus one '\n' if the buffer ends with one, rebuilds the buffer: nothing is lost and no empty trailing line is produced |
| LineIterator.LinesCount | src/lib.rs:37-56 | the number of lines is the number of '\n' plus one for an unterminated last line |
| LineIterator.LinesAppend | src/lib.rs:37-56 | the lines of a buffer cut right after a '\n' are the lines of the two parts |
| Split.CutAfter | src/split.rs:24-29 | a chunk ends after its start; it ends right after a '\n', or at the end of the buffer; and it is at least the stride long unless it reaches the end |
| Split.IntoChunks | src/split.rs:13-41 | the loop returns exactly the chunks of the recursive definition `Chunks` |
| Split.ChunksFromPush | src/split.rs:24-37 | one loop iteration pushes the next chunk and continues from its end unless the break is taken |
| Split.ChunksFromStep | src/split.rs:24-37 | the chunks from a position are the chunk ending at the next cut, then the chunks from that cut unless at most one byte remains |
| Split.ChunksFromCover | src/split.rs:23-38 | the chunks from a position are consecutive slices of the buffer starting at that position |
| Split.ChunksFromCuts | src/split.rs:23-38 | the chunks are non-empty, and every chunk but the last ends with '\n' and is longer than the stride |
| Split.ChunksFromLast | src/split.rs:23-38 | the last chunk ends with '\n' or at the end of the buffer |
| Split.ChunksShape | src/split.rs:13-41 | no chunks exactly for an empty buffer or n = 0; otherwise non-empty consecutive slices from offset 0, cut after '\n', each but the last longer than len/n, the last ending with '\n' or at the end |
| Split.ChunksEmpty | src/split.rs:17-19 | an empty buffer or n = 0 gives no chunks, and nothing else does |
| Split.ChunksCover | src/split.rs:21-38 | the chunks are consecutive slices of the buffer from offset 0 |
| Split.ChunksCut | src/split.rs:21-38 | the chunks are non-empty, cut after '\n', each but the last longer than len/n |
| Split.ChunksLast | src/split.rs:31-35 | the last chunk ends with '\n' or at the end of the buffer |
| Split.ChunksCoverWhenLastLineLong | src/split.rs:33-35 | the chunks concatenate to the whole buffer unless the buffer ends with '\n' followed by one byte |
| Split.LastByteDropped | src/split.rs:33-35 | "a\nb" cut into 2 chunks gives only "a\n": a one-byte remainder is dropped |
| Split.ConcatLengthLower | src/split.rs:21-29 | k chunks cut after strides of m bytes span at least (k-1)(m+1)+1 bytes |
| Split.PiecesBound | src/split.rs:21 | with stride len/n, such a span fits in the buffer only if k <= n |
| Split.ChunkCountBound | src/split.rs:13-41 | at most n chunks |
| Split.ChunkCountByLines | src/split.rs:23-38 | at most one more chunk than the buffer has '\n' bytes, so fewer, larger chunks when there are few lines |
| Split.NewlinesInConcat | src/split.rs:26-31 | k chunks cut after '\n' hold at least k-1 '\n' bytes |
| Split.LinesOfChunks | src/split.rs:26-31 | the rows of the covered part of the buffer are the rows of each chunk, in order: no row is split between two chunks |
| SplitVectors.CutAt | src/split.rs:24-27 | the cut lands right after the first '\n' at or after the stride boundary |
| SplitVectors.CutAtEnd | src/split.rs:28 | with no '\n' after the stride boundary the chunk runs to the end |
| SplitVectors.Empty | src/split.rs:47-52 | the empty buffer gives no chunks |
| SplitVectors.OneNewline | src/split.rs:54-63 | "\n" gives ["\n"] for n = 2 and n = 1 |
| SplitVectors.NoNewline | src/split.rs:64-66 | "Kunming;19.8" gives one chunk |
| SplitVectors.EvenlyDivisible | src/split.rs:69-74 | four rows into 2 gives rows 1-3 and row 4 |
| SplitVectors.NotEvenlyDivisible | src/split.rs:76-81 | five rows into 2 gives rows 1-3 and rows 4-5 |
| SplitVectors.MoreChunksThanRows | src/split.rs:83-88 | three rows into 5 gives three chunks |
| Bits.TrailingZerosLowestBit | src/lib.rs:123 | for a non-zero word, `trailing_zeros` is below 64 and is the position of the lowest set bit |
| Bits.PowerIndex | src/lib.rs:123 | a single-bit word is 1 shifted by its index |
| Temperature.DotPosition | src/lib.rs:121-124 | `dot` gives 12, 20 or 28 for a clear bit 4 in byte 1, 2 or 3, and 64 when all are set |
| Temperature.DotOfShapes | src/lib.rs:121-124 | for the four field shapes `dot` locates the '.': 12 for `d.d`, 20 for `dd.d` and `-d.d`, 28 for `-dd.d` |
| Temperature.LoadWordBytes | src/lib.rs:135 | the word read is the first four bytes, little-endian, with the byte after a three-byte field taken from the buffer |
| Temperature.ReferenceOfShapes | src/lib.rs:139-153 | the commented-out digit decoder gives 10a+b, 100a+10b+c, -(10a+b) and -(100a+10b+c) for the four shapes |
| Temperature.NibbleDigit | src/lib.rs:130 | the low nibble of a digit byte is its value |
| Temperature.SignBitOf | src/lib.rs:128 | the logical shift gives 1 for a leading '-' (bit 4 clear) and 0 for a digit |
| Temperature.MagnitudeOf | src/lib.rs:130-131 | the magic multiplication gives 100h+10t+u for packed digits |
| Temperature.MagnitudeOfMinus | src/lib.rs:129-131 | with the sign bit only 0 or 1, the mask keeps the '-' nibble 0xC in the hundreds place: 1200+10t+u, cut to 10 bits, is 176+10t+u |
| Temperature.FinishUnsigned | src/lib.rs:132 | with `signed` 0 the result is the magnitude |
| Temperature.FinishOne | src/lib.rs:132 | with `signed` 1 the xor/subtract only clears bit 0 of an odd magnitude; it does not negate |
| Temperature.FinishAllOnes | src/lib.rs:132 | with `signed` all ones the xor/subtract negates the magnitude |
| Temperature.ValueRange | src/lib.rs:127-133 | `value` as written never goes below -1 nor above 1023 |
| Temperature.NonNegativeAgrees | src/lib.rs:117-153 | for `d.d` and `dd.d` the word decoder equals the commented digit decoder |
| Temperature.NegOneDigitAsWritten | src/lib.rs:127-137 | for `-a.b` the word decoder gives 176+10a+b, less 2 when b is odd: at least 175, where the digit decoder gives -(10a+b) <= 0 |
| Temperature.NegTwoDigitsAsWritten | src/lib.rs:127-137 | for `-ab.c` the word decoder gives 100a+10b: the fraction digit is never read and the sign is lost |
| Temperature.MinusFivePointThree | src/lib.rs:128 | "-5.3" decodes to 227 where the digit decoder gives -53 |
| Temperature.MinusTwelvePointThree | src/lib.rs:135 | "-12.3" decodes to 120 where the digit decoder gives -123 |
| Temperature.SignedValueOf | src/lib.rs:127-133 | with an all-ones or zero sign mask, the xor/subtract gives the signed magnitude |
| Temperature.SignedAgrees | src/lib.rs:117-153 | the corrected word decoder equals the digit decoder on all four shapes, whatever byte follows the field |
| Temperature.SignedAgreesOneDigit | src/lib.rs:143 | the corrected decoder gives 10a+b for `a.b` |
| Temperature.SignedAgreesTwoDigits | src/lib.rs:144 | the corrected decoder gives 100a+10b+c for `ab.c` |
| Temperature.SignedAgreesNegOneDigit | src/lib.rs:145 | the corrected decoder gives -(10a+b) for `-a.b` |
| Temperature.SignedAgreesNegTwoDigits | src/lib.rs:146 | the corrected decoder gives -(100a+10b+c) for `-ab.c` |
| Records.Add | src/lib.rs:92-101 | `add` keeps the city, lowers min or raises max to the value only when it lies outside, adds it to sum and counts it |
| Records.Merge | src/lib.rs:80-89 | `merge` keeps the city, takes the smaller min and the larger max, and adds sums and counts |
| Records.NewSummarizes | src/lib.rs:69-77 | `new` summarizes the one sample: min = max = sum = value, count 1 |
| Records.AddSummarizes | src/lib.rs:92-101 | adding a sample to the summary of some samples summarizes them plus that sample |
| Records.MergeSummarizes | src/lib.rs:80-89 | merging the summaries of two runs of samples summarizes their concatenation |
| Records.AddIsMergeNew | src/lib.rs:80-101 | adding a value is merging a fresh record of it |
| Records.MergeCommutes | src/lib.rs:80-89 | two records of one city merge to the same record in either order |
| Records.MergeAssociative | src/lib.rs:80-89 | merge is associative |
| Records.MinOfConcat | src/lib.rs:81-83 | the minimum of two runs is the smaller of their minima |
| Records.MaxOfConcat | src/lib.rs:84-86 | the maximum of two runs is the larger of their maxima |
| Records.SumOfConcat | src/lib.rs:87 | the sum of two runs is the sum of their sums |
| Records.MinAtMostMax | src/lib.rs:59-66 | a record's min is never above its max |
| Records.SumBetween | src/lib.rs:106-109 | min·count <= sum <= max·count, so the mean lies between min and max |
| RecordSlots.Slot.constructor | src/lib.rs:69-77 | a fresh slot holds `Record::new(value, city)` |
| RecordSlots.Slot.Add | src/lib.rs:92-101 | the fields updated in place hold `add` of the old record |
| RecordSlots.Slot.Merge | src/lib.rs:80-89 | the fields updated in place hold `merge` of the old record with the other |
| ChunkTable.SplitRow | src/lib.rs:174-180 | a row splits at its first ';' into a city without ';' and the rest; None (the `expect` panic) exactly when there is no ';' |
| ChunkTable.ParseRow | src/lib.rs:174-191 | a row parses exactly when it has a ';' |
| ChunkTable.ParseRowOf | src/lib.rs:174-191 | a city without ';' followed by ';' and a field parses to that city and the decoded field |
| ChunkTable.ParseRows | src/lib.rs:173-196 | parsed rows give one sample per row |
| ChunkTable.ParseRowsFails | src/lib.rs:174 | parsing fails exactly when some row has no ';' |
| ChunkTable.UpsertSpec | src/lib.rs:14-21 | the upsert adds at most the slot of the hash and changes no other slot; a present hash adds the sample to the record there and keeps its city; an absent one gets `new` with this city |
| ChunkTable.ScanChunk | src/lib.rs:171-196 | the worker loop over `Rows` gives exactly the fold of the chunk's rows, or None on a row without ';' |
| ChunkTable.ScanRowsFold | src/lib.rs:173-196 | scanning rows is parsing them all and then inserting the samples in order |
| ChunkTable.FoldSnoc | src/lib.rs:173-196 | inserting one more sample at the end is one more upsert |
| ChunkTable.FoldBuild | src/lib.rs:173-196 | the left-to-right fold is the table `Build` of the samples |
| ChunkTable.ScanChunkTable | src/lib.rs:171-196 | a chunk scans to the table built from its parsed rows, or None exactly when a row lacks ';' |
| ChunkTable.HashesOfMember | src/lib.rs:182-189 | a hash is among the samples' hashes exactly when some sample's city has it |
| ChunkTable.HashesOfSize | src/lib.rs:182-189 | there are no more hashes than samples |
| ChunkTable.BuildKeys | src/lib.rs:193-195 | the table's keys are exactly the hashes of the samples' cities, so it has at most one slot per row |
| ChunkTable.ValuesOfEmpty | src/lib.rs:173-196 | a city has no values exactly when no sample names it |
| ChunkTable.BuildSlot | src/lib.rs:193-195 | a city whose hash no other city shares has the slot of its hash, summarizing exactly its samples |
| ChunkTable.BuildSlotFresh | src/lib.rs:193-195 | a city with no samples and no colliding neighbour has no slot |
| ChunkTable.BuildSummarizes | src/lib.rs:193-195 | with no collisions, every sample's city has a slot that summarizes exactly that city's samples |
| ChunkTable.BuildNamed | src/lib.rs:193-195 | every slot sits under the hash of the city it names, and that city occurs in the samples |
| ChunkTable.ValuesOfConcat | src/lib.rs:173-196 | a city's values in two runs of rows are its values in each, in order |
| ChunkTable.CollidingCities | src/lib.rs:18-20 | two different cities with one hash end up in one record, named after the first and counting both rows |
| CityTotals.CityAt | src/lib.rs:207-210 | in a chunk table a city names at most one record, the one under its hash |
| CityTotals.CitiesRemove | src/lib.rs:207 | taking one record out of a table removes exactly its city |
| CityTotals.AbsorbJoined | src/lib.rs:207-211 | absorbing any one record and then the rest equals joining the whole table, whatever record comes first |
| CityTotals.JoinedKeys | src/lib.rs:207-211 | after a table is merged the map's cities are the old ones plus the table's |
| CityTotals.JoinedEmpty | src/lib.rs:207-211 | merging an empty table changes nothing |
| CityTotals.MergeChunk | src/lib.rs:207-211 | the inner merge loop, in whatever order the table yields its records, gives the join of the table into the map |
| CityTotals.MergeChunks | src/lib.rs:203-212 | the outer loop gives the join of all tables in the order received |
| CityTotals.JoinedCommutes | src/lib.rs:203-212 | two tables merged in either order give the same map |
| CityTotals.JoinedTwiceKeys | src/lib.rs:207-211 | after two tables the cities are the old ones plus both tables' |
| CityTotals.JoinedCommutesAt | src/lib.rs:207-211 | any one city has the same record after two tables in either order |
| CityTotals.JoinAllSwap | src/lib.rs:204-205 | swapping two neighbouring tables in the arrival order leaves the final map unchanged, so any arrival order gives the same result |
| CityTotals.JoinAllKeys | src/lib.rs:203-212 | the final map's cities are those of all tables, each record filed under its own city |
| CityTotals.CitiesOfBuild | src/lib.rs:193-210 | with no collisions a chunk table names exactly the cities of its rows, each with exactly its samples' summary |
| CityTotals.JoinedExact | src/lib.rs:207-211 | merging the exact table of some rows into the exact map of earlier rows gives the exact map of all of them |
| CityTotals.JoinAllExact | src/lib.rs:203-212 | merging the chunk tables gives, per city, exactly the summary of all samples of all chunks |
| CityTotals.BuildsKeyed | src/lib.rs:193-195 | every chunk table keeps each record under its city's hash |
| Output.BelowIrreflexive | src/lib.rs:203 | the BTreeMap key order is irreflexive |
| Output.BelowTransitive | src/lib.rs:203 | the key order is transitive |
| Output.BelowTotal | src/lib.rs:203 | any two different keys are ordered |
| Output.LeastExists | src/lib.rs:217 | a non-empty key set has a least key |
| Output.SortedExists | src/lib.rs:217 | every key set has an ascending listing |
| Output.Sorted | src/lib.rs:217 | `map.iter()` lists the keys in strictly ascending byte order, each key once and nothing else |
| Output.InOrder | src/lib.rs:217 | the walk's key order is ascending and holds exactly the map's keys |
| Output.AscendingUnique | src/lib.rs:217 | only one ascending sequence holds a given key set |
| Output.AscendingTail | src/lib.rs:217 | dropping the least key keeps the listing ascending and removes only that key |
| Output.JoinSnoc | src/lib.rs:222-224 | a separator goes between two entries and never after the last |
| Output.Render | src/lib.rs:214-228 | the output loop writes exactly `{`, the entries separated by `, `, and `}\n` |
| Output.WrittenStep | src/lib.rs:217-225 | one loop step appends the entry, then `, ` unless it is the last |
| Output.JoinLength | src/lib.rs:222-224 | the joined entries are as long as the entries plus one separator between each two |
| Output.DocumentShape | src/lib.rs:214-227 | the output starts with `{`, ends with `}\n`, and has the entries' length plus two bytes per separator plus three; no city gives `{}\n` |
| Pipeline.StripNewline | src/lib.rs:157 | the stripped buffer plus one '\n' when the buffer ended with one is the buffer |
| Pipeline.StripOneNewline | src/lib.rs:157 | only one trailing '\n' is stripped, not all |
| Pipeline.ScanChunks | src/lib.rs:167-201 | all workers finish exactly when every row of every chunk has a ';', and each chunk then gives the table built from its rows |
| Pipeline.ParseFromStr | src/lib.rs:156-229 | the whole call, decoding with `parse_temperature` as written: strip, chunk, scan, merge, sort and write, or None on a row without ';' |
| Pipeline.ParseRowsAppend | src/lib.rs:173-196 | the rows of two runs parse to the samples of each, or fail if either fails |
| Pipeline.ParseEach | src/lib.rs:167-196 | parsing the chunks' rows one chunk at a time is parsing all covered rows |
| Pipeline.CoveredRowsOfChunks | src/lib.rs:164-173 | the rows the workers see are the rows of the covered part of the buffer |
| Pipeline.ParseFromStrFails | src/lib.rs:174 | the call panics exactly when some covered row has no ';' |
| Pipeline.NoCollisionsInEachChunk | src/lib.rs:182-195 | no collision among all rows means none within any chunk |
| Pipeline.ParseFromStrExact | src/lib.rs:156-229 | with no hash collision among the rows' cities, the output lists every city of the rows once, in ascending order, with exactly the min, max, sum and count of its samples |
| Pipeline.CoveredRowsAll | src/lib.rs:157-173 | with at least one thread and no one-byte tail, the workers see exactly the rows of the stripped buffer |
| Pipeline.ExpectedIndependentOfThreads | src/lib.rs:159-164 | with no hash collision and no one-byte tail, every thread count gives the same output |
| CityTotals.ExactUnique | src/lib.rs:203-212 | the samples determine the merged map: two maps exact for the same samples are equal |

## Left out

- Floating point: samples are integers in tenths. The final division by 10
  (src/lib.rs:137), the `f32` sums and the rounding of the mean in
  `Record::write` (src/lib.rs:103-113) are not modelled. The text of one record
  is the parameter `text` of `Output.Render` and `Pipeline.ParseFromStr`.
- Threads and the channel: the workers run one after another, and tables are
  merged in chunk order. `CityTotals.JoinAllSwap` shows that the arrival order
  does not change the result.
- `FxHasher` is the function parameter `hash` on city bytes, with its 0xFF
  suffix folded in. Its actual values, and so which cities collide, are not
  modelled.
- hashbrown and BTreeMap internals (capacity, growth, iteration order) are maps.
  The order in which a table yields its records is left open with `:|` in
  `CityTotals.MergeChunk`.
- The four-byte unaligned read can read past the end of a three-byte field. The
  byte found there is the parameter `pad`.
- `available_parallelism` is the parameter `threadCount`; its fallback of 4 is not modelled.
- UTF-8 checks and `from_utf8_unchecked`: the buffer and the output are bytes.
- `parse_from_path`, memory mapping and the command-line entry point are not
  part of this model.
- Pipeline.ParseFromStr: decodes with `Temperature.ParseTemperature`, the
  code as written, so negative fields come out wrong. The lemmas about the
  pipeline take the decoder as a parameter and hold for the corrected
  `Temperature.ParseTemperatureSigned` as well.
- Pipeline.ParseFromStrExact: stated only when no two cities of the rows share
  a hash. `ChunkTable.CollidingCities` shows what happens otherwise.
- Pipeline.ParseFromStrExact: covers the rows of the chunks, which lack a
  one-byte tail when `into_chunks` drops one (`Split.LastByteDropped`).
  Without such a tail they are all the rows of the stripped buffer, for any
  thread count (`Pipeline.CoveredRowsAll`).

## Findings

| source | as written | input that shows it | evidently intended | confidence | as-written member | corrected member |
|---|---|---|---|---|---|---|
| src/lib.rs:128 | `signed` comes from a logical shift of a `u64`, so it is 0 or 1, never all ones; the negation `(abs ^ signed) - signed` then only clears bit 0, and the `!(signed & 0xFF)` mask keeps the '-' nibble in the hundreds place | the field "-5.3" decodes to 227 (22.7) | -53 (-5.3), as the digit-by-digit decoder in the comment at src/lib.rs:139-153 gives | not executed | Temperature.MinusFivePointThree | Temperature.SignedAgrees |
| src/lib.rs:135 | only four bytes (`u32`) are loaded, so the fraction digit of a five-byte field `-dd.d` is never read | the field "-12.3" decodes to 120 (12.0) | -123 (-12.3) | not executed | Temperature.MinusTwelvePointThree | Temperature.SignedAgrees |
