# rum_ts_utils.c: the discrete core of RUM's full-text support

This project models the non-numeric part of the text-search support of the RUM
index access method (`rum_ts_utils.c`) in Dafny, and proves what that code
promises:

- **Position codec** (`PosCodec`, codec.dfy). `compress_pos` writes a
  tsvector position list as one variable-length record per position:
  - the uint16 difference of the 14-bit offsets goes out in 7-bit groups with
    HIGHBIT set while it is at least 32;
  - a terminating byte then carries the last 5 bits and the 2-bit weight.

  `decompress_pos` reads one record back into a running position, and
  `count_pos` counts terminating bytes. The model proves:
  - the round trip, for any list of positions, sorted or not;
  - the shape of each record (1 to 3 bytes, HIGHBIT set on all but the last);
  - the payload size (between npos and 3·npos bytes, so it fits the
    2·npos·sizeof(WordEntryPos) buffer `rum_extract_tsvector` allocates);
  - that `count_pos` over a payload gives back npos.
- **Operand normaliser** (`TsQuery`, tsquery.dfy). `SortAndUniqItems` and its
  comparator `compareQueryOperand` collect the operand items of a flat query
  array, sort them, and remove adjacent duplicates in place with
  `ptr`/`prevptr`. The survivors are operand items in strictly increasing key
  order, no more of them than the query has operands, and every operand of the
  query has a survivor with its key.
- **Lookup** (`TsVector`, tsvector.dfy). `find_wordentry` binary-searches the
  sorted lexemes of a tsvector:
  - an exact operand finds the one equal entry or none;
  - a prefix operand finds exactly the run of entries it is a prefix of.

  The same module holds `cnt_length` and the per-entry work of
  `rum_extract_tsvector`.
- **Query extraction and recheck** (`Extract`, extract.dfy).
  - `rum_extract_tsquery` produces the entries, their partial-match flags and
    the item-to-entry map; it fails with "Operand not found!" exactly when an
    operand's key is missing, which never happens after `SortAndUniqItems`.
  - `checkcondition_rum` answers from the check array through that map and
    raises the recheck flag exactly for weighted operands.
- **Weights** (`Weights`, weights.dfy). `getWeights` validates the optional
  weight array. Without one it returns the defaults; with a valid one it
  returns the caller's four weights, each negative one replaced by its
  default; otherwise it raises one of four errors. Every weight it returns
  lies in [0, 1].

`Lexemes` (lexemes.dfy) models PostgreSQL's `tsCompareString`, which both the
sort and the search use. In normal mode it compares bytes lexicographically,
with a shorter key first on a tie. In prefix mode it answers 0 exactly when the
first key is a byte prefix of the second. The comment above
`compareQueryOperand` (rum_ts_utils.c:423), and descriptions that repeat it,
say operands are sorted "by (length, word)". The code calls `tsCompareString`,
which orders lexicographically; the model follows the code. The prefix scan of
`find_wordentry` only finds a contiguous run under that order
(`Lexemes.PrefixConvex`).

`Common` (common.dfy) holds the `Byte` type and the `Option` and `Result`
datatypes. A NULL pointer or an SQL NULL is `None`. An `ereport`/`elog(ERROR)`
is a `Failure`.

Representation:
- A `WordEntryPos` is an integer below 2^16. Its bit masks become arithmetic
  (`& 0x3FFF` is `% 0x4000`, `>> 14` is `/ 0x4000`), and the uint16
  wrap-around is written out as `% 0x10000`.
- A key is a `seq<Byte>`.
- A tsvector is its sequence of `WordEntry` values, in strictly increasing key
  order.
- A query is its flat sequence of `QueryItem`s. "Pointers" to operand items
  are their indices.
- The loops of the C code are `method`s with loop invariants. Most are
  proved against a specification function: `Compress`, `DecodeNext`,
  `CountTerminators`, `ValIndices`, `DedupLoop`, `TotalLength` or `WeightsOf`.
  What the source promises is proved about those functions as lemmas. The
  loops of `SearchExact`/`FindWordEntry`, `BuildMap`, `CollectEntries` and
  `ExtractTsVector` are proved directly against the properties they promise.

## Model

| member | source | states |
|---|---|---|
| PosCodec.CompressPos | rum_ts_utils.c:206-236 | writes exactly the payload `Compress(pos)` into the buffer, returns its length, and leaves the rest of the buffer unchanged |
| PosCodec.WriteRecord | rum_ts_utils.c:216-232 | the inner loop writes the record of one difference and weight at the cursor and returns the cursor after it, bytes before the cursor being the payload's |
| PosCodec.Delta | rum_ts_utils.c:216 | the difference stored is the offset difference wrapped to uint16 (below 2^16) |
| PosCodec.SetWeight | rum_ts_utils.c:258 | WEP_SETWEIGHT replaces the weight bits and keeps the 14-bit offset |
| PosCodec.EncodeOneShape | rum_ts_utils.c:218-231 | one record is 1 to 3 bytes; every byte but the last has HIGHBIT set; the last has it clear and is at most 127; a difference below 32 takes one byte |
| PosCodec.ContinuationBits | rum_ts_utils.c:222 | a continuation byte carries the low 7 bits of the difference |
| PosCodec.TerminatingBits | rum_ts_utils.c:228 | a terminating byte carries the last 5 bits of the difference and the weight, which decompress_pos reads back |
| PosCodec.CompressLength | rum_ts_utils.c:214-235 | compress_pos writes between npos and 3·npos bytes |
| PosCodec.CompressFitsBuffer | rum_ts_utils.c:722-724 | the payload fits the 2·npos·sizeof(WordEntryPos) bytes rum_extract_tsvector allocates |
| PosCodec.CompressSplit | rum_ts_utils.c:214-234 | the payload of a concatenated list is the payload of the first part followed by that of the second, continuing from the first part's last position |
| PosCodec.CompressEndsWithTerminator | rum_ts_utils.c:226-231 | a non-empty payload ends with a terminating byte |
| PosCodec.CompressCount | rum_ts_utils.c:265-275 | the payload holds exactly npos terminating bytes, the elements count_pos counts |
| PosCodec.EncodeOneCount | rum_ts_utils.c:218-231 | each record holds exactly one terminating byte |
| PosCodec.DecompressPos | rum_ts_utils.c:238-263 | reads one record from the cursor: the cursor after it and the new position are those of `DecodeNext` |
| PosCodec.DecodeNext | rum_ts_utils.c:238-263 | one decompress_pos call returns a cursor past the one it was given and inside the buffer |
| PosCodec.ScanEndsOnTerminator | rum_ts_utils.c:246-262 | when the inner loop of decompress_pos ends, the last byte it read is a terminating byte |
| PosCodec.DecodeNextNone | rum_ts_utils.c:246-262 | one decompress_pos call finds no record exactly when no terminating byte lies ahead of the cursor |
| PosCodec.CompressPrefix | rum_ts_utils.c:214-234 | the payload of a list is the payload of its first i positions followed by that of the rest, continuing from the i-th position |
| PosCodec.DecodePrefix | rum_ts_utils.c:206-263 | after i decompress_pos calls on a compress_pos payload the first i positions have come back and the cursor is at the end of their records |
| PosCodec.PrefixHasTerminator | rum_ts_utils.c:226-247 | while positions remain, a terminating byte lies ahead of the cursor, so the next decompress_pos call meets its precondition and stays inside the payload |
| PosCodec.DecodeN | rum_ts_utils.c:238-263 | n successive decompress_pos calls return n positions and a cursor not before the start and, for n > 0, inside the buffer |
| PosCodec.Scan | rum_ts_utils.c:246-262 | the inner loop of decompress_pos stops past its start, inside the buffer, with a weight below 4 |
| PosCodec.ScanFindsTerminator | rum_ts_utils.c:246-262 | when a terminating byte lies ahead, the inner loop of decompress_pos ends on it |
| PosCodec.ScanEncoded | rum_ts_utils.c:246-262 | reading the record of difference d and weight w at any shift adds d at that shift, ends with weight w and stops right after the record |
| PosCodec.ScanRecord | rum_ts_utils.c:246-262 | a record read from its first byte yields the difference and the weight written into it |
| PosCodec.ShiftedRegroup | rum_ts_utils.c:224-252 | splitting off the low 7 bits (`delta >>= 7`) and shifting them back in at i and i + 7 restores the difference |
| PosCodec.AdvanceIsWrappedAdd | rum_ts_utils.c:257-258 | the model's new position equals the uint16 sum `*pos += delta` followed by WEP_SETWEIGHT |
| PosCodec.DeltaRestores | rum_ts_utils.c:216-258 | adding back the uint16 difference and setting the weight restores the encoded position, whatever the order of the two positions |
| PosCodec.DecodeNextEncoded | rum_ts_utils.c:206-263 | decompress_pos on a record written by compress_pos returns the position that was written and stops after the record |
| PosCodec.RoundTripFrom | rum_ts_utils.c:206-263 | decoding a compressed run from any previous position gives back the run and stops right after it |
| PosCodec.RoundTrip | rum_ts_utils.c:206-263 | starting from position 0, npos calls of decompress_pos over the payload return exactly the positions given to compress_pos and end at the payload's end |
| PosCodec.CountPos | rum_ts_utils.c:265-275 | count_pos returns the number of bytes with HIGHBIT clear among the first len bytes |
| Lexemes.Compare | rum_ts_utils.c:151-154 | the model answers the sign of tsCompareString's result: -1, 0 or 1 |
| Lexemes.CompareZeroIffEqual | rum_ts_utils.c:432-434 | normal mode answers 0 exactly for equal keys |
| Lexemes.CompareAntisymmetric | rum_ts_utils.c:175-185 | swapping the keys negates the answer |
| Lexemes.LessTransitive | rum_ts_utils.c:470 | the normal-mode order is transitive |
| Lexemes.LessAsymmetric | rum_ts_utils.c:175-185 | a smaller key is different and not also greater |
| Lexemes.NotGreaterTotal | rum_ts_utils.c:470 | any two keys are ordered one way or the other |
| Lexemes.NotGreaterTransitive | rum_ts_utils.c:470 | "not greater" is transitive, and strict when either step is |
| Lexemes.ComparePrefixMode | rum_ts_utils.c:195-196 | prefix mode answers 0 exactly when the query key is a byte prefix of the entry key |
| Lexemes.PrefixNotGreater | rum_ts_utils.c:188-200 | a key never sorts after a key it is a prefix of |
| Lexemes.PrefixConvex | rum_ts_utils.c:195-200 | a key lying between a prefix and a key having that prefix has it too, so the matching entries are contiguous |
| TsQuery.CompareQueryOperand | rum_ts_utils.c:425-435 | compareQueryOperand answers 0 exactly for operands with equal keys, and below 0 exactly when the first key is smaller |
| TsQuery.ValIndices | rum_ts_utils.c:455-464 | the collected indices are no more than the items |
| TsQuery.ValIndicesMembers | rum_ts_utils.c:455-464 | the collected indices are exactly the indices of QI_VAL items |
| TsQuery.ValIndicesOperands | rum_ts_utils.c:455-466 | the collected indices name operand items only, and every operand is among them |
| TsQuery.CollectOperands | rum_ts_utils.c:453-466 | the collecting loop leaves the QI_VAL indices, in array order, in res[..size] |
| TsQuery.InsertByKey | rum_ts_utils.c:470 | one insertion step of the stand-in sort adds exactly the inserted index |
| TsQuery.SortByKey | rum_ts_utils.c:470 | the stand-in sort is a permutation of its input |
| TsQuery.InsertByKeySorted | rum_ts_utils.c:470 | inserting into a list sorted by key keeps it sorted |
| TsQuery.SortByKeySorted | rum_ts_utils.c:470 | the stand-in sort leaves the operands sorted by compareQueryOperand |
| TsQuery.SortOperands | rum_ts_utils.c:470 | the qsort_arg call leaves res[..size] sorted by key and a permutation of what it held, and the rest unchanged |
| TsQuery.DedupLoop | rum_ts_utils.c:472-486 | the duplicate-removing loop keeps the array length and leaves at least one survivor |
| TsQuery.RemoveDuplicates | rum_ts_utils.c:472-486 | the in-place loop leaves exactly the array and size `DedupLoop` computes, and nothing past n changes |
| TsQuery.DedupCorrect | rum_ts_utils.c:472-486 | on a sorted operand list the survivors are operands in strictly increasing key order, and each input operand's key is carried by a survivor |
| TsQuery.DedupLoopCorrect | rum_ts_utils.c:475-484 | from any state of the loop that keeps its invariant, the loop ends with strictly increasing survivors that carry every key seen |
| TsQuery.DedupKeep | rum_ts_utils.c:478-481 | keeping a new key (`*++prevptr = *ptr`) preserves the loop invariant |
| TsQuery.DedupSkip | rum_ts_utils.c:478-483 | skipping a repeated key preserves the loop invariant |
| TsQuery.StepsStrict | rum_ts_utils.c:472-486 | strictly increasing neighbours make the survivors strictly increasing throughout |
| TsQuery.SortAndDedup | rum_ts_utils.c:470-486 | the sort and the duplicate removal leave in res[..size] the survivors of the sorted operands |
| TsQuery.SortAndUniqItems | rum_ts_utils.c:444-488 | the result holds only QI_VAL items, in strictly increasing key order, no more than the query's operands, and every operand's key has a survivor |
| TsQuery.PermutedOperands | rum_ts_utils.c:470 | sorting operand indices yields operand indices |
| TsQuery.SurvivorsCoverOperands | rum_ts_utils.c:455-486 | every QI_VAL item of the query has a survivor with its key |
| TsVector.SearchExact | rum_ts_utils.c:169-186 | the binary search stops on the equal entry or runs out; every entry below StopHigh is smaller than the key and none from StopHigh on is; not found means no equal entry |
| TsVector.FindWordEntry | rum_ts_utils.c:161-204 | exact operand: nitem is 0 or 1 and the entry returned is the one equal to the key, NULL iff none; prefix operand: the entries returned are exactly those the key is a prefix of; NULL iff nitem is 0 |
| TsVector.SortedBelow | rum_ts_utils.c:182-183 | entries before one not greater than the key are smaller than it |
| TsVector.SortedAbove | rum_ts_utils.c:184-185 | entries after one not smaller than the key are greater than it |
| TsVector.CntLength | rum_ts_utils.c:130-150 | cnt_length returns the sum over entries of their position count, or 1 for an entry without positions |
| TsVector.EntryLength | rum_ts_utils.c:139-144 | an entry counts at least once and at least as often as it has positions |
| TsVector.TotalLengthSplit | rum_ts_utils.c:136-147 | the document length is the number of positions plus the number of entries without positions |
| TsVector.TotalLengthBounds | rum_ts_utils.c:136-147 | the document length is at least the number of entries and at least the number of positions |
| TsVector.TotalLengthIsSize | rum_ts_utils.c:136-147 | the document length equals the number of entries exactly when no entry has two or more positions |
| TsVector.ExtractEntry | rum_ts_utils.c:715-733 | an entry keeps its lexeme; its additional information is NULL exactly without haspos, and otherwise the compressed positions |
| TsVector.ExtractTsVector | rum_ts_utils.c:691-741 | one index entry per lexeme, in order, each with its compressed positions or NULL |
| TsVector.ExtractedDecodes | rum_ts_utils.c:719-727 | the stored additional information decodes back to the entry's positions, and count_pos over it gives their number |
| Extract.CollectEntries | rum_ts_utils.c:831-840 | entry i and its partial-match flag are the key and prefix flag of surviving operand i |
| Extract.EntriesSorted | rum_ts_utils.c:818-840 | the entries are strictly sorted |
| Extract.EntriesFromOperands | rum_ts_utils.c:831-840 | each entry carries the key and prefix flag of an operand of the query |
| Extract.EntriesCover | rum_ts_utils.c:818-840 | every operand's key is among the entries |
| Extract.DistinctOperands | rum_ts_utils.c:818-840 | the entries are strictly sorted and no more than the operands, each from an operand, and cover every operand's key |
| Extract.BuildMap | rum_ts_utils.c:829-865 | the rescan succeeds exactly when every operand's key is an entry; then each operand slot names an entry with an equal key and operator slots stay 0 |
| Extract.ExtractQuery | rum_ts_utils.c:782-871 | an empty query gives no entries and leaves the search mode; otherwise the mode follows tsquery_requires_match, the entries are strictly sorted distinct operand keys with their prefix flags, and the map sends each operand to its entry; "Operand not found!" is never raised |
| Extract.RumChkVal.CheckConditionRum | rum_ts_utils.c:55-70 | returns check[map[j]] and sets the recheck flag exactly when the operand has a weight, never clearing it |
| Extract.CheckAnswersPresence | rum_ts_utils.c:55-70 | with the map rum_extract_tsquery built, checkcondition_rum answers whether the operand's key is present in the indexed value |
| Weights.GetWeights | rum_ts_utils.c:743-779 | getWeights returns the defaults for NULL, fails on a non-one-dimensional, short or null-containing array or a resolved weight above 1, and otherwise returns each element, or its default when negative |
| Weights.WeightsInRange | rum_ts_utils.c:769-776 | every weight returned lies in [0, 1], one per lexeme class |
| Weights.WeightsReadFirstFour | rum_ts_utils.c:768-771 | of a valid array only the first four elements matter |
| Weights.WeightsFixedPoint | rum_ts_utils.c:743-779 | the weights returned, passed back in as an array, come back unchanged |

## Left out

- Floating-point scoring is not modelled: `word_distance`, `calc_rank_*`, `calc_rank`, `rum_ts_distance` and `rum_tsquery_distance` compute with exp, sqrt, log and float division. Their static `POSNULL` state goes with them.
- `rum_tsquery_pre_consistent` is left out: it only wraps `TS_execute`, which is PostgreSQL code outside this file.
- `TS_execute` is left out for the same reason. `checkcondition_rum` is modelled as the callback it calls.
- `Extract.ExtractQuery`: `tsquery_requires_match` is PostgreSQL code outside this file; its answer is the parameter `requiresMatch`.
- PostgreSQL function-manager and varlena plumbing is not modelled (`PG_GETARG_*`, `palloc`, `cstring_to_text_with_len`, `SET_VARSIZE`, `PG_FREE_IF_COPY`, `rum_tsvector_config`). The outputs become return values, and text entries are their keys.
- `TsQuery.SortOperands`: `qsort_arg` is PostgreSQL library code. It is stood in for by an insertion sort on values, and only what qsort_arg guarantees (sorted by key, a permutation) is stated.
- `TsQuery.SortAndUniqItems` does not state which of several operands with equal keys survives, or which prefix flag that survivor carries, because qsort_arg is not stable.
- `PosCodec.DecompressPos` requires a terminating byte ahead of the cursor; on a buffer without one the C code reads past its end.
- `PosCodec.DecompressPos`: the 7-bit groups are summed rather than OR-ed into a uint16. This does not matter here, because they land on disjoint bits and only the sum modulo 2^14 reaches the position (`AdvanceIsWrappedAdd`). Records of five or more bytes shift an `int` past bit 31: signed overflow from the fifth byte (i = 28), a shift count of 32 or more from the sixth (i = 35). Neither is modelled; compress_pos never writes such a record (`EncodeOneShape`).
- `Lexemes.Compare` keeps only the sign of tsCompareString's result; in its memcmp branch the real function returns memcmp's raw value. Every caller in rum_ts_utils.c tests only zero or the sign.
- `TsVector.CntLength` counts in unbounded integers; the 32-bit `int` overflow of a document with more than 2^31 positions is not modelled.
- `Weights.GetWeights` works on `real`, not float4: NaN, infinities and rounding are not modelled.
- The static `ws` buffer of `getWeights` is modelled as a fresh per-call array, and the returned weights as a sequence.
- `rum_extract_tsquery`'s `extra_data` array holds the same map pointer for every entry; it is modelled as the one map.
