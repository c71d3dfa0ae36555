# epa-ng set manipulators, modelled in Dafny

epa-ng places query sequences on a reference tree. In a distributed run the
placement results are split across workers and later aggregated again. The
templates in `src/set_manipulators.hpp` do this distribution and
aggregation over a `Sample`, an ordered vector of `PQuery` entries. Each
`PQuery` holds a `sequence_id`, a header and the ordered placement records
of one query sequence. The templates are:

- `collapse`: merges the entries of a Sample that share a sequence id into
  the first of them. The others are marked with the largest id value and
  purged. There is also a do-nothing overload for other types.
- `split`, in two forms. One sends each PQuery to the bucket
  `sequence_id % num_parts`. The other cuts any container into contiguous
  chunks of `ceil(size / num_parts)` elements.
- `merge`, in several forms:
  - copy merge looks a PQuery up by id, adds it if missing, and appends its
    records;
  - move merge appends whole PQueries;
  - list merges fold over a vector of parts;
  - a plain vector merge concatenates.

The model has four modules.

- `Samples` (`samples.dfy`) holds the entities:
  - the `PQuery` datatype, generic in its record type;
  - the `Sample` class, whose `pqs` field the in-place operations update;
  - the sentinel `INVALID_ID`;
  - specification functions: the first entry with an id (`Find`), the
    records of an id (`RecsOf`), the stable purge (`RemoveInvalid`) and the
    concatenation of parts (`Flatten`);
  - the lemmas about these functions.
- `Merge` (`merge.dfy`) holds the merge templates as methods on a `Sample`
  or `Vector`. `MergeAll` folds the copy merge one PQuery at a time and
  specifies them. Lemmas state what a merge keeps and adds.
- `Collapse` (`collapse.dfy`) holds `collapse` as a method over a `Sample`,
  in three passes:
  - it collects the positions of every id in a map;
  - it visits the groups in an arbitrary order, as the `unordered_map`
    does, and absorbs each duplicate into the group's first member;
  - it purges the marked entries.
  The method is proved to compute `Collapsed`. The key lemma
  `CollapsedIsMerge` says that collapse equals a copy merge of the unmarked
  entries into an empty Sample. From it follow uniqueness, record
  preservation, first-occurrence order and idempotence.
- `Split` (`split.dfy`) holds both split templates as methods returning the
  parts. Lemmas cover the partition, where each id's records go, and the
  chunk bounds.

## Model

| member | source | states |
|---|---|---|
| Samples.Find | src/set_manipulators.hpp:164 | the position `find` reaches is the first entry carrying the id, or the end when no entry does |
| Samples.FindFound | src/set_manipulators.hpp:164-169 | `find` stops before the end exactly when some entry carries the id |
| Samples.FindUnique | src/set_manipulators.hpp:164 | when ids are unique, `find` locates the one entry carrying the id |
| Samples.RemoveInvalid | src/set_manipulators.hpp:81-85 | the erase/remove_if pass keeps no sentinel entry and never grows the Sample |
| Samples.RemoveInvalidKeeps | src/set_manipulators.hpp:81-85 | the purge keeps only entries of the Sample, and keeps every one that is not marked |
| Samples.RemoveInvalidOrder | src/set_manipulators.hpp:82-84 | the purge is stable: kept entries keep their relative order |
| Samples.IdsRemoveInvalid | src/set_manipulators.hpp:81-85 | after the purge, an id is present exactly when it was present and is not the sentinel |
| Samples.RecsOfRemoveInvalid | src/set_manipulators.hpp:81-85 | the purge keeps every record of every id other than the sentinel |
| Samples.RemoveInvalidNone | src/set_manipulators.hpp:81-85 | the purge leaves a Sample without sentinel entries unchanged |
| Samples.RemoveInvalidUpdate | src/set_manipulators.hpp:69-85 | extending a kept entry before the purge extends the same entry, at its place among the kept ones, after it |
| Samples.RemoveInvalidUpdateInvalid | src/set_manipulators.hpp:75-85 | changing a marked entry before the purge has no effect after it |
| Merge.MergeAll | src/set_manipulators.hpp:158-173 | copy merge keeps every dest entry at its position with its id and header, only extends its records, and adds at most one entry per src PQuery |
| Merge.MergeOneNew | src/set_manipulators.hpp:164-171 | a src PQuery whose id dest lacks is appended with its id, header and records |
| Merge.MergeAllAt | src/set_manipulators.hpp:162-172 | for any dest, duplicates included, a copy merge appends to the first dest entry carrying an id the records of every src PQuery with that id, in src order, and leaves a later dest entry with the same id as it was |
| Merge.MergeAllIds | src/set_manipulators.hpp:162-169 | the ids after a copy merge are dest's ids, then src's new ids in order of first appearance |
| Merge.MergeAllIdSet | src/set_manipulators.hpp:162-169 | an id is present after a copy merge exactly when it was in dest or in src |
| Merge.MergeAllUnique | src/set_manipulators.hpp:164-168 | copy merge creates no duplicate id in a dest that had none |
| Merge.MergeAllRecs | src/set_manipulators.hpp:171 | with unique ids in dest, each id's records after a copy merge are dest's followed by src's, in src order |
| Merge.MergeAllTotal | src/set_manipulators.hpp:162-172 | copy merge grows the record count by exactly src's record count |
| Merge.MergeAllNewEntry | src/set_manipulators.hpp:166-168 | every entry a copy merge adds carries an id dest lacked and the header of the first src PQuery with that id |
| Merge.MergeAllAdded | src/set_manipulators.hpp:164-171 | for any dest, duplicates included, an entry the copy merge adds is the first carrying its id and holds the records of every src PQuery with that id, in src order |
| Merge.MergeAllConcat | src/set_manipulators.hpp:196-202 | merging A then B equals merging A followed by B, so any grouping of parts in a fixed order gives the same result |
| Merge.Merge | src/set_manipulators.hpp:158-173 | the loop leaves dest equal to `MergeAll` of its old contents and src; src is only read |
| Merge.MergeMove | src/set_manipulators.hpp:179-186 | move merge leaves dest equal to its old contents followed by src, with no id matching |
| Merge.MergeList | src/set_manipulators.hpp:196-202 | copy-merging a list of parts equals copy-merging their concatenation in index order |
| Merge.MergeListMove | src/set_manipulators.hpp:188-194 | move-merging a list of parts leaves dest followed by every part in index order |
| Merge.MergeVectors | src/set_manipulators.hpp:204-208 | the vector merge leaves dest followed by src |
| Collapse.AbsorbGroup | src/set_manipulators.hpp:67-77 | the group's first member ends up with the records of every member in index order, the other members are marked, and entries outside the group are unchanged |
| Collapse.BuildCollapseSet | src/set_manipulators.hpp:55-61 | the map holds exactly the ids of the Sample, each with the increasing list of positions carrying it |
| Collapse.ProcessGroup | src/set_manipulators.hpp:64-78 | handling one group moves the Sample from "groups in done processed" to "groups in done plus this id processed" |
| Collapse.Collapse | src/set_manipulators.hpp:49-86 | whatever order the groups are visited in, the Sample ends up equal to `Collapsed` of its old contents |
| Collapse.GatheredSnoc | src/set_manipulators.hpp:58-77 | before the purge, a new id's entry is kept as is; a repeated id's records go to the first entry and the new entry is marked |
| Collapse.CollapsedIsMerge | src/set_manipulators.hpp:49-86 | collapse equals a copy merge of the Sample's unmarked entries into an empty Sample |
| Collapse.CollapsedUnique | src/set_manipulators.hpp:49-86 | no two entries share an id after collapse |
| Collapse.CollapsedIds | src/set_manipulators.hpp:58-85 | after collapse, the ids are the Sample's non-sentinel ids, each once, in order of first occurrence |
| Collapse.CollapsedRecs | src/set_manipulators.hpp:69-73 | for every id but the sentinel, collapse keeps all records, in entry order |
| Collapse.CollapsedTotal | src/set_manipulators.hpp:69-85 | collapse keeps the record count of the unmarked entries, and the whole count when no entry carries the sentinel |
| Collapse.CollapsedEntry | src/set_manipulators.hpp:60-69 | each survivor is the first entry of its id, with its header, holding the records of every entry with that id |
| Collapse.CollapsedOrder | src/set_manipulators.hpp:69-85 | survivors appear in the order of their ids' first occurrences |
| Collapse.CollapsedFixpoint | src/set_manipulators.hpp:67-85 | a Sample with unique, unmarked ids is left unchanged |
| Collapse.CollapseIdempotent | src/set_manipulators.hpp:49-86 | collapsing twice equals collapsing once |
| Collapse.CollapseAny | src/set_manipulators.hpp:92-95 | the fallback collapse leaves its argument as it was |
| Split.SplitById | src/set_manipulators.hpp:106-119 | there are exactly num_parts parts; part b holds, in source order, the PQueries whose id modulo num_parts is b |
| Split.BucketMember | src/set_manipulators.hpp:115-117 | a PQuery is in part b exactly when it is in src and its id selects b |
| Split.BucketRecs | src/set_manipulators.hpp:115-117 | all records of an id go to the part its id selects, in source order, and to no other part |
| Split.BucketsPartition | src/set_manipulators.hpp:111-118 | the parts together hold exactly the PQueries of src, as a multiset |
| Split.SplitMergeRecs | src/set_manipulators.hpp:106-119 | copy-merging the parts in index order into an empty Sample gives each id exactly its records in src |
| Split.CeilDiv | src/set_manipulators.hpp:140 | the chunk size is the least number whose num_parts-fold covers the size |
| Split.ChunkStep | src/set_manipulators.hpp:143-147 | while the chunks made do not yet cover src, fewer than num_parts have been made, the next chunk is not empty, and it is full unless it reaches the end |
| Split.SplitEven | src/set_manipulators.hpp:134-149 | the parts concatenate back to src, none is empty, each has at most the chunk size and all but the last exactly it, and there are at most num_parts |

## Left out

- Placement records are a type parameter. Their fields are never inspected, so the floating-point likelihoods and weight ratios do not appear.
- `PQuery`'s `operator==` is not part of this model. The copy merge's `find` is taken to compare sequence ids only.
- The sequence-id type is taken to be 64 bits wide, so the sentinel is 2^64 - 1. Ids are otherwise unbounded naturals.
- In the move variants, the moved-from state of `src` is not modelled. The same goes for the duplicates' record vectors in `collapse`. Those entries are purged, so nothing observable depends on it.
- The copy merge's `src` and the split sources are passed as values. Aliasing of `dest` with `src` is therefore excluded.
- The split templates return their parts. The source instead clears and fills the caller's `parts` vector.
- `reserve` only affects capacity and is left out.
- When `ceil(size / num_parts)` is 2^32 or more, converting it to `unsigned int` at `src/set_manipulators.hpp:140` is undefined; the model does not capture this and uses an unbounded chunk size. At `src/set_manipulators.hpp:144`, `move_begin + chunk_size` runs past `src.end()` when the last chunk is short, which is undefined iterator arithmetic; the model takes the minimum of the two indices.
- The chunk size is taken as exact integer ceiling division. Rounding of the `double` quotient for sizes above 2^53 is not modelled.
- With `num_parts` zero, the id split takes `sequence_id % 0` for each PQuery of `src`, which is undefined once `src` is non-empty. The even split computes `src.size() / 0.0` for every `src`: that is infinity, or NaN for an empty `src`, and converting either to `unsigned int` is undefined. The code does not check for zero parts. Both split methods therefore require `numParts > 0` or an empty `src`. For an empty `src` with zero parts the model returns no parts, as the loop at `src/set_manipulators.hpp:143` never runs; the undefined conversion of the chunk size is not modelled.
- `Work` and `Timer` merges and splits, `sort_by_lwr`, `discard_by_support_threshold`, `until_accumulated_reached`, `filter` and `find_collapse_equal_sequences` are only declared in the header. Their bodies are not part of this model.
- Entries that already carry the sentinel id before `collapse` are dropped by the purge. `CollapsedIds` and `CollapsedRecs` state this. Uniqueness holds regardless.
