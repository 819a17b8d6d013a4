# Gala seating: the ticket-assignment reconciler

The gala-seating repository serves a JSON seating document: tables, each
with a sponsor name and the ticket numbers seated at it. It also ships a
maintenance script, `scripts/update-tickets.js`. The script takes an
assignment plan, a table-id → ticket-list mapping edited by the operator.
It merges the plan into the document, counts what it assigned and warns
about tables it cannot find. It then validates the plan's tickets: first
for duplicate ticket numbers, then for gaps in the numbering.

This project models that script's logic in Dafny and proves what it
promises:

- `collections.dfy` (module `Collections`): sequence vocabulary. It also
  models two JavaScript built-ins the validation uses: `[...new Set(xs)]`
  is `Dedup`, and numeric `sort` is `Sort`.
- `ticket_range.dfy` (module `TicketRange`): the `range(start, end)` helper.
- `seating.dfy` (module `Seating`): table records, the plan and the merge.
  - The merge is specified by the fold `Merge` over the plan.
  - The in-place loop is `SeatingDocument.ApplyPlan`, a class whose
    `tables` map the loop overwrites.
  - `Received` and `MissingIds` specify the counters and the warnings.
- `validation.dfy` (module `Validation`): the validation pass.
  - `CollectTickets` is the push loop.
  - The `indexOf` filter and the set round trip give the duplicate report.
  - The gap specification `Gaps` and the counting loop `MissingInRange`
    give the missing tickets.
  - `Classify` gives the three-way gap warning.
- `reconciler.dfy` (module `Reconciler`): one run of `updateSeatingData`
  without its I/O.

The document is already-parsed data. Table ids are strings and tickets
are unbounded integers. A table record keeps its `tickets` list and,
opaquely, every other field. The plan is a sequence of (id, list) entries
in the order `Object.entries` visits them. Warnings and diagnostics are
returned as data: `MissingIds`, a duplicate list, and a `GapReport` that
is `NoGaps`, `Listed(gaps)` or `CountOnly(n)`.

Two facts about the code shape the model:

- Duplicates and gaps are computed over every list in the plan
  (update-tickets.js:118-121), including lists for ids the document does
  not have.
- The "tables with tickets" counter counts plan entries with a known id
  and a non-empty list (update-tickets.js:99-104).

The merge is modelled for any plan, repeated ids included: entries are
applied one after another, so the last entry naming a table wins. A plan
written as an object literal never repeats an id, so there every entry is
the last one naming its table. `DistinctIds` states that case where it
matters (one warning per unknown id).

## Model

| member | source | states |
|---|---|---|
| TicketRange.Range | galasppp1/scripts/update-tickets.js:75-77 | `range(start, end)` has `end - start + 1` elements (none when `end < start`) and element `i` is `start + i` |
| TicketRange.RangeShape | galasppp1/scripts/update-tickets.js:75-77 | the range holds exactly the integers from `start` to `end`, strictly increasing, with no value twice |
| Seating.SeatingDocument.ApplyPlan | galasppp1/scripts/update-tickets.js:95-108 | the loop leaves `tables` equal to the plan folded into the old tables; `updatedCount` is the number of entries naming a known table with a non-empty list; `totalTickets` is the total length of those lists; the warnings are the unknown ids, in plan order |
| Seating.MergeAt | galasppp1/scripts/update-tickets.js:98-100 | the merge keeps the table ids; each known table is unchanged when no entry names it, else only its `tickets` are replaced, by the list of the last entry naming it |
| Seating.MergeReplaces | galasppp1/scripts/update-tickets.js:99-100 | a known table named by an entry ends with exactly that entry's list (full replacement, an empty list clears it), and its other fields keep their values |
| Seating.MergeUntouched | galasppp1/scripts/update-tickets.js:98-100 | a table no entry names is left identical |
| Seating.MergeCreatesNothing | galasppp1/scripts/update-tickets.js:99-106 | an entry whose id is not in the document never creates that table |
| Seating.MergeKeepsIds | galasppp1/scripts/update-tickets.js:98-100 | the set of table ids after the merge is the set before it |
| Seating.MergeKeepsOtherFields | galasppp1/scripts/update-tickets.js:100 | every field of every table other than `tickets` is unchanged |
| Seating.MergeIdempotent | galasppp1/scripts/update-tickets.js:98-108 | merging the same plan into the updated tables changes nothing, and a second run counts and warns exactly as the first |
| Seating.ReceivedMembers | galasppp1/scripts/update-tickets.js:99-104 | an entry is counted exactly when its id is in the document and its list is non-empty |
| Seating.CountersBounded | galasppp1/scripts/update-tickets.js:95-104 | `updatedCount` is at most the number of entries and at most `totalTickets`, which is at most the number of tickets in the plan |
| Seating.MergeKeepsWellFormed | galasppp1/scripts/update-tickets.js:100 | the merge writes only `tickets`, so no record gains a second `tickets` key among its other fields |
| Seating.MissingIdsMembers | galasppp1/scripts/update-tickets.js:99-106 | a warning names an id exactly when some entry names it and the document has no such table |
| Seating.MissingIdsOnce | galasppp1/scripts/update-tickets.js:98-106 | with an object-literal plan (no repeated id), no unknown id is warned about twice |
| Validation.CollectTickets | galasppp1/scripts/update-tickets.js:118-121 | the push loop yields every plan list concatenated in plan order |
| Validation.IndexOf | galasppp1/scripts/update-tickets.js:123 | `indexOf` gives the first position holding the value, or -1 when the value does not occur |
| Validation.LaterOccurrences | galasppp1/scripts/update-tickets.js:123 | the filter keeps a value exactly when it occurs at some position other than its first occurrence |
| Validation.DuplicateReport | galasppp1/scripts/update-tickets.js:123-125 | the reported duplicates hold each value once, and a value is reported exactly when it occurs at two different positions |
| Collections.Dedup | galasppp1/scripts/update-tickets.js:125 | `[...new Set(xs)]` has no repeats, holds exactly the values of `xs` and is no longer than `xs` |
| Collections.Sort | galasppp1/scripts/update-tickets.js:128 | the numeric sort returns a non-decreasing permutation of its input |
| Collections.SortedDistinct | galasppp1/scripts/update-tickets.js:128 | sorting the de-duplicated tickets gives a strictly increasing list of exactly the distinct tickets |
| Validation.Min | galasppp1/scripts/update-tickets.js:130 | the smallest ticket is a ticket and no ticket is smaller |
| Validation.Max | galasppp1/scripts/update-tickets.js:131 | the largest ticket is a ticket and no ticket is larger |
| Validation.SortedEnds | galasppp1/scripts/update-tickets.js:128-131 | `sorted[0]` and `sorted[sorted.length - 1]` are the smallest and largest ticket, and `sorted.includes(i)` tests membership among the tickets |
| Validation.MissingInRange | galasppp1/scripts/update-tickets.js:132-137 | the counting loop from `min` to `max` collects exactly the integers of that range that `sorted` lacks, in increasing order |
| Validation.AbsentShape | galasppp1/scripts/update-tickets.js:133-137 | the loop's filter keeps exactly the range values missing from the tickets, and keeps their increasing order |
| Validation.GapsShape | galasppp1/scripts/update-tickets.js:128-137 | for a non-empty ticket list the gaps are exactly the absent integers in `[min, max]`, strictly increasing, each strictly between `min` and `max`; their number is `(max - min + 1)` minus the number of distinct tickets |
| Validation.Classify | galasppp1/scripts/update-tickets.js:138-142 | the three-way gap warning (silent, listed below 20, count from 20 on); its meaning is stated by `Validation.GapReportMeaning` |
| Seating.Assign | galasppp1/scripts/update-tickets.js:99-100 | one iteration of the merge loop on the tables; characterised through `Seating.MergeAt` |
| Seating.Merge | galasppp1/scripts/update-tickets.js:98-100 | the tables after the loop has walked the whole plan; characterised by `Seating.MergeAt`, `Seating.MergeReplaces`, `Seating.MergeUntouched` and `Seating.MergeIdempotent` |
| Seating.Received | galasppp1/scripts/update-tickets.js:101-104 | the entries the counters count; characterised by `Seating.ReceivedMembers` and `Seating.CountersBounded` |
| Seating.MissingIds | galasppp1/scripts/update-tickets.js:105-106 | the missing-table warnings in plan order; characterised by `Seating.MissingIdsMembers` and `Seating.MissingIdsOnce` |
| Seating.Flatten | galasppp1/scripts/update-tickets.js:118-121 | the concatenation of all plan lists; `Validation.CollectTickets` is proved to compute it |
| Validation.Absent | galasppp1/scripts/update-tickets.js:133-137 | the range values the tickets lack; characterised by `Validation.AbsentShape` |
| Validation.Gaps | galasppp1/scripts/update-tickets.js:128-137 | the gaps of a ticket list; characterised by `Validation.GapsShape` |
| Validation.GapReportMeaning | galasppp1/scripts/update-tickets.js:129-142 | no gap warning exactly when there are no tickets or every integer from `min` to `max` is a ticket; a listed warning names all the gaps and has 1 to 19 of them; a counted warning carries the gap count, 20 or more |
| Validation.Validate | galasppp1/scripts/update-tickets.js:117-143 | the validation reads only the plan; its duplicates hold each repeated ticket once and nothing else; its gap report is the classification of the gaps of all plan tickets |
| Validation.DuplicatesExample | galasppp1/scripts/update-tickets.js:123-125 | tickets 5, 7, 5, 9, 7, 7 report exactly 5 and 7, each once |
| Validation.GapsExample | galasppp1/scripts/update-tickets.js:128-139 | tickets 1, 2, 4, 5, 8 have gaps 3, 6, 7, which are listed |
| Validation.GapCountExample | galasppp1/scripts/update-tickets.js:138-142 | tickets 1 and 27 leave 25 gaps, which are reported by count alone |
| Reconciler.UpdateSeatingData | galasppp1/scripts/update-tickets.js:88-143 | one run merges the plan into the document in place and returns the counters, the missing-table warnings and the plan's duplicate and gap diagnostics as `ApplyPlan` and `Validate` state them |

## Left out

- Reading and writing `data/seating.json` and the JSON parse and serialise
  (update-tickets.js:89, 92, 111) are filesystem and library calls. The
  document is taken as already-parsed input and given back as output. The
  parse and I/O failures that abort the script are therefore not modelled.
- The console messages and their formatting (update-tickets.js:106,
  113-115, 125, 139, 141) become data: warnings, counters, the duplicate
  list and a `GapReport`.
- The `TICKET_ASSIGNMENTS` literal (update-tickets.js:20-67) is
  operator-edited data, so the plan is a parameter.
- JavaScript key coercion, the integer-key ordering of `Object.entries`,
  and IEEE-754 numbers are not modelled. Ids are strings, tickets are
  unbounded integers, and the plan is given in its iteration order.
  The same goes for `range` with non-integer arguments.
- The truthiness test `if (seatingData.tables[tableNum])` is modelled as
  key presence, since a table record is always an object. The script's
  lookup also finds properties that every object inherits from
  `Object.prototype`. For an id such as `"toString"`, `"constructor"` or
  `"valueOf"`, the script therefore finds a function. It then sets
  `tickets` on that function and counts the entry. The model treats such
  an id as unknown and warns about it. Table ids in the document and the
  plan are numerals, which never name an inherited property. A document
  without a `tables` object (a runtime TypeError) is not modelled.
- After the merge the document's table shares the plan's array object.
  That aliasing is not modelled, because nothing mutates either array
  later.
- `Collections.Sort` is an insertion sort, not the engine's algorithm. Any
  correct sort returns the same sequence.
- Collections.Dedup: the contract states no repeats and the same values.
  It does not state that values keep the order of their first occurrence,
  which the definition follows. That order only affects the order of
  names in the duplicate warning.
- `server.js` is Express routing, static file serving and a `PORT`
  default, with no logic of its own. Its cached `require` of the seating
  file is runtime behaviour outside this model.
