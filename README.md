# doc-versions in Dafny

This project models the core of `doc-versions`, a Django library that keeps
every version of a document in one table. Each row is one version. It holds
an `id` that names the version, a `document_id` shared by all versions of a
document, and a validity interval `[document_start, document_end)`. A version
is *current* while its end lies beyond the sentinel `FUTURE`. The current
version carries the end `datetime.max`.

The model covers these parts:

- the version store (`documents/models.py`): save, delete, restore, bulk save,
  bulk delete, and the time-sliced reads `at`, `document_get`,
  `document_get_or_404` and `history`;
- the consistency checker `documentscheck` and its three output functions
  `info`, `warning` and `error`;
- the chunked scanner (`documents/utils.py`) that the checker and the overlap
  repair use to walk a large table in key order;
- the four repair commands: overlapping intervals, stray document ends,
  phantom versions, and dropping retrospection data;
- the per-thread "current time" and the retrospection middleware
  (`documents/retrospection.py`).

## How the model is built

- **Instants are integers.**
  - `Table.MIN` = 0 stands for `datetime.min`.
  - `Table.FUTURE` = 1 000 000 stands for the year 3000.
  - `Table.MAX` = 2 000 000 stands for `datetime.max`.
  - Only their order matters to the code.
- **The table is a class.** `Table.Store` has a `rows: seq<Row>` field and
  one method per SQL statement the core issues:
  - a filtered `UPDATE` of the end, which returns the row count;
  - an `INSERT` that takes the next id, as sqlite does;
  - the `UPDATE` of `document_id` that follows a first save;
  - a filtered `DELETE`;
  - an `UPDATE` of every start;
  - a bulk insert.

  The invariant `Valid()` says the ids are positive and unique.
- **A model instance is a class.** `Versions.Document` is the in-memory copy
  whose fields `document_save` and `document_restore` overwrite. Bulk save
  works on an `array` of such copies.
- **Each state-changing method is tied to a function.** Its new state and
  results equal a specification function of the old state: `SaveSpec`,
  `RestoreSpec`, `BulkSaveSpec`, `Fixed`, `Normalized`, `WithoutPhantoms`,
  `Dropped` or `HandleRequest`. The lemmas prove the documented properties
  about those functions.
- **Errors are values.** An `AssertionError`, `ChangedAlready`,
  `DoesNotExist`, `MultipleObjectsReturned` or `Http404` is returned as a
  value, and the error paths are modelled, not excluded by preconditions.
- **Output is a log.** The output streams are a `Diagnostics.Log` of
  levelled lines. `ToOut` and `ToErr` give what reaches each stream at a
  given verbosity.
- **Commands work on a sorted snapshot.** The checker and the repair commands
  read the table ordered by `(document_id, document_start, document_end)`.
  `Scanner.Blocker` is proved to yield exactly that order.
- **Points where the code's behaviour is easy to misread:**
  - A version counts as current as soon as its end is beyond `FUTURE`; the
    end need not equal `datetime.max`.
  - The checker's "ending in the future" range is inclusive at both ends,
    `[now, FUTURE]`.
  - The bulk compare-and-set filters on ids only.
  - The document-end repair rewrites ends in `(FUTURE, MAX)`, not only ends
    beyond `MAX`.
  - Dropping retrospection data keeps the versions whose end is exactly
    `FUTURE`.
  - `now(request)` hands back the raw session text when that text does not
    parse.

## Model

| member | source | states |
|---|---|---|
| Table.Store.Update | documents/models.py:127-131 | the filtered update closes exactly the selected current rows at the given time and returns how many there were; ids stay unique |
| Table.Store.Insert | documents/models.py:139 | a forced insert appends one row whose id is one above the largest id, so ids stay unique and positive |
| Table.Store.SetDocId | documents/models.py:140-142 | the follow-up update gives the row with that id the new document id and changes nothing else |
| Table.Store.Delete | documents/management/commands/fixdocuments_remove_phantoms.py:17 | a filtered delete leaves exactly the rows the filter rejects, in order |
| Table.Store.SetEnd | documents/management/commands/fixdocuments_document_end.py:17-19 | a filtered update of the end rewrites exactly the matching rows and returns their number |
| Table.Store.SetStart | documents/management/commands/drop_retrospection_data.py:22 | an unfiltered update of the start rewrites every row and returns the row count |
| Table.Store.InsertAll | documents/models.py:292-299 | the bulk insert appends the given rows after the existing ones |
| Table.CloseSettles | documents/models.py:127-131 | the closing update keeps the ids, so the next id is unchanged; after closing at an instant not beyond `FUTURE` no selected row is open, so repeating the update affects no row and changes nothing |
| Table.MaxId | documents/models.py:285-287 | the aggregate `Max('id')` bounds every id and is 0 on an empty table |
| Table.MaxIdAttained | documents/models.py:285-287 | on a non-empty table the maximum is the id of some row |
| Table.Sort | documents/management/commands/documentscheck.py:102-106 | `order_by` yields a sorted permutation of the rows, and keeps ids unique |
| Table.OpenMeansMax | documents/models.py:124-125 | in a consistent table a row is current exactly when its end is `datetime.max` |
| Table.DisjointInOrder | documents/management/commands/documentscheck.py:107-127 | rows with pairwise disjoint intervals, once ordered, meet each of their neighbours without overlap |
| Table.CountIsWhere | documents/management/commands/documentscheck.py:41 | `count()` on a filter equals the length of the filtered query and is zero exactly when no row matches |
| Table.WithoutMembers | documents/management/commands/fixdocuments_remove_phantoms.py:15-17 | a filtered delete removes `count()` rows and keeps exactly the non-matching ones |
| Versions.SaveSpec | documents/models.py:104-142 | the assertion fails, with nothing changed, exactly when the copy's start lies after the given start; otherwise `ChangedAlready` is raised, after the conditional update, exactly when the copy carries both ids and that update does not affect exactly one row; every other save passes |
| Versions.SaveResult | documents/models.py:122-142 | a successful save leaves the copy as the new current version: start set, end `datetime.max`, fresh id |
| Versions.SaveConflict | documents/models.py:126-132 | a save naming a version id raises `ChangedAlready` exactly when that id is not the current version of the document |
| Versions.SaveEdit | documents/models.py:126-139 | saving an existing document passes exactly when the copy is not late and, if it names a version, that version is current; a save that passes closes the current version at the new start and appends the new version |
| Versions.SaveNew | documents/models.py:138-142 | saving a new document passes exactly when the copy is not late, and then appends one row whose document id is its own fresh id |
| Versions.SaveConsistent | documents/models.py:104-142 | a save keeps the table consistent: unique ids, one current version per document, disjoint intervals |
| Versions.InsertedShape | documents/models.py:138-142 | the shared tail of save and restore appends exactly one version with the next id |
| Versions.CloseConsistent | documents/models.py:150-153 | closing a document's current version keeps the table consistent |
| Versions.DeleteCount | documents/models.py:150-153 | in a consistent table delete updates at most one row, and one exactly when the document has a current version |
| Versions.DeleteTwice | documents/models.py:150-153 | after a delete the document has no current version, so a second delete updates nothing |
| Versions.At | documents/models.py:163-166 | `at(dt)` holds exactly the rows valid at `dt` that pass the extra filter |
| Versions.Satisfying | documents/models.py:168-175 | a filter keeps exactly the rows that pass it |
| Versions.DocumentGet | documents/models.py:43-45 | `get()` returns the single row valid at `dt` exactly when one row matches, raises `DoesNotExist` exactly when none matches, and raises `MultipleObjectsReturned` exactly when two or more match |
| Versions.DocumentGetOr404 | documents/models.py:158-161 | exactly `document_get`, except that the missing case becomes `Http404` |
| Versions.AtMostOneVersionAt | documents/models.py:163-166 | in a consistent table a document has at most one version at any instant, so `get()` never finds several |
| Versions.History | documents/models.py:168-175 | the history is every non-empty version of the document, newest start first |
| Versions.VersionsOf | documents/models.py:170-173 | the unordered history filter keeps exactly the document's non-empty versions |
| Versions.Latest | documents/models.py:192-193 | `latest('document_end')` is a version of the document with the greatest end, and is missing exactly when the document has no rows |
| Versions.RestoreSpec | documents/models.py:177-201 | each outcome exactly: no document id fails the first assertion; an unset end cannot be compared with `FUTURE`; a copy already current passes and changes nothing; a closed copy of a document without rows raises `DoesNotExist`; a given start not after the start of the version with the largest end fails the second assertion; every other restore passes; a failed restore leaves table and copy untouched |
| Versions.RestoreResult | documents/models.py:189-201 | a restore of a closed copy that passes closes the document's current versions at the new start and inserts the copy as the current version with the next id |
| Versions.RestoreConsistent | documents/models.py:189-201 | a restore keeps the table consistent when the new start is not before any existing version |
| Versions.RestoreCheckSufficesWhenOpen | documents/models.py:192-194 | when the document has a current version, the check "after the latest start" implies the new start is not before any version |
| Versions.RestoreCheckInsufficientWhenDeleted | documents/models.py:192-194 | when the document was deleted, the same check lets through a start inside the last version's interval |
| Versions.FirstLate | documents/models.py:224-225 | the stamping loop stops at the first copy that starts after the batch start |
| Versions.BulkIds | documents/models.py:284-288 | the sqlite branch hands out `n` increasing ids, each above every existing id |
| Versions.BulkSaveSpec | documents/models.py:207-254 | the assertion fails exactly when some copy starts after the batch start, leaving the table as it was and the copies before that one stamped; otherwise `ChangedAlready` is raised exactly when the compare-and-set count differs, after that update closed the listed rows; every other batch passes, closes at the batch start exactly the current old rows whose id is listed with both ids or whose document is listed by id alone, leaves every other old row as it was, and appends one current row per copy, numbered from the largest id |
| Versions.BulkSaveClosesListed | documents/models.py:235-247 | after a batch that passes at an instant not beyond `FUTURE`, no listed version and no listed document keeps a current old row |
| Versions.BulkConflictNoRollback | documents/models.py:235-241 | a batch that raises `ChangedAlready` is not rolled back: the listed ids no longer name a current row, nothing is inserted, every version keeps its identity, and the copies keep their stamps |
| Versions.BulkSaveChecked | documents/models.py:235-254 | after the stamping loop the outcome is `ChangedAlready` exactly on a count mismatch, otherwise the listed current rows are closed at the batch start, every other row is kept, and the copies are numbered and inserted |
| Versions.BulkClose | documents/models.py:235-247 | the two closing updates close exactly the current rows listed by id or by document id, at the batch start, and keep every other row, the row count, the ids and every version's identity |
| Versions.BulkAppend | documents/models.py:249-254 | bulk insertion keeps the old rows as a prefix and numbers the new ones consecutively from the largest id |
| Versions.CountOpenWithIdIn | documents/models.py:236-240 | the compare-and-set count is the number of listed ids that name a current row |
| Versions.ConflictWhenNotOpen | documents/models.py:235-241 | with distinct listed ids, the conflict happens exactly when some listed id is not current |
| Versions.ConflictWhenRepeated | documents/models.py:235-241 | a version id listed twice always makes the bulk save raise `ChangedAlready` |
| Versions.BulkSaveConflict | documents/models.py:235-241 | once stamping passes, bulk save raises `ChangedAlready` exactly on a count mismatch |
| Versions.FreshRowsUnique | documents/models.py:249-254 | the freshly numbered rows keep the table's ids unique and positive |
| Versions.Document.constructor | documents/models.py:84-101 | a new in-memory copy holds the given field values |
| Versions.Document.Save | documents/models.py:104-142 | the method leaves table and copy exactly as `SaveSpec` prescribes and keeps ids unique |
| Versions.Document.InsertVersion | documents/models.py:138-142 | the forced insert plus the document-id update realise `Inserted` |
| Versions.Document.Delete | documents/models.py:150-153 | delete closes the document's current versions at the given or the clock's time and returns how many |
| Versions.Document.Restore | documents/models.py:177-201 | the method leaves table and copy exactly as `RestoreSpec` prescribes |
| Versions.BulkSave | documents/models.py:207-254 | the method leaves table and copies exactly as `BulkSaveSpec` prescribes |
| Versions.StampBatch | documents/models.py:220-233 | the loop stamps copies up to the first late one and collects the ids to check and the documents to close |
| Versions.SaveStamped | documents/models.py:235-254 | the two updates, the id assignment and the insert realise `BulkSaveChecked` |
| Versions.NumberBatch | documents/models.py:250-253 | the numbering loop gives each copy its id and a document id when it lacks one |
| Versions.BulkDelete | documents/models.py:261-267 | an empty list deletes nothing; otherwise the current versions of every listed document are closed and counted |
| Diagnostics.Log.constructor | documents/management/commands/documentscheck.py:144-147 | a fresh protocol has the given verbosity and no lines |
| Diagnostics.Log.Info | documents/management/commands/documentscheck.py:19-21 | `info` appends one informational line |
| Diagnostics.Log.Warning | documents/management/commands/documentscheck.py:24-26 | `warning` appends one warning line |
| Diagnostics.Log.Error | documents/management/commands/documentscheck.py:29-32 | `error` appends one error line |
| Diagnostics.StreamsByVerbosity | documents/management/commands/documentscheck.py:19-32 | at verbosity 0 nothing reaches the protocol, above 1 everything does; the error stream holds exactly the errors |
| Diagnostics.WriteReaches | documents/management/commands/documentscheck.py:19-32 | one written line reaches the protocol when its level is shown, and the error stream when it is an error |
| Diagnostics.ToOutAppend | documents/management/commands/documentscheck.py:19-32 | both streams of a concatenated protocol are the concatenated streams |
| Checker.CheckModel | documents/management/commands/documentscheck.py:35-141 | the check writes exactly `Report` and returns the tally of the pass over the sorted table |
| Checker.ReportAggregates | documents/management/commands/documentscheck.py:38-59 | the method writes the header and the three aggregate findings |
| Checker.ReportInverted | documents/management/commands/documentscheck.py:61-72 | the method writes one error per inverted row, then the summary |
| Checker.Pass | documents/management/commands/documentscheck.py:96-128 | the loop writes the findings of every row against its predecessor and returns their tally |
| Checker.ReportTotals | documents/management/commands/documentscheck.py:129-141 | the method writes the two totals lines |
| Checker.OnlySameDocument | documents/management/commands/documentscheck.py:107-127 | a finding needs a predecessor of the same document whose end differs from the row's start; a hole is exactly a gap |
| Checker.ZeroLengthRow | documents/management/commands/documentscheck.py:108-123 | an empty version is never a past overlap, and is an active overlap exactly when it overlaps beyond `FUTURE` |
| Checker.PassLinesCounted | documents/management/commands/documentscheck.py:107-128 | the pass writes one line per counted finding and never an error |
| Checker.ContiguousIsQuiet | documents/management/commands/documentscheck.py:107-141 | a table whose versions meet end to start produces no findings and two informational totals |
| Checker.NoOverlapCounts | documents/management/commands/documentscheck.py:107-123 | without overlapping neighbours both overlap counts stay zero and their ranges stay empty |
| Checker.SuccessiveNoOverlap | documents/management/commands/documentscheck.py:107-123 | neighbours that do not overlap give no overlapping pairs |
| Checker.ConsistentNeighbours | documents/management/commands/documentscheck.py:102-123 | in a consistent table, sorted neighbours of the same document never overlap |
| Checker.ReportErrors | documents/management/commands/documentscheck.py:35-141 | the only errors the check writes are the inverted-row lines and the total of current overlaps |
| Checker.NoneInverted | documents/management/commands/documentscheck.py:61-72 | a table with no inverted row yields only the informational summary |
| Checker.ConsistentReport | documents/management/commands/documentscheck.py:35-141 | a consistent table reports no overlaps and writes no error |
| Checker.InvertedReported | documents/management/commands/documentscheck.py:61-72 | every inverted row is reported once, in (document_id, id) order, followed by the summary |
| Checker.AggregatesReported | documents/management/commands/documentscheck.py:40-79 | each aggregate line is a warning with the count when some row matches, and informational otherwise |
| Scanner.Blocker | documents/utils.py:4-41 | the blocked iteration yields exactly the ordered query; with more rows than the block size it first builds exact blocks |
| Scanner.BlocksIterator | documents/utils.py:82-90 | iterating exact blocks that end at the last row yields every row once, in order |
| Scanner.YieldedPrefix | documents/utils.py:82-90 | the first `n` blocks yield the rows up to the `n`th block's count |
| Scanner.SelectIsSlice | documents/utils.py:86-89 | the range filter `(lower, upper]` of a sorted query is a contiguous slice |
| Scanner.InitialBlocksExact | documents/utils.py:27-38 | the first and last keys with their counts form exact blocks, strictly ordered unless all keys are equal |
| Scanner.CountBetweenIsDifference | documents/utils.py:106-109 | the count in `(ls, lm]` plus the count up to `ls` is the count up to `lm` |
| Scanner.FloorMidBetween | documents/utils.py:16-17 | the default bisection falls strictly between two keys exactly when they differ by at least two |
| Scanner.BisectPass | documents/utils.py:98-117 | one scan either changes nothing, because no block may merge or split, or deletes or inserts one block |
| Scanner.MergeKeeps | documents/utils.py:100-102 | deleting a block keeps the blocks exact, strictly ordered, and with the same first and last block |
| Scanner.InsertKeeps | documents/utils.py:110 | inserting a block with an exact count between two bounds keeps the blocks exact |
| Scanner.SplitKeeps | documents/utils.py:103-110 | the split inserts an exact midpoint block and keeps the first and last block |
| Scanner.BisectBlocks | documents/utils.py:93-119 | the loop keeps the blocks exact with the original ends, and when it stops no block may merge or split |
| Scanner.QuietMeansBalanced | documents/utils.py:97-117 | in finished blocks, blocks two apart differ in count by at least the block size, and any block above the block size has bounds the bisection cannot split |
| Scanner.SnapshotKeySorted | documents/management/commands/documentscheck.py:102-106 | the checker's order sorts the query by its first field, as the scanner requires |
| FixOverlapping.Clamp | documents/management/commands/fixdocuments_overlapping.py:23-26 | an end beyond `FUTURE` becomes `datetime.max`, and any other end is unchanged |
| FixOverlapping.FixModel | documents/management/commands/fixdocuments_overlapping.py:14-41 | the repair leaves the table as `Fixed`, with one warning per action after the header |
| FixOverlapping.Repair | documents/management/commands/fixdocuments_overlapping.py:17-41 | the loop applies the actions chosen by the pass over the snapshot, in order, warning once for each |
| FixOverlapping.Perform | documents/management/commands/fixdocuments_overlapping.py:28-40 | each repair runs its delete or update on the table and writes its warning |
| FixOverlapping.PassInvariant | documents/management/commands/fixdocuments_overlapping.py:17-41 | after each row, the kept rows are ordered, chained without overlap, tracked by the reference row, and every later action concerns a kept row |
| FixOverlapping.StepKeeps | documents/management/commands/fixdocuments_overlapping.py:22-41 | each of the three repairs, and keeping the row, preserves the pass invariant |
| FixOverlapping.AppendKeeps | documents/management/commands/fixdocuments_overlapping.py:41 | a row that does not overlap its reference extends the chain |
| FixOverlapping.RemoveNewKeeps | documents/management/commands/fixdocuments_overlapping.py:28-32 | removing a row that ends inside its predecessor keeps the chain |
| FixOverlapping.TruncateKeeps | documents/management/commands/fixdocuments_overlapping.py:33-36 | truncating the predecessor at the row's start keeps the chain |
| FixOverlapping.RemoveOldKeeps | documents/management/commands/fixdocuments_overlapping.py:37-40 | removing a predecessor with the same start keeps the chain |
| FixOverlapping.PassChains | documents/management/commands/fixdocuments_overlapping.py:14-41 | after the pass the surviving rows have unique ids and no two versions of a document overlap |
| FixOverlapping.ApplyAllDescends | documents/management/commands/fixdocuments_overlapping.py:29-40 | each surviving row is an original row, at most with a new end |
| FixOverlapping.QuietRun | documents/management/commands/fixdocuments_overlapping.py:22-41 | a sorted table without overlaps produces no action |
| FixOverlapping.FixedFrame | documents/management/commands/fixdocuments_overlapping.py:28-40 | the repair touches only the rows its statements name by id: any other row is in the result unchanged |
| FixOverlapping.FixedPerDocument | documents/management/commands/fixdocuments_overlapping.py:17-41 | every repair belongs to a document whose ordered versions overlap a neighbour, and a document whose ordered versions follow one another keeps exactly its rows |
| FixOverlapping.FixedWhenSuccessive | documents/management/commands/fixdocuments_overlapping.py:14-41 | the repair leaves a table without overlapping neighbours unchanged |
| FixOverlapping.FixedDisjoint | documents/management/commands/fixdocuments_overlapping.py:14-41 | after the repair no two versions of a document overlap, ids stay unique, and each row descends from an original |
| FixOverlapping.FixedIdempotent | documents/management/commands/fixdocuments_overlapping.py:14-41 | running the repair twice changes nothing more |
| FixDocumentEnd.FixModel | documents/management/commands/fixdocuments_document_end.py:13-25 | the repair sets every end in `(FUTURE, MAX)` to `MAX`, returns the number of rows changed, and reports it |
| FixDocumentEnd.NormalizedRows | documents/management/commands/fixdocuments_document_end.py:17-19 | exactly the stray ends change, and nothing else in any row |
| FixDocumentEnd.NormalizedCount | documents/management/commands/fixdocuments_document_end.py:17-25 | the number of rows changed is the number of stray ends |
| FixDocumentEnd.NormalizedTwice | documents/management/commands/fixdocuments_document_end.py:17-19 | afterwards every end is at most `FUTURE` or exactly `MAX`, and a second run changes nothing |
| FixDocumentEnd.NormalizedWithinMax | documents/management/commands/fixdocuments_document_end.py:17-19 | the repair creates no end beyond `datetime.max` |
| RemovePhantoms.FixModel | documents/management/commands/fixdocuments_remove_phantoms.py:11-20 | the repair deletes the versions whose start is not before their end, returns how many, and reports it |
| RemovePhantoms.PhantomsGone | documents/management/commands/fixdocuments_remove_phantoms.py:15-17 | exactly the non-empty versions survive, in their original order, and the count removed is the count matched |
| RemovePhantoms.PhantomsGoneTwice | documents/management/commands/fixdocuments_remove_phantoms.py:15-20 | a second run finds no phantom and changes nothing |
| DropRetrospection.FixModel | documents/management/commands/drop_retrospection_data.py:15-26 | the command deletes every version that ended before `FUTURE`, moves all remaining starts to `datetime.min`, and reports how many rows went |
| DropRetrospection.DroppedRows | documents/management/commands/drop_retrospection_data.py:19-22 | the survivors are exactly the versions ending at or after `FUTURE`, each starting at `datetime.min` |
| DropRetrospection.DroppedTwice | documents/management/commands/drop_retrospection_data.py:21-22 | a second run drops nothing and changes nothing |
| Retrospection.TimeContext.constructor | documents/retrospection.py:24-31 | a fresh thread-local holder has no time set |
| Retrospection.TimeContext.Now | documents/retrospection.py:34-50 | `now()` returns the pinned time, or pins and returns the clock when none is set |
| Retrospection.TimeContext.NowFor | documents/retrospection.py:34-50 | `now(request)` returns the parsed session time, the raw session text when it does not parse, or, without a session value, the clock, which it pins |
| Retrospection.TimeContext.SetNow | documents/retrospection.py:53-58 | `set_now` pins the given time, or the clock without one |
| Retrospection.TimeContext.CurrentTime | documents/retrospection.py:132-141 | the body runs with the given time pinned, and afterwards the time read on entry is pinned again, even when the body raises |
| Retrospection.TimeContext.WithRealTime | documents/retrospection.py:144-153 | the wrapped function runs with the real time pinned, and the previous time is pinned afterwards |
| Retrospection.TimeContext.ProcessRequest | documents/retrospection.py:65-104 | the middleware decides, updates the session and pins the time exactly as `HandleRequest` prescribes |
| Retrospection.TimeContext.ProcessResponse | documents/retrospection.py:106-112 | after a response no time is pinned |
| Retrospection.SetNowThenNow | documents/tests.py:1028-1031 | after `set_now(t)`, successive `now()` calls return `t` |
| Retrospection.PostRefused | documents/retrospection.py:83-87 | in retrospection a POST without the override is redirected and changes nothing |
| Retrospection.RetrospectionPins | documents/retrospection.py:83-95 | in retrospection a request proceeds; exiting clears the session and the pin, otherwise the session time is pinned when it parses |
| Retrospection.EnterPins | documents/retrospection.py:96-104 | outside retrospection, entering stores the formatted time in the session and pins it, and any other request changes nothing |
| Retrospection.EnterThenBrowse | documents/retrospection.py:81-104 | after entering retrospection at `t`, the next request pins `t` again |

## Left out

- Database I/O, transactions, concurrency and thread identity are not modelled. Each store method is one atomic step on a value, and the thread-local holder is a single `TimeContext` object.
- The wall clock `datetime.now()` is a parameter (`clock`, `later`). Microseconds are lost when a time is stored in the session; `strptime` and `strftime` are the parameters `parse` and `format`.
- The `*_now` shortcuts (`save_now`, `delete_now`, `restore_now`, `bulk_save_now`, `bulk_delete_now`) are not modelled as members. Each only passes `now()` to the modelled operation.
- The postgresql branch of `bulk_ids` and the custom SQL in `_bulk_insert_custom` are not modelled: the database's sequence and the SQL text are outside the model. The sqlite branch gives the ids.
- `new_document_id` is the default hook, which returns the version's own id. Overriding subclasses are not modelled.
- The assertions that the primary key is named `id` and that every copy is of the same class are not modelled: the model has one model class.
- Compound documents (`DocumentPart`, `to_master`, the part managers), the admin, the custom fields and `get_models()` are not modelled. `DocumentPart.document_get` is modelled for a plain document.
- `retrospection_context_processor` and the flash message on a refused POST are not modelled, because they only feed templates.
- Versions.History: the extra `**kwargs` filters of `history` are not modelled.
- Versions.At: the `**kwargs` filters are one predicate `q` on rows.
- Table.Sort, Versions.Latest: the database leaves the order of ties open. `Table.Sort` is a stable insertion sort, so rows that agree on every sort field keep their table order. Among several versions with the largest end, `Versions.Latest` takes the first in table order. So the model fixes which of two rows with the same document, start and end the overlap repair deletes, and which version the assertion of `document_restore` compares against when two versions share the largest end.
- Versions.BulkSave: the copies are values in an array. The same Python object listed twice, which would alias, is not modelled.
- Checker.CheckModel: the progress lines that `vlist_blocker` writes through `log=info` are not part of the modelled protocol.
- FixOverlapping.FixModel: the progress lines that `vlist_blocker` writes through `log=info` are not part of the modelled protocol. The repair reads one ordered snapshot of the table while it deletes and updates rows. The model assumes, as the code does, that the rows still to come are unaffected by the earlier repairs.
- FixOverlapping.FixedIdempotent: proved only for tables with unique positive ids, every start at most its end and every end at most `datetime.max`. These are the conditions the other repairs and the store establish.
- FixOverlapping.FixedDisjoint: proved only for tables with unique positive ids and every end at most `datetime.max`.
- Scanner.BisectBlocks: the source loops until no block changes. The model runs at most `fuel` passes and reports whether it finished.
- Scanner.Blocker: the query is an ordered snapshot whose key is an integer. The `to_python` conversion and changes to the table between block queries are not modelled. `qset_blocker` (documents/utils.py:44-79) runs the same algorithm on objects instead of value lists, and `Scanner.Blocker` stands for both.
- Retrospection: `datetime.max`-style bounds on the clock and on parsing are not modelled; any integer is an instant.
