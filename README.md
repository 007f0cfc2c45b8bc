# Outline → RAGFlow sync: the reconciliation engine

This project models the one-shot reconciliation run of `sync_tool.py`.
The run mirrors the documents of an Outline wiki into a RAGFlow dataset,
and it keeps a `document_mapping` table that links each Outline document
(the *source*) to the RAGFlow document (the *target*) uploaded for it. A
run has five steps:

1. It builds the Outline inventory: the documents of every collection whose
   text is long enough, keyed by id (`SourceInventory`).
2. It builds the RAGFlow inventory through the paginated listing (`TargetInventory`).
3. The **status pass** inserts a pending row for each new source. It
   raises the rows of upstream-deleted, never-synced or outdated sources to
   pending (`StatusPass`).
4. It takes a snapshot of the table. The **deletion pass** bulk-deletes the
   targets of upstream-deleted rows, if the configuration allows it (`DeletionPass`).
5. The **sync pass** walks the snapshot. For each row that is pending, or
   whose target is gone, it:
   - deletes the old target if it still exists;
   - uploads the text;
   - records the new target id, the timestamp and the status *updated*;
   - sets the metadata built from the configured `meta_map`;
   - optionally asks for parsing (`SyncPass`, `Outline`).

`Reconcile` puts these steps together into one run.

Modelling choices:

- The table is a class, `Mapping.MappingTable`, whose `rows` field holds
  the rows in rowid order. A SQL `NULL` is `None`.
  - The lookup by source id, of which only the first result row is read,
    returns the first matching row.
  - Each update by source id changes every row of that source.
  - An insert appends a row.
- The three status strings 待更新, 已更新 and 上游已删除 are
  `Pending`, `Updated` and `UpstreamDeleted`.
- The Python dict of Outline documents is `Inventory(order, entries)`. A
  new key goes last, and an existing key keeps its place and takes the new
  value, so the status pass visits sources in insertion order.
- Every call that changes the RAGFlow dataset is recorded, in order, in a
  log of `Corpus.Call` values: deletes, uploads, metadata updates and parse
  requests. The read-only listings are not logged.
- The ids the server assigns to uploads come from a parameter
  `issued: nat -> string`: the n-th upload of a pass gets `issued(n)`.
- `documents.info` is a parameter `info: string -> Doc`.
- The paginated `list_documents(page=…)` is a parameter `page: nat -> seq<TargetDoc>`.
- Each imperative part of the script is an imperative method: the three
  loops, the paginated collector, the metadata loop and the table updates.
  Each method is proved equal to a left fold over its input, and the
  properties are proved about those folds.

Exceptions are results, not skips:

- A row the sync pass selects whose source is not in the inventory raises
  `KeyError` at line 149. The model returns `Error.MissingSource` and
  issues no further call.
- Such a row is not skipped: line 149 indexes the inventory without a guard.
- An unknown `meta_map` property raises `ValueError` after that row was
  already uploaded and recorded. The model returns `Error.InvalidPropName`.
- No code path assigns 上游已删除. The model adds no such transition, and
  the lemmas prove that neither pass ever produces that status.

## Model

| member | source | states |
|---|---|---|
| Outline.DocMeta | sync_tool.py:11-26 | exactly the seven known property names succeed; any other name is an error carrying that name; only `updated_at` yields an instant; `site_url` is the base URL followed by the document URL |
| Outline.MetaFields | sync_tool.py:187-192 | the metadata map for a document: entries applied in configuration order, each storing its property's value under its key, a later entry overwriting an earlier one with the same key, the first unknown name aborting the build |
| Outline.MetaFieldsSucceeds | sync_tool.py:189-192 | building the metadata succeeds iff every configured property name is known |
| Outline.MetaFieldsError | sync_tool.py:189-192 | a failed build reports the first unknown property name in configuration order |
| Outline.MetaFieldsKeys | sync_tool.py:187-192 | the keys of a built metadata map are exactly the configured metadata keys |
| Outline.MetaFieldsValue | sync_tool.py:189-192 | each configured key holds the value of its property, unless a later entry reuses the key |
| Outline.MetaFieldsErrorPersists | sync_tool.py:189-192 | once a property name fails, the remaining entries do not change the outcome |
| Outline.BuildMetadata | sync_tool.py:187-192 | the loop that fills `new_metadata` returns the specified map, or the first unknown name |
| SourceInventory.BuildInventory | sync_tool.py:76-88 | the nested collection/document loop yields the inventory of all documents, in order, skipping texts shorter than the minimum |
| SourceInventory.Kept | sync_tool.py:80 | a document passes the filter iff its text is at least the configured minimum length |
| SourceInventory.Flatten | sync_tool.py:76-78 | the documents of all collections, collection after collection, each in listing order |
| SourceInventory.Put | sync_tool.py:83-88 | dict assignment: a new id goes last in insertion order, an existing id keeps its place and takes the new entry |
| SourceInventory.Filtered | sync_tool.py:76-88 | the inventory of a document sequence: each document at least as long as the minimum is assigned under its id, in order; shorter ones are skipped |
| SourceInventory.FilteredValid | sync_tool.py:83-88 | the inventory is a well-formed dict: distinct keys in insertion order, each with an entry and no other entries |
| SourceInventory.FilteredMembership | sync_tool.py:76-88 | an id is in the inventory iff some document with that id is long enough |
| SourceInventory.FilteredLatest | sync_tool.py:83-88 | an id's entry is that of its last kept document |
| TargetInventory.FirstEmpty | sync_tool.py:32-35 | the page where the listing stops: it is empty and every earlier page from 1 is not |
| TargetInventory.Pages | sync_tool.py:33-37 | the documents of the pages in a range, concatenated in page order as the loop extends its list |
| TargetInventory.TargetIds | sync_tool.py:94 | the ids of the collected RAGFlow documents, the keys of the lookup dict |
| TargetInventory.PagesMembership | sync_tool.py:29-39 | a document is collected iff it is on a page before the stop |
| TargetInventory.CollectAll | sync_tool.py:29-39 | the loop returns the pages from 1 up to the first empty page, concatenated in page order |
| Mapping.FirstIndex | sync_tool.py:101-105 | the row `fetchone` returns is the first row with that source; none is found iff no row has it |
| Mapping.FirstIndexUnique | sync_tool.py:101-105 | with one row per source, the lookup of a row's source finds that row |
| Mapping.SetStatus | sync_tool.py:116-128 | the status update by source id: every row of that source takes the status, every other row and field is unchanged |
| Mapping.RecordSync | sync_tool.py:169-181 | the update after an upload: every row of that source holds the new target id, the document's timestamp and *updated*; other rows are unchanged |
| Mapping.MappingTable.constructor | sync_tool.py:61-70 | the table holds the given rows |
| Mapping.MappingTable.Lookup | sync_tool.py:101-105 | nothing iff no row has the source, otherwise the first such row |
| Mapping.MappingTable.InsertPending | sync_tool.py:108-111 | appends one pending row with no target and no timestamp; nothing else changes |
| Mapping.MappingTable.UpdateStatus | sync_tool.py:116-119 | every row of the source takes the new status; no other field or row changes |
| Mapping.MappingTable.UpdateAfterSync | sync_tool.py:169-181 | every row of the source holds the new target, the timestamp and *updated*; other rows are unchanged |
| StatusPass.Run | sync_tool.py:97-128 | the loop leaves the table equal to the fold of observations over the inventory in insertion order |
| StatusPass.StatusFold | sync_tool.py:97-128 | the table after the status loop has observed the given ids in order, one observation per id; it never shrinks the table |
| StatusPass.Raise | sync_tool.py:114-124 | an existing row must be synced again iff it is upstream-deleted, was never synced, or its timestamp is older than the document's |
| StatusPass.Observe | sync_tool.py:101-128 | one iteration: no row for the id appends a pending row without target or timestamp; otherwise, judged on the first row, every row of the id becomes pending when that row must be synced again, and nothing changes when not |
| StatusPass.StatusFoldPointwise | sync_tool.py:97-128 | the table after the pass, row by row: old rows raised iff their source is observed and its first row must be synced; then, in inventory order, one pending row per observed source that had none |
| StatusPass.InsertedShape | sync_tool.py:106-111 | appended rows are pending, have no target and no timestamp, are for observed sources that had no row, are distinct, and cover every such source |
| StatusPass.StatusPassFrame | sync_tool.py:97-128 | old rows keep their place, target, source and timestamp; a status only becomes pending; rows of unobserved sources are untouched; appended rows are new pending rows; every observed source has a row |
| StatusPass.StatusPassNeverMarksDeleted | sync_tool.py:97-128 | an upstream-deleted row after the pass was already so before; with one row per source it is not an observed source |
| StatusPass.StatusPassKeepsUnique | sync_tool.py:105-111 | a table with one row per source keeps that property |
| StatusPass.InsertedNone | sync_tool.py:106-111 | when every observed id already has a row, the pass inserts nothing |
| StatusPass.StatusPassSettled | sync_tool.py:97-128 | a table with one row per id, a row for every observed id and none that must be synced again is left unchanged by the pass |
| StatusPass.StatusPassDecision | sync_tool.py:106-128 | decision table for an observed source: no row gives exactly one new pending row; an upstream-deleted, never-synced or older first row becomes pending; otherwise its rows are unchanged |
| DeletionPass.DeleteIdsAppend | sync_tool.py:136 | the id list follows the scan order of the snapshot |
| DeletionPass.DeleteIdsMembership | sync_tool.py:136 | a target id is listed iff some upstream-deleted row carries it (a NULL id included) |
| DeletionPass.DeletionCalls | sync_tool.py:135-138 | one bulk delete of exactly the listed ids, issued iff the option is set and some row is upstream-deleted; otherwise no call |
| DeletionPass.DeleteIds | sync_tool.py:136 | the target ids of the upstream-deleted rows of the snapshot, in scan order, NULL ids included |
| SyncPass.SyncOne | sync_tool.py:144-197 | one iteration on the live table produces the specified state: an unselected row changes nothing; a missing source is an error; otherwise delete (if the target still exists), upload, record, then metadata and parse |
| SyncPass.Selected | sync_tool.py:145-148 | a row is processed iff it is pending or its target id is not in the RAGFlow inventory (a NULL id never is) |
| SyncPass.Present | sync_tool.py:145 | the row's target id is one of the RAGFlow inventory's ids; a NULL id never is |
| SyncPass.DeletesOld | sync_tool.py:151 | the old target is deleted first iff the row has a non-empty target id that is still in the RAGFlow inventory |
| SyncPass.SyncRow | sync_tool.py:144-197 | one iteration after no exception: an unselected row changes nothing; a missing document is the KeyError; otherwise the optional delete, the upload, the row update with the next issued id, then either the ValueError of an unknown name or the metadata call and the optional parse request |
| SyncPass.SyncFold | sync_tool.py:143-197 | the pass over the snapshot in scan order, each row an iteration, nothing processed after the first exception |
| SyncPass.Run | sync_tool.py:143-197 | the loop over the snapshot leaves the table, the call log and the exception equal to the fold over the snapshot, stopping at the first exception |
| SyncPass.SyncFoldErrorPersists | sync_tool.py:149 | after an exception no further row is processed |
| SyncPass.SyncSucceeds | sync_tool.py:146-192 | the pass raises nothing iff every selected row's source is in the inventory, and, if any row is selected, every property name is known |
| SyncPass.SyncNothingSelected | sync_tool.py:143-148 | with no row pending or missing its target, the pass issues no call and changes nothing |
| SyncPass.SyncFrame | sync_tool.py:143-181 | the row count and every source id are kept; each row either is unchanged or has a target, a timestamp and status *updated* |
| SyncPass.SyncKeepsUnknownSource | sync_tool.py:143-181 | a row whose source is not in the inventory is never rewritten by the pass |
| SyncPass.SyncPrefixPointwise | sync_tool.py:143-181 | from a snapshot with one row per source, after the first m rows, each selected row among them holds the id of its upload (numbered in scan order), its document's timestamp and *updated*; every other row is unchanged |
| SyncPass.SyncPointwise | sync_tool.py:143-181 | from a snapshot with one row per source, the same for the whole snapshot when the pass succeeds |
| SyncPass.SyncRowCalls | sync_tool.py:151-197 | one successful iteration appends the row's block of calls and counts one upload iff the row is selected |
| SyncPass.SyncCalls | sync_tool.py:143-197 | a successful pass issues, in scan order, one block per selected row (delete if the old target exists, upload, metadata, parse if configured) and uploads once per selected row |
| SyncPass.RowCalls | sync_tool.py:151-197 | the calls for one processed row: the delete of the old target if it still exists, the upload, the metadata for the new id, and the parse request if configured |
| SyncPass.Blocks | sync_tool.py:143-197 | the calls of a pass without exception: one block per selected row, in scan order, the k-th selected row's block using the k-th issued id |
| Reconcile.Run | sync_tool.py:73-201 | the script's main flow gives exactly the specified run on the filtered inventory and the collected target ids |
| Reconcile.RunSpec | sync_tool.py:73-201 | one run: the status pass on the table, then the deletion pass on the resulting snapshot, then the sync pass over that snapshot; the calls are the deletion calls followed by the sync calls |
| Reconcile.SelectedWithoutSourceAborts | sync_tool.py:146-149 | a selected row whose source is not in the inventory makes the run fail instead of being skipped |
| Reconcile.SettledRow | sync_tool.py:97-181 | from a table with one row per source, after a successful run a row is not pending, has a target, and the next status pass would not raise it |
| Reconcile.FirstRunSettles | sync_tool.py:97-181 | from a table with one row per source, after a successful run: one row per source, every inventory document has a row, none would be raised again, none is pending or without a target |
| Reconcile.RunTwiceIsQuiet | sync_tool.py:97-197 | from a table with one row per source, a second run with the same documents, and with every recorded target still present, changes no row, raises nothing, and issues only the repeated bulk delete |
| Reconcile.DeletedTargetAbortsNextRun | sync_tool.py:134-149 | a row left upstream-deleted whose page is gone has its target in the first run's bulk delete and is kept unchanged; the next run, no longer finding that target, fails on the missing document, whether or not the first run's changes were committed |
| Reconcile.EmptyRun | sync_tool.py:73-201 | an empty wiki and an empty table: no row and no call |
| Reconcile.NewPageRun | sync_tool.py:106-193 | a new page gets one row, left *updated* with its upload's id, and one upload with its metadata |
| Reconcile.EditedPageRun | sync_tool.py:120-193 | a page edited since its sync: delete the old target, upload, set metadata, record the new id |
| Reconcile.DriftedPageRun | sync_tool.py:143-193 | an unchanged page whose target vanished is uploaded again, and nothing is deleted |
| Reconcile.UnchangedPageRun | sync_tool.py:120-148 | an unchanged page whose target exists: no call and no change |

## Left out

- The TOML configuration file, the Outline and RAGFlow clients, and the SQLite connection are left out. The configuration values the run reads are a `Config` value. The RAGFlow listing, `documents.info` and the upload ids are parameters.
- Commit and rollback are left out. On an exception the script never commits, so the rows in a failed run's result are the uncommitted state. `CREATE TABLE` is the table's constructor.
- Timestamps are integers. The ISO-8601 round trip of `last_updated` (`isoformat`/`fromisoformat`) is not modelled. Neither is the `TypeError` a naive/aware datetime comparison could raise.
- The UTF-8 encoding of the uploaded text is not modelled: the blob is the text itself.
- Author objects are reduced to their display names.
- `list_documents(id=…)` after an upload (lines 184-185) is not modelled: the metadata call is logged against the new id.
- The `print` after a parse request is console output and is not modelled.
- Status strings other than the three the script reads or writes cannot be represented.
- A NULL `outline_doc_id` cannot be represented.
- A non-string document id passed through `str()` is not modelled: all ids are strings.
- TargetInventory.CollectAll: its termination rests on a ghost empty page `bound`, so a listing that never returns an empty page is not covered.
- Reconcile.RunTwiceIsQuiet: it is stated for a second run whose RAGFlow inventory still holds every recorded target. The bulk delete is repeated whenever an upstream-deleted row exists, because the rows are kept. Once the deletion pass has removed the target of a row whose page is gone, the next run raises KeyError instead of being quiet (Reconcile.DeletedTargetAbortsNextRun).
- SyncPass.SyncPrefixPointwise, SyncPass.SyncPointwise, Reconcile.SettledRow, Reconcile.FirstRunSettles, Reconcile.RunTwiceIsQuiet: stated for a table with one row per source id. The table has no UNIQUE constraint, and with duplicate rows the status pass judges only the first one (lines 105 and 114-124), so these claims do not hold for arbitrary tables. From an empty table, or any table with one row per source, the script keeps that property (StatusPass.StatusPassKeepsUnique; SyncPass.SyncFrame keeps every source column).
- The meaning of the metadata values inside RAGFlow and the asynchronous parse are outside the engine: they appear only as logged calls.
