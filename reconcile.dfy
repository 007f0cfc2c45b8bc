/**
 * One run of the script (sync_tool.py, lines 73-201): build both
 * inventories, run the status pass on the table, take the snapshot, then
 * the deletion pass and the sync pass over that snapshot.
 */
module Reconcile {
  import opened Wrappers
  import opened Outline
  import opened SourceInventory
  import opened TargetInventory
  import opened Mapping
  import opened Corpus
  import StatusPass
  import DeletionPass
  import SyncPass

  /** The table after a run, every call issued in order, and the exception that ended it, if any. */
  datatype RunResult = RunResult(rows: seq<Row>, calls: seq<Call>, err: Option<Error>)

  function EnvOf(inv: Inventory, targets: set<string>, cfg: Config, info: string -> Doc, issued: nat -> string): SyncPass.Env {
    SyncPass.Env(inv.entries, targets, cfg, info, issued)
  }

  /** A run on the table `rows`, given both inventories. */
  function RunSpec(rows: seq<Row>, inv: Inventory, targets: set<string>, cfg: Config,
                   info: string -> Doc, issued: nat -> string): RunResult
    requires ValidInventory(inv)
  {
    var observed := StatusPass.StatusFold(rows, inv.order, inv.entries);
    var s := SyncPass.SyncFold(observed, SyncPass.SyncState(observed, [], 0, None), EnvOf(inv, targets, cfg, info, issued));
    RunResult(s.rows, DeletionPass.DeletionCalls(observed, cfg.deleteNonUpstream) + s.calls, s.err)
  }

  /**
   * The script's main flow. `collections` are the documents of each Outline
   * collection, `page` the RAGFlow listing, `bound` an empty page.
   */
  method Run(table: MappingTable, collections: seq<seq<Doc>>, page: nat -> seq<TargetDoc>, ghost bound: nat,
             cfg: Config, info: string -> Doc, issued: nat -> string)
    returns (calls: seq<Call>, err: Option<Error>)
    requires 1 <= bound && page(bound) == []
    modifies table
    ensures var inv := Filtered(Flatten(collections), cfg.minimumContentLength);
      && ValidInventory(inv)
      && RunResult(table.rows, calls, err) ==
         RunSpec(old(table.rows), inv, TargetIds(Pages(page, 1, FirstEmpty(page, 1, bound))), cfg, info, issued)
  {
    var inv := BuildInventory(collections, cfg.minimumContentLength);
    FilteredValid(Flatten(collections), cfg.minimumContentLength);
    var docs := CollectAll(page, bound);
    var targets := TargetIds(docs);
    StatusPass.Run(table, inv);
    var snapshot := table.rows;
    var deletion := DeletionPass.DeletionCalls(snapshot, cfg.deleteNonUpstream);
    var synced;
    synced, err := SyncPass.Run(table, snapshot, EnvOf(inv, targets, cfg, info, issued));
    calls := deletion + synced;
  }

  // ---------------------------------------------------------------------
  // Properties of a run

  /**
   * A row that the sync pass selects but whose document is not in the
   * inventory (filtered out, or gone from Outline) aborts the run; it is
   * not skipped. This covers a row left upstream-deleted whose target was
   * deleted by an earlier run.
   */
  lemma SelectedWithoutSourceAborts(rows: seq<Row>, inv: Inventory, targets: set<string>, cfg: Config,
                                    info: string -> Doc, issued: nat -> string, i: nat)
    requires ValidInventory(inv)
    requires i < |rows|
    requires rows[i].source !in inv.entries
    requires SyncPass.Selected(rows[i], targets)
    ensures RunSpec(rows, inv, targets, cfg, info, issued).err.Some?
  {
    StatusPass.StatusPassFrame(rows, inv);
    var observed := StatusPass.StatusFold(rows, inv.order, inv.entries);
    SyncPass.SyncSucceeds(observed, observed, 0, EnvOf(inv, targets, cfg, info, issued));
  }

  /** Row `i` after a successful first run is settled (see FirstRunSettles). */
  lemma SettledRow(rows: seq<Row>, inv: Inventory, targets: set<string>, cfg: Config,
                   info: string -> Doc, issued: nat -> string, i: nat)
    requires ValidInventory(inv)
    requires Unique(rows)
    requires RunSpec(rows, inv, targets, cfg, info, issued).err.None?
    requires i < |RunSpec(rows, inv, targets, cfg, info, issued).rows|
    ensures var out := RunSpec(rows, inv, targets, cfg, info, issued).rows;
      && out[i].status != Pending
      && out[i].target.Some?
      && (out[i].source in inv.entries ==> !StatusPass.Raise(out[i], inv.entries[out[i].source]))
  {
    var env := EnvOf(inv, targets, cfg, info, issued);
    var observed := StatusPass.StatusFold(rows, inv.order, inv.entries);
    StatusPass.StatusPassKeepsUnique(rows, inv);
    SyncPass.SyncPointwise(observed, env);
    var out := RunSpec(rows, inv, targets, cfg, info, issued).rows;
    if !SyncPass.Selected(observed[i], targets) {
      assert out[i] == observed[i];
      if out[i].source in inv.entries {
        StatusPass.StatusPassFrame(rows, inv);
        StatusPass.StatusFoldPointwise(rows, inv.order, inv.entries);
        if i < |rows| {
          FirstIndexUnique(rows, i);
          assert observed[i] == StatusPass.ExistingAfter(rows, i, inv.order, inv.entries);
        }
      }
    }
  }

  /**
   * After a successful run, the table still has one row per source id, every
   * observed id has a row, no row of an observed id would be raised by the
   * next status pass, and no row is pending or without a target.
   */
  lemma FirstRunSettles(rows: seq<Row>, inv: Inventory, targets: set<string>, cfg: Config,
                        info: string -> Doc, issued: nat -> string)
    requires ValidInventory(inv)
    requires Unique(rows)
    requires RunSpec(rows, inv, targets, cfg, info, issued).err.None?
    ensures var out := RunSpec(rows, inv, targets, cfg, info, issued).rows;
      && Unique(out)
      && (forall k :: k in inv.entries ==> exists i :: 0 <= i < |out| && out[i].source == k)
      && (forall i :: 0 <= i < |out| && out[i].source in inv.entries ==>
            !StatusPass.Raise(out[i], inv.entries[out[i].source]))
      && (forall i :: 0 <= i < |out| ==> out[i].status != Pending && out[i].target.Some?)
  {
    var env := EnvOf(inv, targets, cfg, info, issued);
    var observed := StatusPass.StatusFold(rows, inv.order, inv.entries);
    StatusPass.StatusPassKeepsUnique(rows, inv);
    StatusPass.StatusPassFrame(rows, inv);
    SyncPass.SyncFrame(observed, SyncPass.SyncState(observed, [], 0, None), env);
    var out := RunSpec(rows, inv, targets, cfg, info, issued).rows;
    assert forall i :: 0 <= i < |out| ==> out[i].source == observed[i].source;
    forall k | k in inv.entries ensures exists i :: 0 <= i < |out| && out[i].source == k {
      var i :| 0 <= i < |observed| && observed[i].source == k;
      assert out[i].source == k;
    }
    forall i | 0 <= i < |out|
      ensures out[i].status != Pending && out[i].target.Some?
      ensures out[i].source in inv.entries ==> !StatusPass.Raise(out[i], inv.entries[out[i].source])
    {
      SettledRow(rows, inv, targets, cfg, info, issued, i);
    }
  }

  /**
   * Idempotence: running again on the table a successful run produced, with
   * the same Outline inventory and a RAGFlow inventory that still holds every
   * target the table names, flags nothing, uploads nothing and changes
   * nothing; the only call is the deletion pass's bulk delete, repeated.
   */
  lemma RunTwiceIsQuiet(rows: seq<Row>, inv: Inventory, targets: set<string>, targets2: set<string>, cfg: Config,
                        info: string -> Doc, issued: nat -> string, info2: string -> Doc, issued2: nat -> string)
    requires ValidInventory(inv)
    requires Unique(rows)
    requires RunSpec(rows, inv, targets, cfg, info, issued).err.None?
    requires var out := RunSpec(rows, inv, targets, cfg, info, issued).rows;
      forall i :: 0 <= i < |out| && out[i].target.Some? ==> out[i].target.value in targets2
    ensures var out := RunSpec(rows, inv, targets, cfg, info, issued).rows;
      var again := RunSpec(out, inv, targets2, cfg, info2, issued2);
      && again.rows == out
      && again.err.None?
      && again.calls == DeletionPass.DeletionCalls(out, cfg.deleteNonUpstream)
  {
    var out := RunSpec(rows, inv, targets, cfg, info, issued).rows;
    FirstRunSettles(rows, inv, targets, cfg, info, issued);
    StatusPass.StatusPassSettled(out, inv);
    SyncPass.SyncNothingSelected(out, SyncPass.SyncState(out, [], 0, None), EnvOf(inv, targets2, cfg, info2, issued2));
  }

  /**
   * A vanished page's row left upstream-deleted: the deletion pass removes
   * its target, the row is kept, and the next run, which no longer finds
   * that target, selects the row and fails on its missing document. It
   * fails whether or not the first run's changes were committed.
   */
  lemma DeletedTargetAbortsNextRun(rows: seq<Row>, inv: Inventory, targets: set<string>, targets2: set<string>,
                                   cfg: Config, info: string -> Doc, issued: nat -> string,
                                   info2: string -> Doc, issued2: nat -> string, i: nat)
    requires ValidInventory(inv)
    requires cfg.deleteNonUpstream
    requires i < |rows| && rows[i].status == UpstreamDeleted && rows[i].source !in inv.entries
    requires rows[i].target.Some? && rows[i].target.value !in targets2
    ensures var first := RunSpec(rows, inv, targets, cfg, info, issued);
      && |first.calls| > 0 && first.calls[0].Delete? && rows[i].target in first.calls[0].ids
      && i < |first.rows| && first.rows[i] == rows[i]
      && (first.err.None? ==> RunSpec(first.rows, inv, targets2, cfg, info2, issued2).err.Some?)
      && RunSpec(rows, inv, targets2, cfg, info2, issued2).err.Some?
  {
    var env := EnvOf(inv, targets, cfg, info, issued);
    var observed := StatusPass.StatusFold(rows, inv.order, inv.entries);
    StatusPass.StatusPassFrame(rows, inv);
    assert observed[i] == rows[i];
    DeletionPass.DeleteIdsMembership(observed, rows[i].target);
    SyncPass.SyncKeepsUnknownSource(observed, SyncPass.SyncState(observed, [], 0, None), env, i);
    var first := RunSpec(rows, inv, targets, cfg, info, issued);
    assert first.rows[i] == rows[i];
    SelectedWithoutSourceAborts(rows, inv, targets2, cfg, info2, issued2, i);
    if first.err.None? {
      SelectedWithoutSourceAborts(first.rows, inv, targets2, cfg, info2, issued2, i);
    }
  }

  // ---------------------------------------------------------------------
  // Single-document runs

  /** An empty wiki and an empty table: no call, no row. */
  lemma EmptyRun(targets: set<string>, cfg: Config, info: string -> Doc, issued: nat -> string)
    ensures RunSpec([], Inventory([], map[]), targets, cfg, info, issued) == RunResult([], [], None)
  {
  }

  /** A new page: one row, created pending and left updated, one upload and its metadata. */
  lemma NewPageRun(k: string, e: Entry, targets: set<string>, cfg: Config, info: string -> Doc, issued: nat -> string)
    requires AllSupported(cfg.metaMap) && !cfg.autoStartParse
    ensures var inv := Inventory([k], map[k := e]);
      RunSpec([], inv, targets, cfg, info, issued) ==
        RunResult([Row(Some(issued(0)), k, Some(e.updatedAt), Updated)],
                  [Upload(e.title + ".md", e.text), SetMeta(issued(0), SyncPass.MetaOf(k, EnvOf(inv, targets, cfg, info, issued)))],
                  None)
  {
    var inv := Inventory([k], map[k := e]);
    var env := EnvOf(inv, targets, cfg, info, issued);
    var created := Row(None, k, None, Pending);
    StatusPass.StatusFoldSingle([], k, inv.entries);
    assert StatusPass.StatusFold([], inv.order, inv.entries) == [created];
    SyncPass.SyncFoldSingle(created, SyncPass.SyncState([created], [], 0, None), env);
    MetaFieldsSucceeds(cfg.metaMap, info(k), cfg.outlineUrl);
    assert RecordSync([created], k, issued(0), e.updatedAt) == [Row(Some(issued(0)), k, Some(e.updatedAt), Updated)];
  }

  /** A page edited since its last sync, target still there: delete the old copy, upload, set metadata. */
  lemma EditedPageRun(k: string, e: Entry, t: string, before: int, targets: set<string>, cfg: Config,
                      info: string -> Doc, issued: nat -> string)
    requires AllSupported(cfg.metaMap) && !cfg.autoStartParse
    requires t != "" && t in targets && before < e.updatedAt
    ensures var inv := Inventory([k], map[k := e]);
      RunSpec([Row(Some(t), k, Some(before), Updated)], inv, targets, cfg, info, issued) ==
        RunResult([Row(Some(issued(0)), k, Some(e.updatedAt), Updated)],
                  [Delete([Some(t)]), Upload(e.title + ".md", e.text),
                   SetMeta(issued(0), SyncPass.MetaOf(k, EnvOf(inv, targets, cfg, info, issued)))],
                  None)
  {
    var inv := Inventory([k], map[k := e]);
    var env := EnvOf(inv, targets, cfg, info, issued);
    var row := Row(Some(t), k, Some(before), Updated);
    var raised := row.(status := Pending);
    StatusPass.StatusFoldSingle([row], k, inv.entries);
    assert FirstIndex([row], k) == Some(0);
    assert SetStatus([row], k, Pending) == [raised];
    assert StatusPass.StatusFold([row], inv.order, inv.entries) == [raised];
    SyncPass.SyncFoldSingle(raised, SyncPass.SyncState([raised], [], 0, None), env);
    MetaFieldsSucceeds(cfg.metaMap, info(k), cfg.outlineUrl);
    assert RecordSync([raised], k, issued(0), e.updatedAt) == [Row(Some(issued(0)), k, Some(e.updatedAt), Updated)];
  }

  /** An unchanged page whose target vanished from RAGFlow: a new upload, nothing deleted. */
  lemma DriftedPageRun(k: string, e: Entry, t: string, targets: set<string>, cfg: Config,
                       info: string -> Doc, issued: nat -> string)
    requires AllSupported(cfg.metaMap) && !cfg.autoStartParse
    requires t !in targets
    ensures var inv := Inventory([k], map[k := e]);
      RunSpec([Row(Some(t), k, Some(e.updatedAt), Updated)], inv, targets, cfg, info, issued) ==
        RunResult([Row(Some(issued(0)), k, Some(e.updatedAt), Updated)],
                  [Upload(e.title + ".md", e.text), SetMeta(issued(0), SyncPass.MetaOf(k, EnvOf(inv, targets, cfg, info, issued)))],
                  None)
  {
    var inv := Inventory([k], map[k := e]);
    var env := EnvOf(inv, targets, cfg, info, issued);
    var row := Row(Some(t), k, Some(e.updatedAt), Updated);
    StatusPass.StatusFoldSingle([row], k, inv.entries);
    assert FirstIndex([row], k) == Some(0);
    assert StatusPass.StatusFold([row], inv.order, inv.entries) == [row];
    SyncPass.SyncFoldSingle(row, SyncPass.SyncState([row], [], 0, None), env);
    MetaFieldsSucceeds(cfg.metaMap, info(k), cfg.outlineUrl);
    assert RecordSync([row], k, issued(0), e.updatedAt) == [Row(Some(issued(0)), k, Some(e.updatedAt), Updated)];
  }

  /** An unchanged page whose target is still there: nothing to do. */
  lemma UnchangedPageRun(k: string, e: Entry, t: string, targets: set<string>, cfg: Config,
                         info: string -> Doc, issued: nat -> string)
    requires t in targets
    ensures var rows := [Row(Some(t), k, Some(e.updatedAt), Updated)];
      RunSpec(rows, Inventory([k], map[k := e]), targets, cfg, info, issued) == RunResult(rows, [], None)
  {
    var inv := Inventory([k], map[k := e]);
    var row := Row(Some(t), k, Some(e.updatedAt), Updated);
    StatusPass.StatusFoldSingle([row], k, inv.entries);
    assert FirstIndex([row], k) == Some(0);
    assert StatusPass.StatusFold([row], inv.order, inv.entries) == [row];
    SyncPass.SyncFoldSingle(row, SyncPass.SyncState([row], [], 0, None), EnvOf(inv, targets, cfg, info, issued));
  }
}
