/**
 * The sync pass (sync_tool.py, lines 142-198): for each row of the table
 * snapshot, in scan order, a row that is pending or whose target document
 * is not in the RAGFlow inventory is re-uploaded: the old target is
 * deleted when it still exists, the text is uploaded, the row is rewritten
 * to (new id, document timestamp, updated) and the new document gets its
 * metadata and, when configured, a parse request.
 */
module SyncPass {
  import opened Wrappers
  import opened Outline
  import opened SourceInventory
  import opened Mapping
  import opened Corpus

  /**
   * What the pass reads besides the table: the Outline inventory, the ids of
   * the RAGFlow inventory, the configuration, the Outline `documents.info`
   * lookup, and `issued(n)`, the id RAGFlow assigns to the n-th upload.
   */
  datatype Env = Env(
    entries: map<string, Entry>,
    targets: set<string>,
    cfg: Config,
    info: string -> Doc,
    issued: nat -> string)

  /** The row's target id is one of the RAGFlow inventory's ids; a NULL id never is. */
  predicate Present(r: Row, targets: set<string>) {
    r.target.Some? && r.target.value in targets
  }

  /** The selection of line 146: pending, or the target document is gone. */
  predicate Selected(r: Row, targets: set<string>) {
    r.status == Pending || !Present(r, targets)
  }

  /** The old target is deleted when its id is non-empty (Python truthiness) and present. */
  predicate DeletesOld(r: Row, targets: set<string>) {
    r.target.Some? && r.target.value != "" && Present(r, targets)
  }

  /** The table, the calls issued so far, the number of uploads, and the exception, if one was raised. */
  datatype SyncState = SyncState(rows: seq<Row>, calls: seq<Call>, uploads: nat, err: Option<Error>)

  /** One iteration of the loop for snapshot row `r`. */
  function SyncRow(st: SyncState, r: Row, env: Env): SyncState {
    if st.err.Some? || !Selected(r, env.targets) then st
    else if r.source !in env.entries then st.(err := Some(MissingSource(r.source)))
    else
      var e := env.entries[r.source];
      var id := env.issued(st.uploads);
      var del := if DeletesOld(r, env.targets) then [Delete([r.target])] else [];
      var rows := RecordSync(st.rows, r.source, id, e.updatedAt);
      var calls := st.calls + del + [Upload(e.title + ".md", e.text)];
      match MetaFields(env.cfg.metaMap, env.info(r.source), env.cfg.outlineUrl)
      case Err(p) => SyncState(rows, calls, st.uploads + 1, Some(InvalidPropName(p)))
      case Ok(m) =>
        var parse := if env.cfg.autoStartParse then [Parse([id])] else [];
        SyncState(rows, calls + [SetMeta(id, m)] + parse, st.uploads + 1, None)
  }

  /** The state after the loop has visited `snapshot` in order. */
  function SyncFold(snapshot: seq<Row>, st: SyncState, env: Env): SyncState
    decreases |snapshot|
  {
    if snapshot == [] then st
    else
      var n := |snapshot| - 1;
      SyncRow(SyncFold(snapshot[..n], st, env), snapshot[n], env)
  }

  /** A one-row snapshot is one iteration. */
  lemma SyncFoldSingle(r: Row, st: SyncState, env: Env)
    ensures SyncFold([r], st, env) == SyncRow(st, r, env)
  {
    assert [r][..0] == [];
  }

  /** Once an exception is raised, the rest of the snapshot is not visited. */
  lemma {:induction false} SyncFoldErrorPersists(snapshot: seq<Row>, k: nat, st: SyncState, env: Env)
    requires k <= |snapshot|
    requires SyncFold(snapshot[..k], st, env).err.Some?
    ensures SyncFold(snapshot, st, env) == SyncFold(snapshot[..k], st, env)
    decreases |snapshot| - k
  {
    if k < |snapshot| {
      assert snapshot[..k + 1][..k] == snapshot[..k];
      SyncFoldErrorPersists(snapshot, k + 1, st, env);
    } else {
      assert snapshot[..k] == snapshot;
    }
  }

  /** One iteration of the sync loop (lines 144-193) for the snapshot row `r`, with no exception raised so far. */
  method SyncOne(table: MappingTable, r: Row, env: Env, calls0: seq<Call>, uploads0: nat)
    returns (calls: seq<Call>, uploads: nat, err: Option<Error>)
    modifies table
    ensures SyncState(table.rows, calls, uploads, err) == SyncRow(SyncState(old(table.rows), calls0, uploads0, None), r, env)
  {
    calls, uploads, err := calls0, uploads0, None;
    var docExists := r.target.Some? && r.target.value in env.targets;
    if r.status == Pending || !docExists {
      if r.source !in env.entries {
        err := Some(MissingSource(r.source));
        return;
      }
      var e := env.entries[r.source];
      if r.target.Some? && r.target.value != "" && docExists {
        calls := calls + [Delete([r.target])];
      }
      calls := calls + [Upload(e.title + ".md", e.text)];
      var id := env.issued(uploads);
      uploads := uploads + 1;
      table.UpdateAfterSync(r.source, id, e.updatedAt);
      var meta := BuildMetadata(env.cfg.metaMap, env.info(r.source), env.cfg.outlineUrl);
      if meta.Err? {
        err := Some(InvalidPropName(meta.error));
        return;
      }
      calls := calls + [SetMeta(id, meta.value)];
      if env.cfg.autoStartParse {
        calls := calls + [Parse([id])];
      }
    }
  }

  /** The sync pass: iterates the snapshot `dbRows` while updating the live table. */
  method Run(table: MappingTable, snapshot: seq<Row>, env: Env) returns (calls: seq<Call>, err: Option<Error>)
    modifies table
    ensures var s := SyncFold(snapshot, SyncState(old(table.rows), [], 0, None), env);
      table.rows == s.rows && calls == s.calls && err == s.err
  {
    ghost var init := SyncState(table.rows, [], 0, None);
    calls, err := [], None;
    var uploads := 0;
    for i := 0 to |snapshot|
      invariant SyncFold(snapshot[..i], init, env) == SyncState(table.rows, calls, uploads, None)
      invariant err.None?
    {
      assert snapshot[..i + 1][..i] == snapshot[..i];
      calls, uploads, err := SyncOne(table, snapshot[i], env, calls, uploads);
      if err.Some? {
        SyncFoldErrorPersists(snapshot, i + 1, init, env);
        return;
      }
    }
    assert snapshot[..|snapshot|] == snapshot;
  }

  // ---------------------------------------------------------------------
  // Properties of the pass

  /** The number of selected rows in `s`. */
  function SelectedCount(s: seq<Row>, targets: set<string>): nat
    decreases |s|
  {
    if s == [] then 0
    else
      var n := |s| - 1;
      SelectedCount(s[..n], targets) + (if Selected(s[n], targets) then 1 else 0)
  }

  /** The pass raises no exception exactly when every selected row has its document and every property name is known. */
  lemma {:induction false} SyncSucceeds(snapshot: seq<Row>, rows: seq<Row>, u: nat, env: Env)
    ensures SyncFold(snapshot, SyncState(rows, [], u, None), env).err.None? <==>
      forall i :: 0 <= i < |snapshot| && Selected(snapshot[i], env.targets) ==>
        snapshot[i].source in env.entries && AllSupported(env.cfg.metaMap)
    decreases |snapshot|
  {
    if snapshot != [] {
      var n := |snapshot| - 1;
      var pre := snapshot[..n];
      SyncSucceeds(pre, rows, u, env);
      var r := snapshot[n];
      MetaFieldsSucceeds(env.cfg.metaMap, env.info(r.source), env.cfg.outlineUrl);
      assert forall i :: 0 <= i < n ==> snapshot[i] == pre[i];
    }
  }

  /** Nothing selected: the pass issues no call and leaves the table as it was. */
  lemma {:induction false} SyncNothingSelected(snapshot: seq<Row>, st: SyncState, env: Env)
    requires forall i :: 0 <= i < |snapshot| ==> !Selected(snapshot[i], env.targets)
    ensures SyncFold(snapshot, st, env) == st
    decreases |snapshot|
  {
    if snapshot != [] {
      var n := |snapshot| - 1;
      SyncNothingSelected(snapshot[..n], st, env);
    }
  }

  /**
   * Frame: the pass keeps the number of rows and every source id, and a row
   * either stays as it was or now holds a target id, a timestamp and the
   * status updated; in particular it never marks a row upstream-deleted.
   */
  lemma {:induction false} SyncFrame(snapshot: seq<Row>, st: SyncState, env: Env)
    ensures var out := SyncFold(snapshot, st, env);
      && |out.rows| == |st.rows|
      && forall i :: 0 <= i < |st.rows| ==>
           && out.rows[i].source == st.rows[i].source
           && (out.rows[i] == st.rows[i] ||
               (out.rows[i].target.Some? && out.rows[i].lastUpdated.Some? && out.rows[i].status == Updated))
    decreases |snapshot|
  {
    if snapshot != [] {
      var n := |snapshot| - 1;
      SyncFrame(snapshot[..n], st, env);
    }
  }

  /** A row whose source is not in the inventory is never rewritten: only a processed row's own source is updated. */
  lemma {:induction false} SyncKeepsUnknownSource(snapshot: seq<Row>, st: SyncState, env: Env, i: nat)
    requires i < |st.rows| && st.rows[i].source !in env.entries
    ensures var out := SyncFold(snapshot, st, env);
      i < |out.rows| && out.rows[i] == st.rows[i]
    decreases |snapshot|
  {
    SyncFrame(snapshot, st, env);
    if snapshot != [] {
      var n := |snapshot| - 1;
      SyncKeepsUnknownSource(snapshot[..n], st, env, i);
    }
  }

  /** Row `i` once synced by the `j`-th upload. */
  function Synced(r: Row, j: nat, env: Env): Row
    requires r.source in env.entries
  {
    Row(Some(env.issued(j)), r.source, Some(env.entries[r.source].updatedAt), Updated)
  }

  /**
   * Row by row, starting from the snapshot itself, with one row per source
   * id and no exception: after the first `m` rows were visited, each
   * selected one of them holds (id of its upload, its document's timestamp,
   * updated), uploads being numbered in scan order, and every other row is
   * unchanged.
   */
  lemma {:induction false} SyncPrefixPointwise(snapshot: seq<Row>, m: nat, env: Env)
    requires m <= |snapshot|
    requires Unique(snapshot)
    requires SyncFold(snapshot[..m], SyncState(snapshot, [], 0, None), env).err.None?
    ensures var out := SyncFold(snapshot[..m], SyncState(snapshot, [], 0, None), env);
      && out.uploads == SelectedCount(snapshot[..m], env.targets)
      && |out.rows| == |snapshot|
      && forall i :: 0 <= i < |snapshot| ==>
           out.rows[i] ==
             if i < m && Selected(snapshot[i], env.targets) && snapshot[i].source in env.entries
             then Synced(snapshot[i], SelectedCount(snapshot[..i], env.targets), env)
             else snapshot[i]
    decreases m
  {
    var init := SyncState(snapshot, [], 0, None);
    if m == 0 {
      assert snapshot[..0] == [];
    } else {
      var n := m - 1;
      assert snapshot[..m][..n] == snapshot[..n];
      var prev := SyncFold(snapshot[..n], init, env);
      assert prev.err.None?;
      SyncPrefixPointwise(snapshot, n, env);
      SyncFrame(snapshot[..n], init, env);
      var r := snapshot[n];
      var out := SyncFold(snapshot[..m], init, env);
      assert out == SyncRow(prev, r, env);
      if Selected(r, env.targets) {
        forall i | 0 <= i < |snapshot|
          ensures out.rows[i] ==
             if i < m && Selected(snapshot[i], env.targets) && snapshot[i].source in env.entries
             then Synced(snapshot[i], SelectedCount(snapshot[..i], env.targets), env)
             else snapshot[i]
        {
          if i != n {
            assert snapshot[i].source != r.source;
          }
        }
      }
    }
  }

  /** The whole pass, row by row (see SyncPrefixPointwise). */
  lemma SyncPointwise(snapshot: seq<Row>, env: Env)
    requires Unique(snapshot)
    requires SyncFold(snapshot, SyncState(snapshot, [], 0, None), env).err.None?
    ensures forall i :: 0 <= i < |snapshot| && Selected(snapshot[i], env.targets) ==> snapshot[i].source in env.entries
    ensures var out := SyncFold(snapshot, SyncState(snapshot, [], 0, None), env);
      && |out.rows| == |snapshot|
      && forall i :: 0 <= i < |snapshot| ==>
           out.rows[i] ==
             if Selected(snapshot[i], env.targets)
             then Synced(snapshot[i], SelectedCount(snapshot[..i], env.targets), env)
             else snapshot[i]
  {
    assert snapshot[..|snapshot|] == snapshot;
    SyncSucceeds(snapshot, snapshot, 0, env);
    SyncPrefixPointwise(snapshot, |snapshot|, env);
  }

  /** The metadata attached to the upload of source `src`, when the configuration is valid. */
  function MetaOf(src: string, env: Env): map<string, MetaValue> {
    match MetaFields(env.cfg.metaMap, env.info(src), env.cfg.outlineUrl)
    case Ok(m) => m
    case Err(_) => map[]
  }

  /**
   * The calls for one processed row whose upload gets `id`: the delete of
   * the old target if it still exists, the upload, the metadata, then the
   * parse request if configured.
   */
  function RowCalls(r: Row, id: string, env: Env): seq<Call>
    requires r.source in env.entries
  {
    var e := env.entries[r.source];
    (if DeletesOld(r, env.targets) then [Delete([r.target])] else [])
    + [Upload(e.title + ".md", e.text), SetMeta(id, MetaOf(r.source, env))]
    + (if env.cfg.autoStartParse then [Parse([id])] else [])
  }

  /** The calls of a pass without exception over `s`, whose first upload is number `u`. */
  function Blocks(s: seq<Row>, u: nat, env: Env): seq<Call>
    requires forall i :: 0 <= i < |s| && Selected(s[i], env.targets) ==> s[i].source in env.entries
    decreases |s|
  {
    if s == [] then []
    else
      var n := |s| - 1;
      Blocks(s[..n], u, env)
      + (if Selected(s[n], env.targets)
         then RowCalls(s[n], env.issued(u + SelectedCount(s[..n], env.targets)), env)
         else [])
  }

  /** One iteration without exception appends the row's block of calls, or nothing. */
  lemma SyncRowCalls(st: SyncState, r: Row, env: Env)
    requires st.err.None?
    requires SyncRow(st, r, env).err.None?
    ensures Selected(r, env.targets) ==> r.source in env.entries
    ensures var out := SyncRow(st, r, env);
      && out.uploads == st.uploads + (if Selected(r, env.targets) then 1 else 0)
      && out.calls == st.calls + (if Selected(r, env.targets) then RowCalls(r, env.issued(st.uploads), env) else [])
  {
    if Selected(r, env.targets) {
      MetaFieldsSucceeds(env.cfg.metaMap, env.info(r.source), env.cfg.outlineUrl);
    }
  }

  /**
   * A pass without exception issues, in scan order, one block of calls per
   * selected row and nothing for any other row.
   */
  lemma {:induction false} SyncCalls(snapshot: seq<Row>, rows: seq<Row>, u: nat, env: Env)
    requires SyncFold(snapshot, SyncState(rows, [], u, None), env).err.None?
    ensures forall i :: 0 <= i < |snapshot| && Selected(snapshot[i], env.targets) ==> snapshot[i].source in env.entries
    ensures var out := SyncFold(snapshot, SyncState(rows, [], u, None), env);
      && out.uploads == u + SelectedCount(snapshot, env.targets)
      && out.calls == Blocks(snapshot, u, env)
    decreases |snapshot|
  {
    SyncSucceeds(snapshot, rows, u, env);
    if snapshot != [] {
      var n := |snapshot| - 1;
      var pre := snapshot[..n];
      var init := SyncState(rows, [], u, None);
      var prev := SyncFold(pre, init, env);
      assert prev.err.None?;
      SyncCalls(pre, rows, u, env);
      SyncRowCalls(prev, snapshot[n], env);
    }
  }
}
