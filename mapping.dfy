/**
 * The `document_mapping` table (sync_tool.py, lines 61-70): rows of
 * (ragflow_doc_id, outline_doc_id, last_updated, status), kept in rowid
 * order. SQL NULLs are `None`.
 */
module Mapping {
  import opened Wrappers

  /** The three status strings: 待更新, 已更新 and 上游已删除. */
  datatype Status = Pending | Updated | UpstreamDeleted

  /** One row: target (RAGFlow) id, source (Outline) id, last synced instant, status. */
  datatype Row = Row(target: Option<string>, source: string, lastUpdated: Option<int>, status: Status)

  /**
   * The index of the first row, in rowid order, whose source id is `src`:
   * the row the lookup by source id returns when only its first result is read.
   */
  function FirstIndex(rows: seq<Row>, src: string): (r: Option<nat>)
    ensures r.Some? ==> r.value < |rows| && rows[r.value].source == src
    ensures r.Some? ==> forall j :: 0 <= j < r.value ==> rows[j].source != src
    ensures r.None? ==> forall j :: 0 <= j < |rows| ==> rows[j].source != src
    decreases |rows|
  {
    if rows == [] then None
    else if rows[0].source == src then Some(0)
    else
      match FirstIndex(rows[1..], src)
      case None => None
      case Some(j) => Some(j + 1)
  }

  /** The first row with a given source id is determined by the source columns alone. */
  lemma FirstIndexBySources(a: seq<Row>, b: seq<Row>, src: string)
    requires |a| == |b|
    requires forall i :: 0 <= i < |a| ==> a[i].source == b[i].source
    ensures FirstIndex(a, src) == FirstIndex(b, src)
  {
  }

  /** Appending rows with other source ids does not change the first row found. */
  lemma FirstIndexExtend(a: seq<Row>, extra: seq<Row>, src: string)
    requires forall i :: 0 <= i < |extra| ==> extra[i].source != src
    ensures FirstIndex(a + extra, src) == FirstIndex(a, src)
  {
    forall i | 0 <= i < |a| ensures (a + extra)[i] == a[i] { }
    forall i | |a| <= i < |a + extra| ensures (a + extra)[i].source != src {
      assert (a + extra)[i] == extra[i - |a|];
    }
  }

  /** At most one row per source id. */
  predicate Unique(rows: seq<Row>) {
    forall i, j :: 0 <= i < j < |rows| ==> rows[i].source != rows[j].source
  }

  /** In a table without duplicates, the row found for a row's own source id is that row. */
  lemma FirstIndexUnique(rows: seq<Row>, i: nat)
    requires Unique(rows) && i < |rows|
    ensures FirstIndex(rows, rows[i].source) == Some(i)
  {
  }

  /** The status update by source id: every row of `src` takes status `st`. */
  function SetStatus(rows: seq<Row>, src: string, st: Status): seq<Row> {
    seq(|rows|, i requires 0 <= i < |rows| =>
      if rows[i].source == src then rows[i].(status := st) else rows[i])
  }

  /** The update after an upload: every row of `src` records the new target id, the timestamp and status updated. */
  function RecordSync(rows: seq<Row>, src: string, target: string, ts: int): seq<Row> {
    seq(|rows|, i requires 0 <= i < |rows| =>
      if rows[i].source == src then Row(Some(target), src, Some(ts), Updated) else rows[i])
  }

  /** The table itself, updated in place by the passes. */
  class MappingTable {
    var rows: seq<Row>

    constructor (initial: seq<Row>)
      ensures rows == initial
    {
      rows := initial;
    }

    /** The lookup by source id, reading only its first result row. */
    function Lookup(src: string): (r: Option<Row>)
      reads this
      ensures r.None? <==> forall j :: 0 <= j < |rows| ==> rows[j].source != src
      ensures r.Some? ==> r.value == rows[FirstIndex(rows, src).value]
    {
      match FirstIndex(rows, src)
      case None => None
      case Some(i) => Some(rows[i])
    }

    /** Adds a pending row for `src` with no target and no timestamp. */
    method InsertPending(src: string)
      modifies this
      ensures rows == old(rows) + [Row(None, src, None, Pending)]
    {
      rows := rows + [Row(None, src, None, Pending)];
    }

    /** Sets the status of every row of source `src`; no other row or field changes. */
    method UpdateStatus(src: string, st: Status)
      modifies this
      ensures |rows| == |old(rows)|
      ensures forall i :: 0 <= i < |rows| ==>
        rows[i] == if old(rows)[i].source == src then old(rows)[i].(status := st) else old(rows)[i]
    {
      rows := SetStatus(rows, src, st);
    }

    /** Records a completed upload on every row of source `src`; no other row changes. */
    method UpdateAfterSync(src: string, target: string, ts: int)
      modifies this
      ensures |rows| == |old(rows)|
      ensures forall i :: 0 <= i < |rows| ==>
        rows[i] == if old(rows)[i].source == src then Row(Some(target), src, Some(ts), Updated) else old(rows)[i]
    {
      rows := RecordSync(rows, src, target, ts);
    }
  }
}
