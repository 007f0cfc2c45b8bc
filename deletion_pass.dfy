/**
 * The deletion pass (sync_tool.py, lines 130-140): from the snapshot of
 * the table, the target ids of the rows marked upstream-deleted, in scan
 * order, deleted in one call when the option is on and the list is not
 * empty. The mapping rows themselves are kept.
 */
module DeletionPass {
  import opened Wrappers
  import opened Mapping
  import opened Corpus

  /** The target ids of the upstream-deleted rows, in scan order; a NULL target id stays in the list. */
  function DeleteIds(rows: seq<Row>): seq<Option<string>>
    decreases |rows|
  {
    if rows == [] then []
    else
      var n := |rows| - 1;
      DeleteIds(rows[..n]) + (if rows[n].status == UpstreamDeleted then [rows[n].target] else [])
  }

  /** The list follows the scan: the ids of a concatenation are the ids of each part, in order. */
  lemma {:induction false} DeleteIdsAppend(a: seq<Row>, b: seq<Row>)
    ensures DeleteIds(a + b) == DeleteIds(a) + DeleteIds(b)
    decreases |b|
  {
    if b != [] {
      var n := |b| - 1;
      assert (a + b)[..|a| + n] == a + b[..n];
      DeleteIdsAppend(a, b[..n]);
    } else {
      assert a + b == a;
    }
  }

  /** A target id is listed exactly when some upstream-deleted row carries it. */
  lemma {:induction false} DeleteIdsMembership(rows: seq<Row>, t: Option<string>)
    ensures t in DeleteIds(rows) <==>
      exists i :: 0 <= i < |rows| && rows[i].status == UpstreamDeleted && rows[i].target == t
    decreases |rows|
  {
    if rows != [] {
      var n := |rows| - 1;
      var pre := rows[..n];
      DeleteIdsMembership(pre, t);
      if exists i :: 0 <= i < |pre| && pre[i].status == UpstreamDeleted && pre[i].target == t {
        var i :| 0 <= i < |pre| && pre[i].status == UpstreamDeleted && pre[i].target == t;
        assert rows[i] == pre[i];
      }
      if exists i :: 0 <= i < |rows| && rows[i].status == UpstreamDeleted && rows[i].target == t {
        var i :| 0 <= i < |rows| && rows[i].status == UpstreamDeleted && rows[i].target == t;
        if i < n { assert pre[i] == rows[i]; }
      }
    }
  }

  /**
   * The calls of the pass: one bulk delete of exactly the listed ids, made
   * only when `deleteNonUpstream` is set and some row is upstream-deleted.
   */
  function DeletionCalls(rows: seq<Row>, deleteNonUpstream: bool): (calls: seq<Call>)
    ensures calls == [] || calls == [Delete(DeleteIds(rows))]
    ensures calls != [] <==>
      deleteNonUpstream && exists i :: 0 <= i < |rows| && rows[i].status == UpstreamDeleted
  {
    var ids := DeleteIds(rows);
    if deleteNonUpstream && ids != [] then
      DeleteIdsMembership(rows, ids[0]);
      [Delete(ids)]
    else
      assert forall i :: 0 <= i < |rows| && rows[i].status == UpstreamDeleted ==> rows[i].target in ids by {
        forall i | 0 <= i < |rows| && rows[i].status == UpstreamDeleted ensures rows[i].target in ids {
          DeleteIdsMembership(rows, rows[i].target);
        }
      }
      []
  }
}
