/**
 * The status pass (sync_tool.py, lines 96-128): for every source document
 * of the inventory, in inventory order, insert a pending row when the
 * table has none for it, or raise the existing rows to pending when the
 * first of them is marked upstream-deleted, has never been synced, or is
 * older than the document.
 */
module StatusPass {
  import opened Wrappers
  import opened SourceInventory
  import opened Mapping

  /** Whether an existing row `r` must be synced again for the document entry `e` (lines 114-124). */
  predicate Raise(r: Row, e: Entry) {
    r.status == UpstreamDeleted || r.lastUpdated.None? || e.updatedAt > r.lastUpdated.value
  }

  /** One iteration of the loop, for source id `k` with entry `e`. */
  function Observe(rows: seq<Row>, k: string, e: Entry): seq<Row> {
    match FirstIndex(rows, k)
    case None => rows + [Row(None, k, None, Pending)]
    case Some(i) => if Raise(rows[i], e) then SetStatus(rows, k, Pending) else rows
  }

  /** The table after the loop has visited `keys` in order. */
  function StatusFold(rows: seq<Row>, keys: seq<string>, entries: map<string, Entry>): (r: seq<Row>)
    requires forall k :: k in keys ==> k in entries
    ensures |rows| <= |r|
    decreases |keys|
  {
    if keys == [] then rows
    else
      var n := |keys| - 1;
      Observe(StatusFold(rows, keys[..n], entries), keys[n], entries[keys[n]])
  }

  /** A one-document inventory makes one observation. */
  lemma StatusFoldSingle(rows: seq<Row>, k: string, entries: map<string, Entry>)
    requires k in entries
    ensures StatusFold(rows, [k], entries) == Observe(rows, k, entries[k])
  {
    assert [k][..0] == [];
  }

  /** The status pass on the live table. */
  method Run(table: MappingTable, inv: Inventory)
    requires ValidInventory(inv)
    modifies table
    ensures table.rows == StatusFold(old(table.rows), inv.order, inv.entries)
  {
    for i := 0 to |inv.order|
      invariant table.rows == StatusFold(old(table.rows), inv.order[..i], inv.entries)
    {
      assert inv.order[..i + 1][..i] == inv.order[..i];
      var k := inv.order[i];
      var e := inv.entries[k];
      var row := table.Lookup(k);
      match row {
        case None =>
          table.InsertPending(k);
        case Some(r) =>
          if r.status == UpstreamDeleted {
            table.UpdateStatus(k, Pending);
          } else if r.lastUpdated.None? || e.updatedAt > r.lastUpdated.value {
            table.UpdateStatus(k, Pending);
          }
      }
    }
    assert inv.order[..|inv.order|] == inv.order;
  }

  // ---------------------------------------------------------------------
  // The pass, row by row

  predicate Distinct(keys: seq<string>) {
    forall i, j :: 0 <= i < j < |keys| ==> keys[i] != keys[j]
  }

  /** Existing row `i` after the pass: raised iff its source is observed and that source's first row must be synced. */
  function ExistingAfter(rows: seq<Row>, i: nat, keys: seq<string>, entries: map<string, Entry>): Row
    requires i < |rows|
    requires forall k :: k in keys ==> k in entries
  {
    var k := rows[i].source;
    if k in keys && Raise(rows[FirstIndex(rows, k).value], entries[k]) then rows[i].(status := Pending) else rows[i]
  }

  function Existing(rows: seq<Row>, keys: seq<string>, entries: map<string, Entry>): seq<Row>
    requires forall k :: k in keys ==> k in entries
  {
    seq(|rows|, i requires 0 <= i < |rows| => ExistingAfter(rows, i, keys, entries))
  }

  /** The rows the pass appends: one pending row per observed id that had none, in observation order. */
  function Inserted(rows: seq<Row>, keys: seq<string>): seq<Row>
    decreases |keys|
  {
    if keys == [] then []
    else
      var n := |keys| - 1;
      Inserted(rows, keys[..n]) + (if FirstIndex(rows, keys[n]).None? then [Row(None, keys[n], None, Pending)] else [])
  }

  lemma {:induction false} InsertedShape(rows: seq<Row>, keys: seq<string>)
    ensures forall j :: 0 <= j < |Inserted(rows, keys)| ==>
      var r := Inserted(rows, keys)[j];
      r == Row(None, r.source, None, Pending) && r.source in keys && FirstIndex(rows, r.source).None?
    ensures Distinct(keys) ==> Unique(Inserted(rows, keys))
    ensures forall k :: k in keys && FirstIndex(rows, k).None? ==>
      exists j :: 0 <= j < |Inserted(rows, keys)| && Inserted(rows, keys)[j].source == k
    decreases |keys|
  {
    if keys != [] {
      var n := |keys| - 1;
      var pre := keys[..n];
      InsertedShape(rows, pre);
      var a := Inserted(rows, pre);
      var all := Inserted(rows, keys);
      assert forall j :: 0 <= j < |a| ==> all[j] == a[j];
      forall k | k in keys && FirstIndex(rows, k).None?
        ensures exists j :: 0 <= j < |all| && all[j].source == k
      {
        if k == keys[n] {
          assert all[|a|].source == k;
        } else {
          assert k in pre;
        }
      }
      if Distinct(keys) {
        assert Distinct(pre);
        forall j | 0 <= j < |a| ensures a[j].source != keys[n] {
          assert a[j].source in pre;
        }
      }
    }
  }

  /** The whole table after the pass, stated row by row. */
  function StatusPassResult(rows: seq<Row>, keys: seq<string>, entries: map<string, Entry>): seq<Row>
    requires forall k :: k in keys ==> k in entries
  {
    Existing(rows, keys, entries) + Inserted(rows, keys)
  }

  /** Observing an id with no row leaves the existing rows as they were. */
  lemma ExistingStepAbsent(rows: seq<Row>, keys: seq<string>, entries: map<string, Entry>)
    requires keys != [] && forall k :: k in keys ==> k in entries
    requires FirstIndex(rows, keys[|keys| - 1]).None?
    ensures Existing(rows, keys, entries) == Existing(rows, keys[..|keys| - 1], entries)
  {
    var pre, k := keys[..|keys| - 1], keys[|keys| - 1];
    forall i | 0 <= i < |rows|
      ensures ExistingAfter(rows, i, keys, entries) == ExistingAfter(rows, i, pre, entries)
    {
      assert rows[i].source != k;
      assert rows[i].source in keys <==> rows[i].source in pre;
    }
  }

  /** Observing an id whose first row need not be synced leaves the existing rows as they were. */
  lemma ExistingStepKept(rows: seq<Row>, keys: seq<string>, entries: map<string, Entry>)
    requires keys != [] && forall k :: k in keys ==> k in entries
    requires var k := keys[|keys| - 1];
      FirstIndex(rows, k).Some? && !Raise(rows[FirstIndex(rows, k).value], entries[k])
    ensures Existing(rows, keys, entries) == Existing(rows, keys[..|keys| - 1], entries)
  {
    var pre, k := keys[..|keys| - 1], keys[|keys| - 1];
    forall i | 0 <= i < |rows|
      ensures ExistingAfter(rows, i, keys, entries) == ExistingAfter(rows, i, pre, entries)
    {
      if rows[i].source != k {
        assert rows[i].source in keys <==> rows[i].source in pre;
      }
    }
  }

  /** Observing an id whose first row must be synced raises exactly that id's rows. */
  lemma ExistingStepRaised(rows: seq<Row>, keys: seq<string>, entries: map<string, Entry>, ins: seq<Row>)
    requires keys != [] && forall k :: k in keys ==> k in entries
    requires Distinct(keys)
    requires var k := keys[|keys| - 1];
      FirstIndex(rows, k).Some? && Raise(rows[FirstIndex(rows, k).value], entries[k])
    requires forall j :: 0 <= j < |ins| ==> ins[j].source != keys[|keys| - 1]
    ensures SetStatus(Existing(rows, keys[..|keys| - 1], entries) + ins, keys[|keys| - 1], Pending)
         == Existing(rows, keys, entries) + ins
  {
    var pre, k := keys[..|keys| - 1], keys[|keys| - 1];
    var before := Existing(rows, pre, entries) + ins;
    var lhs := SetStatus(before, k, Pending);
    var rhs := Existing(rows, keys, entries) + ins;
    assert k !in pre;
    forall i | 0 <= i < |lhs| ensures lhs[i] == rhs[i] {
      if i < |rows| {
        assert before[i] == ExistingAfter(rows, i, pre, entries);
        assert rhs[i] == ExistingAfter(rows, i, keys, entries);
        if rows[i].source != k {
          assert rows[i].source in keys <==> rows[i].source in pre;
        }
      } else {
        assert before[i] == ins[i - |rows|] == rhs[i];
      }
    }
  }

  /** One observation turns the row-by-row result for a prefix into the one for the next prefix. */
  lemma ObserveStep(rows: seq<Row>, keys: seq<string>, entries: map<string, Entry>)
    requires keys != [] && forall k :: k in keys ==> k in entries
    requires Distinct(keys)
    ensures var n := |keys| - 1;
      Observe(StatusPassResult(rows, keys[..n], entries), keys[n], entries[keys[n]])
        == StatusPassResult(rows, keys, entries)
  {
    var n := |keys| - 1;
    var pre, k := keys[..n], keys[n];
    assert k !in pre;
    var front, ins := Existing(rows, pre, entries), Inserted(rows, pre);
    InsertedShape(rows, pre);
    assert forall j :: 0 <= j < |ins| ==> ins[j].source != k;
    FirstIndexBySources(front, rows, k);
    FirstIndexExtend(front, ins, k);
    var fi := FirstIndex(rows, k);
    assert FirstIndex(front + ins, k) == fi;
    assert Inserted(rows, keys) == ins + (if fi.None? then [Row(None, k, None, Pending)] else []);
    if fi.None? {
      ExistingStepAbsent(rows, keys, entries);
    } else {
      var f := fi.value;
      assert (front + ins)[f] == front[f] == rows[f];
      if Raise(rows[f], entries[k]) {
        ExistingStepRaised(rows, keys, entries, ins);
      } else {
        ExistingStepKept(rows, keys, entries);
      }
    }
  }

  /** The step-by-step loop computes the row-by-row result. */
  lemma {:induction false} StatusFoldPointwise(rows: seq<Row>, keys: seq<string>, entries: map<string, Entry>)
    requires forall k :: k in keys ==> k in entries
    requires Distinct(keys)
    ensures StatusFold(rows, keys, entries) == StatusPassResult(rows, keys, entries)
    decreases |keys|
  {
    if keys != [] {
      var n := |keys| - 1;
      assert Distinct(keys[..n]);
      StatusFoldPointwise(rows, keys[..n], entries);
      ObserveStep(rows, keys, entries);
    }
  }

  // ---------------------------------------------------------------------
  // The table after the pass, one row at a time

  /** The existing row `i` after the pass is the row-by-row result for it. */
  lemma AfterExisting(rows: seq<Row>, inv: Inventory, i: nat)
    requires ValidInventory(inv) && i < |rows|
    ensures var after := StatusFold(rows, inv.order, inv.entries);
      i < |after| && after[i] == ExistingAfter(rows, i, inv.order, inv.entries)
  {
    StatusFoldPointwise(rows, inv.order, inv.entries);
  }

  /** An appended row is a fresh pending row for an observed id that had no row. */
  lemma AfterInserted(rows: seq<Row>, inv: Inventory, i: nat)
    requires ValidInventory(inv) && |rows| <= i < |StatusFold(rows, inv.order, inv.entries)|
    ensures var r := StatusFold(rows, inv.order, inv.entries)[i];
      r == Row(None, r.source, None, Pending) && r.source in inv.entries && FirstIndex(rows, r.source).None?
  {
    StatusFoldPointwise(rows, inv.order, inv.entries);
    InsertedShape(rows, inv.order);
    var ins := Inserted(rows, inv.order);
    assert StatusFold(rows, inv.order, inv.entries)[i] == ins[i - |rows|];
  }

  /** Two appended rows are for different ids. */
  lemma AfterInsertedDistinct(rows: seq<Row>, inv: Inventory, i: nat, j: nat)
    requires ValidInventory(inv) && |rows| <= i < j < |StatusFold(rows, inv.order, inv.entries)|
    ensures var after := StatusFold(rows, inv.order, inv.entries);
      after[i].source != after[j].source
  {
    var ins := Inserted(rows, inv.order);
    assert Unique(ins) by {
      assert Distinct(inv.order);
      InsertedShape(rows, inv.order);
    }
    var after := StatusFold(rows, inv.order, inv.entries);
    assert after[i] == ins[i - |rows|] && after[j] == ins[j - |rows|] by {
      StatusFoldPointwise(rows, inv.order, inv.entries);
    }
  }

  /** Every observed id has a row after the pass: its first old row, or an appended one. */
  lemma AfterHasRow(rows: seq<Row>, inv: Inventory, k: string)
    requires ValidInventory(inv) && k in inv.entries
    ensures var after := StatusFold(rows, inv.order, inv.entries);
      FirstIndex(rows, k).None? ==>
        exists j :: |rows| <= j < |after| && after[j].source == k
  {
    StatusFoldPointwise(rows, inv.order, inv.entries);
    InsertedShape(rows, inv.order);
    var ins := Inserted(rows, inv.order);
    var after := StatusFold(rows, inv.order, inv.entries);
    if FirstIndex(rows, k).None? {
      var j :| 0 <= j < |ins| && ins[j].source == k;
      assert after[|rows| + j] == ins[j];
    }
  }

  // ---------------------------------------------------------------------
  // Properties of the pass

  /**
   * Frame: existing rows keep their place and every column but the status,
   * rows of unobserved ids do not change at all, a status only ever becomes
   * pending, and each appended row is a new pending row for an observed
   * id that had no row.
   */
  lemma StatusPassFrame(rows: seq<Row>, inv: Inventory)
    requires ValidInventory(inv)
    ensures var after := StatusFold(rows, inv.order, inv.entries);
      && |rows| <= |after|
      && (forall i :: 0 <= i < |rows| ==>
            && after[i].target == rows[i].target
            && after[i].source == rows[i].source
            && after[i].lastUpdated == rows[i].lastUpdated
            && (after[i].status == rows[i].status || after[i].status == Pending))
      && (forall i :: 0 <= i < |rows| && rows[i].source !in inv.entries ==> after[i] == rows[i])
      && (forall i :: |rows| <= i < |after| ==>
            && after[i] == Row(None, after[i].source, None, Pending)
            && after[i].source in inv.entries
            && forall j :: 0 <= j < |rows| ==> rows[j].source != after[i].source)
      && (forall k :: k in inv.entries ==> exists i :: 0 <= i < |after| && after[i].source == k)
  {
    var after := StatusFold(rows, inv.order, inv.entries);
    forall i | 0 <= i < |rows|
      ensures after[i].target == rows[i].target && after[i].source == rows[i].source
      ensures after[i].lastUpdated == rows[i].lastUpdated
      ensures after[i].status == rows[i].status || after[i].status == Pending
      ensures rows[i].source !in inv.entries ==> after[i] == rows[i]
    {
      AfterExisting(rows, inv, i);
    }
    forall i | |rows| <= i < |after|
      ensures after[i] == Row(None, after[i].source, None, Pending)
      ensures after[i].source in inv.entries
      ensures forall j :: 0 <= j < |rows| ==> rows[j].source != after[i].source
    {
      AfterInserted(rows, inv, i);
    }
    forall k | k in inv.entries ensures exists i :: 0 <= i < |after| && after[i].source == k {
      AfterHasRow(rows, inv, k);
      if FirstIndex(rows, k).Some? {
        AfterExisting(rows, inv, FirstIndex(rows, k).value);
      }
    }
  }

  /** The pass never marks a row upstream-deleted; with one row per id, an observed id's row never stays so. */
  lemma StatusPassNeverMarksDeleted(rows: seq<Row>, inv: Inventory)
    requires ValidInventory(inv)
    ensures var after := StatusFold(rows, inv.order, inv.entries);
      forall i :: 0 <= i < |after| && after[i].status == UpstreamDeleted ==>
        && i < |rows|
        && rows[i].status == UpstreamDeleted
        && (Unique(rows) ==> rows[i].source !in inv.entries)
  {
    var after := StatusFold(rows, inv.order, inv.entries);
    forall i | 0 <= i < |after| && after[i].status == UpstreamDeleted
      ensures i < |rows| && rows[i].status == UpstreamDeleted
      ensures Unique(rows) ==> rows[i].source !in inv.entries
    {
      if i < |rows| {
        AfterExisting(rows, inv, i);
        if Unique(rows) {
          FirstIndexUnique(rows, i);
        }
      } else {
        AfterInserted(rows, inv, i);
      }
    }
  }

  /** The pass inserts only when the lookup finds nothing, so it keeps one row per source id. */
  lemma StatusPassKeepsUnique(rows: seq<Row>, inv: Inventory)
    requires ValidInventory(inv)
    requires Unique(rows)
    ensures Unique(StatusFold(rows, inv.order, inv.entries))
  {
    var after := StatusFold(rows, inv.order, inv.entries);
    forall i, j | 0 <= i < j < |after| ensures after[i].source != after[j].source {
      if j < |rows| {
        AfterExisting(rows, inv, i);
        AfterExisting(rows, inv, j);
      } else if i < |rows| {
        AfterExisting(rows, inv, i);
        AfterInserted(rows, inv, j);
      } else {
        AfterInsertedDistinct(rows, inv, i, j);
      }
    }
  }

  /** No observed id lacks a row, so the pass appends nothing. */
  lemma {:induction false} InsertedNone(rows: seq<Row>, keys: seq<string>)
    requires forall k :: k in keys ==> FirstIndex(rows, k).Some?
    ensures Inserted(rows, keys) == []
    decreases |keys|
  {
    if keys != [] {
      var n := |keys| - 1;
      assert keys[n] in keys;
      InsertedNone(rows, keys[..n]);
    }
  }

  /**
   * A settled table is left as it is: with one row per id, a row for every
   * observed id, and no row of an observed id that must be synced again,
   * the pass inserts nothing and raises nothing.
   */
  lemma StatusPassSettled(rows: seq<Row>, inv: Inventory)
    requires ValidInventory(inv)
    requires Unique(rows)
    requires forall k :: k in inv.entries ==> exists i :: 0 <= i < |rows| && rows[i].source == k
    requires forall i :: 0 <= i < |rows| && rows[i].source in inv.entries ==> !Raise(rows[i], inv.entries[rows[i].source])
    ensures StatusFold(rows, inv.order, inv.entries) == rows
  {
    forall k | k in inv.order ensures FirstIndex(rows, k).Some? {
      var i :| 0 <= i < |rows| && rows[i].source == k;
      FirstIndexUnique(rows, i);
    }
    InsertedNone(rows, inv.order);
    StatusFoldPointwise(rows, inv.order, inv.entries);
    var after := StatusFold(rows, inv.order, inv.entries);
    assert |after| == |rows|;
    forall i | 0 <= i < |rows| ensures after[i] == rows[i] {
      AfterExisting(rows, inv, i);
      FirstIndexUnique(rows, i);
    }
  }

  /**
   * The decision table for an observed id `k`: no row yields exactly one new
   * pending row with no target and no timestamp; otherwise, judged on the
   * first row of `k`, an upstream-deleted row, a never-synced row or a row
   * older than the document becomes pending, and any other row is unchanged.
   */
  lemma StatusPassDecision(rows: seq<Row>, inv: Inventory, k: string)
    requires ValidInventory(inv)
    requires k in inv.entries
    ensures var after := StatusFold(rows, inv.order, inv.entries);
      FirstIndex(rows, k).None? ==>
        exists j :: |rows| <= j < |after| && after[j] == Row(None, k, None, Pending) &&
          forall l :: 0 <= l < |after| && after[l].source == k ==> l == j
    ensures var after := StatusFold(rows, inv.order, inv.entries);
      var e := inv.entries[k];
      FirstIndex(rows, k).Some? ==>
        var f := FirstIndex(rows, k).value;
        && (rows[f].status == UpstreamDeleted ==> after[f] == rows[f].(status := Pending))
        && (rows[f].status != UpstreamDeleted && rows[f].lastUpdated.None? ==> after[f] == rows[f].(status := Pending))
        && (rows[f].status != UpstreamDeleted && rows[f].lastUpdated.Some? && e.updatedAt > rows[f].lastUpdated.value ==>
              after[f] == rows[f].(status := Pending))
        && (rows[f].status != UpstreamDeleted && rows[f].lastUpdated.Some? && e.updatedAt <= rows[f].lastUpdated.value ==>
              forall i :: 0 <= i < |rows| && rows[i].source == k ==> after[i] == rows[i])
  {
    if FirstIndex(rows, k).None? {
      DecisionAbsent(rows, inv, k);
    } else {
      DecisionPresent(rows, inv, k);
    }
  }

  lemma DecisionAbsent(rows: seq<Row>, inv: Inventory, k: string)
    requires ValidInventory(inv) && k in inv.entries && FirstIndex(rows, k).None?
    ensures var after := StatusFold(rows, inv.order, inv.entries);
      exists j :: |rows| <= j < |after| && after[j] == Row(None, k, None, Pending) &&
        forall l :: 0 <= l < |after| && after[l].source == k ==> l == j
  {
    var after := StatusFold(rows, inv.order, inv.entries);
    AfterHasRow(rows, inv, k);
    var j :| |rows| <= j < |after| && after[j].source == k;
    AfterInserted(rows, inv, j);
    forall l | 0 <= l < |after| && after[l].source == k ensures l == j {
      if l < |rows| {
        AfterExisting(rows, inv, l);
      } else if l < j {
        AfterInsertedDistinct(rows, inv, l, j);
      } else if j < l {
        AfterInsertedDistinct(rows, inv, j, l);
      }
    }
  }

  lemma DecisionPresent(rows: seq<Row>, inv: Inventory, k: string)
    requires ValidInventory(inv) && k in inv.entries && FirstIndex(rows, k).Some?
    ensures var after := StatusFold(rows, inv.order, inv.entries);
      var e := inv.entries[k];
      var f := FirstIndex(rows, k).value;
      && (Raise(rows[f], e) ==> after[f] == rows[f].(status := Pending))
      && (!Raise(rows[f], e) ==> forall i :: 0 <= i < |rows| && rows[i].source == k ==> after[i] == rows[i])
  {
    var after := StatusFold(rows, inv.order, inv.entries);
    var f := FirstIndex(rows, k).value;
    AfterExisting(rows, inv, f);
    forall i | 0 <= i < |rows| && rows[i].source == k && !Raise(rows[f], inv.entries[k])
      ensures after[i] == rows[i]
    {
      AfterExisting(rows, inv, i);
    }
  }
}
