/**
 * The Outline inventory (sync_tool.py, lines 74-88): every document of
 * every collection whose text is at least the configured minimum length,
 * keyed by its identity. The Python dict is modelled with its insertion
 * order, because the status pass inserts mapping rows in that order.
 */
module SourceInventory {
  import opened Outline

  /** What the inventory keeps of a document. */
  datatype Entry = Entry(title: string, url: string, text: string, updatedAt: int)

  /**
   * A Python dict from source id to entry: `order` lists its keys in
   * insertion order, `entries` holds the values.
   */
  datatype Inventory = Inventory(order: seq<string>, entries: map<string, Entry>)

  predicate ValidInventory(inv: Inventory) {
    && (forall i, j :: 0 <= i < j < |inv.order| ==> inv.order[i] != inv.order[j])
    && (forall k :: k in inv.order ==> k in inv.entries)
    && (forall k :: k in inv.entries ==> k in inv.order)
  }

  function EntryOf(d: Doc): Entry {
    Entry(d.title, d.url, d.text, d.updatedAt)
  }

  /** A document passes the filter when its text is not shorter than `minLength`. */
  predicate Kept(d: Doc, minLength: int) {
    |d.text| >= minLength
  }

  /** Dict assignment: a new key goes last, an existing key keeps its place and takes the new value. */
  function Put(inv: Inventory, k: string, e: Entry): Inventory {
    if k in inv.entries then Inventory(inv.order, inv.entries[k := e])
    else Inventory(inv.order + [k], inv.entries[k := e])
  }

  /** The inventory built from `docs` in order, skipping short documents. */
  function Filtered(docs: seq<Doc>, minLength: int): Inventory
    decreases |docs|
  {
    if docs == [] then Inventory([], map[])
    else
      var n := |docs| - 1;
      var inv := Filtered(docs[..n], minLength);
      if Kept(docs[n], minLength) then Put(inv, docs[n].id, EntryOf(docs[n])) else inv
  }

  /** The documents of all collections, collection after collection. */
  function Flatten(collections: seq<seq<Doc>>): seq<Doc>
    decreases |collections|
  {
    if collections == [] then []
    else
      var n := |collections| - 1;
      Flatten(collections[..n]) + collections[n]
  }

  /** The filtered inventory is a well-formed dict. */
  lemma {:induction false} FilteredValid(docs: seq<Doc>, minLength: int)
    ensures ValidInventory(Filtered(docs, minLength))
    decreases |docs|
  {
    if docs != [] {
      var n := |docs| - 1;
      FilteredValid(docs[..n], minLength);
    }
  }

  /** A source id is in the inventory exactly when some document with that id passes the filter. */
  lemma {:induction false} FilteredMembership(docs: seq<Doc>, minLength: int, k: string)
    ensures k in Filtered(docs, minLength).entries <==>
      exists i :: 0 <= i < |docs| && docs[i].id == k && Kept(docs[i], minLength)
    decreases |docs|
  {
    if docs != [] {
      var n := |docs| - 1;
      var pre := docs[..n];
      FilteredMembership(pre, minLength, k);
      if k in Filtered(pre, minLength).entries {
        var i :| 0 <= i < |pre| && pre[i].id == k && Kept(pre[i], minLength);
        assert docs[i] == pre[i];
      }
      if exists i :: 0 <= i < |docs| && docs[i].id == k && Kept(docs[i], minLength) {
        var i :| 0 <= i < |docs| && docs[i].id == k && Kept(docs[i], minLength);
        if i < n { assert pre[i] == docs[i]; }
      }
    }
  }

  /**
   * The entry under the id of a kept document is that document's, unless
   * a later kept document has the same id (the later one overwrites it).
   */
  lemma {:induction false} FilteredLatest(docs: seq<Doc>, minLength: int, i: nat)
    requires i < |docs| && Kept(docs[i], minLength)
    requires forall j :: i < j < |docs| && Kept(docs[j], minLength) ==> docs[j].id != docs[i].id
    ensures docs[i].id in Filtered(docs, minLength).entries
    ensures Filtered(docs, minLength).entries[docs[i].id] == EntryOf(docs[i])
    decreases |docs|
  {
    var n := |docs| - 1;
    if i < n {
      var pre := docs[..n];
      assert pre[i] == docs[i];
      FilteredLatest(pre, minLength, i);
    }
  }

  lemma FlattenSnoc(collections: seq<seq<Doc>>, c: nat)
    requires c < |collections|
    ensures Flatten(collections[..c + 1]) == Flatten(collections[..c]) + collections[c]
  {
    assert collections[..c + 1][..c] == collections[..c];
  }

  lemma FilteredSnoc(docs: seq<Doc>, d: Doc, minLength: int)
    ensures Filtered(docs + [d], minLength) ==
      var inv := Filtered(docs, minLength);
      if Kept(d, minLength) then Put(inv, d.id, EntryOf(d)) else inv
  {
    assert (docs + [d])[..|docs|] == docs;
  }

  /** The nested loop over collections and their documents that fills `outline_docs`. */
  method BuildInventory(collections: seq<seq<Doc>>, minLength: int) returns (inv: Inventory)
    ensures inv == Filtered(Flatten(collections), minLength)
  {
    inv := Inventory([], map[]);
    for c := 0 to |collections|
      invariant inv == Filtered(Flatten(collections[..c]), minLength)
    {
      var docs := collections[c];
      ghost var before := Flatten(collections[..c]);
      assert before + docs[..0] == before;
      for j := 0 to |docs|
        invariant inv == Filtered(before + docs[..j], minLength)
      {
        var d := docs[j];
        assert before + docs[..j + 1] == (before + docs[..j]) + [d];
        FilteredSnoc(before + docs[..j], d, minLength);
        if |d.text| < minLength {
          continue;
        }
        inv := Put(inv, d.id, EntryOf(d));
      }
      assert docs[..|docs|] == docs;
      FlattenSnoc(collections, c);
    }
    assert collections[..|collections|] == collections;
  }
}
