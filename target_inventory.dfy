/**
 * The RAGFlow inventory (sync_tool.py, lines 29-39 and 91-94): the
 * documents of the target dataset, fetched page by page until the first
 * empty page. The paginated `list_documents` call is the abstract
 * function `page`.
 */
module TargetInventory {

  /** A RAGFlow document; only its identity matters to the engine. */
  datatype TargetDoc = TargetDoc(id: string)

  /** The concatenation of pages `lo`, ..., `hi - 1`, in page order. */
  function Pages(page: nat -> seq<TargetDoc>, lo: nat, hi: nat): seq<TargetDoc>
    decreases hi
  {
    if hi <= lo then [] else Pages(page, lo, hi - 1) + page(hi - 1)
  }

  /** The first empty page at or after `lo`; `bound` is an empty page that caps the search. */
  function FirstEmpty(page: nat -> seq<TargetDoc>, lo: nat, bound: nat): (k: nat)
    requires lo <= bound && page(bound) == []
    ensures lo <= k <= bound && page(k) == []
    ensures forall j :: lo <= j < k ==> page(j) != []
    decreases bound - lo
  {
    if page(lo) == [] then lo else FirstEmpty(page, lo + 1, bound)
  }

  /** A document is collected exactly when it is on one of the pages before the first empty one. */
  lemma {:induction false} PagesMembership(page: nat -> seq<TargetDoc>, lo: nat, hi: nat, d: TargetDoc)
    ensures d in Pages(page, lo, hi) <==> exists j :: lo <= j < hi && d in page(j)
    decreases hi
  {
    if lo < hi {
      PagesMembership(page, lo, hi - 1, d);
    }
  }

  /**
   * `get_all_documents_from_ragflow_dataset`: asks for pages 1, 2, ... and
   * appends them until a page comes back empty. The ghost `bound`, an
   * empty page, is what makes the loop terminate.
   */
  method CollectAll(page: nat -> seq<TargetDoc>, ghost bound: nat) returns (docs: seq<TargetDoc>)
    requires 1 <= bound && page(bound) == []
    ensures docs == Pages(page, 1, FirstEmpty(page, 1, bound))
  {
    ghost var k := FirstEmpty(page, 1, bound);
    docs := [];
    var p := 1;
    while true
      invariant 1 <= p <= k
      invariant docs == Pages(page, 1, p)
      decreases k - p
    {
      var crtDocs := page(p);
      if |crtDocs| == 0 {
        break;
      }
      docs := docs + crtDocs;
      p := p + 1;
    }
  }

  /** The keys of `rag_docs_dict`. */
  function TargetIds(docs: seq<TargetDoc>): set<string> {
    set d | d in docs :: d.id
  }
}
