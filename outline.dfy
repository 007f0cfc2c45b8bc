/**
 * The Outline side of the metadata: the projector `get_outline_doc_meta`
 * and the loop that builds a document's `meta_fields` from the configured
 * `meta_map` (sync_tool.py, lines 11-26 and 187-192).
 */
module Outline {
  import opened Wrappers

  /**
   * A document as the Outline API returns it. Identities are strings,
   * author objects are reduced to their display names and timestamps to
   * integers (an instant; ISO-8601 formatting is not modelled).
   */
  datatype Doc = Doc(
    id: string,
    title: string,
    url: string,
    text: string,
    createdBy: string,
    updatedBy: string,
    updatedAt: int)

  /** A metadata value: a string, or the `updated_at` instant. */
  datatype MetaValue = Text(s: string) | Instant(t: int)

  /** The property names the projector recognises. */
  const PropNames: set<string> :=
    {"id", "title", "sub_url", "site_url", "created_by", "updated_by", "updated_at"}

  /**
   * The value of property `prop` of `doc`; an unknown name is the
   * `ValueError` of the source, carrying the offending name.
   */
  function DocMeta(prop: string, doc: Doc, baseUrl: string): (r: Result<MetaValue, string>)
    ensures r.Ok? <==> prop in PropNames
    ensures r.Err? ==> r.error == prop
    ensures r.Ok? ==> (r.value.Instant? <==> prop == "updated_at")
    ensures prop == "site_url" ==> r == Ok(Text(baseUrl + doc.url))
  {
    if prop == "id" then Ok(Text(doc.id))
    else if prop == "title" then Ok(Text(doc.title))
    else if prop == "sub_url" then Ok(Text(doc.url))
    else if prop == "site_url" then Ok(Text(baseUrl + doc.url))
    else if prop == "created_by" then Ok(Text(doc.createdBy))
    else if prop == "updated_by" then Ok(Text(doc.updatedBy))
    else if prop == "updated_at" then Ok(Instant(doc.updatedAt))
    else Err(prop)
  }

  /**
   * The metadata map built from `metaMap` (pairs property name, metadata
   * key, in configuration order): each entry stores its property's value
   * under its key, a later entry overwriting an earlier one with the same
   * key; the first unknown property name aborts the build.
   */
  function MetaFields(metaMap: seq<(string, string)>, doc: Doc, baseUrl: string): Result<map<string, MetaValue>, string>
    decreases |metaMap|
  {
    if metaMap == [] then Ok(map[])
    else
      var n := |metaMap| - 1;
      match MetaFields(metaMap[..n], doc, baseUrl)
      case Err(p) => Err(p)
      case Ok(m) =>
        match DocMeta(metaMap[n].0, doc, baseUrl)
        case Err(p) => Err(p)
        case Ok(v) => Ok(m[metaMap[n].1 := v])
  }

  /** Every property name in `metaMap` is one the projector knows. */
  predicate AllSupported(metaMap: seq<(string, string)>) {
    forall i :: 0 <= i < |metaMap| ==> metaMap[i].0 in PropNames
  }

  /** The build succeeds exactly when every configured property is known. */
  lemma {:induction false} MetaFieldsSucceeds(metaMap: seq<(string, string)>, doc: Doc, baseUrl: string)
    ensures MetaFields(metaMap, doc, baseUrl).Ok? <==> AllSupported(metaMap)
    decreases |metaMap|
  {
    if metaMap != [] {
      var n := |metaMap| - 1;
      MetaFieldsSucceeds(metaMap[..n], doc, baseUrl);
      assert AllSupported(metaMap) <==> AllSupported(metaMap[..n]) && metaMap[n].0 in PropNames;
    }
  }

  /** Entry `i` is the first entry of `metaMap` whose property name is unknown. */
  predicate FirstUnsupported(metaMap: seq<(string, string)>, i: nat) {
    && i < |metaMap|
    && metaMap[i].0 !in PropNames
    && forall j :: 0 <= j < i ==> metaMap[j].0 in PropNames
  }

  /** A failed build reports the first unknown property name. */
  lemma {:induction false} MetaFieldsError(metaMap: seq<(string, string)>, doc: Doc, baseUrl: string)
    ensures var r := MetaFields(metaMap, doc, baseUrl);
      r.Err? ==> exists i: nat :: FirstUnsupported(metaMap, i) && metaMap[i].0 == r.error
    decreases |metaMap|
  {
    if metaMap != [] {
      var n := |metaMap| - 1;
      var pre := metaMap[..n];
      MetaFieldsError(pre, doc, baseUrl);
      var r0 := MetaFields(pre, doc, baseUrl);
      if r0.Err? {
        var i: nat :| FirstUnsupported(pre, i) && pre[i].0 == r0.error;
        assert FirstUnsupported(metaMap, i) by {
          forall j | 0 <= j < i ensures metaMap[j].0 in PropNames {
            assert metaMap[j] == pre[j];
          }
        }
      } else if MetaFields(metaMap, doc, baseUrl).Err? {
        MetaFieldsSucceeds(pre, doc, baseUrl);
        assert FirstUnsupported(metaMap, n) by {
          forall j | 0 <= j < n ensures metaMap[j].0 in PropNames {
            assert metaMap[j] == pre[j];
          }
        }
      }
    }
  }

  /** The keys of a successfully built map are exactly the configured metadata keys. */
  lemma {:induction false} MetaFieldsKeys(metaMap: seq<(string, string)>, doc: Doc, baseUrl: string)
    ensures var r := MetaFields(metaMap, doc, baseUrl);
      r.Ok? ==> r.value.Keys == set i | 0 <= i < |metaMap| :: metaMap[i].1
    decreases |metaMap|
  {
    if metaMap != [] {
      var n := |metaMap| - 1;
      var pre := metaMap[..n];
      MetaFieldsKeys(pre, doc, baseUrl);
      var r := MetaFields(metaMap, doc, baseUrl);
      if r.Ok? {
        var m := MetaFields(pre, doc, baseUrl).value;
        assert r.value.Keys == m.Keys + {metaMap[n].1};
        var all := set i | 0 <= i < |metaMap| :: metaMap[i].1;
        var front := set i | 0 <= i < |pre| :: pre[i].1;
        forall x | x in all ensures x in front + {metaMap[n].1} {
          var i :| 0 <= i < |metaMap| && metaMap[i].1 == x;
          if i < n { assert pre[i] == metaMap[i]; }
        }
        forall x | x in front ensures x in all {
          var i :| 0 <= i < |pre| && pre[i].1 == x;
          assert metaMap[i] == pre[i];
        }
        assert all == front + {metaMap[n].1};
      }
    }
  }

  /**
   * In a successfully built map, the key of entry `i` holds the value of
   * entry `i`'s property, unless a later entry reuses the same key.
   */
  lemma {:induction false} MetaFieldsValue(metaMap: seq<(string, string)>, doc: Doc, baseUrl: string, i: nat)
    requires i < |metaMap|
    requires forall j :: i < j < |metaMap| ==> metaMap[j].1 != metaMap[i].1
    ensures var r := MetaFields(metaMap, doc, baseUrl);
      r.Ok? ==> metaMap[i].1 in r.value && Ok(r.value[metaMap[i].1]) == DocMeta(metaMap[i].0, doc, baseUrl)
    decreases |metaMap|
  {
    var n := |metaMap| - 1;
    var pre := metaMap[..n];
    if i < n {
      assert pre[i] == metaMap[i];
      MetaFieldsValue(pre, doc, baseUrl, i);
    }
  }

  /** Once a prefix of the configuration fails, the whole build fails the same way. */
  lemma {:induction false} MetaFieldsErrorPersists(metaMap: seq<(string, string)>, k: nat, doc: Doc, baseUrl: string)
    requires k <= |metaMap|
    requires MetaFields(metaMap[..k], doc, baseUrl).Err?
    ensures MetaFields(metaMap, doc, baseUrl) == MetaFields(metaMap[..k], doc, baseUrl)
    decreases |metaMap| - k
  {
    if k < |metaMap| {
      var n := k;
      assert metaMap[..k+1][..n] == metaMap[..k];
      assert MetaFields(metaMap[..k+1], doc, baseUrl) == MetaFields(metaMap[..k], doc, baseUrl);
      MetaFieldsErrorPersists(metaMap, k + 1, doc, baseUrl);
    } else {
      assert metaMap[..k] == metaMap;
    }
  }

  /**
   * The metadata loop of the sync pass: fills a fresh map entry by entry
   * and stops at the first unknown property name.
   */
  method BuildMetadata(metaMap: seq<(string, string)>, doc: Doc, baseUrl: string)
    returns (r: Result<map<string, MetaValue>, string>)
    ensures r == MetaFields(metaMap, doc, baseUrl)
  {
    var fields: map<string, MetaValue> := map[];
    for i := 0 to |metaMap|
      invariant MetaFields(metaMap[..i], doc, baseUrl) == Ok(fields)
    {
      assert metaMap[..i+1][..i] == metaMap[..i];
      var v := DocMeta(metaMap[i].0, doc, baseUrl);
      if v.Err? {
        MetaFieldsErrorPersists(metaMap, i + 1, doc, baseUrl);
        return Err(v.error);
      }
      fields := fields[metaMap[i].1 := v.value];
    }
    assert metaMap[..|metaMap|] == metaMap;
    return Ok(fields);
  }
}
