/**
 * The calls the engine issues against the RAGFlow dataset, recorded in
 * order, and the configuration the passes read (sync_tool.py, lines
 * 135-138, 153-166, 193 and 196-197).
 */
module Corpus {
  import opened Wrappers
  import opened Outline

  datatype Call =
    /** A bulk delete of the documents `ids`; an id may be NULL, the list is passed as built. */
    | Delete(ids: seq<Option<string>>)
    /** An upload of one document with a display name and a blob; the blob is the text, its UTF-8 encoding left abstract. */
    | Upload(displayName: string, blob: string)
    /** Replaces the metadata fields of document `doc`. */
    | SetMeta(doc: string, fields: map<string, MetaValue>)
    /** A request to start parsing the documents `docs` asynchronously. */
    | Parse(docs: seq<string>)

  /** The configuration entries the engine reads. */
  datatype Config = Config(
    minimumContentLength: int,
    deleteNonUpstream: bool,
    autoStartParse: bool,
    metaMap: seq<(string, string)>,
    outlineUrl: string)

  /** The exceptions that abort a pass: a missing inventory key, an unknown property name. */
  datatype Error = MissingSource(id: string) | InvalidPropName(name: string)
}
