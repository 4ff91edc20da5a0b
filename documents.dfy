/** Retrieved documents as the query path sees them: the text of a chunk and
    the metadata the loader attached to it. */
module Documents {

  /** A retrieved chunk: its text and its string-valued metadata. */
  datatype Document = Document(pageContent: string, metadata: map<string, string>)

  /** The metadata key under which the loader records the URL a chunk came from. */
  const SourceKey: string := "source"

  /** The citation used for a chunk whose metadata has no source. */
  const UnknownSource: string := "Unknown"

  /** The citation of one document: its "source" metadata, or "Unknown" when the key is absent. */
  function SourceOf(d: Document): (s: string)
    ensures SourceKey in d.metadata ==> s == d.metadata[SourceKey]
    ensures SourceKey !in d.metadata ==> s == UnknownSource
  {
    if SourceKey in d.metadata then d.metadata[SourceKey] else UnknownSource
  }

  /** The texts of the documents, in retrieval order. */
  function Contents(docs: seq<Document>): (r: seq<string>)
    ensures |r| == |docs|
    ensures forall i :: 0 <= i < |docs| ==> r[i] == docs[i].pageContent
  {
    if docs == [] then [] else [docs[0].pageContent] + Contents(docs[1..])
  }
}
