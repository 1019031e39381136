/** The tenant-tagging step of `insert_documents`: before the documents are
    split into chunks, each one's metadata gets its `user` entry set to the
    owning user's tag. The query side filters on that same entry. */
module Ingestion {

  /** A loaded document: its text and its string-valued metadata. */
  datatype Document = Document(text: string, metadata: map<string, string>)

  /** The metadata key that carries the owning user's tag. */
  const UserKey: string := "user"

  /** A document as it leaves the tagging step: same text, `user` set to
      `tag`, every other metadata entry kept. */
  function Tagged(d: Document, tag: string): (r: Document)
    ensures r.text == d.text
    ensures UserKey in r.metadata && r.metadata[UserKey] == tag
    ensures forall k :: k != UserKey ==> (k in r.metadata <==> k in d.metadata)
    ensures forall k :: k != UserKey && k in d.metadata ==> r.metadata[k] == d.metadata[k]
  {
    Document(d.text, d.metadata[UserKey := tag])
  }

  /** The documents after the tagging loop, in order. */
  function TagAll(docs: seq<Document>, tag: string): (r: seq<Document>)
    ensures |r| == |docs|
    ensures forall i :: 0 <= i < |docs| ==> r[i] == Tagged(docs[i], tag)
  {
    if docs == [] then [] else [Tagged(docs[0], tag)] + TagAll(docs[1..], tag)
  }

  /** `for document in documents: document.metadata['user'] = user`, run
      over the loaded documents in place. */
  method TagDocuments(docs: array<Document>, tag: string)
    modifies docs
    ensures docs[..] == TagAll(old(docs[..]), tag)
  {
    for i := 0 to docs.Length
      invariant forall k :: 0 <= k < i ==> docs[k] == Tagged(old(docs[k]), tag)
      invariant forall k :: i <= k < docs.Length ==> docs[k] == old(docs[k])
    {
      docs[i] := docs[i].(metadata := docs[i].metadata[UserKey := tag]);
    }
  }

  /** Tagging twice with the same tag is tagging once. */
  lemma {:induction false} TagAllIdempotent(docs: seq<Document>, tag: string)
    ensures TagAll(TagAll(docs, tag), tag) == TagAll(docs, tag)
  {
    var once := TagAll(docs, tag);
    forall i | 0 <= i < |docs|
      ensures TagAll(once, tag)[i] == once[i]
    {
      assert once[i].metadata[UserKey := tag] == once[i].metadata;
    }
  }

  /** `ExactMatchFilter(key=..., value=...)`: admits metadata whose entry
      under `key` exists and equals `value`. */
  datatype ExactMatchFilter = ExactMatchFilter(key: string, value: string)

  /** The filter's meaning, taken as a definition: the metadata holds the
      filter's key paired with its value. */
  predicate Admits(f: ExactMatchFilter, metadata: map<string, string>)
  {
    f.key in metadata && metadata[f.key] == f.value
  }

  /** The filter a query runs with for the user tagged `tag`. */
  function UserFilter(tag: string): (f: ExactMatchFilter)
    ensures forall d: Document :: Admits(f, d.metadata) <==> UserKey in d.metadata && d.metadata[UserKey] == tag
  {
    ExactMatchFilter(UserKey, tag)
  }

  /** Isolation at the metadata level: a document tagged for `owner` passes
      the query filter of `asker` exactly when `asker` is `owner`, whatever
      `user` entry it carried before. */
  lemma TaggedIsolation(docs: seq<Document>, owner: string, asker: string)
    ensures forall d :: d in TagAll(docs, owner) ==> (Admits(UserFilter(asker), d.metadata) <==> asker == owner)
  {
    forall d | d in TagAll(docs, owner)
      ensures Admits(UserFilter(asker), d.metadata) <==> asker == owner
    {
      var i :| 0 <= i < |docs| && TagAll(docs, owner)[i] == d;
      assert d == Tagged(docs[i], owner);
    }
  }
}
