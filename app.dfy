/** One render of the page script: initialise the session's registry,
    resolve the selected display name to a tag, tag an uploaded batch of
    documents with it, and build the query filter from the same tag. */
module App {
  import opened Registry
  import opened Ingestion

  /** The tag a render resolves is a registered user, every document it
      uploads passes that user's query filter, and no other registered
      user's filter admits any of them. */
  lemma ResolvedTagScopesUploadAndQuery(u: Users, selected: Option<string>, docs: seq<Document>)
    requires UsersInv(u)
    ensures var tag := Resolve(u.options, selected);
      && tag in u.options
      && forall d, name :: d in TagAll(docs, tag) && name in u.options ==>
           (Admits(UserFilter(name), d.metadata) <==> name == tag)
  {
    var tag := Resolve(u.options, selected);
    ResolveRegistered(u, selected);
    forall name | name in u.options
      ensures forall d :: d in TagAll(docs, tag) ==> (Admits(UserFilter(name), d.metadata) <==> name == tag)
    {
      TaggedIsolation(docs, tag, name);
    }
  }

  /** The registry and tenant steps of one render. `selected` is what the
      select box returned and `upload` the documents loaded from an uploaded
      file, if any. The result is the tag used for both the upload and the
      query, and the filter the query runs with. */
  method Render(session: Session, selected: Option<string>, upload: Option<array<Document>>)
    returns (tag: string, filter: ExactMatchFilter)
    requires session.Consistent()
    modifies session, if upload.Some? then {upload.value} else {}
    ensures session.Valid()
    // A re-render of an initialised session leaves the registry as it was.
    ensures old(session.Valid()) ==> session.View() == old(session.View())
    ensures old(session.hasOptions) ==> session.options == old(session.options)
    ensures old(session.hasSelectboxOptions) ==> session.selectboxOptions == old(session.selectboxOptions)
    ensures !old(session.hasOptions) ==>
      session.options == map[DefaultUser := DefaultUser] && session.selectboxOptions == [DefaultUser]
    ensures tag == Resolve(session.options, selected) && tag in session.options
    ensures upload.Some? ==> upload.value[..] == TagAll(old(upload.value[..]), tag)
    ensures filter == UserFilter(tag)
    ensures upload.Some? ==> forall i :: 0 <= i < upload.value.Length ==> Admits(filter, upload.value[i].metadata)
  {
    session.Initialize();
    tag := Resolve(session.options, selected);
    ResolveRegistered(session.View(), selected);
    if upload.Some? {
      TagDocuments(upload.value, tag);
    }
    filter := UserFilter(tag);
  }
}
