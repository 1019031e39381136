# LlamaIndex Multi-Tenancy RAG: user registry and tenant tagging

The app is a Streamlit page. It keeps a per-session registry of users, lets
the user pick one, and indexes uploaded documents under that user's tag.
Queries are then filtered to that same tag. Almost everything else is a call
into LlamaIndex or the OpenAI API. This project models the two pieces of
logic the repository implements itself, and the place where they meet:

- **The user registry.** Streamlit's session state holds two entries:
  `options` maps a display name to its tag, and `selectbox_options` lists the
  selectable names. A guarded initialisation creates them on the first render
  (`{"Jerry": "Jerry"}` and its keys). `add_new_user` strips the input and
  registers it unless it is empty or already present. The selected name is
  resolved to a tag, with `"Jerry"` as the fallback.
- **Tenant tagging.** Before chunking, `insert_documents` overwrites every
  loaded document's `metadata["user"]` with the resolved tag. The query
  retriever uses an exact-match filter on `"user"` with the same tag.

Files:

- `text.dfy` (module `Text`): Python's argument-less `str.strip()`, with
  CPython's whitespace set (code points U+0009 to U+000D, U+001C to U+0020,
  U+0085, U+00A0, U+1680, U+2000 to U+200A, U+2028, U+2029, U+202F, U+205F and
  U+3000). It is proved to be the unique stripped core of its input, and to be
  idempotent.
- `registry.dfy` (module `Registry`): the registry as a value (`Users`), its
  invariant `UsersInv`, `add_new_user` as the function `AddUser` with its
  lemmas, and the lookup `Resolve`. The class `Session` holds the two
  session-state entries. Two flags say whether each entry is present yet.
  Its methods `Initialize` and `AddNewUser` update the fields in place and are
  proved against the value-level definitions.
- `ingestion.dfy` (module `Ingestion`): documents as text plus a string map of
  metadata, the tagging loop `TagDocuments` run in place over an array, and
  the exact-match filter, with the isolation lemma.
- `app.dfy` (module `App`): one render of `main.py`. It initialises the
  session, resolves the tag, tags an upload and builds the query filter, all
  with the same tag.

## Model

| member | source | states |
|---|---|---|
| `Text.IsWhitespace` | utils.py:12 | the set of characters `strip()` removes is CPython's whitespace set; space, tab, newline and carriage return are in it, and no ASCII letter or digit is |
| `Text.SkipForward` | utils.py:12 | the forward scan of `strip()` returns the first index at or after its start whose character is not whitespace (or the end); every character it skips is whitespace |
| `Text.SkipBackward` | utils.py:12 | the backward scan of `strip()` returns the end of the last non-whitespace character, never passing the forward scan's stop; every character it skips is whitespace |
| `Text.Strip` | utils.py:12 | the stripped name is never longer than the input and neither begins nor ends with whitespace; its content is fixed by `Text.StripSplits` and `Text.StripUnique` |
| `Text.StripUnique` | utils.py:12 | stripping any whitespace-padded stripped string `m` gives back exactly `m` (strip is determined by the whitespace around the core) |
| `Text.StripSplits` | utils.py:12 | every input is leading whitespace, then its stripped form, then trailing whitespace |
| `Text.StripIdempotent` | utils.py:12 | stripping a stripped name changes nothing |
| `Registry.AddUser` | utils.py:11-17 | `add_new_user` on the registry value: it never removes a key and adds no key other than the stripped input; its full effect is stated by `Registry.AddUserEffect` and the invariant it keeps by `Registry.AddUserPreservesInv` |
| `Registry.AddUserPreservesInv` | utils.py:11-17 | adding a user preserves the registry invariant: no duplicates in the list, list elements equal the map keys, every key maps to itself, the default user is present, and every stored name is non-empty with no surrounding whitespace |
| `Registry.AddUserEffect` | utils.py:13-17 | empty or already-registered input leaves both structures unchanged; a fresh name adds exactly that key, mapped to itself, and appends it to the list; both sizes grow by one; old entries keep their values and the old list stays as the prefix |
| `Registry.AddUserRegisters` | utils.py:12-17 | in a valid registry the stripped input is a key, and is selectable, afterwards exactly when it is non-empty; the only name that can be added is the stripped input |
| `Registry.AddUserIdempotent` | utils.py:13 | adding the same input twice gives the same state as adding it once |
| `Registry.Resolve` | main.py:51 | `options.get(selected_option, "Jerry")`: the result is `"Jerry"` or one of the stored tags; in a valid registry `Registry.ResolveRegistered` states which one |
| `Registry.ResolveRegistered` | main.py:51 | in a valid registry the resolved tag is always a registered user; it is the selected name itself when that name is registered, and `"Jerry"` when the selection is absent or unknown |
| `Registry.KeysToList` | main.py:39 | the list built from the keys of `options` has each key exactly once and nothing else, and its length is the number of keys |
| `Registry.Session.constructor` | main.py:35-38 | a fresh session holds neither `options` nor `selectbox_options` |
| `Registry.Session.Initialize` | main.py:34-39 | after initialisation the registry invariant holds; a fresh session gets `options = {"Jerry": "Jerry"}` and the list `["Jerry"]`; an entry already present is left unchanged, so re-running it on an initialised session changes nothing |
| `Registry.Session.AddNewUser` | utils.py:11-17 | the in-place update of the dictionary and list equals `AddUser` on the old registry, and keeps the invariant |
| `Ingestion.Tagged` | utils.py:59-60 | a tagged document keeps its text, has `metadata["user"]` equal to the tag, and keeps every other metadata key with its value |
| `Ingestion.TagAll` | utils.py:59-60 | tagging keeps the number and order of documents, and the i-th result is the i-th input tagged |
| `Ingestion.TagDocuments` | utils.py:59-60 | the loop leaves the array equal to `TagAll` of its old contents |
| `Ingestion.TagAllIdempotent` | utils.py:59-60 | tagging twice with the same tag gives the same documents as tagging once |
| `Ingestion.UserFilter` | main.py:85-89 | the query filter admits a document exactly when its metadata has a `"user"` entry equal to the tag |
| `Ingestion.TaggedIsolation` | main.py:85-89 | a document tagged for one user passes another user's query filter exactly when the two tags are equal |
| `App.ResolvedTagScopesUploadAndQuery` | main.py:51-89 | the tag a render resolves is a registered user; documents it uploads pass that user's filter and no other registered user's filter |
| `App.Render` | main.py:34-89 | one render leaves the session valid; on the first render `options` becomes `{"Jerry": "Jerry"}` and the list `["Jerry"]`, and an entry already present is left unchanged; the same resolved tag is stamped on every uploaded document and used as the exact-match filter value, so every uploaded document passes the query filter |

## Left out

- Streamlit rendering, widgets, spinners and `st.write` output: these are UI.
  The select box's answer is a parameter of `App.Render`. It is absent when
  there is nothing to choose from.
- The `OPENAI_API_KEY` check, its message and `exit(1)`: these belong to the
  process environment.
- Writing the uploaded file, `load_data`, `create_index`, `persist`,
  `load_index_from_storage` and the `storage` directory check: these are
  filesystem I/O and library calls. The loaded documents are a parameter.
- Sentence splitting (size 512, overlap 20), `IngestionPipeline.run` and
  `insert_nodes`: these are LlamaIndex code, which is not part of this model.
  The splitter is meant to copy each document's metadata onto its chunks, but
  that code is not part of this model, so the model stops at the tagged
  documents.
- Vector retrieval, top-3 ranking and "compact" response synthesis: these are
  an external library and an LLM API.
- Ingestion.Admits: the meaning of LlamaIndex's `ExactMatchFilter` is
  assumed: a filter admits metadata whose entry under its key equals its
  value. This is taken as a definition and not proved against the library.
  What the model proves about it is carried by `Ingestion.UserFilter` and
  `Ingestion.TaggedIsolation`.
- The lost-update race on the shared `storage/` index between sessions: this
  is concurrency, and the source has no mitigation for it.
- Registry.KeysToList: Python's `list(dict.keys())` keeps insertion order, but
  the model leaves the order open. The order only matters when `options`
  exists without `selectbox_options`, and the app never produces that state.
  For a fresh session the result is proved to be exactly `["Jerry"]`.
- Ingestion.TagDocuments: documents are values in an array. Two list entries
  that share one Python document object, or one metadata dictionary, are not
  modelled.
