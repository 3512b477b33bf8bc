# Recipe feed pagination and cloud-function helpers, modelled in Dafny

This project models the two pieces of the recipe-sharing application that
hold logic of their own.

- **The live-pagination reducer** behind `usePaginateQuery`
  (`src/hooks/paginate-fb.ts`). It keeps a keyed store of documents in
  step with a live query. Each `LOADED` snapshot copies the store and
  applies the snapshot's batch of `added` / `modified` / `removed` changes
  to the copy. It also recomputes `hasMore` against the page size 25 and
  remembers the snapshot's last document. `LOAD-MORE` moves that document
  into the `after` cursor. The hook's view lists the store's entries most
  recently updated first, using `sortByUpdatedAt`.
- **The string and path helpers of the HTTP API and the storage trigger**
  (`functions/index.js`):
  - the bearer-header guard and token extraction of `getFirebaseUser`;
  - the search filter built by `getFilterStringFromUsers`;
  - the skip test and the thumbnail name and destination of `createThumnail`.

Files:

- `wrappers.dfy`: `Option`. `None` stands for JavaScript `null` and
  `undefined`.
- `js_strings.dfy`: `indexOf`, `includes`, `startsWith` and `split` with a
  non-empty string separator, following JavaScript's definitions over a
  string of characters (see "## Left out" on indices). It also holds
  `Join`, the inverse of `split`.
- `node_path.dfy`: Node's POSIX `path.dirname`, following its
  right-to-left scan, and `path.join` of a directory with one file name.
- `paginate_fb.dfy`: the state, the store operations, the reducer, and the
  sorted view.
- `cloud_functions.dfy`: the guard, the filter string and the thumbnail
  decision.

The store is a sequence of `[id, data]` entries in the iteration order of a
JavaScript `Map`:

- `set` on a present id keeps the entry's place and replaces its data;
- `set` on an absent id appends;
- `delete` removes the entry.

The reducer is a method whose loop applies the changes one by one, as the
`forEach` does. It is proved equal to the function `Transition`, and the
properties are proved about that function.

## Model

| member | source | states |
|---|---|---|
| PaginateFb.InitialState | src/hooks/paginate-fb.ts:23-32 | The initial state is loading, has no more pages, is not loading more, has no errors, has both cursors null and has an empty store. |
| PaginateFb.Find | src/hooks/paginate-fb.ts:8 | Looking an id up finds a value exactly when the id is among the store's keys, and the value found is stored under that id. |
| PaginateFb.Upsert | src/hooks/paginate-fb.ts:53-56 | After `set(id, data)`, `id` maps to `data` and every other id keeps its value. The key list is unchanged when `id` was present, and otherwise gains `id` at the end. |
| PaginateFb.UpsertKeepsIdsUnique | src/hooks/paginate-fb.ts:53-56 | `set` keeps the store's keys unique, so `id` has exactly one entry afterwards. |
| PaginateFb.Remove | src/hooks/paginate-fb.ts:57-58 | After `delete(id)`, `id` is absent. Every other id keeps its value, and the remaining entries are exactly the old ones with a different id. Deleting an absent id leaves the store unchanged. |
| PaginateFb.RemoveKeepsOrder | src/hooks/paginate-fb.ts:57-58 | With unique keys, deleting a present id drops exactly its one entry and keeps the others in their order. |
| PaginateFb.RemoveKeepsIdsUnique | src/hooks/paginate-fb.ts:57-58 | `delete` keeps the keys unique. |
| PaginateFb.ApplyChange | src/hooks/paginate-fb.ts:52-60 | One change, dispatched on its type, keeps the keys unique. |
| PaginateFb.ApplyChanges | src/hooks/paginate-fb.ts:50-60 | A batch applied in order to a copy of the store keeps the keys unique. |
| PaginateFb.UpsertIdempotent | src/hooks/paginate-fb.ts:53-56 | Setting the same entry twice gives the same store as setting it once. |
| PaginateFb.ApplyChangeIdempotent | src/hooks/paginate-fb.ts:52-59 | Applying any change twice in a row gives the same store as applying it once. |
| PaginateFb.DuplicateAddedIsHarmless | src/hooks/paginate-fb.ts:52-54 | A batch ending in the same `added` twice leaves the same store as one ending in it once. |
| PaginateFb.LastChangeFor | src/hooks/paginate-fb.ts:52 | The last change of a batch for an id is a change for that id that no later change of the batch for the id follows. There is none exactly when no change mentions the id. |
| PaginateFb.LastWriteWins | src/hooks/paginate-fb.ts:50-60 | After a batch, an id holds what its last change left: no entry after `removed`, and the change's data after `added` or `modified`. With no change for it, the id keeps its previous value. |
| PaginateFb.UntouchedEntriesKeepTheirValues | src/hooks/paginate-fb.ts:50-60 | Entries whose id no change mentions keep their previous values. |
| PaginateFb.LastDoc | src/hooks/paginate-fb.ts:67 | `docs[docs.length - 1]` is undefined exactly for an empty snapshot, and is otherwise one of its documents. |
| PaginateFb.LoadedState | src/hooks/paginate-fb.ts:38-71 | LOADED sets `hasMore` exactly when the snapshot holds at least 25 documents. It clears `loading`, `loadingError` and `loadingMore`, and sets `lastLoaded` to the last document. It keeps `after` and `loadingMoreError`. The store is the old one with the batch applied, and keys stay unique. |
| PaginateFb.LoadMoreState | src/hooks/paginate-fb.ts:73-78 | LOAD-MORE raises `loadingMore` and sets `after` to `lastLoaded`. It keeps the store, `hasMore`, `loading`, `lastLoaded` and both errors. |
| PaginateFb.Reducer | src/hooks/paginate-fb.ts:36-81 | The reducer, with its loop over the batch, produces exactly the state `Transition` specifies for the action. |
| PaginateFb.ReachableStatesAreConsistent | src/hooks/paginate-fb.ts:23-81 | Every state reachable from the initial state has unique keys and no error. Until the first snapshot it also has an empty store, no cursors and `hasMore` false. |
| PaginateFb.SortByUpdatedAt | src/hooks/paginate-fb.ts:83-85 | The comparator answers only -1 or 1. It answers -1 exactly when the first entry is strictly newer. |
| PaginateFb.InsertSorted | src/hooks/paginate-fb.ts:115 | An insertion adds exactly the one entry to the multiset of entries. |
| PaginateFb.InsertKeepsNewestFirst | src/hooks/paginate-fb.ts:115 | Inserting into a newest-first list keeps it newest first. |
| PaginateFb.SortedItems | src/hooks/paginate-fb.ts:115 | The sorted entries are a permutation of the store's entries, and `updatedAt` never increases along them. |
| PaginateFb.SortedItemsIds | src/hooks/paginate-fb.ts:115 | Sorting keeps the set of ids, and keeps them unique. |
| PaginateFb.UsePaginateQuery | src/hooks/paginate-fb.ts:109-117 | The view copies the five flags and errors from the state. Its items are a permutation of the store, newest first, with unique ids when the store's are unique. |
| JsStrings.IndexOf | functions/index.js:231-233 | `indexOf` answers the first index where the string occurs, or -1 when it occurs nowhere. |
| JsStrings.IncludesIff | functions/index.js:231-233 | `includes` holds exactly when the string occurs at some index. |
| JsStrings.MissingCharExcludes | functions/index.js:231-232 | A string cannot include a string holding a character it lacks. |
| JsStrings.IncludesOneChar | functions/index.js:225 | Including a one-character string is membership of that character. |
| JsStrings.JoinSnoc | functions/index.js:63-65 | Joining one more part at the end appends the separator and that part. |
| JsStrings.Split | functions/index.js:36 | `split` gives at least one piece, and joining the pieces with the separator gives back the string. A string that starts with the separator splits into an empty first piece followed by more pieces. |
| JsStrings.SplitPiecesOmitSeparator | functions/index.js:36 | No piece of a split contains the separator. |
| JsStrings.SplitFirstPiece | functions/index.js:36 | The first piece is the whole string, or the string starts with the first piece followed by the separator. |
| JsStrings.SplitLastPiece | functions/index.js:225 | The last piece is the whole string, or the string ends with the separator followed by the last piece. |
| JsStrings.SplitLast | functions/index.js:225 | The last piece of `a + sep + b` is `b` when `b` lacks the one-character separator. |
| NodePath.DirName | functions/index.js:226 | `dirname` answers ".", "/", "//", or a proper prefix of the path that is followed by a slash. For a path without a trailing slash, no slash lies after that prefix's slash, so the prefix ends at the path's last slash. |
| NodePath.DirNameOfName | functions/index.js:226 | The dirname of a name without slashes is ".". |
| NodePath.JoinPath | functions/index.js:255 | `join(dir, name)` ends with `name`. It is `name` alone for an empty or "." directory, and otherwise starts with `dir` and has a slash just before `name`. FileNameOfJoin and JoinStaysInDirectory state what the thumbnail upload relies on. |
| NodePath.DirNameShape | functions/index.js:226 | Without empty interior segments, `dirname` is ".", "/" or a prefix ending just before a slash and not itself ending in a slash. |
| NodePath.JoinOntoDirectory | functions/index.js:255 | A name joined onto a directory that does not end in a slash has that directory as its dirname. |
| NodePath.JoinStaysInDirectory | functions/index.js:226-255 | For a path without an empty segment ("//"), joining a file name onto the path's dirname yields a path with that same dirname. |
| CloudFunctions.GetFirebaseUser | functions/index.js:17-37 | A request is refused with 403 "Unauthorized" exactly when the header is missing or does not start with "Bearer ". Otherwise the header starts with "Bearer " followed by the extracted token, and the token contains no further "Bearer ". The header is exactly "Bearer " + token, or continues after the token with another "Bearer ". |
| CloudFunctions.TokenFollowsBearer | functions/index.js:32-37 | The second piece of splitting a "Bearer " header is what follows the first "Bearer ", up to the header's end or the next "Bearer ". |
| CloudFunctions.BearerTokenRoundTrip | functions/index.js:32-37 | For the header "Bearer " + t, where t contains no "Bearer ", the token handed to verification is t. |
| CloudFunctions.FilterClauses | functions/index.js:59-65 | The filter has one clause per user plus the leading one. The leading clause names `userId`, and clause i + 1 names user i. |
| CloudFunctions.FilterStep | functions/index.js:63-65 | Each further user adds " OR userId:<id>" to the joined clauses. |
| CloudFunctions.GetFilterStringFromUsers | functions/index.js:59-68 | The loop builds exactly the clauses joined with " OR ", in input order. The result always starts with the `userId` clause ("userId:null" for the `/following` route), and is that clause alone when there are no users. |
| CloudFunctions.FileName | functions/index.js:225 | The last path segment holds no slash. |
| CloudFunctions.FileNameIsLastSegment | functions/index.js:225 | The file name is a suffix of the path that is the whole path or directly follows a slash; with FileName's contract, it is the part after the path's last slash. |
| CloudFunctions.CreateThumbnail | functions/index.js:222-256 | A file is skipped exactly when its name contains the prefix or "thumb-sm@", or its content type lacks "image". A missing content type fails once the name tests pass. Otherwise the thumbnail is `prefix + fileName`, uploaded to `join(dirname(path), thumbName)`. |
| CloudFunctions.FileNameOfJoin | functions/index.js:255 | The last segment of a file name joined onto any directory is that file name. |
| CloudFunctions.ThumbnailFileName | functions/index.js:245-255 | The last segment of a thumbnail's destination is the thumbnail's name. |
| CloudFunctions.ThumbnailStaysInDirectory | functions/index.js:245-255 | For a source path without an empty segment ("//"), a thumbnail is uploaded to the source file's own directory, under its thumbnail name. |
| CloudFunctions.OwnThumbnailIsSkipped | functions/index.js:230-245 | A call never processes its own upload again, whatever that upload's content type. |
| CloudFunctions.BareImageIsUploaded | functions/index.js:225-255 | An image named without slashes, whose name misses a character common to the prefix and "thumb-sm@", is uploaded to `prefix + name` in the same directory. |
| CloudFunctions.LargeThumbnailIsReprocessed | functions/index.js:217-233 | As written, for any image named without "/", "h" or "-" (such as "cat.png"), the "thumb@" call uploads "thumb@" + name, and the "thumb-sm@" call on that upload makes "thumb-sm@thumb@" + name. |
| CloudFunctions.SecondGenerationIsSkipped | functions/index.js:217-245 | As written, whatever either call uploads from a thumbnail is skipped by both calls, so reprocessing stops after one extra generation. |
| CloudFunctions.CreateThumbnailGuarded | functions/index.js:230-233 | The corrected test skips any name that contains either thumbnail prefix. Everything else is as in `createThumnail`. |
| CloudFunctions.GuardedThumbnailIsNeverReprocessed | functions/index.js:217-245 | With the corrected test, neither call ever processes a thumbnail made by either call. |

Where the code and its design intent differ, the model follows the code:

- `hasMore` is `docs.length >= 25`, a fixed page size (line 39). It is not
  a comparison of the records received against a growing limit.
- Paging advances a `startAfter` cursor, `after` (lines 77, 95). No limit
  is raised.
- The reducer never sets `loadingError` or `loadingMoreError` to an
  error: `LOADED` resets `loadingError` to null (line 66) and nothing else
  writes either. No error callback is registered, so both stay null in
  every reachable state.
- The store is not re-sorted after a batch; it keeps `Map` insertion order.
  Sorting happens only in the view (line 115). Ties in `updatedAt` are not
  broken by id.
- `modified` for an absent id inserts it, and `removed` for an absent id
  changes nothing, because `set` and `delete` behave that way on a `Map`.

## Left out

- The React plumbing of `usePaginateQuery` is not modelled: `useReducer`,
  the `useEffect` that subscribes with `onSnapshot` and `startAfter`, the
  unsubscribe, and the `loadMore` callback. These are subscription I/O and
  scheduling. The model exposes the reducer as a transition function, and
  `Run` folds it over a sequence of actions.
- Snapshots are values: their documents and their `docChanges()` batch.
  Firestore snapshot objects, document references and the data of
  `QueryDocumentSnapshot` cursors are reduced to `Doc`.
- Map object identity is not modelled. The reducer's `new Map(state.items)`
  copy is why a value model is faithful, but aliasing is not represented.
- `null` and `undefined` are both `None`. The empty snapshot's
  `docs[-1]`, which is undefined, and `null` behave alike where `after` is
  read (line 95).
- PaginateFb.UsePaginateQuery: the caller-supplied `compareFn` is not
  modelled. Only the default `sortByUpdatedAt` is. The order among entries
  with equal `updatedAt` is left unspecified, because the comparator never
  answers 0 and the engine's sort order for such entries is
  implementation-defined. The model sorts by insertion, and its contract
  states only the permutation and the newest-first order.
- A document without `updatedAt` is not modelled: `updatedAt` is an
  integer on every document. JavaScript comparisons with `undefined` are
  left out.
- JsStrings.IndexOf: indices count Dafny characters (Unicode scalar
  values), not JavaScript's UTF-16 code units. The two differ on strings
  holding characters outside the Basic Multilingual Plane; `includes`,
  `startsWith` and `split` give the same answers and pieces either way on
  well-formed strings.
- NodePath.JoinPath: it covers `path.join(dir, name)` for a file name
  without slashes only. It does not normalise "." or ".." segments or
  repeated slashes inside `dir`. For the directory "//" it answers
  "//name" where Node answers "/name". An empty or "." directory gives
  the name alone, as in Node. Directories that `dirname` returns
  for bucket paths without such segments are joined as Node joins them.
- CloudFunctions.CreateThumbnail: the thumbnail's width and height and the
  work after the decision are not modelled: the download, the sharp
  resize, the temporary directory and the upload. These are I/O. The
  outcome names only the thumbnail and its destination. A missing content
  type is the `TypeError` the code raises, as `ContentTypeMissing`.
- CloudFunctions.GetFirebaseUser: the result of `verifyIdToken` is not
  modelled, nor the 403 on a rejected token or the setting of `req.user`.
  These are calls into Firebase Auth. The guard ends by handing the token
  to that call.
- CloudFunctions.GetFilterStringFromUsers: `users` is a list. The default
  parameter `users = []` and a `userId` that is `undefined` (rendered
  "undefined") are not modelled; `null` renders as "null".
  `getRelationsForUserId`, `generateSecuredApiKey` and the route handlers
  are Firestore and Algolia calls and are not modelled.
- The index-sync triggers, `createUserProfile`, the browser search client
  and all UI components are not part of this model.

## Findings

| source | as written | input that shows it | evidently intended | confidence | as-written member | corrected member |
|---|---|---|---|---|---|---|
| functions/index.js:217-233 | Each thumbnail call skips names containing its own prefix or "thumb-sm@". The small call ("thumb-sm@") therefore processes large thumbnails ("thumb@..."). | Uploading the image "cat.png" makes "thumb@cat.png"; on that upload the "thumb-sm@" call makes "thumb-sm@thumb@cat.png". | A generated thumbnail is never processed again: names containing either prefix are skipped. | medium; not executed | CloudFunctions.LargeThumbnailIsReprocessed | CloudFunctions.CreateThumbnailGuarded |
