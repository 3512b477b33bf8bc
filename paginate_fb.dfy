/**
 * The live-pagination reducer of the recipe feed: a keyed store of
 * documents kept up to date from snapshots of a live query, a cursor for
 * loading the next page, and the view that lists the documents most
 * recently updated first.
 */
module PaginateFb {
  import opened Wrappers

  /** The page size against which a snapshot is judged to have more. */
  const INITIAL_LOAD_SIZE: nat := 25

  /** A document's data: its `updatedAt` time and the rest of its fields, opaque here. */
  datatype DocData = DocData(updatedAt: int, fields: map<string, string>)

  /** A document of the query: its id and its data (an `[id, data]` entry of the store). */
  datatype Doc = Doc(id: string, data: DocData)

  datatype ChangeKind = Added | Modified | Removed

  /** One element of `docChanges()`. */
  datatype DocChange = DocChange(kind: ChangeKind, doc: Doc)

  /** A query snapshot: the documents it holds now, and the changes since the last one. */
  datatype Snapshot = Snapshot(docs: seq<Doc>, changes: seq<DocChange>)

  datatype LoadError = LoadError(message: string)

  datatype Action = LoadMore | Loaded(value: Snapshot)

  /**
   * The reducer's state. `items` is the key/value store in the iteration
   * order of a JavaScript `Map` (insertion order); `after` is the cursor the
   * query starts after, `lastLoaded` the last document of the latest snapshot.
   */
  datatype PageState = PageState(
    hasMore: bool,
    items: seq<Doc>,
    after: Option<Doc>,
    lastLoaded: Option<Doc>,
    loadingMore: bool,
    loadingMoreError: Option<LoadError>,
    loading: bool,
    loadingError: Option<LoadError>)

  // ---------------------------------------------------------------------------
  // The keyed store

  /** The ids of the store's entries, in iteration order. */
  function Ids(items: seq<Doc>): (ids: seq<string>)
    ensures |ids| == |items|
    ensures forall i :: 0 <= i < |items| ==> ids[i] == items[i].id
  {
    if items == [] then [] else [items[0].id] + Ids(items[1..])
  }

  /** No id has two entries, as in a `Map`. */
  predicate UniqueIds(items: seq<Doc>) {
    forall i, j :: 0 <= i < j < |items| ==> items[i].id != items[j].id
  }

  /** `items.get(id)`. */
  function Find(items: seq<Doc>, id: string): (r: Option<DocData>)
    ensures r.Some? <==> id in Ids(items)
    ensures r.Some? ==> Doc(id, r.value) in items
  {
    if items == [] then None
    else if items[0].id == id then Some(items[0].data)
    else Find(items[1..], id)
  }

  /** How the store's views read an entry put in front of others. */
  lemma Cons(h: Doc, t: seq<Doc>)
    ensures ([h] + t)[0] == h && ([h] + t)[1..] == t
    ensures Ids([h] + t) == [h.id] + Ids(t)
    ensures forall k :: Find([h] + t, k) == if h.id == k then Some(h.data) else Find(t, k)
  {
    assert ([h] + t)[1..] == t;
  }

  /** Ids stay unique when an entry with a new id is put in front. */
  lemma ConsUniqueIntro(h: Doc, t: seq<Doc>)
    requires h.id !in Ids(t) && UniqueIds(t)
    ensures UniqueIds([h] + t)
  {
    var s := [h] + t;
    forall i, j | 0 <= i < j < |s| ensures s[i].id != s[j].id {
      assert s[j] == t[j - 1];
      if i == 0 {
        assert s[j].id == Ids(t)[j - 1];
      } else {
        assert s[i] == t[i - 1];
      }
    }
  }

  /** The front entry of a store with unique ids has an id the rest lacks. */
  lemma ConsUniqueElim(h: Doc, t: seq<Doc>)
    requires UniqueIds([h] + t)
    ensures h.id !in Ids(t) && UniqueIds(t)
  {
    var s := [h] + t;
    forall i | 0 <= i < |t| ensures Ids(t)[i] != h.id {
      assert s[0] == h && s[i + 1] == t[i];
    }
    forall i, j | 0 <= i < j < |t| ensures t[i].id != t[j].id {
      assert s[i + 1] == t[i] && s[j + 1] == t[j];
    }
  }

  lemma ConsUnique(h: Doc, t: seq<Doc>)
    ensures UniqueIds([h] + t) <==> h.id !in Ids(t) && UniqueIds(t)
  {
    if UniqueIds([h] + t) {
      ConsUniqueElim(h, t);
    }
    if h.id !in Ids(t) && UniqueIds(t) {
      ConsUniqueIntro(h, t);
    }
  }

  /**
   * `items.set(id, data)`: a present id keeps its place and takes the new
   * data, an absent one is appended. Afterwards the id maps to `data`, every
   * other id keeps its value, and ids stay unique.
   */
  function Upsert(items: seq<Doc>, id: string, data: DocData): (r: seq<Doc>)
    ensures Find(r, id) == Some(data)
    ensures forall k :: k != id ==> Find(r, k) == Find(items, k)
    ensures Ids(r) == if id in Ids(items) then Ids(items) else Ids(items) + [id]
  {
    if items == [] then
      Cons(Doc(id, data), []);
      [Doc(id, data)]
    else
      Cons(items[0], items[1..]);
      assert items == [items[0]] + items[1..];
      if items[0].id == id then
        Cons(Doc(id, data), items[1..]);
        [Doc(id, data)] + items[1..]
      else
        var rest := Upsert(items[1..], id, data);
        Cons(items[0], rest);
        assert id in Ids(items) <==> id in Ids(items[1..]);
        assert Ids([items[0]] + rest) == [items[0].id] + Ids(rest);
        [items[0]] + rest
  }

  /** Whether ids are unique depends on the id list alone. */
  lemma UniqueIdsFollowIds(a: seq<Doc>, b: seq<Doc>, id: string)
    requires UniqueIds(a)
    requires Ids(b) == Ids(a) || (id !in Ids(a) && Ids(b) == Ids(a) + [id])
    ensures UniqueIds(b)
  {
    forall i, j | 0 <= i < j < |b| ensures b[i].id != b[j].id {
      assert b[i].id == Ids(b)[i] && b[j].id == Ids(b)[j];
      if j < |a| {
        assert Ids(b)[i] == a[i].id && Ids(b)[j] == a[j].id;
      } else {
        assert Ids(b)[j] == id && Ids(b)[i] == Ids(a)[i];
      }
    }
  }

  /** Setting an entry keeps the ids unique: a present id is not added again. */
  lemma UpsertKeepsIdsUnique(items: seq<Doc>, id: string, data: DocData)
    ensures UniqueIds(items) ==> UniqueIds(Upsert(items, id, data))
  {
    if UniqueIds(items) {
      UniqueIdsFollowIds(items, Upsert(items, id, data), id);
    }
  }

  /**
   * `items.delete(id)`: exactly the entries for `id` go, every other entry
   * stays, in the same order; deleting an absent id changes nothing.
   */
  function Remove(items: seq<Doc>, id: string): (r: seq<Doc>)
    ensures Find(r, id) == None
    ensures forall k :: k != id ==> Find(r, k) == Find(items, k)
    ensures forall d :: d in r <==> d in items && d.id != id
    ensures id !in Ids(items) ==> r == items
  {
    if items == [] then []
    else
      Cons(items[0], items[1..]);
      assert items == [items[0]] + items[1..];
      var rest := Remove(items[1..], id);
      if items[0].id == id then rest
      else
        Cons(items[0], rest);
        [items[0]] + rest
  }

  /** Taking entry `k + 1` out of `[h] + t` is taking entry `k` out of `t`. */
  lemma ConsSplice(h: Doc, t: seq<Doc>, k: nat)
    requires k < |t|
    ensures [h] + (t[..k] + t[k + 1..]) == ([h] + t)[..k + 1] + ([h] + t)[k + 2..]
  {
    assert ([h] + t)[..k + 1] == [h] + t[..k];
    assert ([h] + t)[k + 2..] == t[k + 1..];
  }

  /**
   * Deleting a present id from a store with unique ids takes out exactly its
   * entry: the others stay in their order.
   */
  lemma {:induction false} RemoveKeepsOrder(items: seq<Doc>, id: string)
    requires UniqueIds(items) && id in Ids(items)
    ensures exists k :: 0 <= k < |items| && items[k].id == id && Remove(items, id) == items[..k] + items[k + 1..]
  {
    assert items == [items[0]] + items[1..];
    ConsUniqueElim(items[0], items[1..]);
    var t := items[1..];
    if items[0].id == id {
      assert Remove(items, id) == items[..0] + items[0 + 1..];
    } else {
      assert Ids(items) == [items[0].id] + Ids(t);
      RemoveKeepsOrder(t, id);
      var k :| 0 <= k < |t| && t[k].id == id && Remove(t, id) == t[..k] + t[k + 1..];
      assert Remove(items, id) == [items[0]] + Remove(t, id);
      ConsSplice(items[0], t, k);
      assert items[k + 1].id == id && Remove(items, id) == items[..k + 1] + items[k + 1 + 1..];
    }
  }

  /** Deleting keeps the ids unique. */
  lemma {:induction false} RemoveKeepsIdsUnique(items: seq<Doc>, id: string)
    ensures UniqueIds(items) ==> UniqueIds(Remove(items, id))
  {
    if items != [] && UniqueIds(items) {
      Cons(items[0], items[1..]);
      assert items == [items[0]] + items[1..];
      ConsUnique(items[0], items[1..]);
      RemoveKeepsIdsUnique(items[1..], id);
      var rest := Remove(items[1..], id);
      if items[0].id != id {
        Cons(items[0], rest);
        ConsUnique(items[0], rest);
      }
    }
  }

  /** The effect of one change: `added` and `modified` set, `removed` deletes. */
  function ApplyChange(items: seq<Doc>, c: DocChange): (r: seq<Doc>)
    ensures UniqueIds(items) ==> UniqueIds(r)
  {
    match c.kind
    case Added =>
      UpsertKeepsIdsUnique(items, c.doc.id, c.doc.data);
      Upsert(items, c.doc.id, c.doc.data)
    case Modified =>
      UpsertKeepsIdsUnique(items, c.doc.id, c.doc.data);
      Upsert(items, c.doc.id, c.doc.data)
    case Removed =>
      RemoveKeepsIdsUnique(items, c.doc.id);
      Remove(items, c.doc.id)
  }

  /** A batch of changes applied in order to a copy of the store; ids stay unique. */
  function ApplyChanges(items: seq<Doc>, changes: seq<DocChange>): (r: seq<Doc>)
    ensures UniqueIds(items) ==> UniqueIds(r)
    decreases |changes|
  {
    if changes == [] then items
    else ApplyChange(ApplyChanges(items, changes[..|changes| - 1]), changes[|changes| - 1])
  }

  /** The first `i + 1` changes are the first `i` followed by the next one. */
  lemma ApplyChangesPrefix(items: seq<Doc>, changes: seq<DocChange>, i: nat)
    requires i < |changes|
    ensures ApplyChanges(items, changes[..i + 1]) == ApplyChange(ApplyChanges(items, changes[..i]), changes[i])
  {
    assert changes[..i + 1][..i] == changes[..i];
  }

  /** Setting the same entry twice gives the same store as setting it once. */
  lemma {:induction false} UpsertIdempotent(items: seq<Doc>, id: string, data: DocData)
    ensures Upsert(Upsert(items, id, data), id, data) == Upsert(items, id, data)
  {
    if items != [] && items[0].id != id {
      UpsertIdempotent(items[1..], id, data);
    }
  }

  /** Applying the same change twice in a row is the same as applying it once. */
  lemma ApplyChangeIdempotent(items: seq<Doc>, c: DocChange)
    ensures ApplyChange(ApplyChange(items, c), c) == ApplyChange(items, c)
  {
    if c.kind != Removed {
      UpsertIdempotent(items, c.doc.id, c.doc.data);
    }
  }

  /** The last change of the batch that concerns `id`, if any. */
  function LastChangeFor(changes: seq<DocChange>, id: string): (r: Option<DocChange>)
    ensures r.Some? ==> r.value in changes && r.value.doc.id == id
    ensures r.Some? ==>
      exists i :: 0 <= i < |changes| && changes[i] == r.value && (forall j :: i < j < |changes| ==> changes[j].doc.id != id)
    ensures r.None? <==> forall i :: 0 <= i < |changes| ==> changes[i].doc.id != id
    decreases |changes|
  {
    if changes == [] then None
    else if changes[|changes| - 1].doc.id == id then Some(changes[|changes| - 1])
    else LastChangeFor(changes[..|changes| - 1], id)
  }

  /**
   * Last write wins: after a batch, an id holds what the last change for it
   * left (nothing after `removed`, its data after `added`/`modified`), and
   * its previous value when no change of the batch concerns it.
   */
  lemma {:induction false} LastWriteWins(items: seq<Doc>, changes: seq<DocChange>, id: string)
    ensures Find(ApplyChanges(items, changes), id) ==
      match LastChangeFor(changes, id)
      case None => Find(items, id)
      case Some(c) => if c.kind == Removed then None else Some(c.doc.data)
    decreases |changes|
  {
    if changes != [] {
      var init := changes[..|changes| - 1];
      var c := changes[|changes| - 1];
      if c.doc.id != id {
        LastWriteWins(items, init, id);
      }
    }
  }

  /** Entries whose ids no change of the batch mentions keep their values. */
  lemma UntouchedEntriesKeepTheirValues(items: seq<Doc>, changes: seq<DocChange>, id: string)
    requires forall i :: 0 <= i < |changes| ==> changes[i].doc.id != id
    ensures Find(ApplyChanges(items, changes), id) == Find(items, id)
  {
    LastWriteWins(items, changes, id);
  }

  /** An `added` that arrives twice leaves exactly the store one `added` leaves. */
  lemma DuplicateAddedIsHarmless(items: seq<Doc>, changes: seq<DocChange>, c: DocChange)
    requires c.kind == Added
    ensures ApplyChanges(items, changes + [c, c]) == ApplyChanges(items, changes + [c])
  {
    var once, twice := changes + [c], changes + [c, c];
    var base := ApplyChanges(items, changes);
    assert ApplyChanges(items, once) == ApplyChange(base, c) by {
      assert once[..|once| - 1] == changes && once[|once| - 1] == c;
    }
    assert ApplyChanges(items, twice) == ApplyChange(ApplyChanges(items, once), c) by {
      assert twice[..|twice| - 1] == once && twice[|twice| - 1] == c;
    }
    ApplyChangeIdempotent(base, c);
  }

  // ---------------------------------------------------------------------------
  // The reducer

  /** The state a hook starts from. */
  function InitialState(): (s: PageState)
    ensures s.loading && !s.hasMore && !s.loadingMore
    ensures s.loadingError == None && s.loadingMoreError == None
    ensures s.after == None && s.lastLoaded == None && s.items == []
  {
    PageState(
      hasMore := false, after := None, items := [], lastLoaded := None,
      loading := true, loadingError := None, loadingMore := false, loadingMoreError := None)
  }

  /** `docs[docs.length - 1]`, which is `undefined` for an empty snapshot. */
  function LastDoc(docs: seq<Doc>): (r: Option<Doc>)
    ensures r.None? <==> docs == []
    ensures r.Some? ==> r.value in docs
  {
    if docs == [] then None else Some(docs[|docs| - 1])
  }

  /**
   * LOADED: `hasMore` exactly when the snapshot holds at least a page of
   * documents, loading finished without error, the cursor candidate is the
   * snapshot's last document, the store is the old one with the batch
   * applied; `after` and `loadingMoreError` are kept.
   */
  function LoadedState(s: PageState, snap: Snapshot): (r: PageState)
    ensures r.hasMore <==> |snap.docs| >= INITIAL_LOAD_SIZE
    ensures !r.loading && r.loadingError == None && !r.loadingMore
    ensures r.lastLoaded == LastDoc(snap.docs)
    ensures r.after == s.after && r.loadingMoreError == s.loadingMoreError
    ensures r.items == ApplyChanges(s.items, snap.changes)
    ensures UniqueIds(s.items) ==> UniqueIds(r.items)
  {
    s.(hasMore := |snap.docs| >= INITIAL_LOAD_SIZE,
       loading := false,
       loadingError := None,
       lastLoaded := LastDoc(snap.docs),
       loadingMore := false,
       items := ApplyChanges(s.items, snap.changes))
  }

  /**
   * LOAD-MORE: the query is to restart after the last loaded document and a
   * page load is under way; everything else is kept.
   */
  function LoadMoreState(s: PageState): (r: PageState)
    ensures r.loadingMore && r.after == s.lastLoaded
    ensures r.items == s.items && r.hasMore == s.hasMore && r.loading == s.loading
    ensures r.lastLoaded == s.lastLoaded
    ensures r.loadingError == s.loadingError && r.loadingMoreError == s.loadingMoreError
  {
    s.(loadingMore := true, after := s.lastLoaded)
  }

  /** The reducer as a function of the state and the action. */
  function Transition(s: PageState, a: Action): PageState {
    match a
    case Loaded(snap) => LoadedState(s, snap)
    case LoadMore => LoadMoreState(s)
  }

  /**
   * The reducer: LOADED copies the store and applies the batch to the copy
   * change by change; LOAD-MORE moves the cursor.
   */
  method Reducer(state: PageState, action: Action) returns (next: PageState)
    ensures next == Transition(state, action)
  {
    match action
    case Loaded(snap) =>
      var hasMore := |snap.docs| >= INITIAL_LOAD_SIZE;
      var items := state.items;
      var i := 0;
      while i < |snap.changes|
        invariant 0 <= i <= |snap.changes|
        invariant items == ApplyChanges(state.items, snap.changes[..i])
      {
        var change := snap.changes[i];
        ApplyChangesPrefix(state.items, snap.changes, i);
        match change.kind {
          case Added =>
            items := Upsert(items, change.doc.id, change.doc.data);
          case Modified =>
            items := Upsert(items, change.doc.id, change.doc.data);
          case Removed =>
            items := Remove(items, change.doc.id);
        }
        i := i + 1;
      }
      assert snap.changes[..i] == snap.changes;
      next := state.(
        hasMore := hasMore,
        loading := false,
        loadingError := None,
        lastLoaded := LastDoc(snap.docs),
        loadingMore := false,
        items := items);
    case LoadMore =>
      next := state.(loadingMore := true, after := state.lastLoaded);
  }

  /** The state after dispatching `actions` in order from the initial state. */
  function Run(actions: seq<Action>): PageState
    decreases |actions|
  {
    if actions == [] then InitialState()
    else Transition(Run(actions[..|actions| - 1]), actions[|actions| - 1])
  }

  /**
   * What holds of every state the reducer can reach: ids are unique, no
   * error is ever recorded, and until the first snapshot the store, the
   * cursors and `hasMore` are still empty.
   */
  predicate Consistent(s: PageState) {
    && UniqueIds(s.items)
    && s.loadingError == None
    && s.loadingMoreError == None
    && (s.loading ==> s.items == [] && s.lastLoaded == None && s.after == None && !s.hasMore)
  }

  lemma {:induction false} ReachableStatesAreConsistent(actions: seq<Action>)
    ensures Consistent(Run(actions))
    decreases |actions|
  {
    if actions != [] {
      ReachableStatesAreConsistent(actions[..|actions| - 1]);
    }
  }

  // ---------------------------------------------------------------------------
  // The hook's view

  /** `sortByUpdatedAt`: -1 puts `a` first when it is strictly newer; it never answers 0. */
  function SortByUpdatedAt(a: Doc, b: Doc): (r: int)
    ensures r == -1 || r == 1
    ensures r == -1 <==> a.data.updatedAt > b.data.updatedAt
  {
    if a.data.updatedAt > b.data.updatedAt then -1 else 1
  }

  /** Most recently updated first: `updatedAt` never increases along the list. */
  predicate NewestFirst(s: seq<Doc>) {
    forall i, j :: 0 <= i < j < |s| ==> s[i].data.updatedAt >= s[j].data.updatedAt
  }

  /** A list stays newest first when an entry at least as new as its head is put in front. */
  lemma ConsNewestFirst(h: Doc, t: seq<Doc>)
    requires NewestFirst(t)
    requires t == [] || h.data.updatedAt >= t[0].data.updatedAt
    ensures NewestFirst([h] + t)
  {
    var s := [h] + t;
    forall i, j | 0 <= i < j < |s| ensures s[i].data.updatedAt >= s[j].data.updatedAt {
      assert s[j] == t[j - 1];
      if i == 0 {
        assert t[0].data.updatedAt >= t[j - 1].data.updatedAt || j == 1;
      } else {
        assert s[i] == t[i - 1];
      }
    }
  }

  /** Puts `x` into a list before the first entry the comparator puts after it. */
  function InsertSorted(x: Doc, sorted: seq<Doc>): (r: seq<Doc>)
    ensures multiset(r) == multiset(sorted) + multiset{x}
    ensures |r| == |sorted| + 1
    ensures r[0] == x || (sorted != [] && r[0] == sorted[0])
  {
    if sorted == [] then [x]
    else
      assert sorted == [sorted[0]] + sorted[1..];
      if SortByUpdatedAt(x, sorted[0]) < 0 then [x] + sorted
      else [sorted[0]] + InsertSorted(x, sorted[1..])
  }

  /** The ids after an insertion are the old ones and the new entry's. */
  lemma {:induction false} InsertSortedIds(x: Doc, sorted: seq<Doc>)
    ensures forall k :: k in Ids(InsertSorted(x, sorted)) <==> k == x.id || k in Ids(sorted)
  {
    if sorted == [] {
      Cons(x, []);
    } else {
      Cons(sorted[0], sorted[1..]);
      assert sorted == [sorted[0]] + sorted[1..];
      if SortByUpdatedAt(x, sorted[0]) < 0 {
        Cons(x, sorted);
      } else {
        InsertSortedIds(x, sorted[1..]);
        Cons(sorted[0], InsertSorted(x, sorted[1..]));
      }
    }
  }

  /** Inserting into a newest-first list keeps it newest first. */
  lemma {:induction false} InsertKeepsNewestFirst(x: Doc, sorted: seq<Doc>)
    requires NewestFirst(sorted)
    ensures NewestFirst(InsertSorted(x, sorted))
  {
    if sorted != [] {
      if SortByUpdatedAt(x, sorted[0]) < 0 {
        ConsNewestFirst(x, sorted);
      } else {
        var rest := InsertSorted(x, sorted[1..]);
        assert NewestFirst(sorted[1..]) by {
          forall i, j | 0 <= i < j < |sorted| - 1
            ensures sorted[1..][i].data.updatedAt >= sorted[1..][j].data.updatedAt
          {
            assert sorted[1..][i] == sorted[i + 1] && sorted[1..][j] == sorted[j + 1];
          }
        }
        InsertKeepsNewestFirst(x, sorted[1..]);
        assert rest[0] == x || rest[0] == sorted[1];
        ConsNewestFirst(sorted[0], rest);
      }
    }
  }

  /** Inserting an entry with a new id keeps the ids unique. */
  lemma {:induction false} InsertKeepsIdsUnique(x: Doc, sorted: seq<Doc>)
    requires UniqueIds(sorted) && x.id !in Ids(sorted)
    ensures UniqueIds(InsertSorted(x, sorted))
  {
    if sorted != [] {
      Cons(sorted[0], sorted[1..]);
      assert sorted == [sorted[0]] + sorted[1..];
      ConsUniqueElim(sorted[0], sorted[1..]);
      if SortByUpdatedAt(x, sorted[0]) < 0 {
        ConsUniqueIntro(x, sorted);
      } else {
        var rest := InsertSorted(x, sorted[1..]);
        InsertKeepsIdsUnique(x, sorted[1..]);
        InsertSortedIds(x, sorted[1..]);
        ConsUniqueIntro(sorted[0], rest);
      }
    } else {
      ConsUniqueIntro(x, []);
    }
  }

  /**
   * `Array.from(items).sort(sortByUpdatedAt)`: a permutation of the store's
   * entries, newest first. Entries with equal `updatedAt` come in some order.
   */
  function SortedItems(items: seq<Doc>): (r: seq<Doc>)
    ensures multiset(r) == multiset(items)
    ensures NewestFirst(r)
  {
    if items == [] then []
    else
      assert items == [items[0]] + items[1..];
      var rest := SortedItems(items[1..]);
      InsertKeepsNewestFirst(items[0], rest);
      InsertSorted(items[0], rest)
  }

  /** Sorting keeps the set of ids, and keeps them unique. */
  lemma {:induction false} SortedItemsIds(items: seq<Doc>)
    ensures forall k :: k in Ids(SortedItems(items)) <==> k in Ids(items)
    ensures UniqueIds(items) ==> UniqueIds(SortedItems(items))
  {
    if items != [] {
      assert items == [items[0]] + items[1..];
      var rest := SortedItems(items[1..]);
      SortedItemsIds(items[1..]);
      InsertSortedIds(items[0], rest);
      Cons(items[0], items[1..]);
      if UniqueIds(items) {
        ConsUniqueElim(items[0], items[1..]);
        InsertKeepsIdsUnique(items[0], rest);
      }
    }
  }

  /** What `usePaginateQuery` hands to its caller, less the `loadMore` callback. */
  datatype PageView = PageView(
    loadingMore: bool,
    loadingError: Option<LoadError>,
    loadingMoreError: Option<LoadError>,
    loading: bool,
    hasMore: bool,
    items: seq<Doc>)

  function UsePaginateQuery(s: PageState): (v: PageView)
    ensures v.loadingMore == s.loadingMore && v.loading == s.loading && v.hasMore == s.hasMore
    ensures v.loadingError == s.loadingError && v.loadingMoreError == s.loadingMoreError
    ensures multiset(v.items) == multiset(s.items) && NewestFirst(v.items)
    ensures UniqueIds(s.items) ==> UniqueIds(v.items)
  {
    SortedItemsIds(s.items);
    PageView(s.loadingMore, s.loadingError, s.loadingMoreError, s.loading, s.hasMore,
             SortedItems(s.items))
  }
}
