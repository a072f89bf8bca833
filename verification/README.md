# Reactivities client state, modelled in Dafny

Reactivities is a small "Activities" tracker. Its web client keeps a local copy
of the activity records and keeps it in step with the server. This project
models that client-side state machine in two versions that live in the
repository side by side:

* **`ActivityStore`** (`client-app/src/app/stores/activityStore.ts`). This is a MobX
  store. It holds a registry (a JavaScript `Map` from id to activity), the selected
  activity, an `editMode` flag and three progress flags. Create, update and delete
  are *pessimistic*: the registry changes only after the server confirms. A failure
  resets the progress flag and leaves the registry alone. `activitiesByDate` is
  the registry's values, sorted by parsed date.
* **`App`** (`client-app/src/app/layout/App.tsx`). This is the earlier component
  version. It keeps a plain array in React state, and its request continuations
  have no rejection handler.

Each create, update and delete is split at its `await`/`.then` into two steps:

* a `Begin…` step, which only raises the operation's progress flag;
* a `Complete…` step, which takes the server's outcome as a parameter.

A composite function (`CreateActivity`, `UpdateActivity`, `DeleteActivity`,
`HandleCreateOrEditActivity`, `HandleDeleteActivity`) runs both steps together.
The composites for create also stamp the caller's activity with the fresh id
before the request. The list loads (`LoadActivities`, `LoadEffect`) have no
`Begin…` step: `loadingActivities` starts raised, and the load is one function
of the server's response. Fresh uuids and the server's answers are parameters. `Date.parse` is a parameter `parse: string -> int`.

The JavaScript `Map` is modelled with its key-insertion order (`OrderedMap`).
That order decides how `activitiesByDate` breaks ties between equal dates. A load
appends the ids it has not seen before to that order, in the order of their
first occurrence in the response (`ActivityStore.Merge`).
`Array.prototype.sort` is stable, so the sorted result is fully determined:
`Sorting.StableSortIsUnique` proves that every stable sort gives the same
sequence as the model's insertion sort.

Store invariant: every activity is filed under its own id, and a selected
activity's id is a registered key. Every single step keeps this invariant, so it
also holds under any interleaving of the begin and complete steps of concurrent
operations (`ActivityStore.RunPreservesInvariant`).

The two versions are compared in `Correspondence`. A list with distinct ids
matches a registry when both hold the same activities under the same ids. The
lemmas there show that, with the two corrected continuations, the component and
the store stay matched step by step, under these conditions:

* the load is only covered as the first load from the two initial states, and
  only when the server lists each id once;
* select, cancel, open form, close form, a successful update and a successful
  delete keep any matched states matched;
* a successful create keeps them matched when its fresh id is not already in use.

After a rejected update or delete the two versions differ only in the
progress flag. The create as written breaks the match.

Files: `wrappers.dfy` (optional values, remote outcomes), `seqs.dfy`
(filter, subsequence), `ordered_map.dfy` (the JavaScript `Map`), `activities.dfy`
(the record, date trimming, truthiness), `sorting.dfy` (stable sort),
`activity_store.dfy`, `app.dfy`, `correspondence.dfy`.

## Model

| member | source | states |
|---|---|---|
| `OrderedMap.Empty` | client-app/src/app/stores/activityStore.ts:7 | `new Map()` has no keys, and its (empty) key order is valid |
| `OrderedMap.Get` | client-app/src/app/stores/activityStore.ts:43 | `Map.get` yields the stored value exactly when the key is present, otherwise `undefined` |
| `OrderedMap.Set` | client-app/src/app/stores/activityStore.ts:29 | `Map.set` is insert-or-replace. The result is the old map with `key ↦ value`. The enumeration order stays the same when the key exists, and gains the key at the end when it is new. The order stays duplicate-free and matches the keys |
| `OrderedMap.Delete` | client-app/src/app/stores/activityStore.ts:104 | `Map.delete` removes exactly that key, whether or not it was present. The remaining order keeps its relative order |
| `OrderedMap.DeleteOrderUnique` | client-app/src/app/stores/activityStore.ts:104 | The keys left and the old order fix the order after `Map.delete`: any valid map with those keys whose order is a subsequence of the old order has exactly `Delete`'s order |
| `OrderedMap.Values` | client-app/src/app/stores/activityStore.ts:19 | `Array.from(map.values())` has one element per key, in key-insertion order, and lists every stored value |
| `OrderedMap.ValuesOfSet` | client-app/src/app/stores/activityStore.ts:85 | Re-setting an existing key changes only that key's slot in the values. Setting a new key appends its value |
| `Seqs.SubsequenceDetermined` | client-app/src/app/stores/activityStore.ts:104 | Two subsequences of a duplicate-free sequence with the same elements are equal (the key order left by a delete is unique) |
| `Seqs.Filter` | client-app/src/app/layout/App.tsx:57-59 | `filter` keeps exactly the elements that satisfy the test, with their multiplicities, as a subsequence (order kept) |
| `Activities.DatePart` | client-app/src/app/stores/activityStore.ts:28 | `date.split("T")[0]` is a prefix of the date, contains no `T`, and stops exactly at the first `T` (or is the whole string when there is none) |
| `Activities.DatePartIdempotent` | client-app/src/app/layout/App.tsx:25 | Trimming an already trimmed date changes nothing |
| `Activities.Truthy` | client-app/src/app/stores/activityStore.ts:51 | The `id ?` test: an absent id and the empty string are falsy, and every other string is truthy |
| `Activities.DateKey` | client-app/src/app/stores/activityStore.ts:20 | The comparator key of an activity is `Date.parse` of its date |
| `Activities.Normalize` | client-app/src/app/stores/activityStore.ts:28 | Only the date field changes, and it becomes its calendar part |
| `Sorting.Insert` | client-app/src/app/stores/activityStore.ts:19-21 | Inserting into a sorted sequence keeps it sorted and adds exactly that element |
| `Sorting.WithKeyInsert` | client-app/src/app/stores/activityStore.ts:19-21 | An inserted element goes before the existing elements with an equal key, and the elements of other keys are untouched (stability step) |
| `Sorting.SortBy` | client-app/src/app/stores/activityStore.ts:19-21 | The sort with comparator `key(a) - key(b)` is non-decreasing by key, is a permutation of its input, and keeps the input order among equal keys |
| `Sorting.StableSortIsUnique` | client-app/src/app/stores/activityStore.ts:19-21 | Two sequences that are both sorted and have the same elements in the same order per key are equal |
| `Sorting.StableSortAgrees` | client-app/src/app/stores/activityStore.ts:19-21 | Any stable sort of the values yields exactly the model's sort, whatever algorithm the engine uses |
| `ActivityStore.Initial` | client-app/src/app/stores/activityStore.ts:7-12 | A new store has an empty registry, no selection and the form closed. `loadingActivities` starts true. The store invariant holds |
| `ActivityStore.ActivitiesByDate` | client-app/src/app/stores/activityStore.ts:18-22 | `activitiesByDate` is ordered non-decreasing by parsed date. It is a permutation of the registry values. Equal dates keep registry order |
| `ActivityStore.ActivitiesByDateListsEachOnce` | client-app/src/app/stores/activityStore.ts:18-22 | In a well-keyed registry the view has one element per key and lists every registered activity exactly once |
| `ActivityStore.ActivitiesByDateListsOnlyRegistered` | client-app/src/app/stores/activityStore.ts:18-22 | In a well-keyed registry every listed activity is the registry's entry under its own id |
| `ActivityStore.Merge` | client-app/src/app/stores/activityStore.ts:27-30 | The `forEach` keeps the old key order and appends the newly seen ids in first-occurrence order. It leaves keys = old keys ∪ listed ids, keeps the old values of unlisted keys, and stores the last listed activity per id with its date trimmed. Every listed id maps to an activity with that id and a `T`-free date |
| `ActivityStore.LoadActivities` | client-app/src/app/stores/activityStore.ts:24-36 | `loadingActivities` is false on both outcomes and no other field moves. A rejected fetch leaves the registry as it was. A resolved fetch merges without clearing any key. The key order becomes the old order followed by the newly seen ids in first-occurrence order |
| `ActivityStore.SetLoadingActivities` | client-app/src/app/stores/activityStore.ts:38-40 | Sets the loading flag and nothing else |
| `ActivityStore.SelectActivity` | client-app/src/app/stores/activityStore.ts:42-44 | The selection becomes the entry for the id, or `undefined` exactly when the id is not a key. Nothing else changes |
| `ActivityStore.CancelSelectedActivity` | client-app/src/app/stores/activityStore.ts:46-48 | Clears the selection only |
| `ActivityStore.OpenForm` | client-app/src/app/stores/activityStore.ts:50-53 | `editMode` becomes true. A truthy id selects the registry entry (or `undefined`). A missing or empty id clears the selection. Registry and flags are unchanged |
| `ActivityStore.CloseForm` | client-app/src/app/stores/activityStore.ts:55-57 | Only `editMode` changes, to false. The selection is kept |
| `ActivityStore.SelectionCarriesRequestedId` | client-app/src/app/stores/activityStore.ts:42-53 | In a well-keyed registry, selecting by id or opening the form on an id selects nothing or an activity with that id |
| `ActivityStore.BeginSubmit` | client-app/src/app/stores/activityStore.ts:60 | Before the request only `creatingOrEditing` is raised |
| `ActivityStore.CompleteSubmit` | client-app/src/app/stores/activityStore.ts:63-76 | On success the activity is stored under its id, every other key keeps its value, the key order is kept for an existing id and gains the id at the end for a new one, the activity is selected and the form closes. On failure the registry, selection and `editMode` are unchanged. `creatingOrEditing` ends false either way |
| `ActivityStore.CreateActivity` | client-app/src/app/stores/activityStore.ts:59-77 | The caller's activity carries the fresh id on both outcomes. On success the registry becomes `old[freshId ↦ stamped]`, the fresh id goes last in the key order (unless already a key, which keeps its place), the stamped activity is selected and the form closes. On failure registry, selection and `editMode` are unchanged. `creatingOrEditing` ends false |
| `ActivityStore.UpdateActivity` | client-app/src/app/stores/activityStore.ts:79-96 | On success, insert-or-replace at `activity.id` with no existence check: an existing key keeps its slot in the order and a new key goes last, plus the same selection and flag effects as create. On failure the registry is unchanged. `creatingOrEditing` ends false |
| `ActivityStore.BeginDelete` | client-app/src/app/stores/activityStore.ts:99 | Before the request only `deleting` is raised |
| `ActivityStore.CompleteDelete` | client-app/src/app/stores/activityStore.ts:101-113 | On success exactly that key is removed, the remaining keys keep their relative order, and the selection is cleared exactly when it had that id. On failure the registry and selection are unchanged. `deleting` ends false |
| `ActivityStore.DeleteActivity` | client-app/src/app/stores/activityStore.ts:98-114 | A successful delete removes the id, leaves every other key as it was and keeps the remaining keys' relative order. The selection is cleared exactly when it was empty or had that id, and is otherwise kept. A failed delete leaves the registry and the selection as they were. `deleting` is false after either outcome, and `editMode`, `loadingActivities` and `creatingOrEditing` are unchanged |
| `ActivityStore.StepPreservesInvariant` | client-app/src/app/stores/activityStore.ts:24-114 | Every operation step keeps activities under their own ids and the selection on a registered id |
| `ActivityStore.RunPreservesInvariant` | client-app/src/app/stores/activityStore.ts:24-114 | The invariant holds after any sequence of steps, including interleaved begin/complete steps |
| `ActivityStore.CreateIntoEmpty` | client-app/src/app/stores/activityStore.ts:59-70 | From an empty registry, after one successful create `activitiesByDate` is exactly the stamped activity |
| `App.Initial` | client-app/src/app/layout/App.tsx:11-18 | Empty list, nothing selected, `loading` true, the other flags false |
| `App.RemoveId` | client-app/src/app/layout/App.tsx:82 | Filtering by id keeps exactly the activities with another id, with their multiplicities and relative order |
| `App.NormalizeAll` | client-app/src/app/layout/App.tsx:24-27 | The list keeps its length and order, and only each date changes, to its calendar part |
| `App.LoadEffect` | client-app/src/app/layout/App.tsx:20-32 | A resolved list replaces the state's list element by element, in the same order: each element equals the fetched one except that its date is the fetched date's calendar part (no `T`). `loading` becomes false and nothing else moves. A rejection changes nothing |
| `App.FindById` | client-app/src/app/layout/App.tsx:35 | `find` yields the first element with the id, and nothing exactly when no element has it |
| `App.HandleSelectActivity` | client-app/src/app/layout/App.tsx:34-36 | The selection becomes the first listed activity with the id, or `undefined` when none matches. Nothing else changes |
| `App.HandleCancelSelectActivity` | client-app/src/app/layout/App.tsx:38-40 | Clears the selection only |
| `App.HandleOpenForm` | client-app/src/app/layout/App.tsx:42-45 | A truthy id selects by id. Otherwise the selection is cleared. `editMode` becomes true either way |
| `App.HandleCloseForm` | client-app/src/app/layout/App.tsx:47-49 | Only `editMode` changes |
| `App.SelectionHandlersKeepSelectionListed` | client-app/src/app/layout/App.tsx:34-49 | Select, cancel, open and close keep the selection inside the list, and select-by-id selects an activity with that id |
| `App.BeginSubmit` | client-app/src/app/layout/App.tsx:52 | Only `submitting` is raised |
| `App.CompleteUpdate` | client-app/src/app/layout/App.tsx:55-64 | On success every element with the id is removed, the rest keep their relative order, and the activity is appended last (the only one with its id). It is selected, and `editMode` and `submitting` become false. A rejection changes nothing |
| `App.CompleteCreate` | client-app/src/app/layout/App.tsx:68-72 | On success exactly one element is appended (a copy under the second id) and prior elements are unchanged. The sent activity is selected. A rejection changes nothing |
| `App.HandleCreateOrEditActivity` | client-app/src/app/layout/App.tsx:51-75 | A truthy id takes the update branch: the list ends with the activity, and the elements before it are exactly the old ones with another id, as an order-keeping subsequence with their multiplicities. Otherwise the caller's activity is stamped with the first uuid and the list gets a copy under the second. On success the activity is selected, the form closes, `submitting` becomes false, and `loading` and `deleting` are unchanged. After a rejection `submitting` stays true and nothing else changes |
| `App.BeginDelete` | client-app/src/app/layout/App.tsx:78 | Only `deleting` is raised |
| `App.CompleteDelete` | client-app/src/app/layout/App.tsx:80-85 | On success every element with the id is removed, the order of the others is kept, `deleting` becomes false and the selection is untouched. A rejection changes nothing |
| `App.HandleDeleteActivity` | client-app/src/app/layout/App.tsx:77-86 | A successful delete keeps exactly the old elements with another id, with their multiplicities and order. `deleting` becomes false and every other field, the selection included, is unchanged. After a rejection `deleting` stays true and nothing else changes |
| `App.CreateLosesSentId` | client-app/src/app/layout/App.tsx:67-70 | With distinct fresh uuids, the selected activity's id (the one sent to the server) appears nowhere in the list after a successful create |
| `App.DeleteKeepsStaleSelection` | client-app/src/app/layout/App.tsx:80-85 | Deleting the selected activity leaves it selected although it is no longer listed |
| `App.CompleteCreateFixed` | client-app/src/app/layout/App.tsx:69 | The corrected create appends the sent activity itself. The selection is then listed, and its id is in the list |
| `App.CompleteDeleteFixed` | client-app/src/app/layout/App.tsx:80-85 | The corrected delete keeps exactly the old elements with another id, with their multiplicities and order. It clears a selection with the deleted id, keeps any other selection (and an empty one empty), lowers `deleting`, changes no other field, and keeps the selection inside the list |
| `App.FixedHandlersKeepSelectionListed` | client-app/src/app/layout/App.tsx:20-85 | With the corrected continuations every handler keeps the selection inside the list (the mount load runs with nothing selected) |
| `Correspondence.RemoveIdFacts` | client-app/src/app/layout/App.tsx:82 | On a list with distinct ids, filtering out an id keeps the ids distinct and removes exactly that id from the id set |
| `Correspondence.InitialStatesMatch` | client-app/src/app/layout/App.tsx:11-18 | The component's initial state and the new store match: same activities, selection and flags |
| `Correspondence.LoadMatches` | client-app/src/app/layout/App.tsx:20-32 | When the server lists each id once, the mount load and the store's first load produce matching states |
| `Correspondence.SelectMatches` | client-app/src/app/layout/App.tsx:34-36 | On matching states, `find` by id on the list and `get` on the registry select the same activity (or both nothing) |
| `Correspondence.FormMatches` | client-app/src/app/layout/App.tsx:38-49 | Cancel, open form and close form keep matching states matched |
| `Correspondence.UpdateMatches` | client-app/src/app/layout/App.tsx:54-65 | A successful update in the component (filter then append) matches insert-or-replace in the store |
| `Correspondence.CreateFixedMatches` | client-app/src/app/layout/App.tsx:66-73 | With an unused fresh id, the corrected create in the component matches the store's create |
| `Correspondence.CreateAsWrittenDiverges` | client-app/src/app/layout/App.tsx:69 | With distinct uuids, the create as written can never match the store's create: the sent id is missing from the list |
| `Correspondence.DeleteFixedMatches` | client-app/src/app/layout/App.tsx:77-86 | The corrected successful delete matches the store's delete, selection included |
| `Correspondence.FailureDivergesOnlyInFlag` | client-app/src/app/layout/App.tsx:51-86 | After a rejected update or delete the two versions agree on everything except the progress flag, which the component leaves raised and the store lowers |

## Left out

- The activity record's own declaration (`client-app/src/app/models/activity.ts`) is not part of this model. Its fields are taken as id, title, date, description, category, city and venue, all strings.
- An activity whose `id` field is missing (`undefined`) is represented by the empty id. Both are falsy, so the component takes the create branch for either.
- MobX reactivity (`makeAutoObservable`, `runInAction`) and React hooks and rendering are not modelled. Each state change is a pure function from state to state.
- The network client `agent` and `console.log` are not modelled. A request's settlement is an `Outcome` or `Response` parameter.
- `uuid()` is not modelled: fresh ids are parameters.
- `Date.parse` is the parameter `parse`. Its real behaviour, including `NaN` for unparsable dates (which makes the comparator inconsistent), is not modelled.
- ActivityStore.LoadActivities: a throw inside the `forEach` (a record whose date is not a string) would leave a partial merge. Only a rejected fetch is modelled as failure.
- Object identity and aliasing are not modelled. In the source, the caller, the registry and the selection share one mutable object, so a later mutation by the caller would show through. Here activities are values.
- App: continuations compute from the list captured when the handler was called (a stale closure). Each `Complete…` function takes the state it is applied to. The two agree when nothing runs in between.
- Cancellation and timeouts of requests do not exist in the source and are not modelled.
- The server side (account controller, token service, the delete handler) is out of scope: it is framework glue over identity, JWT and ORM libraries.
- Neither file loads a single record on its own (cache first or otherwise) or groups activities by calendar day, so no such operation is modelled. Their create, update and delete change the state only after the server confirms.
- Progress flags: the store lowers them on both outcomes, but the component's rejected requests leave `submitting` and `deleting` raised, since it has no rejection handler. The model keeps this difference.
- Dates stay strings. Loading keeps the calendar-day part of the string (`date.split("T")[0]`) and does not turn it into a point in time.

## Findings

| source | as written | input that shows it | evidently intended | confidence | as-written member | corrected member |
|---|---|---|---|---|---|---|
| client-app/src/app/layout/App.tsx:69 | The create continuation appends `{...activity, id: uuid()}`, a copy under a second uuid, while the selection and the server keep the first uuid | Empty list. Create an activity with id `""`, with uuids `"u1"` then `"u2"`. The selection has id `"u1"`, but the list holds one activity with id `"u2"`, an id the server never received | Append the activity itself, as the store later does at activityStore.ts:66 | high; not executed | `App.CreateLosesSentId` | `App.CompleteCreateFixed` |
| client-app/src/app/layout/App.tsx:80-85 | The delete continuation never touches the selection | Activity `x` is selected. Delete `x` succeeds. The list no longer contains `x`, but `x` is still selected | Clear the selection when it has the deleted id, as the store does at activityStore.ts:105 | medium; not executed | `App.DeleteKeepsStaleSelection` | `App.CompleteDeleteFixed` |
