/** The MobX activity store: a registry of activities keyed by id, the
    selected activity, the form's edit mode and three progress flags.

    Every asynchronous operation is split where the source awaits the
    server: a `Begin` step (what runs before the request) and a `Complete`
    step that takes the request's outcome. The composite functions
    (`CreateActivity`, `UpdateActivity`, `DeleteActivity`) run both steps
    back to back, which is what one call does when nothing else interleaves.
    The registry changes only in a success continuation (pessimistic
    commit). */
module ActivityStore {
  import opened Wrappers
  import opened Seqs
  import opened OrderedMap
  import opened Activities
  import opened Sorting

  datatype StoreState = StoreState(
    registry: Registry<Activity>,
    selected: Option<Activity>,
    editMode: bool,
    loadingActivities: bool,
    creatingOrEditing: bool,
    deleting: bool)

  /** Every activity is filed under its own id. */
  ghost predicate WellKeyed(reg: Registry<Activity>) {
    forall k :: k in reg.entries ==> reg.entries[k].id == k
  }

  /** A selected activity's id is a key of the registry. */
  ghost predicate SelectionRegistered(s: StoreState) {
    s.selected.Some? ==> s.selected.value.id in s.registry.entries
  }

  ghost predicate Invariant(s: StoreState) {
    && Valid(s.registry)
    && WellKeyed(s.registry)
    && SelectionRegistered(s)
  }

  /** The store as constructed: empty registry, nothing selected, form
      closed, and `loadingActivities` already true. */
  function Initial(): (s: StoreState)
    ensures Invariant(s)
    ensures s.registry.entries.Keys == {} && s.selected == None
    ensures s.loadingActivities && !s.editMode && !s.creatingOrEditing && !s.deleting
  {
    StoreState(Empty(), None, false, true, false, false)
  }

  // ---------------------------------------------------------------------
  // Derived view

  /** `activitiesByDate`: the registry's values, stably sorted by parsed
      date. Ties keep the registry's insertion order. */
  function ActivitiesByDate(s: StoreState, parse: string -> int): (r: seq<Activity>)
    requires Valid(s.registry)
    ensures SortedBy(r, DateKey(parse))
    ensures multiset(r) == multiset(Values(s.registry))
    ensures forall v :: WithKey(r, DateKey(parse), v) == WithKey(Values(s.registry), DateKey(parse), v)
  {
    SortBy(Values(s.registry), DateKey(parse))
  }

  /** In a well-keyed registry `activitiesByDate` lists every registered
      activity exactly once. */
  lemma ActivitiesByDateListsEachOnce(s: StoreState, parse: string -> int)
    requires Valid(s.registry) && WellKeyed(s.registry)
    ensures |ActivitiesByDate(s, parse)| == |s.registry.entries|
    ensures forall k :: k in s.registry.entries ==>
      multiset(ActivitiesByDate(s, parse))[s.registry.entries[k]] == 1
  {
    var vs := Values(s.registry);
    var r := ActivitiesByDate(s, parse);
    assert |r| == |multiset(r)| == |multiset(vs)| == |vs|;
    ValuesDistinct(s.registry);
    forall k | k in s.registry.entries
      ensures multiset(r)[s.registry.entries[k]] == 1
    {
      CountInDistinct(vs, s.registry.entries[k]);
    }
  }

  /** Everything `activitiesByDate` lists is registered under its own id. */
  lemma ActivitiesByDateListsOnlyRegistered(s: StoreState, parse: string -> int)
    requires Valid(s.registry) && WellKeyed(s.registry)
    ensures forall a :: a in ActivitiesByDate(s, parse) ==>
      a.id in s.registry.entries && s.registry.entries[a.id] == a
  {
    var r := ActivitiesByDate(s, parse);
    forall a | a in r ensures a.id in s.registry.entries && s.registry.entries[a.id] == a {
      assert a in multiset(r);
      assert a in Values(s.registry);
    }
  }

  /** A well-keyed registry holds no activity twice. */
  lemma ValuesDistinct(reg: Registry<Activity>)
    requires Valid(reg) && WellKeyed(reg)
    ensures NoDuplicates(Values(reg))
  {
  }

  /** An element of a duplicate-free sequence occurs once. */
  lemma {:induction false} CountInDistinct<T>(s: seq<T>, x: T)
    requires NoDuplicates(s) && x in s
    ensures multiset(s)[x] == 1
    decreases |s|
  {
    assert s == [s[0]] + s[1..];
    if s[0] == x {
      assert x !in s[1..];
    } else {
      CountInDistinct(s[1..], x);
    }
  }

  // ---------------------------------------------------------------------
  // Loading

  /** Position `i` holds the last activity of `list` with its id. */
  ghost predicate LastWithId(list: seq<Activity>, i: int)
    requires 0 <= i < |list|
  {
    forall j :: i < j < |list| ==> list[j].id != list[i].id
  }

  /** The ids of `list` not among `known`, each once, in order of first
      occurrence: the keys a merge appends to the registry's order. */
  function NewIds(known: seq<string>, list: seq<Activity>): (r: seq<string>)
    decreases |list|
  {
    if list == [] then []
    else if list[0].id in known then NewIds(known, list[1..])
    else [list[0].id] + NewIds(known + [list[0].id], list[1..])
  }

  /** The `forEach` of `loadActivities`: each listed activity, date
      trimmed, is set under its id, left to right, so a later duplicate id
      overwrites an earlier one. Existing keys are never removed. */
  function Merge(reg: Registry<Activity>, list: seq<Activity>): (r: Registry<Activity>)
    requires Valid(reg)
    ensures Valid(r)
    ensures r.order == reg.order + NewIds(reg.order, list)
    ensures r.entries.Keys == reg.entries.Keys + Ids(list)
    ensures forall k :: k in reg.entries && k !in Ids(list) ==> r.entries[k] == reg.entries[k]
    ensures forall k :: k in Ids(list) ==> r.entries[k].id == k && 'T' !in r.entries[k].date
    ensures forall i :: 0 <= i < |list| && LastWithId(list, i) ==> r.entries[list[i].id] == Normalize(list[i])
    decreases |list|
  {
    if list == [] then reg
    else
      var a := list[0];
      var reg' := Set(reg, a.id, Normalize(a));
      var r := Merge(reg', list[1..]);
      MergeStep(list, r);
      assert a.id in reg.order <==> a.id in reg.entries;
      NewIdsStep(reg.order, list);
      r
  }

  /** The bookkeeping between one `set` of `Merge` and the rest. */
  lemma MergeStep(list: seq<Activity>, r: Registry<Activity>)
    requires list != []
    requires forall i :: 0 <= i < |list[1..]| && LastWithId(list[1..], i) ==>
      list[1..][i].id in r.entries && r.entries[list[1..][i].id] == Normalize(list[1..][i])
    requires list[0].id !in Ids(list[1..]) ==>
      list[0].id in r.entries && r.entries[list[0].id] == Normalize(list[0])
    ensures Ids(list) == {list[0].id} + Ids(list[1..])
    ensures forall i :: 0 <= i < |list| && LastWithId(list, i) ==>
      list[i].id in r.entries && r.entries[list[i].id] == Normalize(list[i])
  {
  }

  /** Taking the head's id into `known` when it is new is where `NewIds`
      puts it. */
  lemma NewIdsStep(known: seq<string>, list: seq<Activity>)
    requires list != []
    ensures var known' := if list[0].id in known then known else known + [list[0].id];
      known' + NewIds(known', list[1..]) == known + NewIds(known, list)
  {
    var k := list[0].id;
    if k !in known {
      var rest := NewIds(known + [k], list[1..]);
      assert known + ([k] + rest) == (known + [k]) + rest;
    }
  }

  /** `loadActivities`: on success merges the fetched list into the
      registry; on failure leaves the registry as it is. Either way
      `loadingActivities` ends false and nothing else changes. */
  function LoadActivities(s: StoreState, response: Response<seq<Activity>>): (t: StoreState)
    requires Valid(s.registry)
    ensures Valid(t.registry)
    ensures !t.loadingActivities
    ensures t.(registry := s.registry, loadingActivities := s.loadingActivities) == s
    ensures response.Rejected? ==> t.registry == s.registry
    ensures response.Resolved? ==>
      && t.registry.order == s.registry.order + NewIds(s.registry.order, response.value)
      && t.registry.entries.Keys == s.registry.entries.Keys + Ids(response.value)
      && (forall k :: k in s.registry.entries && k !in Ids(response.value) ==>
            t.registry.entries[k] == s.registry.entries[k])
      && (forall a :: a in response.value ==>
            t.registry.entries[a.id].id == a.id && 'T' !in t.registry.entries[a.id].date)
      && (forall i :: 0 <= i < |response.value| && LastWithId(response.value, i) ==>
            t.registry.entries[response.value[i].id] == Normalize(response.value[i]))
  {
    match response
    case Resolved(list) =>
      var reg := Merge(s.registry, list);
      assert forall a :: a in list ==> a.id in Ids(list);
      SetLoadingActivities(s.(registry := reg), false)
    case Rejected =>
      SetLoadingActivities(s, false)
  }

  /** `setLoadingActivities`: sets only the loading flag. */
  function SetLoadingActivities(s: StoreState, state: bool): (t: StoreState)
    ensures t.loadingActivities == state
    ensures t.(loadingActivities := s.loadingActivities) == s
  {
    s.(loadingActivities := state)
  }

  // ---------------------------------------------------------------------
  // Selection and form

  /** `selectActivity`: the selection becomes the registry's entry for
      `id`, or nothing when `id` is not a key. */
  function SelectActivity(s: StoreState, id: string): (t: StoreState)
    ensures t.(selected := s.selected) == s
    ensures t.selected.Some? <==> id in s.registry.entries
    ensures t.selected.Some? ==> t.selected.value == s.registry.entries[id]
  {
    s.(selected := Get(s.registry, id))
  }

  /** `cancelSelectedActivity`: clears only the selection. */
  function CancelSelectedActivity(s: StoreState): (t: StoreState)
    ensures t.selected == None
    ensures t.(selected := s.selected) == s
  {
    s.(selected := None)
  }

  /** `openForm`: with a truthy id selects that activity (or nothing when it
      is not registered), otherwise clears the selection; then opens the
      form in edit mode. */
  function OpenForm(s: StoreState, id: Option<string>): (t: StoreState)
    ensures t.editMode
    ensures t.(selected := s.selected, editMode := s.editMode) == s
    ensures Truthy(id) ==> t.selected == Get(s.registry, id.value)
    ensures !Truthy(id) ==> t.selected == None
  {
    var s' := if Truthy(id) then SelectActivity(s, id.value) else CancelSelectedActivity(s);
    s'.(editMode := true)
  }

  /** `closeForm`: leaves edit mode and keeps the selection. */
  function CloseForm(s: StoreState): (t: StoreState)
    ensures !t.editMode
    ensures t.(editMode := s.editMode) == s
  {
    s.(editMode := false)
  }

  /** In a well-keyed registry, selecting or opening the form on `id`
      selects either nothing or an activity whose id is `id`. */
  lemma SelectionCarriesRequestedId(s: StoreState, id: string)
    requires WellKeyed(s.registry)
    ensures SelectActivity(s, id).selected.Some? ==> SelectActivity(s, id).selected.value.id == id
    ensures OpenForm(s, Some(id)).selected.Some? ==> OpenForm(s, Some(id)).selected.value.id == id
  {
  }

  // ---------------------------------------------------------------------
  // Create and update

  /** The synchronous start of `createActivity` and `updateActivity`. */
  function BeginSubmit(s: StoreState): (t: StoreState)
    ensures t.creatingOrEditing
    ensures t.(creatingOrEditing := s.creatingOrEditing) == s
  {
    s.(creatingOrEditing := true)
  }

  /** The continuation shared by `createActivity` and `updateActivity`. On
      success the activity is set under its id (insert or replace, no
      existence check), selected, and the form closes; on failure only the
      flag is reset. */
  function CompleteSubmit(s: StoreState, a: Activity, outcome: Outcome): (t: StoreState)
    requires Valid(s.registry)
    ensures Valid(t.registry)
    ensures !t.creatingOrEditing
    ensures t.loadingActivities == s.loadingActivities && t.deleting == s.deleting
    ensures outcome.Success? ==>
      && t.registry.entries.Keys == s.registry.entries.Keys + {a.id}
      && t.registry.order == (if a.id in s.registry.entries then s.registry.order else s.registry.order + [a.id])
      && Get(t.registry, a.id) == Some(a)
      && (forall k :: k != a.id ==> Get(t.registry, k) == Get(s.registry, k))
      && t.selected == Some(a)
      && !t.editMode
    ensures outcome.Failure? ==>
      t.registry == s.registry && t.selected == s.selected && t.editMode == s.editMode
  {
    match outcome
    case Success =>
      s.(registry := Set(s.registry, a.id, a), selected := Some(a), editMode := false, creatingOrEditing := false)
    case Failure =>
      s.(creatingOrEditing := false)
  }

  /** `createActivity`: stamps the activity with the fresh id before the
      request, then completes. The second component is the caller's
      activity after the call: it carries the fresh id on both outcomes. */
  function CreateActivity(s: StoreState, a: Activity, freshId: string, outcome: Outcome): (r: (StoreState, Activity))
    requires Valid(s.registry)
    ensures Valid(r.0.registry)
    ensures r.1.id == freshId && r.1.(id := a.id) == a
    ensures !r.0.creatingOrEditing
    ensures r.0.loadingActivities == s.loadingActivities && r.0.deleting == s.deleting
    ensures outcome.Success? ==>
      && r.0.registry.entries == s.registry.entries[freshId := r.1]
      && r.0.registry.order ==
           (if freshId in s.registry.entries then s.registry.order else s.registry.order + [freshId])
      && r.0.selected == Some(r.1)
      && !r.0.editMode
    ensures outcome.Failure? ==>
      && r.0.registry == s.registry
      && r.0.selected == s.selected
      && r.0.editMode == s.editMode
  {
    var stamped := a.(id := freshId);
    (CompleteSubmit(BeginSubmit(s), stamped, outcome), stamped)
  }

  /** `updateActivity`: like create but keeps the activity's own id. */
  function UpdateActivity(s: StoreState, a: Activity, outcome: Outcome): (t: StoreState)
    requires Valid(s.registry)
    ensures Valid(t.registry)
    ensures !t.creatingOrEditing
    ensures t.loadingActivities == s.loadingActivities && t.deleting == s.deleting
    ensures outcome.Success? ==>
      && t.registry.entries == s.registry.entries[a.id := a]
      && t.registry.order ==
           (if a.id in s.registry.entries then s.registry.order else s.registry.order + [a.id])
      && t.selected == Some(a)
      && !t.editMode
    ensures outcome.Failure? ==>
      && t.registry == s.registry
      && t.selected == s.selected
      && t.editMode == s.editMode
  {
    CompleteSubmit(BeginSubmit(s), a, outcome)
  }

  // ---------------------------------------------------------------------
  // Delete

  /** The synchronous start of `deleteActivity`. */
  function BeginDelete(s: StoreState): (t: StoreState)
    ensures t.deleting
    ensures t.(deleting := s.deleting) == s
  {
    s.(deleting := true)
  }

  /** The continuation of `deleteActivity`. On success the key is removed
      and the selection cleared when it has that id; on failure only the
      flag is reset. */
  function CompleteDelete(s: StoreState, id: string, outcome: Outcome): (t: StoreState)
    requires Valid(s.registry)
    ensures Valid(t.registry)
    ensures !t.deleting
    ensures t.editMode == s.editMode
    ensures t.loadingActivities == s.loadingActivities && t.creatingOrEditing == s.creatingOrEditing
    ensures outcome.Success? ==>
      && t.registry.entries.Keys == s.registry.entries.Keys - {id}
      && IsSubsequence(t.registry.order, s.registry.order)
      && (forall k :: k != id ==> Get(t.registry, k) == Get(s.registry, k))
      && (t.selected == None <==> s.selected == None || s.selected.value.id == id)
      && (t.selected.Some? ==> t.selected == s.selected)
    ensures outcome.Failure? ==> t.registry == s.registry && t.selected == s.selected
  {
    match outcome
    case Success =>
      var s' := if s.selected.Some? && s.selected.value.id == id then CancelSelectedActivity(s) else s;
      s'.(registry := Delete(s.registry, id), deleting := false)
    case Failure =>
      s.(deleting := false)
  }

  /** `deleteActivity`: begin then complete. */
  function DeleteActivity(s: StoreState, id: string, outcome: Outcome): (t: StoreState)
    requires Valid(s.registry)
    ensures Valid(t.registry)
    ensures !t.deleting
    ensures t.editMode == s.editMode
    ensures t.loadingActivities == s.loadingActivities && t.creatingOrEditing == s.creatingOrEditing
    ensures outcome.Success? ==>
      && id !in t.registry.entries
      && IsSubsequence(t.registry.order, s.registry.order)
      && (forall k :: k != id ==> Get(t.registry, k) == Get(s.registry, k))
      && (t.selected == None <==> s.selected == None || s.selected.value.id == id)
      && (t.selected.Some? ==> t.selected == s.selected)
    ensures outcome.Failure? ==>
      && t.registry == s.registry
      && t.selected == s.selected
  {
    CompleteDelete(BeginDelete(s), id, outcome)
  }

  // ---------------------------------------------------------------------
  // Any sequence of steps, interleaved or not

  /** One step the store can take: a synchronous action, or the start or
      the continuation of an asynchronous one. */
  datatype Command =
    | Load(response: Response<seq<Activity>>)
    | SetLoading(state: bool)
    | Select(selectId: string)
    | CancelSelect
    | Open(formId: Option<string>)
    | Close
    | StartSubmit
    | FinishSubmit(activity: Activity, submitOutcome: Outcome)
    | StartDelete
    | FinishDelete(deleteId: string, deleteOutcome: Outcome)

  function Step(s: StoreState, c: Command): (t: StoreState)
    requires Valid(s.registry)
    ensures Valid(t.registry)
  {
    match c
    case Load(response) => LoadActivities(s, response)
    case SetLoading(state) => SetLoadingActivities(s, state)
    case Select(id) => SelectActivity(s, id)
    case CancelSelect => CancelSelectedActivity(s)
    case Open(id) => OpenForm(s, id)
    case Close => CloseForm(s)
    case StartSubmit => BeginSubmit(s)
    case FinishSubmit(a, outcome) => CompleteSubmit(s, a, outcome)
    case StartDelete => BeginDelete(s)
    case FinishDelete(id, outcome) => CompleteDelete(s, id, outcome)
  }

  function Run(s: StoreState, cs: seq<Command>): (t: StoreState)
    requires Valid(s.registry)
    ensures Valid(t.registry)
    decreases |cs|
  {
    if cs == [] then s else Run(Step(s, cs[0]), cs[1..])
  }

  /** Every step keeps each activity under its own id and keeps the
      selection pointing at a registered id. */
  lemma StepPreservesInvariant(s: StoreState, c: Command)
    requires Invariant(s)
    ensures Invariant(Step(s, c))
  {
  }

  /** The invariant holds after any sequence of steps, so also under any
      interleaving of begin and complete steps of concurrent operations. */
  lemma {:induction false} RunPreservesInvariant(s: StoreState, cs: seq<Command>)
    requires Invariant(s)
    ensures Invariant(Run(s, cs))
    decreases |cs|
  {
    if cs != [] {
      StepPreservesInvariant(s, cs[0]);
      RunPreservesInvariant(Step(s, cs[0]), cs[1..]);
    }
  }

  /** From an empty registry a successful create is the only activity
      `activitiesByDate` lists. */
  lemma CreateIntoEmpty(s: StoreState, a: Activity, freshId: string, parse: string -> int)
    requires Valid(s.registry) && s.registry.entries.Keys == {}
    ensures ActivitiesByDate(CreateActivity(s, a, freshId, Success).0, parse) == [a.(id := freshId)]
  {
  }
}
