/** The earlier, array-based version of the same client state held by the
    `App` component: a list of activities, the selection, the edit mode and
    three flags. Each handler's request continuation is attached with
    `.then` and no rejection handler, so a rejected request changes nothing
    after the synchronous start: the flag it raised stays raised.

    The two corrected continuations at the end (`CompleteCreateFixed`,
    `CompleteDeleteFixed`) are not in the component; they are what the
    later store does, and they keep the selection inside the list. */
module App {
  import opened Wrappers
  import opened Seqs
  import opened Activities

  datatype AppState = AppState(
    activities: seq<Activity>,
    selected: Option<Activity>,
    editMode: bool,
    loading: bool,
    submitting: bool,
    deleting: bool)

  /** The component's initial state. */
  function Initial(): (s: AppState)
    ensures s.activities == [] && s.selected == None
    ensures s.loading && !s.editMode && !s.submitting && !s.deleting
  {
    AppState([], None, false, true, false, false)
  }

  /** The selection is nothing or an element of the list. */
  ghost predicate SelectionListed(s: AppState) {
    s.selected.Some? ==> s.selected.value in s.activities
  }

  /** The list without the activities whose id is `id`
      (`activities.filter(a => a.id !== id)`). */
  function RemoveId(xs: seq<Activity>, id: string): (r: seq<Activity>)
    ensures forall x :: x in r <==> x in xs && x.id != id
    ensures forall x :: multiset(r)[x] == if x.id != id then multiset(xs)[x] else 0
    ensures IsSubsequence(r, xs)
  {
    Filter(xs, (x: Activity) => x.id != id)
  }

  // ---------------------------------------------------------------------
  // Loading

  /** The date-trimmed copy of a list, in the same order. */
  function NormalizeAll(list: seq<Activity>): (r: seq<Activity>)
    ensures |r| == |list|
    ensures forall i :: 0 <= i < |r| ==>
      r[i].(date := list[i].date) == list[i] && r[i].date == DatePart(list[i].date)
  {
    seq(|list|, i requires 0 <= i < |list| => Normalize(list[i]))
  }

  /** The mount effect: when the list request resolves, the list is
      replaced by the fetched one with dates trimmed, in the same order,
      and loading ends. A rejected request leaves everything as it was. */
  function LoadEffect(s: AppState, response: Response<seq<Activity>>): (t: AppState)
    ensures response.Rejected? ==> t == s
    ensures response.Resolved? ==>
      && |t.activities| == |response.value|
      && (forall i :: 0 <= i < |t.activities| ==>
            t.activities[i].(date := response.value[i].date) == response.value[i]
            && t.activities[i].date == DatePart(response.value[i].date)
            && 'T' !in t.activities[i].date)
      && !t.loading
      && t.(activities := s.activities, loading := s.loading) == s
  {
    match response
    case Resolved(list) => s.(activities := NormalizeAll(list), loading := false)
    case Rejected => s
  }

  // ---------------------------------------------------------------------
  // Selection and form

  /** `activities.find(a => a.id === id)`: the first activity with that id,
      or nothing. */
  function FindById(xs: seq<Activity>, id: string): (r: Option<Activity>)
    ensures r.None? <==> forall i :: 0 <= i < |xs| ==> xs[i].id != id
    ensures r.Some? ==> exists i :: 0 <= i < |xs| && xs[i] == r.value && r.value.id == id &&
                                    (forall j :: 0 <= j < i ==> xs[j].id != id)
    decreases |xs|
  {
    if xs == [] then None
    else if xs[0].id == id then Some(xs[0])
    else
      var r := FindById(xs[1..], id);
      assert forall i :: 1 <= i < |xs| ==> xs[i] == xs[1..][i - 1];
      if r.Some? then
        ghost var i :| 0 <= i < |xs[1..]| && xs[1..][i] == r.value && r.value.id == id &&
          forall j :: 0 <= j < i ==> xs[1..][j].id != id;
        assert xs[i + 1] == r.value;
        assert forall j :: 1 <= j < i + 1 ==> xs[j].id != id;
        r
      else r
  }

  /** `handleSelectActivity`: selects the first listed activity with the
      id, or nothing when none has it. */
  function HandleSelectActivity(s: AppState, id: string): (t: AppState)
    ensures t.(selected := s.selected) == s
    ensures t.selected.None? <==> forall i :: 0 <= i < |s.activities| ==> s.activities[i].id != id
    ensures t.selected.Some? ==>
      exists i :: 0 <= i < |s.activities| && s.activities[i] == t.selected.value &&
                  t.selected.value.id == id && (forall j :: 0 <= j < i ==> s.activities[j].id != id)
  {
    s.(selected := FindById(s.activities, id))
  }

  /** `handleCancelSelectActivity`: clears only the selection. */
  function HandleCancelSelectActivity(s: AppState): (t: AppState)
    ensures t.selected == None
    ensures t.(selected := s.selected) == s
  {
    s.(selected := None)
  }

  /** `handleOpenForm`: selects by a truthy id, otherwise clears the
      selection; then enters edit mode. */
  function HandleOpenForm(s: AppState, id: Option<string>): (t: AppState)
    ensures t.editMode
    ensures t.(selected := s.selected, editMode := s.editMode) == s
    ensures Truthy(id) ==> t.selected == FindById(s.activities, id.value)
    ensures !Truthy(id) ==> t.selected == None
  {
    var s' := if Truthy(id) then HandleSelectActivity(s, id.value) else HandleCancelSelectActivity(s);
    s'.(editMode := true)
  }

  /** `handleCloseForm`: leaves edit mode only. */
  function HandleCloseForm(s: AppState): (t: AppState)
    ensures !t.editMode
    ensures t.(editMode := s.editMode) == s
  {
    s.(editMode := false)
  }

  /** Selecting, clearing, opening and closing the form all keep the
      selection inside the list, and a selection by id has that id. */
  lemma SelectionHandlersKeepSelectionListed(s: AppState, id: string, formId: Option<string>)
    ensures SelectionListed(HandleSelectActivity(s, id))
    ensures HandleSelectActivity(s, id).selected.Some? ==> HandleSelectActivity(s, id).selected.value.id == id
    ensures SelectionListed(HandleCancelSelectActivity(s))
    ensures SelectionListed(HandleOpenForm(s, formId))
    ensures SelectionListed(s) ==> SelectionListed(HandleCloseForm(s))
  {
  }

  // ---------------------------------------------------------------------
  // Create and update

  /** The synchronous start of `handleCreateOrEditActivity`. */
  function BeginSubmit(s: AppState): (t: AppState)
    ensures t.submitting
    ensures t.(submitting := s.submitting) == s
  {
    s.(submitting := true)
  }

  /** The update continuation: every element with the activity's id is
      dropped, the rest keep their order, the activity goes last and is
      selected, and the form closes. Rejected: nothing changes. */
  function CompleteUpdate(s: AppState, a: Activity, outcome: Outcome): (t: AppState)
    ensures outcome.Failure? ==> t == s
    ensures outcome.Success? ==>
      && |t.activities| > 0
      && t.activities[|t.activities| - 1] == a
      && (forall i :: 0 <= i < |t.activities| - 1 ==> t.activities[i].id != a.id)
      && IsSubsequence(t.activities[..|t.activities| - 1], s.activities)
      && (forall x :: multiset(t.activities[..|t.activities| - 1])[x] ==
                       if x.id != a.id then multiset(s.activities)[x] else 0)
      && t.selected == Some(a)
      && !t.editMode && !t.submitting
      && t.loading == s.loading && t.deleting == s.deleting
  {
    match outcome
    case Success =>
      var rest := RemoveId(s.activities, a.id);
      var list := rest + [a];
      assert list[..|list| - 1] == rest;
      s.(activities := list, selected := Some(a), editMode := false, submitting := false)
    case Failure => s
  }

  /** The create continuation as the component writes it: it appends a
      copy of the activity under a second fresh id `copyId`, while the
      selection is the activity under the id that was sent. */
  function CompleteCreate(s: AppState, sent: Activity, copyId: string, outcome: Outcome): (t: AppState)
    ensures outcome.Failure? ==> t == s
    ensures outcome.Success? ==>
      && |t.activities| == |s.activities| + 1
      && t.activities[..|s.activities|] == s.activities
      && t.activities[|s.activities|] == sent.(id := copyId)
      && t.selected == Some(sent)
      && !t.editMode && !t.submitting
      && t.loading == s.loading && t.deleting == s.deleting
  {
    match outcome
    case Success =>
      var list := s.activities + [sent.(id := copyId)];
      assert list[..|s.activities|] == s.activities;
      s.(activities := list, selected := Some(sent), editMode := false, submitting := false)
    case Failure => s
  }

  /** `handleCreateOrEditActivity`: an activity with a truthy id is an
      update; otherwise it is stamped with `freshId` and created, the stored
      copy getting `copyId`. The second component is the caller's activity
      after the call. */
  function HandleCreateOrEditActivity(s: AppState, a: Activity, freshId: string, copyId: string, outcome: Outcome)
    : (r: (AppState, Activity))
    ensures a.id != "" ==> r.1 == a
    ensures a.id == "" ==> r.1 == a.(id := freshId)
    ensures outcome.Failure? ==> r.0 == s.(submitting := true)
    ensures outcome.Success? ==>
      && r.0.selected == Some(r.1) && !r.0.editMode && !r.0.submitting
      && r.0.loading == s.loading && r.0.deleting == s.deleting
    ensures outcome.Success? && a.id == "" ==>
      && r.0.activities == s.activities + [a.(id := copyId)]
    ensures outcome.Success? && a.id != "" ==>
      && |r.0.activities| > 0
      && r.0.activities[|r.0.activities| - 1] == a
      && (forall i :: 0 <= i < |r.0.activities| - 1 ==> r.0.activities[i].id != a.id)
      && IsSubsequence(r.0.activities[..|r.0.activities| - 1], s.activities)
      && (forall x :: multiset(r.0.activities[..|r.0.activities| - 1])[x] ==
                       if x.id != a.id then multiset(s.activities)[x] else 0)
  {
    var s' := BeginSubmit(s);
    if a.id != "" then
      (CompleteUpdate(s', a, outcome), a)
    else
      var sent := a.(id := freshId);
      var t := CompleteCreate(s', sent, copyId, outcome);
      assert outcome.Success? ==> t.activities == t.activities[..|s.activities|] + [t.activities[|s.activities|]];
      (t, sent)
  }

  // ---------------------------------------------------------------------
  // Delete

  /** The synchronous start of `handleDeleteActivity`. */
  function BeginDelete(s: AppState): (t: AppState)
    ensures t.deleting
    ensures t.(deleting := s.deleting) == s
  {
    s.(deleting := true)
  }

  /** The delete continuation: every element with the id is dropped, the
      rest keep their order, the flag is reset and the selection is left
      alone. Rejected: nothing changes. */
  function CompleteDelete(s: AppState, id: string, outcome: Outcome): (t: AppState)
    ensures outcome.Failure? ==> t == s
    ensures outcome.Success? ==>
      && (forall x :: multiset(t.activities)[x] == if x.id != id then multiset(s.activities)[x] else 0)
      && IsSubsequence(t.activities, s.activities)
      && !t.deleting
      && t.(activities := s.activities, deleting := s.deleting) == s
  {
    match outcome
    case Success => s.(activities := RemoveId(s.activities, id), deleting := false)
    case Failure => s
  }

  /** `handleDeleteActivity`: begin then complete. */
  function HandleDeleteActivity(s: AppState, id: string, outcome: Outcome): (t: AppState)
    ensures outcome.Failure? ==> t == s.(deleting := true)
    ensures outcome.Success? ==>
      && (forall x :: multiset(t.activities)[x] == if x.id != id then multiset(s.activities)[x] else 0)
      && (forall x :: x in t.activities <==> x in s.activities && x.id != id)
      && IsSubsequence(t.activities, s.activities)
      && !t.deleting
      && t.(activities := s.activities, deleting := s.deleting) == s
  {
    CompleteDelete(BeginDelete(s), id, outcome)
  }

  // ---------------------------------------------------------------------
  // What the component gets wrong, and the corrected continuations

  /** As written, a successful create selects an activity whose id appears
      nowhere in the list: the stored copy carries `copyId` instead. */
  lemma CreateLosesSentId(s: AppState, a: Activity, freshId: string, copyId: string)
    requires a.id == "" && freshId != copyId && freshId !in Ids(s.activities)
    ensures var (t, sent) := HandleCreateOrEditActivity(s, a, freshId, copyId, Success);
      && t.selected == Some(sent)
      && sent.id == freshId
      && sent.id !in Ids(t.activities)
      && !SelectionListed(t)
  {
  }

  /** As written, deleting the selected activity leaves it selected though it
      is no longer in the list. */
  lemma DeleteKeepsStaleSelection(s: AppState, id: string)
    requires s.selected.Some? && s.selected.value.id == id
    ensures HandleDeleteActivity(s, id, Success).selected == s.selected
    ensures !SelectionListed(HandleDeleteActivity(s, id, Success))
  {
  }

  /** The corrected create continuation: the list gets the very activity
      that was sent and selected. The selection is then in the list, and
      the stored id is the id the server received. */
  function CompleteCreateFixed(s: AppState, sent: Activity, outcome: Outcome): (t: AppState)
    ensures outcome.Failure? ==> t == s
    ensures outcome.Success? ==>
      && t.activities == s.activities + [sent]
      && t.selected == Some(sent)
      && SelectionListed(t)
      && sent.id in Ids(t.activities)
      && !t.editMode && !t.submitting
      && t.loading == s.loading && t.deleting == s.deleting
  {
    match outcome
    case Success =>
      var list := s.activities + [sent];
      assert list[|list| - 1] == sent;
      s.(activities := list, selected := Some(sent), editMode := false, submitting := false)
    case Failure => s
  }

  /** The corrected delete continuation: as `CompleteDelete`, and the
      selection is cleared when it has the deleted id. It keeps the
      selection inside the list. */
  function CompleteDeleteFixed(s: AppState, id: string, outcome: Outcome): (t: AppState)
    ensures outcome.Failure? ==> t == s
    ensures outcome.Success? ==>
      && (forall x :: multiset(t.activities)[x] == if x.id != id then multiset(s.activities)[x] else 0)
      && (forall x :: x in t.activities <==> x in s.activities && x.id != id)
      && IsSubsequence(t.activities, s.activities)
      && !t.deleting
      && (s.selected.None? ==> t.selected == None)
      && (s.selected.Some? && s.selected.value.id == id ==> t.selected == None)
      && (s.selected.Some? && s.selected.value.id != id ==> t.selected == s.selected)
      && t.(activities := s.activities, selected := s.selected, deleting := s.deleting) == s
      && (SelectionListed(s) ==> SelectionListed(t))
  {
    match outcome
    case Success =>
      var selected := if s.selected.Some? && s.selected.value.id == id then None else s.selected;
      s.(activities := RemoveId(s.activities, id), selected := selected, deleting := false)
    case Failure => s
  }

  /** With the corrected continuations, every handler step keeps the
      selection inside the list (the mount load runs while nothing is
      selected). */
  lemma FixedHandlersKeepSelectionListed(s: AppState, a: Activity, id: string, outcome: Outcome)
    requires SelectionListed(s)
    ensures SelectionListed(CompleteUpdate(s, a, outcome))
    ensures SelectionListed(CompleteCreateFixed(s, a, outcome))
    ensures SelectionListed(CompleteDeleteFixed(s, id, outcome))
    ensures SelectionListed(BeginSubmit(s)) && SelectionListed(BeginDelete(s))
    ensures s.selected == None ==> forall response :: SelectionListed(LoadEffect(s, response))
  {
  }
}
