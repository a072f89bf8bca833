/** How the component's list-based state relates to the store's registry.
    A list with distinct ids corresponds to a registry when both hold the
    same activities under the same ids; the other fields must be equal
    field by field. With the corrected create and delete continuations,
    the successful steps of the component keep this correspondence with the
    same steps of the store: the first load from the initial states when
    the server lists each id once, and select, form, update, create (with
    an unused fresh id) and delete from any matched states. The component
    as written departs from it on create. */
module Correspondence {
  import opened Wrappers
  import opened Seqs
  import opened OrderedMap
  import opened Activities
  import ActivityStore
  import App

  ghost predicate UniqueIds(xs: seq<Activity>) {
    forall i, j :: 0 <= i < j < |xs| ==> xs[i].id != xs[j].id
  }

  /** The list and the registry hold the same activities under the same ids. */
  ghost predicate ListMatches(xs: seq<Activity>, reg: Registry<Activity>) {
    && UniqueIds(xs)
    && Valid(reg)
    && (forall k :: k in reg.entries <==> k in Ids(xs))
    && (forall a :: a in xs ==> a.id in reg.entries && reg.entries[a.id] == a)
  }

  ghost predicate StatesMatch(app: App.AppState, store: ActivityStore.StoreState) {
    && ListMatches(app.activities, store.registry)
    && app.selected == store.selected
    && app.editMode == store.editMode
    && app.loading == store.loadingActivities
    && app.submitting == store.creatingOrEditing
    && app.deleting == store.deleting
  }

  /** The ids of a non-empty list: its head's and its tail's. */
  lemma IdsCons(xs: seq<Activity>)
    requires xs != []
    ensures Ids(xs) == {xs[0].id} + Ids(xs[1..])
  {
    forall k | k in Ids(xs) ensures k in {xs[0].id} + Ids(xs[1..]) {
      var i :| 0 <= i < |xs| && xs[i].id == k;
      if i > 0 { assert xs[1..][i - 1] == xs[i]; }
    }
  }

  /** A list with distinct ids: the head's id is not in the tail, and the
      tail has distinct ids. */
  lemma UniqueIdsCons(xs: seq<Activity>)
    requires xs != [] && UniqueIds(xs)
    ensures UniqueIds(xs[1..]) && xs[0].id !in Ids(xs[1..])
  {
  }

  /** Filtering out an id removes exactly that id. */
  lemma RemoveIdIds(xs: seq<Activity>, id: string)
    ensures Ids(App.RemoveId(xs, id)) == Ids(xs) - {id}
  {
    MembersWithoutId(App.RemoveId(xs, id), xs, id);
  }

  /** A list holding exactly the members of another whose id differs from
      `id` has exactly the other's ids but `id`. */
  lemma MembersWithoutId(r: seq<Activity>, xs: seq<Activity>, id: string)
    requires forall x :: x in r <==> x in xs && x.id != id
    ensures Ids(r) == Ids(xs) - {id}
  {
    forall k | k in Ids(r) ensures k in Ids(xs) - {id} {
      var i :| 0 <= i < |r| && r[i].id == k;
      var x := r[i];
      assert x in r;
      var j :| 0 <= j < |xs| && xs[j] == x;
      assert xs[j].id == k;
    }
    forall k | k in Ids(xs) - {id} ensures k in Ids(r) {
      var i :| 0 <= i < |xs| && xs[i].id == k;
      var x := xs[i];
      assert x in r;
      var j :| 0 <= j < |r| && r[j] == x;
      assert r[j].id == k;
    }
  }

  /** Filtering out an id keeps the remaining ids distinct. */
  lemma {:induction false} RemoveIdUnique(xs: seq<Activity>, id: string)
    requires UniqueIds(xs)
    ensures UniqueIds(App.RemoveId(xs, id))
    decreases |xs|
  {
    if xs != [] {
      UniqueIdsCons(xs);
      RemoveIdUnique(xs[1..], id);
      var rest := App.RemoveId(xs[1..], id);
      if xs[0].id != id {
        RemoveIdIds(xs[1..], id);
        AppendFreshHead(xs[0], rest);
      }
    }
  }

  /** Putting an activity whose id is not yet listed in front keeps ids
      distinct. */
  lemma AppendFreshHead(a: Activity, xs: seq<Activity>)
    requires UniqueIds(xs) && a.id !in Ids(xs)
    ensures UniqueIds([a] + xs)
  {
    var r := [a] + xs;
    forall i, j | 0 <= i < j < |r| ensures r[i].id != r[j].id {
      assert r[j] == xs[j - 1];
      if i > 0 {
        assert r[i] == xs[i - 1];
      } else {
        assert xs[j - 1].id in Ids(xs);
      }
    }
  }

  /** On a list with distinct ids, filtering out an id keeps the ids
      distinct and removes exactly that id. */
  lemma RemoveIdFacts(xs: seq<Activity>, id: string)
    requires UniqueIds(xs)
    ensures UniqueIds(App.RemoveId(xs, id))
    ensures Ids(App.RemoveId(xs, id)) == Ids(xs) - {id}
  {
    RemoveIdUnique(xs, id);
    RemoveIdIds(xs, id);
  }

  /** Appending an activity whose id is not yet listed keeps ids distinct. */
  lemma AppendFreshId(xs: seq<Activity>, a: Activity)
    requires UniqueIds(xs) && a.id !in Ids(xs)
    ensures UniqueIds(xs + [a])
    ensures Ids(xs + [a]) == Ids(xs) + {a.id}
  {
    var r := xs + [a];
    forall i, j | 0 <= i < j < |r| ensures r[i].id != r[j].id {
      if j == |xs| {
        assert r[i] == xs[i];
        assert xs[i].id in Ids(xs);
      } else {
        assert r[i] == xs[i] && r[j] == xs[j];
      }
    }
    AppendFreshIdsOnly(xs, a);
  }

  /** The ids of a list with one more element. */
  lemma AppendFreshIdsOnly(xs: seq<Activity>, a: Activity)
    ensures Ids(xs + [a]) == Ids(xs) + {a.id}
  {
    var r := xs + [a];
    assert r[|xs|] == a;
    forall k | k in Ids(r) ensures k in Ids(xs) + {a.id} {
      var i :| 0 <= i < |r| && r[i].id == k;
      if i < |xs| { assert r[i] == xs[i]; }
    }
    forall k | k in Ids(xs) ensures k in Ids(r) {
      var i :| 0 <= i < |xs| && xs[i].id == k;
      assert r[i] == xs[i];
    }
  }

  /** Both versions start in matching states. */
  lemma InitialStatesMatch()
    ensures StatesMatch(App.Initial(), ActivityStore.Initial())
  {
  }

  /** A list of normalized activities with distinct ids matches a registry
      that holds, under each id, the normalized last activity with it. */
  lemma NormalizedListMatches(list: seq<Activity>, xs: seq<Activity>, reg: Registry<Activity>)
    requires UniqueIds(list) && Valid(reg)
    requires |xs| == |list| && forall i :: 0 <= i < |xs| ==> xs[i] == Normalize(list[i])
    requires reg.entries.Keys == Ids(list)
    requires forall i :: 0 <= i < |list| && ActivityStore.LastWithId(list, i) ==>
      reg.entries[list[i].id] == Normalize(list[i])
    ensures ListMatches(xs, reg)
  {
    assert Ids(xs) == Ids(list) by {
      forall k | k in Ids(list) ensures k in Ids(xs) {
        var i :| 0 <= i < |list| && list[i].id == k;
        assert xs[i].id == k;
      }
      forall k | k in Ids(xs) ensures k in Ids(list) {
        var i :| 0 <= i < |xs| && xs[i].id == k;
        assert list[i].id == k;
      }
    }
    assert UniqueIds(xs) by {
      forall i, j | 0 <= i < j < |xs| ensures xs[i].id != xs[j].id {
        assert xs[i].id == list[i].id && xs[j].id == list[j].id;
      }
    }
    forall a | a in xs ensures a.id in reg.entries && reg.entries[a.id] == a {
      var i :| 0 <= i < |xs| && xs[i] == a;
      assert ActivityStore.LastWithId(list, i);
      assert list[i].id in Ids(list);
    }
  }

  /** The mount load and the store's load from a fresh store produce
      matching states, provided the server lists each id once (otherwise
      the component keeps every duplicate and the store the last). */
  lemma LoadMatches(list: seq<Activity>)
    requires UniqueIds(list)
    ensures StatesMatch(App.LoadEffect(App.Initial(), Resolved(list)),
                        ActivityStore.LoadActivities(ActivityStore.Initial(), Resolved(list)))
  {
    var app := App.LoadEffect(App.Initial(), Resolved(list));
    var store := ActivityStore.LoadActivities(ActivityStore.Initial(), Resolved(list));
    forall i | 0 <= i < |app.activities| ensures app.activities[i] == Normalize(list[i]) {
      var b := app.activities[i];
      assert b == b.(date := list[i].date).(date := b.date);
    }
    NormalizedListMatches(list, app.activities, store.registry);
  }

  /** `find` on the list and `get` on the registry select the same thing. */
  lemma SelectMatches(app: App.AppState, store: ActivityStore.StoreState, id: string)
    requires StatesMatch(app, store)
    ensures StatesMatch(App.HandleSelectActivity(app, id), ActivityStore.SelectActivity(store, id))
  {
    var found := App.FindById(app.activities, id);
    if found.Some? {
      assert found.value in app.activities;
    }
  }

  /** Opening and closing the form match too. */
  lemma FormMatches(app: App.AppState, store: ActivityStore.StoreState, id: Option<string>)
    requires StatesMatch(app, store)
    ensures StatesMatch(App.HandleOpenForm(app, id), ActivityStore.OpenForm(store, id))
    ensures StatesMatch(App.HandleCloseForm(app), ActivityStore.CloseForm(store))
    ensures StatesMatch(App.HandleCancelSelectActivity(app), ActivityStore.CancelSelectedActivity(store))
  {
    if Truthy(id) {
      SelectMatches(app, store, id.value);
    }
  }

  /** A successful update: filter-then-append on the list matches
      insert-or-replace in the registry. */
  lemma UpdateMatches(app: App.AppState, store: ActivityStore.StoreState, a: Activity)
    requires StatesMatch(app, store)
    ensures StatesMatch(App.CompleteUpdate(App.BeginSubmit(app), a, Success),
                        ActivityStore.UpdateActivity(store, a, Success))
  {
    var rest := App.RemoveId(app.activities, a.id);
    RemoveIdFacts(app.activities, a.id);
    AppendFreshId(rest, a);
    var t := App.CompleteUpdate(App.BeginSubmit(app), a, Success);
    assert t.activities == rest + [a];
  }

  /** A successful corrected create with an id not yet in use matches the
      store's create. */
  lemma CreateFixedMatches(app: App.AppState, store: ActivityStore.StoreState, a: Activity, freshId: string)
    requires StatesMatch(app, store) && freshId !in store.registry.entries
    ensures StatesMatch(App.CompleteCreateFixed(App.BeginSubmit(app), a.(id := freshId), Success),
                        ActivityStore.CreateActivity(store, a, freshId, Success).0)
  {
    AppendFreshId(app.activities, a.(id := freshId));
  }

  /** The create as written does not match: the list gets `copyId` where
      the store (and the server) have `freshId`. */
  lemma CreateAsWrittenDiverges(app: App.AppState, store: ActivityStore.StoreState, a: Activity,
                                freshId: string, copyId: string)
    requires StatesMatch(app, store) && a.id == "" && freshId != copyId
    requires freshId !in store.registry.entries
    ensures !StatesMatch(App.HandleCreateOrEditActivity(app, a, freshId, copyId, Success).0,
                         ActivityStore.CreateActivity(store, a, freshId, Success).0)
  {
    var t := App.HandleCreateOrEditActivity(app, a, freshId, copyId, Success).0;
    AppendFreshIdsOnly(app.activities, a.(id := copyId));
    assert freshId !in Ids(t.activities);
  }

  /** A successful corrected delete matches the store's delete, selection
      included. */
  lemma DeleteFixedMatches(app: App.AppState, store: ActivityStore.StoreState, id: string)
    requires StatesMatch(app, store)
    ensures StatesMatch(App.CompleteDeleteFixed(App.BeginDelete(app), id, Success),
                        ActivityStore.DeleteActivity(store, id, Success))
  {
    RemoveIdFacts(app.activities, id);
  }

  /** On a rejected request the two versions agree on everything except the
      progress flag: the store lowers it, the component leaves it raised. */
  lemma FailureDivergesOnlyInFlag(app: App.AppState, store: ActivityStore.StoreState, a: Activity, id: string)
    requires StatesMatch(app, store) && a.id != ""
    ensures var t := App.HandleCreateOrEditActivity(app, a, "", "", Failure).0;
            var u := ActivityStore.UpdateActivity(store, a, Failure);
            StatesMatch(t.(submitting := false), u) && t.submitting && !u.creatingOrEditing
    ensures var t := App.HandleDeleteActivity(app, id, Failure);
            var u := ActivityStore.DeleteActivity(store, id, Failure);
            StatesMatch(t.(deleting := false), u) && t.deleting && !u.deleting
  {
  }
}
