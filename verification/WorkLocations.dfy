/** Making a branch scope's work locations equal to a request. */
module WorkLocations {
  import opened Common
  import Text

  /** Rows are unique by name across the organization; `branch` is the scope, none for the whole organization. */
  datatype Location = Location(branch: Option<nat>, latitude: real, longitude: real, radius: real, active: bool)

  type Table = map<string, Location>

  datatype Requested = Requested(name: string, latitude: real, longitude: real, radius: real)

  function NameOf(r: Requested): string { Text.Trim(r.name) }

  function NamesOf(requested: seq<Requested>): set<string> { set i | 0 <= i < |requested| :: NameOf(requested[i]) }

  predicate InvalidPlace(r: Requested) {
    r.latitude < -90.0 || r.latitude > 90.0 || r.longitude < -180.0 || r.longitude > 180.0 || r.radius <= 0.0
  }

  function RowFor(r: Requested, branch: Option<nat>): Location {
    Location(branch, r.latitude, r.longitude, r.radius, true)
  }

  /** Why one location is refused, given the names before it. */
  function LocationRefusal(table: Table, branch: Option<nat>, seen: set<string>, r: Requested): Option<Refusal> {
    if NameOf(r) == [] || NameOf(r) in seen then Some(Conflict(LocationNamesRepeat))
    else if InvalidPlace(r) then Some(Conflict(LocationInvalid))
    else if NameOf(r) in table && table[NameOf(r)].branch != branch then Some(Conflict(LocationOfAnotherScope))
    else None
  }

  /** The first refusal among the locations in request order. */
  function FirstRefusal(table: Table, branch: Option<nat>, requested: seq<Requested>): Option<Refusal> {
    if requested == [] then None
    else
      var front := requested[..|requested| - 1];
      var earlier := FirstRefusal(table, branch, front);
      if earlier.Some? then earlier else LocationRefusal(table, branch, NamesOf(front), requested[|requested| - 1])
  }

  function Upserted(table: Table, branch: Option<nat>, requested: seq<Requested>): Table {
    if requested == [] then table
    else
      var last := requested[|requested| - 1];
      Upserted(table, branch, requested[..|requested| - 1])[NameOf(last) := RowFor(last, branch)]
  }

  function Deactivated(table: Table, branch: Option<nat>, keep: set<string>): Table {
    map name | name in table ::
      if table[name].branch == branch && name !in keep then table[name].(active := false) else table[name]
  }

  function Synced(table: Table, branch: Option<nat>, requested: seq<Requested>): Table {
    Deactivated(Upserted(table, branch, requested), branch, NamesOf(requested))
  }

  class WorkLocationTable {
    var rows: Table

    constructor ()
      ensures rows == map[]
    {
      rows := map[];
    }

    /** A request without locations leaves them alone; a refusal undoes what was written before it. */
    method SyncWorkLocations(branch: Option<nat>, locations: Option<seq<Requested>>) returns (refusal: Option<Refusal>)
      modifies this
      ensures locations.None? ==> refusal == None && rows == old(rows)
      ensures locations.Some? ==> refusal == FirstRefusal(old(rows), branch, locations.value)
      ensures locations.Some? && refusal.None? ==> rows == Synced(old(rows), branch, locations.value)
      ensures refusal.Some? ==> rows == old(rows)
    {
      if locations.None? {
        return None;
      }
      var requested, saved := locations.value, rows;
      var names: set<string> := {};
      for i := 0 to |requested|
        invariant names == NamesOf(requested[..i])
        invariant rows == Upserted(saved, branch, requested[..i])
        invariant FirstRefusal(saved, branch, requested[..i]) == None
        invariant saved == old(rows)
      {
        var location := requested[i];
        var name := NameOf(location);
        OneMoreLocation(saved, branch, requested, i);
        hide Upserted, FirstRefusal, NamesOf, NameOf, InvalidPlace;
        if name == [] || name in names {
          refusal := Some(Conflict(LocationNamesRepeat));
        } else if InvalidPlace(location) {
          refusal := Some(Conflict(LocationInvalid));
        } else if name in rows && rows[name].branch != branch {
          refusal := Some(Conflict(LocationOfAnotherScope));
        } else {
          refusal := None;
        }
        if refusal.Some? {
          RefusalStands(saved, branch, requested, i);
          rows := saved;
          return;
        }
        names := names + {name};
        rows := rows[name := RowFor(location, branch)];
      }
      assert requested[..|requested|] == requested;
      rows := Deactivated(rows, branch, names);
      refusal := None;
    }
  }

  lemma NamesGrow(requested: seq<Requested>, i: nat)
    requires i < |requested|
    ensures NamesOf(requested[..i + 1]) == NamesOf(requested[..i]) + {NameOf(requested[i])}
  {
  }

  /** What the loop finds at one location, given that nothing before it was refused. */
  lemma OneMoreLocation(table: Table, branch: Option<nat>, requested: seq<Requested>, i: nat)
    requires i < |requested| && FirstRefusal(table, branch, requested[..i]) == None
    ensures NamesOf(requested[..i + 1]) == NamesOf(requested[..i]) + {NameOf(requested[i])}
    ensures Upserted(table, branch, requested[..i + 1])
         == Upserted(table, branch, requested[..i])[NameOf(requested[i]) := RowFor(requested[i], branch)]
    ensures FirstRefusal(table, branch, requested[..i + 1])
         == LocationRefusal(Upserted(table, branch, requested[..i]), branch, NamesOf(requested[..i]), requested[i])
  {
    assert requested[..i + 1][..i] == requested[..i] && requested[..i + 1][i] == requested[i];
    NamesGrow(requested, i);
    hide NamesOf, NameOf, InvalidPlace, RowFor;
    SameRefusal(table, branch, requested, i);
    hide LocationRefusal;
  }

  /** Looking at the rows as they were or as the loop has left them gives the same refusal. */
  lemma SameRefusal(table: Table, branch: Option<nat>, requested: seq<Requested>, i: nat)
    requires i < |requested|
    ensures LocationRefusal(table, branch, NamesOf(requested[..i]), requested[i])
         == LocationRefusal(Upserted(table, branch, requested[..i]), branch, NamesOf(requested[..i]), requested[i])
  {
    UpsertedKeepsOthers(table, branch, requested[..i]);
    hide NamesOf, NameOf, InvalidPlace, Upserted;
  }

  /** Once some prefix is refused, the whole request is, for the same reason. */
  lemma {:induction false} RefusalStands(table: Table, branch: Option<nat>, requested: seq<Requested>, i: nat)
    requires i < |requested| && FirstRefusal(table, branch, requested[..i + 1]).Some?
    ensures FirstRefusal(table, branch, requested) == FirstRefusal(table, branch, requested[..i + 1])
    decreases |requested| - i
  {
    if i + 1 < |requested| {
      assert requested[..i + 2][..i + 1] == requested[..i + 1];
      RefusalStands(table, branch, requested, i + 1);
    } else {
      assert requested[..i + 1] == requested;
    }
  }

  lemma {:induction false} UpsertedKeepsOthers(table: Table, branch: Option<nat>, requested: seq<Requested>)
    ensures Upserted(table, branch, requested).Keys == table.Keys + NamesOf(requested)
    ensures forall name :: name in table && name !in NamesOf(requested) ==>
              Upserted(table, branch, requested)[name] == table[name]
  {
    if requested != [] {
      var n := |requested| - 1;
      UpsertedKeepsOthers(table, branch, requested[..n]);
      NamesGrow(requested, n);
      assert requested[..n + 1] == requested;
    } else {
      assert NamesOf(requested) == {};
    }
  }

  // ---- What a sync does ----

  /** Names are there and differ, places are valid, and no name belongs to another scope. */
  ghost predicate Acceptable(table: Table, branch: Option<nat>, requested: seq<Requested>) {
    && (forall i :: 0 <= i < |requested| ==> NameOf(requested[i]) != [] && !InvalidPlace(requested[i]))
    && (forall i, j :: 0 <= i < j < |requested| ==> NameOf(requested[i]) != NameOf(requested[j]))
    && (forall i :: 0 <= i < |requested| && NameOf(requested[i]) in table ==>
          table[NameOf(requested[i])].branch == branch)
  }

  /** A longer request is acceptable exactly when the shorter one is and nothing speaks against the last location. */
  lemma OneMoreAcceptable(table: Table, branch: Option<nat>, requested: seq<Requested>)
    requires requested != []
    ensures var n := |requested| - 1;
            Acceptable(table, branch, requested) <==>
              Acceptable(table, branch, requested[..n])
              && LocationRefusal(table, branch, NamesOf(requested[..n]), requested[n]) == None
  {
  }

  lemma {:induction false} AcceptedExactly(table: Table, branch: Option<nat>, requested: seq<Requested>)
    ensures FirstRefusal(table, branch, requested) == None <==> Acceptable(table, branch, requested)
  {
    if requested != [] {
      AcceptedExactly(table, branch, requested[..|requested| - 1]);
      OneMoreAcceptable(table, branch, requested);
      hide Acceptable, LocationRefusal, NamesOf;
    }
  }

  lemma {:induction false} UpsertedHolds(table: Table, branch: Option<nat>, requested: seq<Requested>, i: nat)
    requires Acceptable(table, branch, requested) && i < |requested|
    ensures NameOf(requested[i]) in Upserted(table, branch, requested)
    ensures Upserted(table, branch, requested)[NameOf(requested[i])] == RowFor(requested[i], branch)
  {
    var n := |requested| - 1;
    if i < n {
      assert Acceptable(table, branch, requested[..n]);
      UpsertedHolds(table, branch, requested[..n], i);
      assert NameOf(requested[i]) != NameOf(requested[n]);
    }
  }

  /** After a sync the scope's active locations are exactly those asked for, where they were asked for. */
  lemma ActiveAreRequested(table: Table, branch: Option<nat>, requested: seq<Requested>, name: string)
    requires FirstRefusal(table, branch, requested) == None
    ensures var synced := Synced(table, branch, requested);
            && (name in synced && synced[name].branch == branch && synced[name].active <==> name in NamesOf(requested))
            && forall i :: 0 <= i < |requested| && NameOf(requested[i]) == name ==>
                 name in synced && synced[name] == RowFor(requested[i], branch)
  {
    AcceptedExactly(table, branch, requested);
    UpsertedKeepsOthers(table, branch, requested);
    forall i | 0 <= i < |requested| && NameOf(requested[i]) == name
      ensures name in Synced(table, branch, requested)
              && Synced(table, branch, requested)[name] == RowFor(requested[i], branch)
    {
      UpsertedHolds(table, branch, requested, i);
      assert name in NamesOf(requested);
    }
  }

  /** Every other scope is as it was, and no row is ever deleted or moved between scopes. */
  lemma OtherScopesUnchanged(table: Table, branch: Option<nat>, requested: seq<Requested>)
    requires FirstRefusal(table, branch, requested) == None
    ensures var synced := Synced(table, branch, requested);
            && (forall name :: name in table ==> name in synced && synced[name].branch == table[name].branch)
            && (forall name :: name in table && table[name].branch != branch ==> synced[name] == table[name])
            && (forall name :: name in synced && name !in table ==> synced[name].branch == branch)
  {
    AcceptedExactly(table, branch, requested);
    UpsertedKeepsOthers(table, branch, requested);
    forall i | 0 <= i < |requested|
      ensures NameOf(requested[i]) in Upserted(table, branch, requested)
      ensures Upserted(table, branch, requested)[NameOf(requested[i])] == RowFor(requested[i], branch)
    {
      UpsertedHolds(table, branch, requested, i);
    }
  }

  /** Upserting rows that are already there as asked changes nothing. */
  lemma {:induction false} UpsertAgain(table: Table, branch: Option<nat>, requested: seq<Requested>)
    requires forall i :: 0 <= i < |requested| ==>
               NameOf(requested[i]) in table && table[NameOf(requested[i])] == RowFor(requested[i], branch)
    ensures Upserted(table, branch, requested) == table
  {
    if requested != [] {
      var n := |requested| - 1;
      assert forall i :: 0 <= i < n ==> requested[..n][i] == requested[i];
      UpsertAgain(table, branch, requested[..n]);
    }
  }

  lemma DeactivateAgain(table: Table, branch: Option<nat>, keep: set<string>)
    ensures Deactivated(Deactivated(table, branch, keep), branch, keep) == Deactivated(table, branch, keep)
  {
  }

  /** Sending the same request again is accepted and changes nothing. */
  lemma SyncTwice(table: Table, branch: Option<nat>, requested: seq<Requested>)
    requires FirstRefusal(table, branch, requested) == None
    ensures var once := Synced(table, branch, requested);
            FirstRefusal(once, branch, requested) == None && Synced(once, branch, requested) == once
  {
    var once := Synced(table, branch, requested);
    AcceptedExactly(table, branch, requested);
    forall i | 0 <= i < |requested|
      ensures NameOf(requested[i]) in once && once[NameOf(requested[i])] == RowFor(requested[i], branch)
    {
      ActiveAreRequested(table, branch, requested, NameOf(requested[i]));
    }
    AcceptedExactly(once, branch, requested);
    UpsertAgain(once, branch, requested);
    DeactivateAgain(Upserted(table, branch, requested), branch, NamesOf(requested));
    hide Deactivated, Upserted, NamesOf, NameOf, InvalidPlace;
  }

  // ---- What may be asked for ----

  /** A place lies on the globe and has some extent. */
  lemma PlacesOnTheGlobe(r: Requested)
    ensures !InvalidPlace(r) <==>
              -90.0 <= r.latitude <= 90.0 && -180.0 <= r.longitude <= 180.0 && 0.0 < r.radius
  {
  }

  /** What a place is stored as: under its trimmed name, in this scope, as asked, and active. */
  lemma StoredAsAsked(table: Table, branch: Option<nat>, requested: seq<Requested>, i: nat)
    requires FirstRefusal(table, branch, requested) == None && i < |requested|
    ensures var synced, r := Synced(table, branch, requested), requested[i];
            && Text.Trim(r.name) in synced
            && synced[Text.Trim(r.name)] == Location(branch, r.latitude, r.longitude, r.radius, true)
  {
    ActiveAreRequested(table, branch, requested, NameOf(requested[i]));
    hide Synced;
  }

  /** Why a request is refused: the first location that is at fault, and what its fault is. */
  lemma {:induction false} RefusedFor(table: Table, branch: Option<nat>, requested: seq<Requested>) returns (i: nat)
    requires FirstRefusal(table, branch, requested).Some?
    ensures i < |requested| && Acceptable(table, branch, requested[..i])
    ensures var r, name := requested[i], Text.Trim(requested[i].name);
            FirstRefusal(table, branch, requested) == Some(Conflict(
              if name == [] || (exists j :: 0 <= j < i && Text.Trim(requested[j].name) == name) then LocationNamesRepeat
              else if InvalidPlace(r) then LocationInvalid
              else LocationOfAnotherScope))
  {
    var n := |requested| - 1;
    if FirstRefusal(table, branch, requested[..n]).Some? {
      i := RefusedFor(table, branch, requested[..n]);
      assert requested[..n][..i] == requested[..i];
    } else {
      i := n;
      AcceptedExactly(table, branch, requested[..n]);
      assert NameOf(requested[n]) in NamesOf(requested[..n]) <==>
               exists j :: 0 <= j < n && Text.Trim(requested[j].name) == NameOf(requested[n]) by {
        forall j | 0 <= j < n ensures requested[..n][j] == requested[j] {}
      }
      hide InvalidPlace, Acceptable;
    }
  }
}
