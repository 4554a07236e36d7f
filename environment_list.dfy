/** controller/EnvironmentListManager.java: the list of stored environments shown beside the
    collections, the active environment, and the variables it contributes to a request. */
module EnvironmentList {
  import opened Wrappers
  import opened JavaText
  import opened Objects
  import opened Store
  import opened EnvironmentDao

  /** The name `createEnvironmentAndStartEditing` gives a new environment. */
  const DefaultNewEnvironmentName: string := "New Environment"

  /** Some info of the list carries the id. */
  predicate Lists(infos: seq<EnvironmentInfo>, id: int) {
    exists i :: 0 <= i < |infos| && infos[i].id == id
  }

  /** The index of the first info with the id, scanning from `i`. */
  function FirstWithIdFrom(infos: seq<EnvironmentInfo>, id: int, i: nat): (r: Option<nat>)
    requires i <= |infos|
    ensures r.Some? ==> i <= r.value < |infos| && infos[r.value].id == id
                        && forall j :: i <= j < r.value ==> infos[j].id != id
    ensures r.None? ==> forall j :: i <= j < |infos| ==> infos[j].id != id
    decreases |infos| - i
  {
    if i == |infos| then None
    else if infos[i].id == id then Some(i)
    else FirstWithIdFrom(infos, id, i + 1)
  }

  /** The index of the first info with the id, `None` when no info has it. */
  function FirstWithId(infos: seq<EnvironmentInfo>, id: int): (r: Option<nat>)
    ensures r.Some? ==> r.value < |infos| && infos[r.value].id == id && forall j :: 0 <= j < r.value ==> infos[j].id != id
    ensures r.None? <==> !Lists(infos, id)
  {
    FirstWithIdFrom(infos, id, 0)
  }

  /** `getActiveEnvironmentName`: the name of the first info with the active id; null with no
      active environment, a non-positive id or no such info (and for an info whose name is
      null). */
  function ActiveName(infos: seq<EnvironmentInfo>, active: Option<int>): (r: Option<string>)
    ensures (active.None? || active.value <= 0 || !Lists(infos, active.value)) ==> r.None?
    ensures active.Some? && active.value > 0 && Lists(infos, active.value) ==>
              exists i :: 0 <= i < |infos| && infos[i].id == active.value && infos[i].name == r
                          && forall j :: 0 <= j < i ==> infos[j].id != active.value
  {
    if active.None? || active.value <= 0 then None
    else
      var i := FirstWithId(infos, active.value);
      if i.Some? then infos[i.value].name else None
  }

  /** An entry `getActiveEnvironmentVariables` takes: non-null, a key that is not blank once
      trimmed, and not disabled (a null `enabled` counts as enabled). */
  predicate Contributes(v: Option<EnvironmentValue>) {
    v.Some? && v.value.key.Some? && Trim(v.value.key.value) != [] && v.value.enabled != Some(false)
  }

  /** The key an entry is stored under. */
  function VariableKey(v: EnvironmentValue): string
    requires v.key.Some?
  {
    Trim(v.key.value)
  }

  /** The value it is stored with: null becomes "". */
  function VariableValue(v: EnvironmentValue): string {
    if v.value.Some? then v.value.value else ""
  }

  /** The map the loop of `getActiveEnvironmentVariables` fills, entry by entry. */
  function VariablesOf(values: seq<Option<EnvironmentValue>>): (m: map<string, string>)
    ensures forall k :: k in m ==> k != [] && Trim(k) == k
    decreases |values|
  {
    if values == [] then map[]
    else
      var m := VariablesOf(values[..|values| - 1]);
      var v := values[|values| - 1];
      if Contributes(v) then
        TrimIdempotent(v.value.key.value);
        m[VariableKey(v.value) := VariableValue(v.value)]
      else m
  }

  /** `getActiveEnvironmentVariables` for the values the store holds for the active id: empty
      with no active environment or a non-positive id. */
  function ActiveVariables(active: Option<int>, values: seq<Option<EnvironmentValue>>): map<string, string> {
    if active.None? || active.value <= 0 then map[] else VariablesOf(values)
  }

  /** The entry contributes the key `k`. */
  predicate ContributesKey(v: Option<EnvironmentValue>, k: string) {
    Contributes(v) && Trim(v.value.key.value) == k
  }

  /** Some entry contributes the key `k`. */
  predicate HasKey(values: seq<Option<EnvironmentValue>>, k: string) {
    exists i :: 0 <= i < |values| && ContributesKey(values[i], k)
  }

  lemma {:induction false} HasKeySnoc(values: seq<Option<EnvironmentValue>>, k: string)
    requires values != []
    ensures HasKey(values, k) <==> HasKey(values[..|values| - 1], k) || ContributesKey(values[|values| - 1], k)
  {
    var init := values[..|values| - 1];
    assert values == init + [values[|values| - 1]];
    assert forall j :: 0 <= j < |init| ==> values[j] == init[j];
  }

  /** A key is in the map exactly when some contributing entry trims to it: null entries, null
      or blank keys and disabled entries add nothing. */
  lemma {:induction false} VariablesOfKeys(values: seq<Option<EnvironmentValue>>, k: string)
    ensures k in VariablesOf(values) <==> HasKey(values, k)
    decreases |values|
  {
    if values != [] {
      VariablesOfKeys(values[..|values| - 1], k);
      HasKeySnoc(values, k);
    }
  }

  /** The last contributing entry with a key decides its value: later entries overwrite
      earlier ones. */
  lemma {:induction false} VariablesOfLastWins(values: seq<Option<EnvironmentValue>>, i: nat)
    requires i < |values| && Contributes(values[i])
    requires forall j :: i < j < |values| && Contributes(values[j]) ==> VariableKey(values[j].value) != VariableKey(values[i].value)
    ensures VariableKey(values[i].value) in VariablesOf(values)
    ensures VariablesOf(values)[VariableKey(values[i].value)] == VariableValue(values[i].value)
    decreases |values|
  {
    var init := values[..|values| - 1];
    if i < |init| {
      forall j | i < j < |init| && Contributes(init[j])
        ensures VariableKey(init[j].value) != VariableKey(init[i].value)
      {
        assert init[j] == values[j];
      }
      assert init[i] == values[i];
      VariablesOfLastWins(init, i);
    }
  }

  lemma ListsSnoc(infos: seq<EnvironmentInfo>, i: nat, id: int)
    requires i < |infos|
    ensures Lists(infos[..i + 1], id) <==> Lists(infos[..i], id) || infos[i].id == id
  {
    if Lists(infos[..i], id) {
      var j :| 0 <= j < i && infos[..i][j].id == id;
      assert infos[..i + 1][j] == infos[j];
    }
    assert infos[..i + 1][i] == infos[i];
  }

  class EnvironmentListManager {
    /** The names shown in the list, index for index with `environmentInfos`. */
    var listModel: seq<Option<string>>
    var environmentInfos: seq<EnvironmentInfo>
    var activeEnvironmentId: Option<int>

    /** The list shows the name of the info at the same index. */
    predicate Valid()
      reads this
    {
      |listModel| == |environmentInfos| && forall i :: 0 <= i < |listModel| ==> listModel[i] == environmentInfos[i].name
    }

    constructor ()
      ensures Valid()
      ensures listModel == [] && environmentInfos == [] && activeEnvironmentId.None?
    {
      listModel := [];
      environmentInfos := [];
      activeEnvironmentId := None;
    }

    /** `loadAllEnvironments`: both lists rebuilt in the store's order; the active id is kept
        only when the reloaded list has it. */
    method LoadAllEnvironments(db: Db)
      modifies this
      ensures Valid()
      ensures environmentInfos == EnvironmentsListed(db)
      ensures activeEnvironmentId == if old(activeEnvironmentId).Some? && Lists(environmentInfos, old(activeEnvironmentId).value)
                                     then old(activeEnvironmentId) else None
    {
      var previousActiveEnvironmentId := activeEnvironmentId;
      var activeEnvironmentStillExists := false;
      listModel := [];
      environmentInfos := [];
      var infos := GetAllEnvironments(db);
      var i := 0;
      while i < |infos|
        invariant 0 <= i <= |infos|
        invariant activeEnvironmentId == previousActiveEnvironmentId
        invariant environmentInfos == infos[..i]
        invariant |listModel| == i && forall j :: 0 <= j < i ==> listModel[j] == infos[j].name
        invariant activeEnvironmentStillExists <==> previousActiveEnvironmentId.Some? && Lists(infos[..i], previousActiveEnvironmentId.value)
      {
        listModel := listModel + [infos[i].name];
        environmentInfos := environmentInfos + [infos[i]];
        if previousActiveEnvironmentId.Some? && infos[i].id == previousActiveEnvironmentId.value {
          activeEnvironmentStillExists := true;
        }
        if previousActiveEnvironmentId.Some? {
          ListsSnoc(infos, i, previousActiveEnvironmentId.value);
        }
        assert infos[..i + 1] == infos[..i] + [infos[i]];
        i := i + 1;
      }
      assert infos[..i] == infos;
      if !activeEnvironmentStillExists {
        activeEnvironmentId := None;
      }
    }

    /** `getEnvironmentInfoAt`: null for an index outside the list. */
    method GetEnvironmentInfoAt(index: int) returns (info: Option<EnvironmentInfo>)
      ensures info.Some? <==> 0 <= index < |environmentInfos|
      ensures info.Some? ==> info.value == environmentInfos[index]
    {
      if index < 0 || index >= |environmentInfos| {
        return None;
      }
      return Some(environmentInfos[index]);
    }

    /** `setActiveEnvironmentByIndex`: the id of the info at the index, cleared for an index
        outside the list. */
    method SetActiveEnvironmentByIndex(index: int)
      modifies this`activeEnvironmentId
      ensures activeEnvironmentId.Some? <==> 0 <= index < |environmentInfos|
      ensures activeEnvironmentId.Some? ==> activeEnvironmentId.value == environmentInfos[index].id
    {
      var info := GetEnvironmentInfoAt(index);
      activeEnvironmentId := if info.Some? then Some(info.value.id) else None;
    }

    /** The list part of `createEnvironmentAndStartEditing`, for the id the store's
        `createEnvironment` returned: a failure (id <= 0) changes nothing, otherwise the new
        environment is put first in both lists. */
    method CreateEnvironmentAndStartEditing(environmentId: int)
      requires Valid()
      modifies this`listModel, this`environmentInfos
      ensures Valid()
      ensures environmentId <= 0 ==> listModel == old(listModel) && environmentInfos == old(environmentInfos)
      ensures environmentId > 0 ==>
                environmentInfos == [EnvironmentInfo(environmentId, Some(DefaultNewEnvironmentName))] + old(environmentInfos)
                && listModel == [Some(DefaultNewEnvironmentName)] + old(listModel)
    {
      if environmentId <= 0 {
        return;
      }
      var newInfo := EnvironmentInfo(environmentId, Some(DefaultNewEnvironmentName));
      listModel := [Some(DefaultNewEnvironmentName)] + listModel;
      environmentInfos := [newInfo] + environmentInfos;
    }

    /** `getActiveEnvironmentId`: -1 stands for none. */
    method GetActiveEnvironmentId() returns (id: int)
      ensures activeEnvironmentId.Some? ==> id == activeEnvironmentId.value
      ensures activeEnvironmentId.None? ==> id == -1
    {
      id := if activeEnvironmentId.Some? then activeEnvironmentId.value else -1;
    }

    /** `getActiveEnvironmentName`: the scan for the first info with the active id. */
    method GetActiveEnvironmentName() returns (name: Option<string>)
      ensures name == ActiveName(environmentInfos, activeEnvironmentId)
    {
      if activeEnvironmentId.None? || activeEnvironmentId.value <= 0 {
        return None;
      }
      var id := activeEnvironmentId.value;
      var i := 0;
      while i < |environmentInfos|
        invariant 0 <= i <= |environmentInfos|
        invariant FirstWithId(environmentInfos, id) == FirstWithIdFrom(environmentInfos, id, i)
      {
        if environmentInfos[i].id == id {
          return environmentInfos[i].name;
        }
        i := i + 1;
      }
      return None;
    }

    /** `getActiveEnvironmentVariables`, for the values `getEnvironmentValues` returns for the
        active id: the filtering loop filling the map. */
    method GetActiveEnvironmentVariables(values: seq<Option<EnvironmentValue>>) returns (environmentVariables: map<string, string>)
      ensures environmentVariables == ActiveVariables(activeEnvironmentId, values)
    {
      if activeEnvironmentId.None? || activeEnvironmentId.value <= 0 {
        return map[];
      }
      environmentVariables := map[];
      var i := 0;
      while i < |values|
        invariant 0 <= i <= |values|
        invariant environmentVariables == VariablesOf(values[..i])
      {
        assert values[..i + 1][..i] == values[..i];
        var value := values[i];
        if value.None? || value.value.key.None? || Trim(value.value.key.value) == [] {
          i := i + 1;
          continue;
        }
        if value.value.enabled == Some(false) {
          i := i + 1;
          continue;
        }
        environmentVariables := environmentVariables[Trim(value.value.key.value) := VariableValue(value.value)];
        i := i + 1;
      }
      assert values[..i] == values;
    }

    /** `loadEnvironmentFile`, for the environment read from the chosen file (`None` when the
        file is missing or does not parse): the environment is saved under the file's name and,
        when the save succeeds, the list reloaded with the new environment first. */
    method LoadEnvironmentFile(conn: Connection, parsed: Option<PostmanEnvironment>, fileName: string)
      modifies this, conn
      ensures parsed.None? ==> conn.db == old(conn.db) && unchanged(this)
      ensures parsed.Some? ==> conn.db == EnvironmentSaved(old(conn.db), parsed.value, Some(fileName)).0
      ensures parsed.Some? && EnvironmentSaved(old(conn.db), parsed.value, Some(fileName)).1 > 0 ==>
                Valid() && environmentInfos == EnvironmentsListed(conn.db)
                && activeEnvironmentId == if old(activeEnvironmentId).Some? && Lists(environmentInfos, old(activeEnvironmentId).value)
                                          then old(activeEnvironmentId) else None
      ensures parsed.Some? && EnvironmentSaved(old(conn.db), parsed.value, Some(fileName)).1 <= 0 ==> unchanged(this)
      ensures parsed.Some? && Store.Valid(old(conn.db)) && EnvironmentSaved(old(conn.db), parsed.value, Some(fileName)).1 > 0 ==>
                environmentInfos != []
                && environmentInfos[0] == EnvironmentInfo(EnvironmentSaved(old(conn.db), parsed.value, Some(fileName)).1,
                                                          EnvironmentName(parsed.value, Some(fileName)))
    {
      if parsed.None? {
        return;
      }
      ghost var before := conn.db;
      var environmentId := SaveEnvironment(conn, parsed.value, Some(fileName));
      if environmentId > 0 {
        if Store.Valid(before) {
          SavedEnvironmentListedFirst(before, parsed.value, Some(fileName));
        }
        LoadAllEnvironments(conn.db);
      }
    }
  }

  /** Reloading keeps an active environment that is still stored and clears one that was
      deleted, whatever the order of the listing. */
  lemma ReloadKeepsStoredActive(db: Db, id: int)
    requires Store.Valid(db)
    ensures Lists(EnvironmentsListed(db), id) <==> id in db.environments.rows
  {
    EnvironmentsListedExact(db);
  }

  /** The active name read from a freshly loaded list is the stored name of the active row. */
  lemma ActiveNameOfListed(db: Db, id: int)
    requires Store.Valid(db) && id > 0 && id in db.environments.rows
    ensures ActiveName(EnvironmentsListed(db), Some(id)) == db.environments.rows[id].name
  {
    EnvironmentsListedExact(db);
  }

  /** A new environment put first by `createEnvironmentAndStartEditing` is found under its id,
      with the default name. */
  lemma CreatedEnvironmentNamed(infos: seq<EnvironmentInfo>, id: int)
    requires id > 0
    ensures ActiveName([EnvironmentInfo(id, Some(DefaultNewEnvironmentName))] + infos, Some(id)) == Some(DefaultNewEnvironmentName)
  {
    var l := [EnvironmentInfo(id, Some(DefaultNewEnvironmentName))] + infos;
    assert l[0].id == id;
  }
}
