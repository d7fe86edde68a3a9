/** The user and scenario tables and the data-model functions over them:
    registration with its duplicate check, the user lookups, and the scenario
    create / read / list / update / delete functions that store each
    scenario's definition as JSON text. */
module DataModels {
  import opened JsValues
  import opened Json
  import opened Tables

  // Users

  datatype UserColumns = UserColumns(firstName: string, lastName: string, username: string, email: string)

  type UserRow = Row<UserColumns>

  const UserExists: string := "Username or email already exists"

  /** No two users share a username, and no two share an email. */
  predicate DistinctAccounts(rows: seq<UserRow>)
  {
    forall i, j :: 0 <= i < j < |rows| ==>
      rows[i].cols.username != rows[j].cols.username && rows[i].cols.email != rows[j].cols.email
  }

  /** `SELECT id FROM users WHERE username = ? OR email = ?`. */
  function Clash(rows: seq<UserRow>, username: string, email: string): (r: Option<UserRow>)
    ensures r.Some? ==> r.value in rows && (r.value.cols.username == username || r.value.cols.email == email)
    ensures r.None? <==> forall i :: 0 <= i < |rows| ==> rows[i].cols.username != username && rows[i].cols.email != email
  {
    FirstWhere(rows, (row: UserRow) => row.cols.username == username || row.cols.email == email)
  }

  function GetUserById(rows: seq<UserRow>, id: int): (r: Option<UserRow>)
    requires Ascending(rows)
    ensures r.None? <==> forall i :: 0 <= i < |rows| ==> rows[i].id != id
    ensures forall i :: 0 <= i < |rows| && rows[i].id == id ==> r == Some(rows[i])
  {
    forall i | 0 <= i < |rows| && rows[i].id == id ensures Find(rows, id) == Some(rows[i]) {
      FindUnique(rows, i);
    }
    Find(rows, id)
  }

  /** getUserByUsername: the user registered under that username, if any. */
  function GetUserByUsername(rows: seq<UserRow>, username: string): (r: Option<UserRow>)
    requires DistinctAccounts(rows)
    ensures r.None? <==> forall i :: 0 <= i < |rows| ==> rows[i].cols.username != username
    ensures forall i :: 0 <= i < |rows| && rows[i].cols.username == username ==> r == Some(rows[i])
  {
    var r := FirstWhere(rows, (row: UserRow) => row.cols.username == username);
    assert r.Some? ==> exists j :: 0 <= j < |rows| && rows[j] == r.value;
    r
  }

  /** getUserByEmail: the user registered under that email, if any. */
  function GetUserByEmail(rows: seq<UserRow>, email: string): (r: Option<UserRow>)
    requires DistinctAccounts(rows)
    ensures r.None? <==> forall i :: 0 <= i < |rows| ==> rows[i].cols.email != email
    ensures forall i :: 0 <= i < |rows| && rows[i].cols.email == email ==> r == Some(rows[i])
  {
    var r := FirstWhere(rows, (row: UserRow) => row.cols.email == email);
    assert r.Some? ==> exists j :: 0 <= j < |rows| && rows[j] == r.value;
    r
  }

  /** A newly registered user is found by its id, its username and its
      email. */
  lemma RegisteredUserFound(rows: seq<UserRow>, cols: UserColumns)
    requires Ascending(rows) && DistinctAccounts(rows)
    requires Clash(rows, cols.username, cols.email).None?
    ensures DistinctAccounts(Insert(rows, cols))
    ensures GetUserById(Insert(rows, cols), NextRowId(rows)) == Some(Row(NextRowId(rows), cols))
    ensures GetUserByUsername(Insert(rows, cols), cols.username) == Some(Row(NextRowId(rows), cols))
    ensures GetUserByEmail(Insert(rows, cols), cols.email) == Some(Row(NextRowId(rows), cols))
  {
    var rows' := Insert(rows, cols);
    assert rows'[|rows|] == Row(NextRowId(rows), cols);
    forall i, j | 0 <= i < j < |rows'|
      ensures rows'[i].cols.username != rows'[j].cols.username && rows'[i].cols.email != rows'[j].cols.email
    {
      if j == |rows| {
        assert rows'[i] == rows[i];
        assert !(rows[i].cols.username == cols.username || rows[i].cols.email == cols.email);
      }
    }
  }

  // Scenarios

  datatype ScenarioColumns = ScenarioColumns(name: string, definition: Option<JsonText>)

  type ScenarioRow = Row<ScenarioColumns>

  /** A scenario as the readers return it, definition parsed. */
  datatype Scenario = Scenario(id: nat, name: string, definition: JsValue)

  function ScenarioOf(row: ScenarioRow): Scenario
  {
    Scenario(row.id, row.cols.name, ParseColumn(row.cols.definition))
  }

  /** getScenarioById: the scenario stored under the id with its definition
      parsed (a NULL definition stays null), or nothing when no row has that
      id. */
  function GetScenarioById(rows: seq<ScenarioRow>, id: int): (r: Option<Scenario>)
    requires Ascending(rows)
    ensures r.None? <==> forall i :: 0 <= i < |rows| ==> rows[i].id != id
    ensures forall i :: 0 <= i < |rows| && rows[i].id == id ==>
              r == Some(Scenario(id, rows[i].cols.name, ParseColumn(rows[i].cols.definition)))
  {
    var found := Find(rows, id);
    forall i | 0 <= i < |rows| && rows[i].id == id ensures found == Some(rows[i]) {
      FindUnique(rows, i);
    }
    if found.Some? then Some(ScenarioOf(found.value)) else None
  }

  /** getAllScenarios: one scenario per row, in increasing id order, each
      with its definition parsed and a NULL definition left null. */
  function GetAllScenarios(rows: seq<ScenarioRow>): (r: seq<Scenario>)
    requires Ascending(rows)
    ensures |r| == |rows|
    ensures forall i, j :: 0 <= i < j < |r| ==> r[i].id < r[j].id
    ensures forall i :: 0 <= i < |r| ==>
              r[i].id == rows[i].id && r[i].name == rows[i].cols.name
              && r[i].definition == ParseColumn(rows[i].cols.definition)
  {
    seq(|rows|, i requires 0 <= i < |rows| => ScenarioOf(rows[i]))
  }

  /** The listing and the lookup agree: each listed scenario is what
      getScenarioById returns for its id, and every id that can be looked up
      is listed. */
  lemma ListingMatchesLookup(rows: seq<ScenarioRow>, id: int)
    requires Ascending(rows)
    ensures forall i :: 0 <= i < |rows| ==>
              GetScenarioById(rows, GetAllScenarios(rows)[i].id) == Some(GetAllScenarios(rows)[i])
    ensures GetScenarioById(rows, id).Some? ==> GetScenarioById(rows, id).value in GetAllScenarios(rows)
  {
    var all := GetAllScenarios(rows);
    if GetScenarioById(rows, id).Some? {
      var i :| 0 <= i < |rows| && rows[i].id == id;
      assert all[i] == GetScenarioById(rows, id).value;
    }
  }

  /** The definition a reader gets back after createScenario or
      updateScenario stored `definition`. */
  function StoredDefinition(definition: JsValue): JsValue
  {
    ParseColumn(Encode(definition))
  }

  /** Round trip: once createScenario has stored (name, definition) under
      the id it returned, getScenarioById gives back that name and
      definition, exactly when the definition is plain JSON data; other
      scenarios read as before. */
  lemma CreateThenGet(rows: seq<ScenarioRow>, name: string, definition: JsValue, id: int)
    requires Ascending(rows)
    ensures GetScenarioById(Insert(rows, ScenarioColumns(name, Encode(definition))), NextRowId(rows))
              == Some(Scenario(NextRowId(rows), name, StoredDefinition(definition)))
    ensures IsJson(definition) ==> StoredDefinition(definition) == definition
    ensures id != NextRowId(rows) ==>
              GetScenarioById(Insert(rows, ScenarioColumns(name, Encode(definition))), id)
              == GetScenarioById(rows, id)
  {
    ColumnRoundTrip(definition);
    var row := Row(NextRowId(rows), ScenarioColumns(name, Encode(definition)));
    assert Insert(rows, ScenarioColumns(name, Encode(definition))) == rows + [row];
    if id != NextRowId(rows) {
      FindOtherAfterInsert(rows, row, id);
    }
  }

  /** After updateScenario, the updated id reads back with the new name and
      definition when it existed; every other lookup is unchanged. */
  lemma UpdateThenGet(rows: seq<ScenarioRow>, k: int, name: string, definition: JsValue, id: int)
    requires Ascending(rows)
    ensures Ascending(Replace(rows, k, ScenarioColumns(name, Encode(definition))))
    ensures GetScenarioById(Replace(rows, k, ScenarioColumns(name, Encode(definition))), id) ==
              if id == k && Find(rows, k).Some? then Some(Scenario(k, name, StoredDefinition(definition)))
              else GetScenarioById(rows, id)
  {
    var cols := ScenarioColumns(name, Encode(definition));
    ReplaceAscending(rows, k, cols);
    FindReplace(rows, k, cols, id);
  }

  /** After deleteScenario the id is no longer found and every other lookup
      is unchanged. */
  lemma DeleteThenGet(rows: seq<ScenarioRow>, k: int, id: int)
    requires Ascending(rows)
    ensures Ascending(Without(rows, k))
    ensures GetScenarioById(Without(rows, k), id) ==
              if id == k then None else GetScenarioById(rows, id)
  {
    WithoutAscending(rows, k);
    FindWithout(rows, k, id);
  }

  /** The users table, in rowid order, without duplicate usernames or emails. */
  class UserTable {
    var rows: seq<UserRow>

    ghost predicate Valid()
      reads this
    {
      Ascending(rows) && DistinctAccounts(rows)
    }

    constructor ()
      ensures Valid() && rows == []
    {
      rows := [];
    }

    /** registerUser: refused, with nothing inserted, when some user already
        has the username or the email; otherwise one row is appended and its
        new id returned. */
    method RegisterUser(firstName: string, lastName: string, username: string, email: string)
      returns (r: Outcome<nat>)
      requires Valid()
      modifies this
      ensures Valid()
      ensures r.Threw? <==>
                exists i :: 0 <= i < |old(rows)| &&
                  (old(rows)[i].cols.username == username || old(rows)[i].cols.email == email)
      ensures r.Threw? ==> r.message == UserExists && rows == old(rows)
      ensures r.Returned? ==>
                r.value == NextRowId(old(rows))
                && rows == old(rows) + [Row(r.value, UserColumns(firstName, lastName, username, email))]
    {
      var existing := Clash(rows, username, email);
      if existing.Some? {
        return Threw(UserExists);
      }
      var cols := UserColumns(firstName, lastName, username, email);
      RegisteredUserFound(rows, cols);
      var id := NextRowId(rows);
      rows := Insert(rows, cols);
      r := Returned(id);
    }
  }

  /** The scenarios table, in rowid order. */
  class ScenarioTable {
    var rows: seq<ScenarioRow>

    ghost predicate Valid()
      reads this
    {
      Ascending(rows)
    }

    constructor ()
      ensures Valid() && rows == []
    {
      rows := [];
    }

    /** createScenario: appends one row holding the name and the definition's
        JSON text (NULL for an undefined definition) and returns its id. */
    method CreateScenario(name: string, definition: JsValue) returns (id: nat)
      requires Valid()
      modifies this
      ensures Valid()
      ensures id == NextRowId(old(rows))
      ensures rows == old(rows) + [Row(id, ScenarioColumns(name, Encode(definition)))]
    {
      id := NextRowId(rows);
      rows := Insert(rows, ScenarioColumns(name, Encode(definition)));
    }

    /** updateScenario: true exactly when a row has the id; that row alone
        takes the new name and definition, and nothing changes otherwise. */
    method UpdateScenario(id: int, name: string, definition: JsValue) returns (changed: bool)
      requires Valid()
      modifies this
      ensures Valid()
      ensures changed <==> exists i :: 0 <= i < |old(rows)| && old(rows)[i].id == id
      ensures rows == Replace(old(rows), id, ScenarioColumns(name, Encode(definition)))
      ensures !changed ==> rows == old(rows)
    {
      changed := Find(rows, id).Some?;
      ReplaceAscending(rows, id, ScenarioColumns(name, Encode(definition)));
      rows := Replace(rows, id, ScenarioColumns(name, Encode(definition)));
    }

    /** deleteScenario: true exactly when a row had the id; that row is
        removed and the others are kept, in order. */
    method DeleteScenario(id: int) returns (removed: bool)
      requires Valid()
      modifies this
      ensures Valid()
      ensures removed <==> exists i :: 0 <= i < |old(rows)| && old(rows)[i].id == id
      ensures rows == Without(old(rows), id)
      ensures |rows| == if removed then |old(rows)| - 1 else |old(rows)|
    {
      removed := Find(rows, id).Some?;
      WithoutAscending(rows, id);
      WithoutSize(rows, id);
      rows := Without(rows, id);
    }
  }
}
