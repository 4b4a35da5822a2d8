/**
 * The task table of `YouGetDB`, as a map from origin to row. `origin` is a
 * UNIQUE column, so at most one row per origin exists; a row whose origin is
 * NULL can never be found by an origin lookup and is not represented.
 */
module Store {
  import opened Results
  import opened Schema

  type Db = map<string, Row>

  datatype DbError =
    | IntegrityError   // a second row for an origin that already has one
    | SyntaxError      // an UPDATE with an empty SET list

  /** A single origin or a list of them, as `delete_task` accepts. */
  datatype Origins = One(origin: string) | Many(origins: seq<string>)

  function OriginList(os: Origins): (r: seq<string>)
    ensures os.One? ==> r == [os.origin]
    ensures os.Many? ==> r == os.origins
  {
    match os
    case One(o) => [o]
    case Many(l) => l
  }

  /** `get_task_values`: the row stored for `origin`; a `None` origin matches no row. */
  function GetTaskValues(db: Db, origin: Option<string>): (r: Option<Row>)
    ensures r.Some? <==> origin.Some? && origin.value in db
    ensures r.Some? ==> r.value == db[origin.value]
  {
    if origin.Some? && origin.value in db then Some(db[origin.value]) else None
  }

  /** `add_task`: inserts a row; a second row for the same origin violates UNIQUE. */
  function AddTask(db: Db, data: Row): (r: Result<Db, DbError>)
    ensures RowOrigin(data).Some? && RowOrigin(data).value in db <==> r == Err(IntegrityError)
    ensures r.Ok? && RowOrigin(data).Some? ==>
      r.value == db[RowOrigin(data).value := data] && RowOrigin(data).value !in db
    ensures r.Ok? && RowOrigin(data).None? ==> r.value == db
  {
    match RowOrigin(data)
    case None => Ok(db)
    case Some(o) => if o in db then Err(IntegrityError) else Ok(db[o := data])
  }

  /**
   * `set_task_values`: updates only the named columns of the row for `origin`.
   * The origin cell itself is bound to the lookup key, so naming it cannot
   * move the row; no row for `origin` means no change; no columns is an SQL error.
   */
  function SetTaskValues(db: Db, origin: string, data: Row): (r: Result<Db, DbError>)
    ensures r.Err? <==> data == map[]
    ensures r.Ok? ==> r.value.Keys == db.Keys
    ensures r.Ok? ==> forall k :: k in db && k != origin ==> r.value[k] == db[k]
    ensures r.Ok? && origin in db ==>
      && r.value[origin].Keys == db[origin].Keys + data.Keys
      && (forall c :: c in db[origin] && c !in data ==> r.value[origin][c] == db[origin][c])
      && (forall c :: c in data && c != OriginCol ==> r.value[origin][c] == data[c])
      && (OriginCol in data ==> r.value[origin][OriginCol] == Text(origin))
    ensures r.Ok? && origin !in db ==> r.value == db
  {
    if data == map[] then Err(SyntaxError)
    else if origin !in db then Ok(db)
    else
      var bound := if OriginCol in data then data[OriginCol := Text(origin)] else data;
      Ok(db[origin := db[origin] + bound])
  }

  /** `delete_task`: removes the row of each named origin; unknown origins are ignored. */
  function DeleteTask(db: Db, origins: Origins): (r: Db)
    ensures forall k :: k in r <==> k in db && k !in OriginList(origins)
    ensures forall k :: k in r ==> r[k] == db[k]
  {
    var gone := set o | o in OriginList(origins);
    db - gone
  }

  /** A row inserted under a fresh origin is what that origin then reads back; other origins read as before. */
  lemma AddThenGet(db: Db, data: Row, o: string)
    requires RowOrigin(data).Some? && AddTask(db, data).Ok?
    ensures GetTaskValues(AddTask(db, data).value, RowOrigin(data)) == Some(data)
    ensures Some(o) != RowOrigin(data) ==>
      GetTaskValues(AddTask(db, data).value, Some(o)) == GetTaskValues(db, Some(o))
  {
  }

  /** After a delete no named origin reads back a row, and every other origin reads what it read before. */
  lemma DeleteThenGet(db: Db, origins: Origins, o: string)
    ensures o in OriginList(origins) ==> GetTaskValues(DeleteTask(db, origins), Some(o)).None?
    ensures o !in OriginList(origins) ==>
      GetTaskValues(DeleteTask(db, origins), Some(o)) == GetTaskValues(db, Some(o))
  {
  }

  /** After an update the row reads back each written column, the origin cell staying bound to the row's key. */
  lemma SetThenGet(db: Db, origin: string, data: Row, c: Column)
    requires origin in db && c in data
    ensures var g := GetTaskValues(SetTaskValues(db, origin, data).value, Some(origin));
      g.Some? && c in g.value && g.value[c] == (if c == OriginCol then Text(origin) else data[c])
  {
  }
}
