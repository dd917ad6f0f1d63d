/** What the request compiler asks of the outside world. The schema store,
    the database, the uniqueness check, the `fill` projection, the password
    hash and the clock are not part of this model: each is a parameter. */
module Oracles {
  import opened Json
  import opened Naming
  import opened Dates

  /** A table's schema as get.schema returns it (the `fill` projection is
      the oracle `Env.fill`). */
  datatype Schema = Schema(
    fields: seq<string>,     // the columns a row may hold
    required: seq<string>,   // the columns a row must hold
    idFields: seq<string>,   // the columns that hold another table's id
    tables: seq<string>)     // the fields that hold nested child rows

  /** check.unique's answer: the table's unique fields and those of them
      that collide with a stored row. */
  datatype UniqueReport = UniqueReport(uniqueFields: seq<string>, unremarkableFields: seq<string>)

  /** A clock reading: the full year, the month index (0 to 11) and the day. */
  datatype Clock = Clock(year: nat, monthIndex: nat, day: nat)

  datatype Env = Env(
    schema: string -> Schema,                   // get.schema(table)
    rowFound: (string, string, Value) -> bool,  // get_one(table, {[column]: id}) is truthy
    unique: (string, Value) -> UniqueReport,    // check.unique(table, body)
    fill: (string, Value) -> Value,             // schema.fill(body) for the table's schema
    hash: Value -> string,                      // crypt.hashSync(password, 1)
    clock: Clock)                               // new Date() at the time of the request

  /** get_date() at the time of the request. */
  function Today(env: Env): string {
    GetDate(env.clock.year, env.clock.monthIndex, env.clock.day)
  }

  /** check_id(table, id): whether the table holds a row with that id, looked
      up by `<singular>_id` for a string id and by `id` otherwise. */
  predicate CheckId(env: Env, table: string, id: Value) {
    env.rowFound(table, CheckIdColumn(table, id), id)
  }

  /** The existence check an id field gets: check_id on the table the field
      names (lines 47-48 and 110-111 of prepare_req.js). */
  predicate IdExists(env: Env, field: string, id: Value) {
    CheckId(env, IdFieldTable(field), id)
  }
}
