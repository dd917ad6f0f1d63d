/** The naming conventions that tie tables to their id columns: a table is
    a plural (`orders`), its id column the singular plus `_id` (`order_id`). */
module Naming {
  import opened Json

  /** Slicing off the last n characters, for n >= 1: `s` without its last
      `n` characters, and the empty string when `s` is shorter than that. */
  function DropLast(s: string, n: nat): (r: string)
    requires 1 <= n
    ensures |s| >= n ==> |r| == |s| - n
    ensures |s| < n ==> r == ""
    ensures r == s[..|r|]
  {
    if |s| >= n then s[..|s| - n] else ""
  }

  /** The id column of a parent table, exempt from the required-field check
      (line 41 of prepare_req.js). */
  function ParentIdField(parentTable: string): string {
    DropLast(parentTable, 1) + "_id"
  }

  /** The table an id field refers to (lines 47 and 110). */
  function IdFieldTable(field: string): string {
    DropLast(field, 3) + "s"
  }

  /** check_id's column: `<singular>_id` for a string id, `id` otherwise. */
  function CheckIdColumn(table: string, id: Value): (column: string)
    ensures id.Str? ==> |column| == |DropLast(table, 1)| + 3
    ensures !id.Str? ==> column == "id"
  {
    if id.Str? then DropLast(table, 1) + "_id" else "id"
  }

  predicate EndsWith(s: string, suffix: string) {
    |suffix| <= |s| && s[|s| - |suffix|..] == suffix
  }

  /** A plural table name survives the round trip through its id column:
      the id field of `orders` is `order_id`, whose table is `orders`. */
  lemma TableIdRoundTrip(table: string)
    requires EndsWith(table, "s")
    ensures EndsWith(ParentIdField(table), "_id")
    ensures IdFieldTable(ParentIdField(table)) == table
  {
    var p := ParentIdField(table);
    assert p[..|p| - 3] == DropLast(table, 1);
    assert table == DropLast(table, 1) + "s";
  }

  /** An id field survives the round trip through its table: `order_id`
      refers to `orders`, whose id column is `order_id`. */
  lemma IdFieldRoundTrip(field: string)
    requires EndsWith(field, "_id")
    ensures EndsWith(IdFieldTable(field), "s")
    ensures ParentIdField(IdFieldTable(field)) == field
  {
    var t := IdFieldTable(field);
    assert t[..|t| - 1] == DropLast(field, 3);
    assert field == DropLast(field, 3) + "_id";
  }

  /** check_id looks a string id up in the very column the id field names,
      and any other id in column `id`. */
  lemma CheckIdColumnOfIdField(field: string, id: Value)
    requires EndsWith(field, "_id")
    ensures CheckIdColumn(IdFieldTable(field), id) == if id.Str? then field else "id"
  {
    IdFieldRoundTrip(field);
  }
}
