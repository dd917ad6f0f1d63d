/** check_object and fill_child: validating one node of the request body.
    The node's body is pruned of id fields that name no stored row, filled
    from its parent, checked for required fields (C0002) and uniqueness
    (C0003), and on success has its password hashed and its date defaulted.
    Each step is a method that changes the body in place; the functions
    beside them say, on values, what the body becomes. */
module Checks {
  import opened Json
  import opened Naming
  import opened Oracles
  import opened Bodies
  import opened Wrappers

  /** A node of the walk as its children see it: its table and its body. */
  datatype Node = Node(table: string, body: Body)

  datatype ValidationError =
    | MissingRequired(table: string, requiredFields: seq<string>, missingFields: seq<string>)
    | NotUnique(table: string, uniqueFields: seq<string>, unremarkableFields: seq<string>)
  {
    /** The error code the client sees. */
    function Code(): string {
      if MissingRequired? then "C0002" else "C0003"
    }
  }

  /** A validated row: its table and the schema's projection of the body. */
  datatype Record = Record(table: string, body: Value)

  /** What check_object returns: an error object or a validated row. */
  datatype CheckResult = Invalid(err: ValidationError) | Checked(record: Record)

  /* ---------- fill_child ---------- */

  /** fill_child on values: each schema field in turn takes the parent's
      value when the child's is falsy and the parent's truthy. */
  function Inherit(fields: seq<string>, child: Dict, parent: Dict): (r: Dict)
    ensures child.keys <= r.keys
    ensures child.Valid() && EntriesWellFormed(child) && EntriesWellFormed(parent)
      ==> r.Valid() && EntriesWellFormed(r)
    decreases |fields|
  {
    if fields == [] then child
    else
      var c := Inherit(fields[..|fields| - 1], child, parent);
      var f := fields[|fields| - 1];
      if !Truthy(c.Get(f)) && Truthy(parent.Get(f)) then c.Set(f, parent.Get(f)) else c
  }

  /** fill_child writes exactly the schema fields whose child value is falsy
      and whose parent value is truthy, copying the parent's value; every
      other key keeps its value and its presence. */
  lemma {:induction false} InheritAt(fields: seq<string>, child: Dict, parent: Dict, k: string)
    ensures Inherit(fields, child, parent).Get(k)
      == if k in fields && !Truthy(child.Get(k)) && Truthy(parent.Get(k)) then parent.Get(k) else child.Get(k)
    ensures k in Inherit(fields, child, parent).vals
      <==> k in child.vals || (k in fields && Truthy(parent.Get(k)))
    decreases |fields|
  {
    if fields != [] {
      var init := fields[..|fields| - 1];
      InheritAt(init, child, parent, k);
      assert k in fields <==> k in init || k == fields[|fields| - 1];
    }
  }

  /** At the root the parent body is the child body itself, and fill_child
      changes nothing. */
  lemma {:induction false} InheritSelf(fields: seq<string>, d: Dict)
    ensures Inherit(fields, d, d) == d
    decreases |fields|
  {
    if fields != [] {
      InheritSelf(fields[..|fields| - 1], d);
    }
  }

  /** fill_child(parent, {body: child, schema}) */
  method FillChild(parent: Node, child: Body, schema: Schema)
    requires child.Valid() && parent.body.Valid()
    modifies child
    ensures child.Valid()
    ensures child.Snapshot() == Inherit(schema.fields, old(child.Snapshot()), old(parent.body.Snapshot()))
  {
    ghost var c0, p0 := child.Snapshot(), parent.body.Snapshot();
    for i := 0 to |schema.fields|
      invariant child.Valid()
      invariant child.Snapshot() == Inherit(schema.fields[..i], c0, p0)
      invariant parent.body != child ==> parent.body.Snapshot() == p0
      invariant parent.body == child ==> child.Snapshot() == c0
    {
      var field := schema.fields[i];
      assert schema.fields[..i + 1][..i] == schema.fields[..i];
      if !Truthy(child.Get(field)) && Truthy(parent.body.Get(field)) {
        child.Set(field, parent.body.Get(field));
      }
    }
    assert schema.fields[..|schema.fields|] == schema.fields;
  }

  /* ---------- check_object ---------- */

  /** The listed fields the body holds as own keys, in list order. */
  function KeepPresent(fs: seq<string>, d: Dict): (r: seq<string>)
    ensures forall f :: f in r <==> f in fs && f in d.vals
    ensures |r| <= |fs|
  {
    if fs == [] then []
    else if fs[0] in d.vals then [fs[0]] + KeepPresent(fs[1..], d)
    else KeepPresent(fs[1..], d)
  }

  /** The listed fields the body does not hold as own keys, in list order. */
  function KeepAbsent(fs: seq<string>, d: Dict): (r: seq<string>)
    ensures forall f :: f in r <==> f in fs && f !in d.vals
    ensures |r| <= |fs|
  {
    if fs == [] then []
    else if fs[0] !in d.vals then [fs[0]] + KeepAbsent(fs[1..], d)
    else KeepAbsent(fs[1..], d)
  }

  /** `missing_fields`: the required fields other than the parent's id
      field that the body does not hold as own keys (presence, not
      truthiness). */
  function Missing(required: seq<string>, parentIdField: string, d: Dict): (r: seq<string>)
    ensures forall f :: f in r <==> f in required && f != parentIdField && f !in d.vals
  {
    KeepAbsent(Without(required, parentIdField), d)
  }

  /** The id check loop of check_object on values: each listed id field in
      turn is checked against its current value and deleted when no row
      has that id. */
  function PruneIds(env: Env, ids: seq<string>, d: Dict): (r: Dict)
    ensures d.Valid() && EntriesWellFormed(d) ==> r.Valid() && EntriesWellFormed(r)
    decreases |ids|
  {
    if ids == [] then d
    else
      var p := PruneIds(env, ids[..|ids| - 1], d);
      var f := ids[|ids| - 1];
      if IdExists(env, f, p.Get(f)) then p else p.Delete(f)
  }

  /** A listed id field survives exactly when its entry value passes the
      existence check, and a surviving key keeps its value. */
  lemma {:induction false} PruneIdsAt(env: Env, ids: seq<string>, d: Dict, k: string)
    ensures k in PruneIds(env, ids, d).vals <==> k in d.vals && (k in ids ==> IdExists(env, k, d.vals[k]))
    ensures k in PruneIds(env, ids, d).vals ==> PruneIds(env, ids, d).vals[k] == d.vals[k]
    decreases |ids|
  {
    if ids != [] {
      var init := ids[..|ids| - 1];
      PruneIdsAt(env, init, d, k);
      assert k in ids <==> k in init || k == ids[|ids| - 1];
    }
  }

  /** A password the body holds is replaced by its hash. */
  function Hashed(env: Env, d: Dict): (r: Dict)
    ensures d.Valid() && EntriesWellFormed(d) ==> r.Valid() && EntriesWellFormed(r)
  {
    if "password" in d.vals then d.Set("password", Str(env.hash(d.vals["password"]))) else d
  }

  /** A falsy or missing date is set to today. */
  function Dated(env: Env, d: Dict): (r: Dict)
    ensures d.Valid() && EntriesWellFormed(d) ==> r.Valid() && EntriesWellFormed(r)
  {
    if !Truthy(d.Get("date")) then d.Set("date", Str(Today(env))) else d
  }

  /** The body as the required-field check sees it: id fields pruned, then
      filled from the parent. `parent` is None when the parent's body is
      this very object (the root), so fill_child reads the pruned body. */
  function Prepared(env: Env, parent: Option<Dict>, table: string, d: Dict): Dict {
    var schema := env.schema(table);
    var pruned := PruneIds(env, KeepPresent(schema.idFields, d), d);
    Inherit(schema.fields, pruned, if parent.Some? then parent.value else pruned)
  }

  /** check_object on values: its result and the body it leaves behind. */
  function CheckObjectSpec(env: Env, parentTable: string, parent: Option<Dict>, table: string, d: Dict)
    : (CheckResult, Dict)
  {
    var schema := env.schema(table);
    var prepared := Prepared(env, parent, table, d);
    var missing := Missing(schema.required, ParentIdField(parentTable), prepared);
    if |missing| > 0 then
      (Invalid(MissingRequired(table, schema.required, missing)), prepared)
    else
      var report := env.unique(table, Obj(prepared));
      if |report.unremarkableFields| > 0 then
        (Invalid(NotUnique(table, report.uniqueFields, report.unremarkableFields)), prepared)
      else
        var done := Dated(env, Hashed(env, prepared));
        (Checked(Record(table, env.fill(table, Obj(done)))), done)
  }

  /** Every key of the body the required check sees, in terms of the body
      check_object was given: an id field that fails its existence check is
      deleted first, and only then may the parent's value take its place. */
  lemma PreparedAt(env: Env, parent: Option<Dict>, table: string, d: Dict, k: string)
    ensures var schema := env.schema(table);
      var dropped := k in schema.idFields && k in d.vals && !IdExists(env, k, d.vals[k]);
      var v := if dropped then Undefined else d.Get(k);
      var pv := if parent.Some? then parent.value.Get(k) else v;
      var inherits := k in schema.fields && !Truthy(v) && Truthy(pv);
      && Prepared(env, parent, table, d).Get(k) == (if inherits then pv else v)
      && (k in Prepared(env, parent, table, d).vals <==> (k in d.vals && !dropped) || inherits)
  {
    var schema := env.schema(table);
    var ids := KeepPresent(schema.idFields, d);
    var pruned := PruneIds(env, ids, d);
    PruneIdsAt(env, ids, d, k);
    InheritAt(schema.fields, pruned, if parent.Some? then parent.value else pruned, k);
  }

  /** The error paths: C0002 exactly when a required field other than the
      parent's id field is absent, naming those fields; otherwise C0003
      exactly when the uniqueness check reports a collision. Either way the
      body is left pruned and filled but neither hashed nor dated. */
  lemma CheckObjectErrors(env: Env, parentTable: string, parent: Option<Dict>, table: string, d: Dict)
    ensures var prepared := Prepared(env, parent, table, d);
      var result := CheckObjectSpec(env, parentTable, parent, table, d);
      result.0.Invalid? ==> result.1 == prepared
    ensures var schema, pid := env.schema(table), ParentIdField(parentTable);
      var prepared := Prepared(env, parent, table, d);
      var r := CheckObjectSpec(env, parentTable, parent, table, d).0;
      && ((r.Invalid? && r.err.Code() == "C0002")
            <==> exists f :: f in schema.required && f != pid && f !in prepared.vals)
      && (r.Invalid? && r.err.MissingRequired? ==>
            && r.err.table == table
            && r.err.requiredFields == schema.required
            && forall f :: f in r.err.missingFields <==> f in schema.required && f != pid && f !in prepared.vals)
    ensures var schema, pid := env.schema(table), ParentIdField(parentTable);
      var prepared := Prepared(env, parent, table, d);
      var r := CheckObjectSpec(env, parentTable, parent, table, d).0;
      var report := env.unique(table, Obj(prepared));
      && ((r.Invalid? && r.err.Code() == "C0003")
            <==> (forall f :: f in schema.required && f != pid ==> f in prepared.vals)
                 && |report.unremarkableFields| > 0)
      && (r.Invalid? && r.err.NotUnique? ==>
            r.err == NotUnique(table, report.uniqueFields, report.unremarkableFields))
  {
    var schema := env.schema(table);
    var prepared := Prepared(env, parent, table, d);
    var missing := Missing(schema.required, ParentIdField(parentTable), prepared);
    if |missing| > 0 {
      assert missing[0] in missing;
    }
  }

  /** check_object produces a row exactly when both checks pass: no
      required field other than the parent's id field is absent, and the
      uniqueness check reports no collision. */
  lemma CheckObjectPasses(env: Env, parentTable: string, parent: Option<Dict>, table: string, d: Dict)
    ensures var r := CheckObjectSpec(env, parentTable, parent, table, d).0;
      var prepared := Prepared(env, parent, table, d);
      r.Checked? <==>
        && (forall f :: f in env.schema(table).required && f != ParentIdField(parentTable) ==> f in prepared.vals)
        && |env.unique(table, Obj(prepared)).unremarkableFields| == 0
  {
    var schema := env.schema(table);
    var prepared := Prepared(env, parent, table, d);
    var missing := Missing(schema.required, ParentIdField(parentTable), prepared);
    if |missing| > 0 {
      assert missing[0] in missing;
    }
  }

  /** The success path: only once both checks pass is the password replaced
      by its hash and a falsy date set to today; the row is the schema's
      `fill` of that body, and no other key changes. */
  lemma CheckObjectSuccess(env: Env, parentTable: string, parent: Option<Dict>, table: string, d: Dict)
    ensures var (r, out) := CheckObjectSpec(env, parentTable, parent, table, d);
      var prepared := Prepared(env, parent, table, d);
      r.Checked? ==>
        && r.record == Record(table, env.fill(table, Obj(out)))
        && (forall k :: k != "password" && k != "date" ==>
              (k in out.vals <==> k in prepared.vals) && out.Get(k) == prepared.Get(k))
        && ("password" in out.vals <==> "password" in prepared.vals)
        && ("password" in prepared.vals ==> out.vals["password"] == Str(env.hash(prepared.vals["password"])))
        && "date" in out.vals
        && out.Get("date") == if Truthy(prepared.Get("date")) then prepared.Get("date") else Str(Today(env))
  {
    var (r, out) := CheckObjectSpec(env, parentTable, parent, table, d);
    var prepared := Prepared(env, parent, table, d);
    if r.Checked? {
      assert out == Dated(env, Hashed(env, prepared));
    }
  }

  /** check_object keeps a well-formed body well formed, given a
      well-formed parent to fill from. */
  lemma CheckObjectWellFormed(env: Env, parentTable: string, parent: Option<Dict>, table: string, d: Dict)
    requires d.Valid() && EntriesWellFormed(d)
    requires parent.Some? ==> EntriesWellFormed(parent.value)
    ensures var out := CheckObjectSpec(env, parentTable, parent, table, d).1;
      out.Valid() && EntriesWellFormed(out)
  {
    var schema := env.schema(table);
    var pruned := PruneIds(env, KeepPresent(schema.idFields, d), d);
    var prepared := Inherit(schema.fields, pruned, if parent.Some? then parent.value else pruned);
    assert prepared == Prepared(env, parent, table, d);
  }

  /** The id check loop of check_object: every listed id field the body
      holds is checked in turn and deleted when no row has that id. */
  method DropDeadIds(env: Env, idFields: seq<string>, body: Body)
    requires body.Valid()
    modifies body
    ensures body.Valid()
    ensures body.Snapshot() == PruneIds(env, KeepPresent(idFields, old(body.Snapshot())), old(body.Snapshot()))
  {
    ghost var d0 := body.Snapshot();
    var tableIds := KeepPresent(idFields, body.Snapshot());
    for i := 0 to |tableIds|
      invariant body.Valid()
      invariant body.Snapshot() == PruneIds(env, tableIds[..i], d0)
    {
      var field := tableIds[i];
      var fieldTable := IdFieldTable(field);
      var found := CheckId(env, fieldTable, body.Get(field));
      ghost var ids := tableIds[..i + 1];
      assert ids[..|ids| - 1] == tableIds[..i] && ids[|ids| - 1] == field;
      assert found == IdExists(env, field, body.Get(field));
      if !found {
        body.Delete(field);
      }
    }
    assert tableIds[..|tableIds|] == tableIds;
  }

  /** check_object(parent, table, body) */
  method CheckObject(env: Env, parent: Node, table: string, body: Body) returns (r: CheckResult)
    requires body.Valid() && parent.body.Valid()
    modifies body
    ensures body.Valid()
    ensures (r, body.Snapshot()) == CheckObjectSpec(env, parent.table,
      if parent.body == body then None else Some(old(parent.body.Snapshot())), table, old(body.Snapshot()))
  {
    var schema := env.schema(table);
    var parentIdField := ParentIdField(parent.table);
    ghost var d0 := body.Snapshot();
    ghost var view := if parent.body == body then None else Some(parent.body.Snapshot());

    // check that every id field the body holds names a stored row
    DropDeadIds(env, schema.idFields, body);

    // fill empty fields from the parent
    FillChild(parent, body, schema);
    assert body.Snapshot() == Prepared(env, view, table, d0);

    var missing := Missing(schema.required, parentIdField, body.Snapshot());
    if |missing| > 0 {
      return Invalid(MissingRequired(table, schema.required, missing));
    }

    var report := env.unique(table, Obj(body.Snapshot()));
    if |report.unremarkableFields| > 0 {
      return Invalid(NotUnique(table, report.uniqueFields, report.unremarkableFields));
    }

    if body.Has("password") {
      body.Set("password", Str(env.hash(body.Get("password"))));
    }
    if !Truthy(body.Get("date")) {
      body.Set("date", Str(Today(env)));
    }
    r := Checked(Record(table, env.fill(table, Obj(body.Snapshot()))));
  }
}
