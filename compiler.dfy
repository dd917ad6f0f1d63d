/** postception: the recursive walk that compiles a POST body. Each node is
    checked by check_object, then every key of its (already changed) body is
    visited in enumeration order: child-table fields holding an object or an
    array of objects are compiled recursively, anything else in a child-table
    field is deleted, keys outside the schema are deleted, and id fields that
    name no stored row are deleted. Finally the node's date is set to today.

    What the code does, rather than what its names suggest:
    - the stack only ever receives spreads of the children's results, never
      the node's own row, so a successful walk yields the empty stack;
    - a child that returns an error object is spread into `stack.push`, which
      throws because a plain object is not iterable;
    - an object child is handed the invocation's `parent`, an array element
      the current node;
    - array recursion reads the UNFILTERED array at the index of the
      filtered one;
    - `typeof null` is "object", so a null child is recursed into, and
      reading a property of null throws.

    The walk need not terminate (a child schema that lists its own
    child-table field among its fields inherits the parent's array and
    descends into it again), so the model carries fuel: one unit per level,
    and `Exhausted` when it runs out. */
module Compiler {
  import opened Json
  import opened Naming
  import opened Oracles
  import opened Bodies
  import opened Checks
  import opened Wrappers
  import opened Walks

  /** The table check_object takes the parent id field from. */
  function ParentTable(parent: Option<Node>, table: string): string {
    if parent.Some? then parent.value.table else table
  }

  /** The parent body check_object fills from: None when it is this body. */
  function ParentView(parent: Option<Node>, body: Body): Option<Dict>
    reads if parent.Some? then {parent.value.body} else {}
  {
    if parent.None? || parent.value.body == body then None else Some(parent.value.body.Snapshot())
  }

  /** The `parent` argument as a value: None at the root. */
  function ParentOf(parent: Option<Node>): Option<ParentRef>
    reads if parent.Some? then {parent.value.body} else {}
  {
    if parent.None? then None else Some(ParentRef(parent.value.table, parent.value.body.Snapshot()))
  }

  /** The parent a field visit hands on, as a value: None when it is the
      node itself. */
  function NodeRef(p: Node, body: Body): Option<ParentRef>
    reads p.body
  {
    if p.body == body then None else Some(ParentRef(p.table, p.body.Snapshot()))
  }

  /** postception(table, body, parent); `parent` is None at the root. */
  method Postception(env: Env, fuel: nat, table: string, body: Body, parent: Option<Node>)
    returns (out: Outcome)
    requires body.Valid()
    requires parent.Some? ==> parent.value.body.Valid() && parent.value.body != body
    modifies body
    decreases fuel, 0
    ensures body.Valid()
    ensures (out, body.Snapshot()) == Walk(env, fuel, table, old(body.Snapshot()), old(ParentOf(parent)))
    ensures fuel == 0 ==> out == Exhausted && body.Snapshot() == old(body.Snapshot())
    ensures out.Stack? ==> out.items == []
    ensures var own := old(CheckObjectSpec(env, ParentTable(parent, table), ParentView(parent, body), table, body.Snapshot()));
      && (out.Error? ==> own.0 == Invalid(out.err))
      && (own.0.Invalid? ==> !out.Stack?)
      && (out.Stack? || out.Error? ==>
            && Compiled(env, table, Obj(body.Snapshot()))
            && (forall k :: k in body.vals && k != "date" ==> k in own.1.vals)
            && (forall k :: k in own.1.vals ==> Settled(env, table, k, own.1.vals[k], body.Snapshot())))
  {
    if fuel == 0 {
      return Exhausted;
    }
    ghost var d0, pr := body.Snapshot(), ParentOf(parent);
    WalkCompiled(env, fuel, table, d0, pr);
    var p := if parent.None? then Node(table, body) else parent.value;
    var stackItem := CheckObject(env, p, table, body);
    ghost var checked := body.Snapshot();
    assert (stackItem, checked) == CheckObjectSpec(env, CheckParent(pr, table, d0).table,
      if pr.Some? then Some(pr.value.body) else None, table, d0);
    assert NodeRef(p, body) == pr;

    var r := VisitFields(env, fuel - 1, table, body, p, body.keys, checked);
    if !r.Stack? {
      return r;
    }
    // `stack_item.date` is never set, so the date is always overwritten
    body.Set("date", Str(Today(env)));
    if stackItem.Invalid? {
      return Error(stackItem.err);
    }
    return r;
  }

  /** The field loop of postception over `fields`, the keys of the body as
      check_object left it. */
  method VisitFields(env: Env, fuel: nat, table: string, body: Body, p: Node, fields: seq<string>,
                     ghost checked: Dict)
    returns (out: Outcome)
    requires body.Valid() && p.body.Valid()
    requires p.body == body ==> p.table == table
    requires body.Snapshot() == checked && fields == checked.keys
    modifies body
    decreases fuel, 7
    ensures body.Valid()
    ensures (out, body.Snapshot()) == Thread(FieldStep(env, fuel, table, old(NodeRef(p, body))), fields, checked)
  {
    ghost var pv := NodeRef(p, body);
    var stack: seq<Record> := [];
    for i := 0 to |fields|
      invariant body.Valid()
      invariant NodeRef(p, body) == pv
      invariant (Stack(stack), body.Snapshot()) == Thread(FieldStep(env, fuel, table, pv), fields[..i], checked)
    {
      var r := VisitNext(env, fuel, table, body, p, fields, checked, pv, stack, i);
      if !r.Stack? {
        ThreadStops(FieldStep(env, fuel, table, pv), fields, checked, i + 1, |fields|);
        assert fields[..|fields|] == fields;
        return r;
      }
      stack := stack + r.items;
    }
    assert fields[..|fields|] == fields;
    return Stack(stack);
  }

  /** One turn of the field loop: visiting key `fields[i]` extends the
      loop by one key. */
  method VisitNext(env: Env, fuel: nat, table: string, body: Body, p: Node, fields: seq<string>,
                   ghost checked: Dict, ghost pv: Option<ParentRef>, ghost stack: seq<Record>, i: nat)
    returns (r: Outcome)
    requires i < |fields|
    requires body.Valid() && p.body.Valid()
    requires p.body == body ==> p.table == table
    requires NodeRef(p, body) == pv
    requires Thread(FieldStep(env, fuel, table, pv), fields[..i], checked) == (Stack(stack), body.Snapshot())
    modifies body
    decreases fuel, 6
    ensures body.Valid() && NodeRef(p, body) == pv
    ensures Thread(FieldStep(env, fuel, table, pv), fields[..i + 1], checked)
      == (if r.Stack? then Stack(stack + r.items) else r, body.Snapshot())
  {
    r := VisitField(env, fuel, table, body, p, fields[i]);
    ThreadNext(FieldStep(env, fuel, table, pv), fields, checked, i);
  }

  /** One pass of postception's field loop, for key `field`. */
  method VisitField(env: Env, fuel: nat, table: string, body: Body, p: Node, field: string)
    returns (out: Outcome)
    requires body.Valid() && p.body.Valid()
    requires p.body == body ==> p.table == table
    modifies body
    decreases fuel, 5
    ensures body.Valid()
    ensures (out, body.Snapshot()) == WalkField(env, fuel, table, old(NodeRef(p, body)), field, old(body.Snapshot()))
  {
    var schema := env.schema(table);
    out := VisitChildField(env, fuel, table, body, p, field);
    if !out.Stack? {
      return;
    }
    // remove any field outside the table's schema
    if field !in schema.fields {
      body.Delete(field);
    }
    // check the id of an id field
    if field in schema.idFields {
      var fieldTable := IdFieldTable(field);
      var found := CheckId(env, fieldTable, body.Get(field));
      if !found {
        body.Delete(field);
      }
    }
  }

  /** The child-table part of a pass: an object is compiled with the
      invocation's parent, an array element by element, and anything else
      in a child-table field is deleted. */
  method VisitChildField(env: Env, fuel: nat, table: string, body: Body, p: Node, field: string)
    returns (out: Outcome)
    requires body.Valid() && p.body.Valid()
    requires p.body == body ==> p.table == table
    modifies body
    decreases fuel, 4
    ensures body.Valid()
    ensures (out, body.Snapshot()) == ChildField(env, fuel, table, old(NodeRef(p, body)), field, old(body.Snapshot()))
  {
    out := Stack([]);
    if field in env.schema(table).tables {
      var v := body.Get(field);
      var kind := GetType(v);
      if kind == "object" {
        // the invocation's parent, not this node
        var r, v' := Descend(env, fuel, field, v, p);
        body.Set(field, v');
        // spreading a child's error object throws
        out := if r.Error? then Fault(SpreadNotIterable) else r;
      } else if kind == "array" {
        out := VisitArray(env, fuel, table, body, field);
      } else {
        body.Delete(field);
      }
    }
  }

  /** The array case of the field loop: one recursion per element of the
      filtered array, each handed the element of the unfiltered array at
      the same index, with this node as parent. */
  method VisitArray(env: Env, fuel: nat, table: string, body: Body, field: string)
    returns (out: Outcome)
    requires body.Valid()
    requires field in body.vals && body.vals[field].Arr?
    modifies body
    decreases fuel, 3
    ensures body.Valid()
    ensures (out, body.Snapshot()) == WalkArray(env, fuel, table, field, old(body.Snapshot()))
  {
    ghost var d0 := body.Snapshot();
    var stack: seq<Record> := [];
    var arr := ObjectElements(body.Get(field).elems);
    ghost var keys := Positions(d0.vals[field].elems, |arr|);
    for j := 0 to |arr|
      invariant body.Valid()
      invariant (Stack(stack), body.Snapshot()) == Thread(ElementStep(env, fuel, table, field), keys[..j], d0)
    {
      var r := VisitElement(env, fuel, table, body, field, d0, keys, stack, j);
      if !r.Stack? {
        ThreadStops(ElementStep(env, fuel, table, field), keys, d0, j + 1, |arr|);
        assert keys[..|arr|] == keys;
        return r;
      }
      stack := stack + r.items;
    }
    assert keys[..|arr|] == keys;
    return Stack(stack);
  }

  /** One pass of the array loop: position j of the array at `field` is
      compiled with this node as parent and written back. */
  method VisitElement(env: Env, fuel: nat, table: string, body: Body, field: string,
                      ghost d0: Dict, ghost keys: seq<(nat, Value)>, ghost stack: seq<Record>, j: nat)
    returns (r: Outcome)
    requires body.Valid()
    requires field in d0.vals && d0.vals[field].Arr?
    requires keys == Positions(d0.vals[field].elems, |ObjectElements(d0.vals[field].elems)|) && j < |keys|
    requires Thread(ElementStep(env, fuel, table, field), keys[..j], d0) == (Stack(stack), body.Snapshot())
    modifies body
    decreases fuel, 2
    ensures body.Valid()
    ensures Thread(ElementStep(env, fuel, table, field), keys[..j + 1], d0)
      == (if r.Stack? then Stack(stack + r.items) else r, body.Snapshot())
  {
    ElementAhead(env, fuel, table, field, d0, j, body.Snapshot());
    var node := Node(table, body);
    var el := body.Get(field).elems[j];
    var c, el' := Descend(env, fuel, field, el, node);
    var es := body.Get(field).elems;
    body.Set(field, Arr(es[j := el']));
    ThreadNext(ElementStep(env, fuel, table, field), keys, d0, j);
    // spreading a child's error object throws
    r := if c.Error? then Fault(SpreadNotIterable) else c;
  }

  /** The recursive call on one child value. An
      object is wrapped in a body of its own, compiled, and its changed
      contents returned; a null has a property read off it and throws; any
      other value behaves as a body without own properties. */
  method Descend(env: Env, fuel: nat, table: string, v: Value, parent: Node)
    returns (out: Outcome, v': Value)
    requires WellFormed(v) && parent.body.Valid()
    decreases fuel, 1
    ensures (out, v') == WalkChild(env, fuel, table, v, ParentRef(parent.table, parent.body.Snapshot()))
    ensures WellFormed(v')
  {
    match v {
      case Obj(d) =>
        var child := new Body(d);
        out := Postception(env, fuel, table, child, Some(parent));
        v' := Obj(child.Snapshot());
      case Null =>
        out, v' := Fault(PropertyOfNull), v;
      case Undefined =>
        out, v' := Fault(PropertyOfNull), v;
      case _ =>
        var c := PrimitiveCheck(env, parent.table, table, v);
        out := if c.Invalid? then Error(c.err) else Stack([]);
        v' := v;
    }
  }
}
