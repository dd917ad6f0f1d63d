/** postception on values: what the walk of a request body yields and what
    it leaves of the body, step by step as the code takes the steps. The
    methods of module Compiler are proved to do exactly this; the lemmas
    here say what it means.

    The walk threads the body through the field loop: each key is visited
    against the body as the earlier visits left it, and a child is checked
    against its parent's body as it stands when the child is reached. */
module Walks {
  import opened Json
  import opened Naming
  import opened Oracles
  import opened Checks
  import opened Wrappers

  /** The TypeErrors the walk can raise. */
  datatype FaultKind =
    | PropertyOfNull      // a property of a null body is read or written
    | SpreadNotIterable   // a child's error object spread into the stack

  /** What postception yields: a stack, the node's own error object, a
      thrown fault, or (in the model only) the fuel running out. */
  datatype Outcome =
    | Stack(items: seq<Record>)
    | Error(err: ValidationError)
    | Fault(kind: FaultKind)
    | Exhausted

  /** The `parent` argument of a call: its table and its body as it stands
      when the call is made. */
  datatype ParentRef = ParentRef(table: string, body: Dict)

  /* ---------- the array filter ---------- */

  /** The array filter of the array case: the elements `get_type` calls
      "object", that is objects and nulls, in order. */
  function ObjectElements(es: seq<Value>): (r: seq<Value>)
    ensures |r| <= |es|
    ensures forall x :: x in r <==> x in es && GetType(x) == "object"
  {
    if es == [] then []
    else
      assert es == [es[0]] + es[1..];
      if GetType(es[0]) == "object" then [es[0]] + ObjectElements(es[1..])
      else ObjectElements(es[1..])
  }

  /** Every object or null is kept as often as the array holds it, and
      nothing else is kept. */
  lemma {:induction false} ObjectElementsCount(es: seq<Value>)
    ensures forall x :: multiset(ObjectElements(es))[x] == if GetType(x) == "object" then multiset(es)[x] else 0
    decreases |es|
  {
    if es != [] {
      assert es == [es[0]] + es[1..];
      ObjectElementsCount(es[1..]);
    }
  }

  /** One element on its own is kept exactly when it is an object or null;
      with `ObjectElementsConcat` this fixes the filter's result, order
      included, for every array. */
  lemma ObjectElementsSingle(x: Value)
    ensures ObjectElements([x]) == if GetType(x) == "object" then [x] else []
  {
    assert [x][1..] == [];
  }

  /** The filter keeps each element or drops it on its own, in order: it
      maps a concatenation to the concatenation of the filtered parts. */
  lemma {:induction false} ObjectElementsConcat(a: seq<Value>, b: seq<Value>)
    ensures ObjectElements(a + b) == ObjectElements(a) + ObjectElements(b)
    decreases |a|
  {
    if a == [] {
      assert a + b == b;
    } else {
      assert (a + b)[0] == a[0];
      assert (a + b)[1..] == a[1..] + b;
      ObjectElementsConcat(a[1..], b);
      if GetType(a[0]) == "object" {
        calc {
          ObjectElements(a + b);
          [a[0]] + ObjectElements(a[1..] + b);
          [a[0]] + (ObjectElements(a[1..]) + ObjectElements(b));
          ([a[0]] + ObjectElements(a[1..])) + ObjectElements(b);
        }
      }
    }
  }

  /** Arrays whose elements agree, position by position, on being objects
      or nulls have filtered arrays of the same length. */
  lemma {:induction false} ObjectElementsLength(a: seq<Value>, b: seq<Value>)
    requires |a| == |b|
    requires forall m :: 0 <= m < |a| ==> (GetType(a[m]) == "object" <==> GetType(b[m]) == "object")
    ensures |ObjectElements(a)| == |ObjectElements(b)|
    decreases |a|
  {
    if a != [] {
      ObjectElementsLength(a[1..], b[1..]);
    }
  }

  /* ---------- the loop shape ---------- */

  /** The shape both loops of postception share. `step` is taken for each
      key in order, each against the body the steps before it left; their
      stacks are concatenated, and the loop stops at the first step that
      yields no stack, with the body as that step left it. */
  function Thread<K(!new)>(step: (K, Dict) -> (Outcome, Dict), keys: seq<K>, d: Dict): (r: (Outcome, Dict))
    ensures (forall k, e :: !step(k, e).0.Error?) ==> !r.0.Error?
    ensures (forall k, e :: step(k, e).0.Stack? ==> step(k, e).0.items == []) ==>
      (r.0.Stack? ==> r.0.items == [])
    decreases |keys|
  {
    if keys == [] then (Stack([]), d)
    else
      var (r0, d0) := Thread(step, keys[..|keys| - 1], d);
      if !r0.Stack? then (r0, d0)
      else
        var (r1, d1) := step(keys[|keys| - 1], d0);
        (if r1.Stack? then Stack(r0.items + r1.items) else r1, d1)
  }

  /** The outcome of step i: key i against the body the steps before it
      left. */
  function Pass<K(!new)>(step: (K, Dict) -> (Outcome, Dict), keys: seq<K>, d: Dict, i: nat): Outcome
    requires i < |keys|
  {
    step(keys[i], Thread(step, keys[..i], d).1).0
  }

  /** One more key: after a step without a stack nothing changes; after a
      stack the next key is stepped against the body left so far. */
  lemma ThreadNext<K(!new)>(step: (K, Dict) -> (Outcome, Dict), keys: seq<K>, d: Dict, k: nat)
    requires k < |keys|
    ensures var s := Thread(step, keys[..k], d);
      && (!s.0.Stack? ==> Thread(step, keys[..k + 1], d) == s)
      && (s.0.Stack? ==>
            var t := step(keys[k], s.1);
            Thread(step, keys[..k + 1], d) == (if t.0.Stack? then Stack(s.0.items + t.0.items) else t.0, t.1))
  {
    assert keys[..k + 1][..k] == keys[..k];
    assert keys[..k + 1][k] == keys[k];
  }

  /** No key after the first step without a stack is stepped. */
  lemma {:induction false} ThreadStops<K(!new)>(step: (K, Dict) -> (Outcome, Dict), keys: seq<K>, d: Dict, i: nat, k: nat)
    requires i <= k <= |keys|
    requires !Thread(step, keys[..i], d).0.Stack?
    ensures Thread(step, keys[..k], d) == Thread(step, keys[..i], d)
    decreases k
  {
    if i < k {
      ThreadStops(step, keys, d, i, k - 1);
      ThreadNext(step, keys, d, k - 1);
    }
  }

  /** The loop over the first k keys yields a stack exactly when every step
      does. */
  lemma {:induction false} ThreadStack<K(!new)>(step: (K, Dict) -> (Outcome, Dict), keys: seq<K>, d: Dict, k: nat)
    requires k <= |keys|
    ensures Thread(step, keys[..k], d).0.Stack? <==> forall i :: 0 <= i < k ==> Pass(step, keys, d, i).Stack?
    decreases k
  {
    if k > 0 {
      ThreadStack(step, keys, d, k - 1);
      ThreadNext(step, keys, d, k - 1);
      if Thread(step, keys[..k - 1], d).0.Stack? {
        assert Pass(step, keys, d, k - 1).Stack? <==> Thread(step, keys[..k], d).0.Stack?;
      }
    } else {
      assert keys[..0] == [];
    }
  }

  /** The loop over the first k keys throws exactly when some step reached
      with a stack so far throws. */
  lemma {:induction false} ThreadFault<K(!new)>(step: (K, Dict) -> (Outcome, Dict), keys: seq<K>, d: Dict, k: nat)
    requires k <= |keys|
    ensures Thread(step, keys[..k], d).0.Fault? <==>
      exists i :: 0 <= i < k && Thread(step, keys[..i], d).0.Stack? && Pass(step, keys, d, i).Fault?
    decreases k
  {
    if k > 0 {
      ThreadFault(step, keys, d, k - 1);
      ThreadNext(step, keys, d, k - 1);
      if exists i :: 0 <= i < k && Thread(step, keys[..i], d).0.Stack? && Pass(step, keys, d, i).Fault? {
        var i :| 0 <= i < k && Thread(step, keys[..i], d).0.Stack? && Pass(step, keys, d, i).Fault?;
        ThreadFaultAt(step, keys, d, i, k);
      }
    } else {
      assert keys[..0] == [];
    }
  }

  /** A property `inv` of the body that every step carries from key i to
      key i + 1 while it yields a stack holds after the loop when the loop
      yields a stack; a property `ok` that the body has at the start and
      after every step holds after the loop whatever it yields. */
  lemma {:induction false} ThreadKeeps<K(!new)>(step: (K, Dict) -> (Outcome, Dict), keys: seq<K>, d: Dict,
                                                 inv: (nat, Dict) -> bool, ok: Dict -> bool, n: nat)
    requires n <= |keys|
    requires inv(0, d) && ok(d)
    requires forall i, e :: 0 <= i < |keys| && inv(i, e) ==>
      ok(step(keys[i], e).1) && (step(keys[i], e).0.Stack? ==> inv(i + 1, step(keys[i], e).1))
    ensures var t := Thread(step, keys[..n], d); ok(t.1) && (t.0.Stack? ==> inv(n, t.1))
    decreases n
  {
    if n == 0 {
      assert keys[..0] == [];
    } else {
      ThreadKeeps(step, keys, d, inv, ok, n - 1);
      ThreadNext(step, keys, d, n - 1);
    }
  }

  /** A step that throws, reached with a stack so far, is what the loop
      yields from then on. */
  lemma ThreadFaultAt<K(!new)>(step: (K, Dict) -> (Outcome, Dict), keys: seq<K>, d: Dict, i: nat, k: nat)
    requires i < k <= |keys|
    requires Thread(step, keys[..i], d).0.Stack? && Pass(step, keys, d, i).Fault?
    ensures Thread(step, keys[..k], d).0.Fault?
  {
    ThreadNext(step, keys, d, i);
    ThreadStops(step, keys, d, i + 1, k);
  }

  /* ---------- the walk ---------- */

  /** check_object on a body that is not an object (reached through the
      index mix-up): it has no own properties and ignores writes, so every
      required field but the parent's id field is missing. */
  function PrimitiveCheck(env: Env, parentTable: string, table: string, v: Value): CheckResult {
    var schema := env.schema(table);
    var missing := Missing(schema.required, ParentIdField(parentTable), Dict([], map[]));
    if |missing| > 0 then
      Invalid(MissingRequired(table, schema.required, missing))
    else
      var report := env.unique(table, v);
      if |report.unremarkableFields| > 0 then
        Invalid(NotUnique(table, report.uniqueFields, report.unremarkableFields))
      else
        Checked(Record(table, env.fill(table, v)))
  }

  /** The `parent` a call hands to check_object: the node itself at the
      root. */
  function CheckParent(parent: Option<ParentRef>, table: string, d: Dict): ParentRef {
    if parent.Some? then parent.value else ParentRef(table, d)
  }

  /** postception(table, body, parent) on values; `parent` is None at the
      root, where the node is its own parent. */
  function Walk(env: Env, fuel: nat, table: string, d: Dict, parent: Option<ParentRef>): (r: (Outcome, Dict))
    ensures r.0.Stack? ==> r.0.items == []
    decreases fuel, 0
  {
    if fuel == 0 then (Exhausted, d)
    else
      var view := if parent.Some? then Some(parent.value.body) else None;
      var (own, checked) := CheckObjectSpec(env, CheckParent(parent, table, d).table, view, table, d);
      var (fr, now) := Thread(FieldStep(env, fuel - 1, table, parent), checked.keys, checked);
      if !fr.Stack? then (fr, now)
      else
        // `stack_item.date` is never set, so the date is always overwritten
        var done := now.Set("date", Str(Today(env)));
        if own.Invalid? then (Error(own.err), done) else (Stack(fr.items), done)
  }

  /** A pass of the field loop as a step of `Thread`. */
  function FieldStep(env: Env, fuel: nat, table: string, parent: Option<ParentRef>): (string, Dict) -> (Outcome, Dict)
    decreases fuel, 6
  {
    (field: string, d: Dict) => WalkField(env, fuel, table, parent, field, d)
  }

  /** One pass of the field loop, for key `field`: the child-table part,
      then, if it yields a stack, the schema and id checks. */
  function WalkField(env: Env, fuel: nat, table: string, parent: Option<ParentRef>,
                     field: string, d: Dict): (r: (Outcome, Dict))
    ensures !r.0.Error?
    ensures r.0.Stack? ==> r.0.items == []
    decreases fuel, 5
  {
    var (r, d1) := ChildField(env, fuel, table, parent, field, d);
    if !r.Stack? then (r, d1) else (r, KeepField(env, table, field, d1))
  }

  /** The child-table part of a pass: a child-table field holding an
      object is descended into with the invocation's parent, one holding an
      array goes to the array loop, and one holding anything else is
      deleted; any other key is left alone. */
  function ChildField(env: Env, fuel: nat, table: string, parent: Option<ParentRef>,
                      field: string, d: Dict): (r: (Outcome, Dict))
    ensures !r.0.Error?
    ensures r.0.Stack? ==> r.0.items == []
    decreases fuel, 4
  {
    var v := d.Get(field);
    if field !in env.schema(table).tables then (Stack([]), d)
    else if GetType(v) == "object" then
      var (c, v') := WalkChild(env, fuel, field, v, CheckParent(parent, table, d));
      (if c.Error? then Fault(SpreadNotIterable) else c, d.Set(field, v'))
    else if GetType(v) == "array" then
      WalkArray(env, fuel, table, field, d)
    else
      (Stack([]), d.Delete(field))
  }

  /** The rest of a pass: a key outside the schema is deleted, then an id
      field naming no stored row is deleted. */
  function KeepField(env: Env, table: string, field: string, d: Dict): (r: Dict)
    ensures field in r.vals <==>
      && field in d.vals && field in env.schema(table).fields
      && (field in env.schema(table).idFields ==> IdExists(env, field, d.vals[field]))
    ensures r.vals == if field in r.vals then d.vals else d.vals - {field}
  {
    var schema := env.schema(table);
    var d2 := if field !in schema.fields then d.Delete(field) else d;
    if field in schema.idFields && !CheckId(env, IdFieldTable(field), d2.Get(field)) then d2.Delete(field)
    else d2
  }

  /** The first n positions of an array, each with its element. */
  function Positions(es: seq<Value>, n: nat): (r: seq<(nat, Value)>)
    requires n <= |es|
    ensures |r| == n
    ensures forall m :: 0 <= m < n ==> r[m] == (m, es[m])
  {
    seq(n, m requires 0 <= m < n => (m, es[m]))
  }

  /** The array loop over `field`: one pass per "object" element of the
      array, where pass m descends into position m of the UNFILTERED
      array. */
  function WalkArray(env: Env, fuel: nat, table: string, field: string, d: Dict): (r: (Outcome, Dict))
    requires field in d.vals && d.vals[field].Arr?
    ensures !r.0.Error?
    ensures r.0.Stack? ==> r.0.items == []
    decreases fuel, 3
  {
    var es := d.vals[field].elems;
    Thread(ElementStep(env, fuel, table, field), Positions(es, |ObjectElements(es)|), d)
  }

  /** A pass of the array loop as a step of `Thread`: the child walk of the
      element at position m, with the node as parent, and the element it
      leaves written back; a child's error is spread and throws. */
  function ElementStep(env: Env, fuel: nat, table: string, field: string): ((nat, Value), Dict) -> (Outcome, Dict)
    decreases fuel, 2
  {
    (p: (nat, Value), d: Dict) =>
      var (c, el) := WalkChild(env, fuel, field, p.1, ParentRef(table, d));
      (if c.Error? then Fault(SpreadNotIterable) else c, SetElement(d, field, p.0, el))
  }

  /** Writing v at position m of the array at `field`, for a position the
      array has (the loop writes only positions it has read). */
  function SetElement(d: Dict, field: string, m: nat, v: Value): Dict {
    if field in d.vals && d.vals[field].Arr? && m < |d.vals[field].elems| then
      d.Set(field, Arr(d.vals[field].elems[m := v]))
    else d
  }

  /** The recursive call on one child value, and
      the value it leaves: an object is walked; reading a property of null
      or undefined throws; any other value is checked as a body without own
      properties and is left as it is. */
  function WalkChild(env: Env, fuel: nat, table: string, v: Value, parent: ParentRef): (r: (Outcome, Value))
    ensures r.0.Stack? ==> r.0.items == []
    ensures r.1.Obj? == v.Obj?
    ensures !v.Obj? ==> r.1 == v
    decreases fuel, 1
  {
    match v
    case Obj(d) =>
      var (out, d') := Walk(env, fuel, table, d, Some(parent));
      (out, Obj(d'))
    case Null => (Fault(PropertyOfNull), v)
    case Undefined => (Fault(PropertyOfNull), v)
    case _ =>
      var c := PrimitiveCheck(env, parent.table, table, v);
      (if c.Invalid? then Error(c.err) else Stack([]), v)
  }

  /* ---------- what the walk yields ---------- */

  /** A node's outcome: with fuel left, a stack exactly when its own check
      passes and its field loop yields a stack; its own error exactly when
      check_object fails and the loop still yields a stack (the loop runs
      either way); otherwise whatever the loop threw. */
  lemma WalkOutcome(env: Env, fuel: nat, table: string, d: Dict, parent: Option<ParentRef>)
    requires fuel > 0
    ensures var view := if parent.Some? then Some(parent.value.body) else None;
      var (own, checked) := CheckObjectSpec(env, CheckParent(parent, table, d).table, view, table, d);
      var fr := Thread(FieldStep(env, fuel - 1, table, parent), checked.keys, checked).0;
      var r := Walk(env, fuel, table, d, parent).0;
      && (r.Stack? <==> own.Checked? && fr.Stack?)
      && (r.Error? <==> own.Invalid? && fr.Stack?)
      && (r.Error? ==> r.err == own.err)
      && (!fr.Stack? ==> r == fr)
      && !r.Exhausted? == !fr.Exhausted?
  {
  }

  /** A node with fuel left throws exactly when some visit of its field
      loop, reached while the loop still had a stack, throws. */
  lemma WalkFault(env: Env, fuel: nat, table: string, d: Dict, parent: Option<ParentRef>)
    requires fuel > 0
    ensures var view := if parent.Some? then Some(parent.value.body) else None;
      var checked := CheckObjectSpec(env, CheckParent(parent, table, d).table, view, table, d).1;
      var step := FieldStep(env, fuel - 1, table, parent);
      Walk(env, fuel, table, d, parent).0.Fault? <==>
        exists i :: 0 <= i < |checked.keys| && Thread(step, checked.keys[..i], checked).0.Stack?
          && Pass(step, checked.keys, checked, i).Fault?
  {
    var view := if parent.Some? then Some(parent.value.body) else None;
    var checked := CheckObjectSpec(env, CheckParent(parent, table, d).table, view, table, d).1;
    var step := FieldStep(env, fuel - 1, table, parent);
    WalkOutcome(env, fuel, table, d, parent);
    ThreadFault(step, checked.keys, checked, |checked.keys|);
    assert checked.keys[..|checked.keys|] == checked.keys;
  }

  /** One visit of a field: a key that is no child-table field goes on to
      the schema and id checks with a stack; in a child-table field a null
      throws on the spot, an object child is walked with the invocation's
      parent (the node itself at the root) and its error is spread and
      throws, an array goes to the array loop, and any other value is
      deleted. */
  lemma WalkFieldOutcome(env: Env, fuel: nat, table: string, parent: Option<ParentRef>, field: string, d: Dict)
    ensures var schema, v := env.schema(table), d.Get(field);
      var r := FieldStep(env, fuel, table, parent)(field, d);
      var c := WalkChild(env, fuel, field, v, CheckParent(parent, table, d));
      && (field !in schema.tables ==> r.0 == Stack([]))
      && (field in schema.tables && (v.Null? || v.Obj?) ==>
            && (r.0.Stack? <==> c.0.Stack?)
            && (c.0.Error? ==> r.0 == Fault(SpreadNotIterable))
            && (c.0.Fault? || c.0.Exhausted? ==> r.0 == c.0))
      && (field in schema.tables && v.Null? ==> r.0 == Fault(PropertyOfNull))
      && (field in schema.tables && v.Arr? ==> r.0 == WalkArray(env, fuel, table, field, d).0)
      && (field in schema.tables && !v.Null? && !v.Obj? && !v.Arr? ==>
            r.0 == Stack([]) && field !in r.1.vals)
  {
    var h := ChildField(env, fuel, table, parent, field, d);
    assert FieldStep(env, fuel, table, parent)(field, d) == WalkField(env, fuel, table, parent, field, d)
      == if h.0.Stack? then (h.0, KeepField(env, table, field, h.1)) else h;
  }

  /** An object child that comes back with a stack is written back to its
      key, and a key that is a schema field and passes its id check keeps
      that value. */
  lemma WalkFieldKeepsChild(env: Env, fuel: nat, table: string, parent: Option<ParentRef>, field: string, d: Dict)
    requires field in env.schema(table).tables && field in env.schema(table).fields
    requires d.Get(field).Obj?
    ensures var schema := env.schema(table);
      var c := WalkChild(env, fuel, field, d.Get(field), CheckParent(parent, table, d));
      var r := FieldStep(env, fuel, table, parent)(field, d);
      c.0.Stack? && (field in schema.idFields ==> IdExists(env, field, c.1)) ==>
        r.0.Stack? && field in r.1.vals && r.1.vals[field] == c.1
  {
    var h := ChildField(env, fuel, table, parent, field, d);
    assert FieldStep(env, fuel, table, parent)(field, d) == WalkField(env, fuel, table, parent, field, d)
      == if h.0.Stack? then (h.0, KeepField(env, table, field, h.1)) else h;
  }

  /** Pass m of the array loop descends into element m of the ORIGINAL,
      unfiltered array, with the body the earlier passes left as parent,
      and turns a child's error into a thrown fault. */
  lemma WalkArrayPass(env: Env, fuel: nat, table: string, field: string, d: Dict, m: nat)
    requires field in d.vals && d.vals[field].Arr? && m < |ObjectElements(d.vals[field].elems)|
    ensures var es := d.vals[field].elems;
      var keys := Positions(es, |ObjectElements(es)|);
      var now := Thread(ElementStep(env, fuel, table, field), keys[..m], d).1;
      var c := WalkChild(env, fuel, field, es[m], ParentRef(table, now)).0;
      Pass(ElementStep(env, fuel, table, field), keys, d, m) == if c.Error? then Fault(SpreadNotIterable) else c
  {
  }

  /** What the array loop may do to the body `d` it started from: `e` has
      the same keys, every other key holds its old value, and the array at
      `field` keeps its length, each object element stays an object and
      every other element is untouched. */
  ghost predicate ArrayShapeKept(field: string, d: Dict, e: Dict)
    requires field in d.vals && d.vals[field].Arr?
  {
    var es := d.vals[field].elems;
    && e.keys == d.keys
    && (forall k :: k != field ==> (k in e.vals <==> k in d.vals))
    && (forall k :: k != field && k in e.vals ==> e.vals[k] == d.vals[k])
    && field in e.vals && e.vals[field].Arr? && |e.vals[field].elems| == |es|
    && (forall m :: 0 <= m < |es| ==>
          && (e.vals[field].elems[m].Obj? <==> es[m].Obj?)
          && (!es[m].Obj? ==> e.vals[field].elems[m] == es[m]))
  }

  /** The first j passes of the array loop rewrite nothing but object
      elements, each into an object; while they yield a stack, the
      positions from j on are untouched. */
  lemma WalkArrayShape(env: Env, fuel: nat, table: string, field: string, d: Dict, j: nat)
    requires field in d.vals && d.vals[field].Arr? && j <= |ObjectElements(d.vals[field].elems)|
    ensures var es := d.vals[field].elems;
      var t := Thread(ElementStep(env, fuel, table, field), Positions(es, |ObjectElements(es)|)[..j], d);
      && ArrayShapeKept(field, d, t.1)
      && (t.0.Stack? ==> forall m :: j <= m < |es| ==> t.1.vals[field].elems[m] == es[m])
  {
    var es := d.vals[field].elems;
    var keys := Positions(es, |ObjectElements(es)|);
    var step := ElementStep(env, fuel, table, field);
    var ok := (e: Dict) => ArrayShapeKept(field, d, e);
    var inv := (i: nat, e: Dict) => ArrayShapeKept(field, d, e) && forall m :: i <= m < |es| ==> e.vals[field].elems[m] == es[m];
    forall i, e | 0 <= i < |keys| && inv(i, e)
      ensures ok(step(keys[i], e).1) && (step(keys[i], e).0.Stack? ==> inv(i + 1, step(keys[i], e).1))
    {
      assert keys[i] == (i, es[i]);
      var c := WalkChild(env, fuel, field, es[i], ParentRef(table, e));
      assert step(keys[i], e).1 == SetElement(e, field, i, c.1);
      ShapeWritten(field, d, e, i, c.1);
    }
    ThreadKeeps(step, keys, d, inv, ok, j);
  }

  /** While the array loop yields a stack, the element it reads next is
      still the one the array held when the loop began. */
  lemma ElementAhead(env: Env, fuel: nat, table: string, field: string, d: Dict, j: nat, e: Dict)
    requires field in d.vals && d.vals[field].Arr? && j < |ObjectElements(d.vals[field].elems)|
    requires var keys := Positions(d.vals[field].elems, |ObjectElements(d.vals[field].elems)|);
      var t := Thread(ElementStep(env, fuel, table, field), keys[..j], d);
      t.0.Stack? && t.1 == e
    ensures j < |d.vals[field].elems|
    ensures field in e.vals && e.vals[field].Arr? && |e.vals[field].elems| == |d.vals[field].elems|
    ensures e.vals[field].elems[j] == d.vals[field].elems[j]
    ensures Positions(d.vals[field].elems, |ObjectElements(d.vals[field].elems)|)[j] == (j, d.vals[field].elems[j])
  {
    WalkArrayShape(env, fuel, table, field, d, j);
  }

  /** Writing back at position i an object for an object, or the element
      itself for anything else, keeps the shape, and leaves the positions
      after i as they were. */
  lemma ShapeWritten(field: string, d: Dict, e: Dict, i: nat, v: Value)
    requires field in d.vals && d.vals[field].Arr? && i < |d.vals[field].elems|
    requires ArrayShapeKept(field, d, e)
    requires v.Obj? == d.vals[field].elems[i].Obj?
    requires !v.Obj? ==> v == d.vals[field].elems[i]
    ensures var e' := SetElement(e, field, i, v);
      && ArrayShapeKept(field, d, e')
      && (forall m :: i < m < |e.vals[field].elems| ==> e'.vals[field].elems[m] == e.vals[field].elems[m])
  {
  }

  /** A null at one of the filtered positions of the unfiltered array means
      the array loop yields no stack. */
  lemma WalkArrayNull(env: Env, fuel: nat, table: string, field: string, d: Dict, m: nat)
    requires field in d.vals && d.vals[field].Arr? && m < |ObjectElements(d.vals[field].elems)|
    requires d.vals[field].elems[m].Null?
    ensures !WalkArray(env, fuel, table, field, d).0.Stack?
  {
    var es := d.vals[field].elems;
    var keys := Positions(es, |ObjectElements(es)|);
    WalkArrayPass(env, fuel, table, field, d, m);
    ThreadStack(ElementStep(env, fuel, table, field), keys, d, |keys|);
    assert keys[..|keys|] == keys;
  }

  /** A child value's outcome: null and undefined throw; an object's is the
      walk of its body with the given parent; any other value returns its
      check's error exactly when the check fails, and never throws. */
  lemma WalkChildOutcome(env: Env, fuel: nat, table: string, v: Value, parent: ParentRef)
    ensures var r := WalkChild(env, fuel, table, v, parent).0;
      && (v.Null? || v.Undefined? ==> r == Fault(PropertyOfNull))
      && (v.Obj? ==> r == Walk(env, fuel, table, v.d, Some(parent)).0)
      && (!v.Obj? && !v.Null? && !v.Undefined? ==>
            var c := PrimitiveCheck(env, parent.table, table, v);
            && (r.Error? <==> c.Invalid?)
            && (c.Invalid? ==> r.err == c.err)
            && (c.Checked? ==> r == Stack([])))
  {
  }

  /** check_object on a value without own properties: every required field
      other than the parent's id field is missing, so it fails with C0002
      exactly when there is one, naming exactly those fields; otherwise it
      fails with C0003 exactly when the uniqueness check reports a
      collision, and else yields the schema's projection of the value. */
  lemma PrimitiveCheckOutcome(env: Env, parentTable: string, table: string, v: Value)
    ensures var schema, pid := env.schema(table), ParentIdField(parentTable);
      var r := PrimitiveCheck(env, parentTable, table, v);
      && ((r.Invalid? && r.err.MissingRequired?) <==> exists f :: f in schema.required && f != pid)
      && (r.Invalid? && r.err.MissingRequired? ==>
            && r.err.table == table
            && r.err.requiredFields == schema.required
            && forall f :: f in r.err.missingFields <==> f in schema.required && f != pid)
    ensures var schema, pid := env.schema(table), ParentIdField(parentTable);
      var r := PrimitiveCheck(env, parentTable, table, v);
      var report := env.unique(table, v);
      && ((r.Invalid? && r.err.NotUnique?) <==>
            (forall f :: f in schema.required ==> f == pid) && |report.unremarkableFields| > 0)
      && (r.Invalid? && r.err.NotUnique? ==>
            r.err == NotUnique(table, report.uniqueFields, report.unremarkableFields))
      && (r.Checked? ==> r.record == Record(table, env.fill(table, v)))
  {
    var schema := env.schema(table);
    var missing := Missing(schema.required, ParentIdField(parentTable), Dict([], map[]));
    if |missing| > 0 {
      assert missing[0] in missing;
    }
  }

  /** A number, boolean, string or array at one of the filtered positions
      of the unfiltered array, under a child schema that requires a field
      other than the parent's id field, means the array loop yields no
      stack: the element's check fails and its error is spread. */
  lemma WalkArrayPrimitive(env: Env, fuel: nat, table: string, field: string, d: Dict, m: nat)
    requires field in d.vals && d.vals[field].Arr? && m < |ObjectElements(d.vals[field].elems)|
    requires var v := d.vals[field].elems[m]; !v.Obj? && !v.Null? && !v.Undefined?
    requires exists f :: f in env.schema(field).required && f != ParentIdField(table)
    ensures !WalkArray(env, fuel, table, field, d).0.Stack?
  {
    var es := d.vals[field].elems;
    var keys := Positions(es, |ObjectElements(es)|);
    var now := Thread(ElementStep(env, fuel, table, field), keys[..m], d).1;
    WalkArrayPass(env, fuel, table, field, d, m);
    WalkChildOutcome(env, fuel, field, es[m], ParentRef(table, now));
    PrimitiveCheckOutcome(env, table, field, es[m]);
    ThreadStack(ElementStep(env, fuel, table, field), keys, d, |keys|);
    assert keys[..|keys|] == keys;
  }

  /* ---------- what a finished node looks like ---------- */

  /** A node the walk finished: its date is today, and every other key it
      kept is a schema field, an id field naming a stored row, and, for a
      child-table field, a finished child. */
  ghost predicate Compiled(env: Env, table: string, v: Value)
    decreases v, 0
  {
    && v.Obj?
    && v.d.Get("date") == Str(Today(env))
    && forall k :: k in v.d.vals && k != "date" ==>
         && k in env.schema(table).fields
         && (k in env.schema(table).idFields ==> IdExists(env, k, v.d.vals[k]))
         && (k in env.schema(table).tables ==> ChildCompiled(env, k, v.d.vals[k]))
  }

  /** A child-table field the walk finished: a finished object, or an array
      whose object elements at the filtered positions are finished. */
  ghost predicate ChildCompiled(env: Env, table: string, v: Value)
    decreases v, 1
  {
    match v
    case Obj(_) => Compiled(env, table, v)
    case Arr(es) => forall m :: 0 <= m < |ObjectElements(es)| && es[m].Obj? ==> Compiled(env, table, es[m])
    case _ => false
  }

  /** The state of key `k` once the field loop has visited it, given its
      value `before` the visit. */
  ghost predicate Settled(env: Env, table: string, k: string, before: Value, now: Dict) {
    var schema := env.schema(table);
    && (k in now.vals && k != "date" ==>
          && k in schema.fields
          && (k in schema.idFields ==> IdExists(env, k, now.vals[k]))
          && (k in schema.tables ==> ChildCompiled(env, k, now.vals[k])))
    && ((&& k != "date" && k in schema.fields && k !in schema.tables
         && (k in schema.idFields ==> IdExists(env, k, before)))
        ==> k in now.vals && now.vals[k] == before)
    && ((&& k != "date" && k in schema.fields && k in schema.tables && k !in schema.idFields
         && (before.Obj? || before.Arr?))
        ==> k in now.vals && (now.vals[k].Obj? <==> before.Obj?))
  }

  /** Whether a key is settled depends on that key's entry only. */
  lemma SettledFrame(env: Env, table: string, k: string, before: Value, now: Dict, now': Dict)
    requires Settled(env, table, k, before, now)
    requires k in now.vals <==> k in now'.vals
    requires k in now.vals ==> now.vals[k] == now'.vals[k]
    ensures Settled(env, table, k, before, now')
  {
  }

  /** Visiting the next key settles it, leaves the keys visited before
      settled and the keys still to come untouched, and adds no key. */
  lemma SettledStep(env: Env, table: string, fields: seq<string>, entries: map<string, Value>,
                    i: nat, before: Dict, now: Dict)
    requires Distinct(fields) && i < |fields|
    requires forall j :: 0 <= j < |fields| ==> fields[j] in entries
    requires forall k :: k in before.vals ==> k in entries
    requires forall j :: i <= j < |fields| ==> fields[j] in before.vals && before.vals[fields[j]] == entries[fields[j]]
    requires forall j :: 0 <= j < i ==> Settled(env, table, fields[j], entries[fields[j]], before)
    requires Settled(env, table, fields[i], before.vals[fields[i]], now)
    requires forall k :: k != fields[i] ==> (k in now.vals <==> k in before.vals)
    requires forall k :: k != fields[i] && k in now.vals ==> now.vals[k] == before.vals[k]
    ensures forall k :: k in now.vals ==> k in entries
    ensures forall j :: i + 1 <= j < |fields| ==> fields[j] in now.vals && now.vals[fields[j]] == entries[fields[j]]
    ensures forall j :: 0 <= j < i + 1 ==> Settled(env, table, fields[j], entries[fields[j]], now)
  {
    forall j | 0 <= j < i
      ensures Settled(env, table, fields[j], entries[fields[j]], now)
    {
      SettledFrame(env, table, fields[j], entries[fields[j]], before, now);
    }
  }

  /** Once every key check_object left has been visited, setting the date
      completes the node. */
  lemma FinishNode(env: Env, table: string, checked: Dict, now: Dict)
    requires checked.Valid()
    requires forall k :: k in now.vals ==> k in checked.vals
    requires forall j :: 0 <= j < |checked.keys| ==>
      Settled(env, table, checked.keys[j], checked.vals[checked.keys[j]], now)
    ensures var done := now.Set("date", Str(Today(env)));
      && Compiled(env, table, Obj(done))
      && (forall k :: k in done.vals && k != "date" ==> k in checked.vals)
      && (forall k :: k in checked.vals ==> Settled(env, table, k, checked.vals[k], done))
  {
    var done := now.Set("date", Str(Today(env)));
    forall k | k in checked.vals
      ensures Settled(env, table, k, checked.vals[k], now)
    {
      var j :| 0 <= j < |checked.keys| && checked.keys[j] == k;
    }
    forall k | k in checked.vals
      ensures Settled(env, table, k, checked.vals[k], done)
    {
      if k != "date" {
        SettledFrame(env, table, k, checked.vals[k], now, done);
      }
    }
  }

  /* ---------- what the walk leaves of the body ---------- */

  /** A walk that yields a stack or the node's own error leaves a finished
      node: every key but "date" comes from the body as check_object left
      it, and every key of that body is settled. Whatever the outcome, a
      well-formed body stays well formed. */
  lemma WalkCompiled(env: Env, fuel: nat, table: string, d: Dict, parent: Option<ParentRef>)
    requires d.Valid() && EntriesWellFormed(d)
    requires parent.Some? ==> EntriesWellFormed(parent.value.body)
    decreases fuel, 0, 0
    ensures var r := Walk(env, fuel, table, d, parent);
      var view := if parent.Some? then Some(parent.value.body) else None;
      var checked := CheckObjectSpec(env, CheckParent(parent, table, d).table, view, table, d).1;
      && r.1.Valid() && EntriesWellFormed(r.1)
      && (r.0.Stack? || r.0.Error? ==>
            && Compiled(env, table, Obj(r.1))
            && (forall k :: k in r.1.vals && k != "date" ==> k in checked.vals)
            && (forall k :: k in checked.vals ==> Settled(env, table, k, checked.vals[k], r.1)))
  {
    if fuel > 0 {
      var view := if parent.Some? then Some(parent.value.body) else None;
      var (own, checked) := CheckObjectSpec(env, CheckParent(parent, table, d).table, view, table, d);
      CheckObjectWellFormed(env, CheckParent(parent, table, d).table, view, table, d);
      FieldsFinished(env, fuel - 1, table, parent, checked);
      var t := Thread(FieldStep(env, fuel - 1, table, parent), checked.keys, checked);
      var done := t.1.Set("date", Str(Today(env)));
      assert Walk(env, fuel, table, d, parent)
        == if !t.0.Stack? then t else if own.Invalid? then (Error(own.err), done) else (Stack(t.0.items), done);
    }
  }

  /** The field loop over every key check_object left, followed by the
      date stamp: a finished node whenever the loop yields a stack. */
  lemma FieldsFinished(env: Env, fuel: nat, table: string, parent: Option<ParentRef>, checked: Dict)
    requires checked.Valid() && EntriesWellFormed(checked)
    requires parent.Some? ==> EntriesWellFormed(parent.value.body)
    decreases fuel, 7, 0
    ensures var t := Thread(FieldStep(env, fuel, table, parent), checked.keys, checked);
      var done := t.1.Set("date", Str(Today(env)));
      && t.1.Valid() && EntriesWellFormed(t.1)
      && (t.0.Stack? ==>
            && done.Valid() && EntriesWellFormed(done)
            && Compiled(env, table, Obj(done))
            && (forall k :: k in done.vals && k != "date" ==> k in checked.vals)
            && (forall k :: k in checked.vals ==> Settled(env, table, k, checked.vals[k], done)))
  {
    FieldsSettled(env, fuel, table, parent, checked);
    var t := Thread(FieldStep(env, fuel, table, parent), checked.keys, checked);
    if t.0.Stack? {
      FinishNode(env, table, checked, t.1);
    }
  }

  /** The field loop's invariant after the first i keys of `checked`:
      the body is well formed, no key was added, the keys still to come are
      as check_object left them, and the keys visited are settled. */
  ghost predicate FieldsVisited(env: Env, table: string, checked: Dict, i: nat, e: Dict) {
    var keys := checked.keys;
    && checked.Valid() && e.Valid() && EntriesWellFormed(e) && i <= |keys|
    && (forall k :: k in e.vals ==> k in checked.vals)
    && (forall j :: i <= j < |keys| ==> keys[j] in e.vals && e.vals[keys[j]] == checked.vals[keys[j]])
    && (forall j :: 0 <= j < i ==> Settled(env, table, keys[j], checked.vals[keys[j]], e))
  }

  /** The field loop keeps the body well formed; with a stack, it has
      added no key and settled every key (`FieldsVisited` for all keys). */
  lemma FieldsSettled(env: Env, fuel: nat, table: string, parent: Option<ParentRef>, checked: Dict)
    requires checked.Valid() && EntriesWellFormed(checked)
    requires parent.Some? ==> EntriesWellFormed(parent.value.body)
    decreases fuel, 6, 0
    ensures var t := Thread(FieldStep(env, fuel, table, parent), checked.keys, checked);
      && t.1.Valid() && EntriesWellFormed(t.1)
      && (t.0.Stack? ==> FieldsVisited(env, table, checked, |checked.keys|, t.1))
  {
    var keys := checked.keys;
    var step := FieldStep(env, fuel, table, parent);
    var ok := (e: Dict) => e.Valid() && EntriesWellFormed(e);
    var inv := (i: nat, e: Dict) => FieldsVisited(env, table, checked, i, e);
    forall i, e | 0 <= i < |keys| && inv(i, e)
      ensures ok(step(keys[i], e).1) && (step(keys[i], e).0.Stack? ==> inv(i + 1, step(keys[i], e).1))
    {
      FieldsNext(env, fuel, table, parent, checked, i, e);
      assert step(keys[i], e) == WalkField(env, fuel, table, parent, keys[i], e);
    }
    ThreadKeeps(step, keys, checked, inv, ok, |keys|);
    assert keys[..|keys|] == keys;
  }

  /** Visiting key i carries the field loop's invariant to key i + 1 on a
      stack, and keeps the body well formed whatever it yields. */
  lemma FieldsNext(env: Env, fuel: nat, table: string, parent: Option<ParentRef>, checked: Dict, i: nat, e: Dict)
    requires checked.Valid() && i < |checked.keys|
    requires parent.Some? ==> EntriesWellFormed(parent.value.body)
    requires FieldsVisited(env, table, checked, i, e)
    decreases fuel, 5, 1
    ensures var r := WalkField(env, fuel, table, parent, checked.keys[i], e);
      && r.1.Valid() && EntriesWellFormed(r.1)
      && (r.0.Stack? ==> FieldsVisited(env, table, checked, i + 1, r.1))
  {
    var field := checked.keys[i];
    WalkFieldSettled(env, fuel, table, parent, field, e);
    var r := WalkField(env, fuel, table, parent, field, e);
    if r.0.Stack? {
      VisitedStep(env, table, checked, i, e, r.1);
    }
  }

  /** A visit of key i that settles it and touches no other key carries
      the field loop's invariant to key i + 1. */
  lemma VisitedStep(env: Env, table: string, checked: Dict, i: nat, before: Dict, now: Dict)
    requires checked.Valid() && i < |checked.keys|
    requires FieldsVisited(env, table, checked, i, before)
    requires now.Valid() && EntriesWellFormed(now)
    requires Settled(env, table, checked.keys[i], before.vals[checked.keys[i]], now)
    requires forall k :: k != checked.keys[i] ==> (k in now.vals <==> k in before.vals)
    requires forall k :: k != checked.keys[i] && k in now.vals ==> now.vals[k] == before.vals[k]
    ensures FieldsVisited(env, table, checked, i + 1, now)
  {
    SettledStep(env, table, checked.keys, checked.vals, i, before, now);
  }

  /** A visit of one key changes no other key, keeps the body well formed,
      and on a stack leaves the key settled. */
  lemma WalkFieldSettled(env: Env, fuel: nat, table: string, parent: Option<ParentRef>, field: string, d: Dict)
    requires d.Valid() && EntriesWellFormed(d) && field in d.vals
    requires parent.Some? ==> EntriesWellFormed(parent.value.body)
    decreases fuel, 5, 0
    ensures var r := WalkField(env, fuel, table, parent, field, d);
      && r.1.Valid() && EntriesWellFormed(r.1)
      && (forall k :: k != field ==> (k in r.1.vals <==> k in d.vals))
      && (forall k :: k != field && k in r.1.vals ==> r.1.vals[k] == d.vals[k])
      && (r.0.Stack? ==> Settled(env, table, field, d.vals[field], r.1))
  {
    ChildFieldCompiled(env, fuel, table, parent, field, d);
  }

  /** The child-table part of a visit changes no other key and keeps the
      body well formed; a key that is no child-table field is untouched, and
      a child-table field left after a stack holds a finished child. */
  lemma ChildFieldCompiled(env: Env, fuel: nat, table: string, parent: Option<ParentRef>, field: string, d: Dict)
    requires d.Valid() && EntriesWellFormed(d) && field in d.vals
    requires parent.Some? ==> EntriesWellFormed(parent.value.body)
    decreases fuel, 4, 1
    ensures var r := ChildField(env, fuel, table, parent, field, d);
      && r.1.Valid() && EntriesWellFormed(r.1)
      && (forall k :: k != field ==> (k in r.1.vals <==> k in d.vals))
      && (forall k :: k != field && k in r.1.vals ==> r.1.vals[k] == d.vals[k])
      && (field !in env.schema(table).tables ==> r.1 == d)
      && (r.0.Stack? && field in env.schema(table).tables && field in r.1.vals ==>
            ChildCompiled(env, field, r.1.vals[field]))
      && (r.0.Stack? && field in env.schema(table).tables && (d.vals[field].Obj? || d.vals[field].Arr?) ==>
            field in r.1.vals && (r.1.vals[field].Obj? <==> d.vals[field].Obj?))
  {
    var v := d.vals[field];
    var r := ChildField(env, fuel, table, parent, field, d);
    if field in env.schema(table).tables {
      if GetType(v) == "object" {
        ObjectFieldCompiled(env, fuel, table, parent, field, d);
      } else if GetType(v) == "array" {
        WalkArrayCompiled(env, fuel, table, field, d);
        assert r == WalkArray(env, fuel, table, field, d);
      } else {
        assert r == (Stack([]), d.Delete(field));
      }
    }
  }

  /** The object case of the child-table part: the child walked with the
      invocation's parent is written back, well formed, and is a finished
      node after a stack. */
  lemma ObjectFieldCompiled(env: Env, fuel: nat, table: string, parent: Option<ParentRef>, field: string, d: Dict)
    requires d.Valid() && EntriesWellFormed(d) && field in d.vals
    requires parent.Some? ==> EntriesWellFormed(parent.value.body)
    requires field in env.schema(table).tables && GetType(d.vals[field]) == "object"
    decreases fuel, 4, 0
    ensures var r := ChildField(env, fuel, table, parent, field, d);
      && r.1 == d.Set(field, r.1.vals[field])
      && WellFormed(r.1.vals[field])
      && (r.1.vals[field].Obj? <==> d.vals[field].Obj?)
      && (r.0.Stack? ==> ChildCompiled(env, field, r.1.vals[field]))
  {
    var v := d.vals[field];
    var c := WalkChild(env, fuel, field, v, CheckParent(parent, table, d));
    WalkChildCompiled(env, fuel, field, v, CheckParent(parent, table, d));
    assert ChildField(env, fuel, table, parent, field, d)
      == (if c.0.Error? then Fault(SpreadNotIterable) else c.0, d.Set(field, c.1));
  }

  /** The array loop changes no other key and keeps the body well formed;
      after a stack every object element at a filtered position is a
      finished node. */
  lemma WalkArrayCompiled(env: Env, fuel: nat, table: string, field: string, d: Dict)
    requires d.Valid() && EntriesWellFormed(d) && field in d.vals && d.vals[field].Arr?
    decreases fuel, 3, 0
    ensures var r := WalkArray(env, fuel, table, field, d);
      && r.1.Valid() && EntriesWellFormed(r.1)
      && (forall k :: k != field ==> (k in r.1.vals <==> k in d.vals))
      && (forall k :: k != field && k in r.1.vals ==> r.1.vals[k] == d.vals[k])
      && field in r.1.vals && r.1.vals[field].Arr?
      && (r.0.Stack? ==> ChildCompiled(env, field, r.1.vals[field]))
  {
    var es := d.vals[field].elems;
    var keys := Positions(es, |ObjectElements(es)|);
    ElementsFinished(env, fuel, table, field, d);
    WalkArrayShape(env, fuel, table, field, d, |keys|);
    assert keys[..|keys|] == keys;
    var r := WalkArray(env, fuel, table, field, d);
    ObjectElementsLength(es, r.1.vals[field].elems);
  }

  /** The array loop's invariant after the first i positions of the
      original array `es`: the body is well formed, the array keeps its
      length, the positions still to come are unchanged, and the object
      elements before position i are finished nodes. */
  ghost predicate ElementsVisited(env: Env, field: string, es: seq<Value>, i: nat, e: Dict) {
    && e.Valid() && EntriesWellFormed(e)
    && field in e.vals && e.vals[field].Arr? && |e.vals[field].elems| == |es| && i <= |es|
    && (forall m :: i <= m < |es| ==> e.vals[field].elems[m] == es[m])
    && (forall m :: 0 <= m < i && e.vals[field].elems[m].Obj? ==> Compiled(env, field, e.vals[field].elems[m]))
  }

  /** The array loop keeps the body well formed, and with a stack every
      object element at a filtered position is a finished node. */
  lemma ElementsFinished(env: Env, fuel: nat, table: string, field: string, d: Dict)
    requires d.Valid() && EntriesWellFormed(d) && field in d.vals && d.vals[field].Arr?
    decreases fuel, 2, 1
    ensures var es := d.vals[field].elems;
      var t := Thread(ElementStep(env, fuel, table, field), Positions(es, |ObjectElements(es)|), d);
      && t.1.Valid() && EntriesWellFormed(t.1)
      && (t.0.Stack? ==> ElementsVisited(env, field, es, |ObjectElements(es)|, t.1))
  {
    var es := d.vals[field].elems;
    var keys := Positions(es, |ObjectElements(es)|);
    var step := ElementStep(env, fuel, table, field);
    var ok := (e: Dict) => e.Valid() && EntriesWellFormed(e);
    var inv := (i: nat, e: Dict) => ElementsVisited(env, field, es, i, e);
    forall i, e | 0 <= i < |keys| && inv(i, e)
      ensures ok(step(keys[i], e).1) && (step(keys[i], e).0.Stack? ==> inv(i + 1, step(keys[i], e).1))
    {
      assert keys[i] == (i, es[i]);
      ElementsNext(env, fuel, table, field, es, i, e);
    }
    ThreadKeeps(step, keys, d, inv, ok, |keys|);
    assert keys[..|keys|] == keys;
  }

  /** Pass i of the array loop carries the loop's invariant to position
      i + 1 on a stack, and keeps the body well formed whatever it
      yields. */
  lemma ElementsNext(env: Env, fuel: nat, table: string, field: string, es: seq<Value>, i: nat, e: Dict)
    requires i < |es| && ElementsVisited(env, field, es, i, e)
    decreases fuel, 2, 0
    ensures var r := ElementStep(env, fuel, table, field)((i, es[i]), e);
      && r.1.Valid() && EntriesWellFormed(r.1)
      && (r.0.Stack? ==> ElementsVisited(env, field, es, i + 1, r.1))
  {
    var c := WalkChild(env, fuel, field, es[i], ParentRef(table, e));
    assert WellFormed(e.vals[field]);
    WalkChildCompiled(env, fuel, field, es[i], ParentRef(table, e));
    assert ElementStep(env, fuel, table, field)((i, es[i]), e)
      == (if c.0.Error? then Fault(SpreadNotIterable) else c.0, SetElement(e, field, i, c.1));
    ElementWritten(env, field, es, i, e, c.1, c.0.Stack?);
  }

  /** Writing a well-formed value back at position i keeps the body well
      formed, and writing a finished node or the original non-object
      element there carries the array loop's invariant to i + 1. */
  lemma ElementWritten(env: Env, field: string, es: seq<Value>, i: nat, e: Dict, v: Value, done: bool)
    requires i < |es| && ElementsVisited(env, field, es, i, e) && WellFormed(v)
    requires done && v.Obj? ==> Compiled(env, field, v)
    ensures var e' := SetElement(e, field, i, v);
      && e'.Valid() && EntriesWellFormed(e')
      && (done ==> ElementsVisited(env, field, es, i + 1, e'))
  {
    var elems := e.vals[field].elems[i := v];
    assert WellFormed(Arr(elems));
  }

  /** A child's walk keeps its value well formed, and after a stack or its
      own error an object child is a finished node. */
  lemma WalkChildCompiled(env: Env, fuel: nat, table: string, v: Value, parent: ParentRef)
    requires WellFormed(v) && EntriesWellFormed(parent.body)
    decreases fuel, 1, 0
    ensures var r := WalkChild(env, fuel, table, v, parent);
      && WellFormed(r.1)
      && ((r.0.Stack? || r.0.Error?) && v.Obj? ==> Compiled(env, table, r.1))
  {
    if v.Obj? {
      WalkCompiled(env, fuel, table, v.d, Some(parent));
    }
  }
}
