# Request-body compiler of the POST middleware

This project models the part of `middleware/prepare_req.js` that turns a nested
create-request body into insert records. It covers:

- `get_date` and `get_type`, the value helpers;
- the column choice of `check_id`;
- `fill_child`, which copies a parent's field values into an empty child field;
- `check_object`, the per-node validator. It prunes dead id fields, inherits
  from the parent, checks required fields (error `C0002`) and unique fields
  (error `C0003`), hashes the password and defaults the date;
- `postception`, the recursive walk. It checks a node, visits every key of its
  body, descends into child-table objects and arrays, deletes keys outside the
  schema and id fields that name no stored row, and finally stamps the date.

The model is organised by module:

- `Json`: JavaScript values from a parsed JSON body. A plain object is a
  `Dict`, an ordered key list with a map. The module also gives truthiness,
  `typeof` and `get_type`.
- `Dates`: `get_date` on a given clock reading, with a parser as its inverse.
- `Naming`: the `slice`-based name derivations, `<table minus last letter>_id`
  and `<field minus "_id">s`, with their round trips.
- `Oracles`: the outside world as parameters. This is the schema lookup, the
  row-existence query behind `check_id`, the uniqueness check, the schema's
  `fill`, the password hash and the clock.
- `Bodies`: a request body as a mutable object (`class Body`). Each
  `obj[k] = v` and `delete obj[k]` of the source is a method that changes it
  in place.
- `Checks`: `fill_child` and `check_object` as methods on a `Body`. Each is
  proved equal to a function on values (`Inherit`, `PruneIds`, `Prepared`,
  `CheckObjectSpec`), and lemmas give the closed forms of those functions.
- `Walks`: `postception` as functions on values. `Walk` is a node,
  `WalkField` one pass of the field loop, `ChildField` its child-table part,
  `WalkArray` the array loop and `WalkChild` one recursive call. `Thread` is
  the loop shape both loops share: the steps run in order and the loop stops
  at the first step that yields no stack. Lemmas give each outcome in both
  directions, and say what a finished node looks like (`Compiled`) and what
  happened to each key that `check_object` left (`Settled`).
- `Compiler`: `postception` as mutually recursive methods on a `Body`. Each
  method is proved equal to the `Walks` function for the same part of the
  code, so every lemma about those functions holds of the methods.

The model follows the code, not what its names and comments suggest. In these
places the two differ:

- The stack only ever receives the spread results of the children. The
  node's own row from `check_object` is never pushed. A successful walk
  therefore yields the empty stack, and `Postception` proves `items == []`.
- A child that fails returns its error object. `stack.push(...error)` then
  throws, because a plain object is not iterable. So a nested error
  surfaces as a thrown `TypeError` (`Fault(SpreadNotIterable)`), not as the
  error itself. Only the root's own error is returned as a value.
- A failed root check does not stop the walk. Every key of the body is
  still visited, and children are still checked and changed.
- An object child is given the invocation's `parent` argument, not the
  current node. At the root that argument is the root itself. Below it, it
  is whatever the current node was given, and each object child hands it on
  unchanged. So in an object chain three or more levels deep, every level is
  handed the root, or, below an array, the node that holds that array. An
  array element is given the current node.
- The array case filters the array to its "object" elements. It then
  recurses on the element of the unfiltered array at each filtered index.
- `typeof null` is `"object"`, so a null child or element is recursed into,
  and reading a property of null throws (`Fault(PropertyOfNull)`).
- `stack_item.date` is never set, so every node's date is overwritten with
  today at the end of the walk, whatever value the body held.
- Inheritance and date defaulting test truthiness, not presence. A child
  value of `0`, `""` or `false` is replaced by a truthy parent value.

## Model

| member | source | states |
|---|---|---|
| Json.GetType | middleware/prepare_req.js:16-20 | "array" exactly for arrays; "integer" exactly for integral numbers; "number" exactly for other numbers; "object" exactly for objects and null; otherwise the `typeof` name |
| Json.Dict.Set | middleware/prepare_req.js:32 | property assignment: the entry is replaced, an existing key keeps its place, a new key goes last, and key/entry agreement is kept |
| Json.Dict.Delete | middleware/prepare_req.js:49 | `delete`: the entry is removed and no other; an absent key leaves the key list as it was, and a present key is cut out of it, the keys before it followed by the keys after it; key/entry agreement is kept |
| Json.Without | middleware/prepare_req.js:49 | removing a key from the key list: exactly the other keys remain, without repeats if there were none |
| Json.WithoutOrder | middleware/prepare_req.js:49 | removing a key keeps the order of the others: an absent key changes nothing, and the key at position i leaves the keys before it followed by the keys after it |
| Json.WithoutAbsent | middleware/prepare_req.js:49 | deleting a key the body does not hold leaves its key list unchanged |
| Json.WithoutAt | middleware/prepare_req.js:49 | deleting the key at position i of a list without repeats leaves the list with only that position cut out |
| Dates.NatToString | middleware/prepare_req.js:10-13 | template-literal rendering of a number: all decimal digits, no leading zero from 10 up, one digit below 10, two digits from 10 to 99 |
| Dates.ParseNatToString | middleware/prepare_req.js:10-13 | reading back the rendered digits gives the number again |
| Dates.Pad2 | middleware/prepare_req.js:11-12 | month and day below 100 render as two digits, with a leading '0' exactly below 10 |
| Dates.Pad2RoundTrip | middleware/prepare_req.js:11-12 | a padded month or day reads back as its value |
| Dates.GetDateRoundTrip | middleware/prepare_req.js:8-14 | for a valid month index and day, the date is `year-MM-DD`: dashes six and three characters from the end, a zero-padded month (`getMonth()+1`) and day, and parsing it back gives (year, monthIndex + 1, day) |
| Naming.DropLast | middleware/prepare_req.js:24 | `slice(0,-n)`: the prefix without the last n characters, or "" when the string is shorter |
| Naming.CheckIdColumn | middleware/prepare_req.js:24 | the column `check_id` queries: "id" for any id that is not a string, and a `<singular>_id` name for a string id |
| Naming.TableIdRoundTrip | middleware/prepare_req.js:41 | for a table ending in "s", the parent id field ends in "_id", and the id field maps back to the same table |
| Naming.IdFieldRoundTrip | middleware/prepare_req.js:110 | for a field ending in "_id", the derived table ends in "s", and its parent id field is the field again |
| Naming.CheckIdColumnOfIdField | middleware/prepare_req.js:24 | checking id field f with a string id queries column f itself; any other id queries "id" |
| Bodies.Body.constructor | middleware/prepare_req.js:91 | a child body holds the child object's keys and entries |
| Bodies.Body.Set | middleware/prepare_req.js:72 | assignment on a body changes it as `Dict.Set` does and keeps it well formed |
| Bodies.Body.Delete | middleware/prepare_req.js:103 | `delete` on a body changes it as `Dict.Delete` does and keeps it well formed |
| Checks.Inherit | middleware/prepare_req.js:30-35 | the values of `fill_child`: the child's keys are kept in order, and well-formedness is preserved |
| Checks.InheritAt | middleware/prepare_req.js:30-35 | key k takes the parent's value exactly when k is a schema field whose child value is falsy and whose parent value is truthy; otherwise it keeps its value and its presence |
| Checks.InheritSelf | middleware/prepare_req.js:30-35 | at the root, where the parent is the body itself, `fill_child` changes nothing |
| Checks.FillChild | middleware/prepare_req.js:30-35 | the loop over schema fields leaves the child equal to `Inherit` of its old contents and the parent's. This holds also when parent and child are the same body |
| Checks.KeepPresent | middleware/prepare_req.js:44 | the id fields kept are exactly those the body holds as own keys |
| Checks.KeepAbsent | middleware/prepare_req.js:60 | the fields kept are exactly those the body does not hold |
| Checks.Missing | middleware/prepare_req.js:58-60 | a field is missing exactly when it is required, is not the parent's id field, and is absent (presence, not truthiness) |
| Checks.PruneIds | middleware/prepare_req.js:45-50 | the id-check loop on values keeps the body well formed |
| Checks.CheckObjectWellFormed | middleware/prepare_req.js:38-77 | check_object leaves a well-formed body well formed, whatever its result, given a well-formed parent body to fill from |
| Checks.DropDeadIds | middleware/prepare_req.js:44-50 | the id-check loop deletes each id field the body holds whose value names no stored row, and leaves the body equal to `PruneIds` of the id fields it held |
| Checks.PruneIdsAt | middleware/prepare_req.js:45-50 | a key survives exactly when it was present and, if it is a checked id field, its value names a stored row; survivors keep their values |
| Checks.Hashed | middleware/prepare_req.js:70-72 | hashing the password keeps a well-formed body well formed |
| Checks.Dated | middleware/prepare_req.js:74 | defaulting the date keeps a well-formed body well formed |
| Checks.PreparedAt | middleware/prepare_req.js:44-53 | every key of the body the required check sees: a dead id is deleted first, and only then may the parent's truthy value take its place |
| Checks.CheckObjectErrors | middleware/prepare_req.js:58-68 | C0002 exactly when a required field other than the parent id field is absent, carrying `schema.required` and exactly the absent fields; otherwise C0003 exactly when the uniqueness check reports collisions, carrying its two lists; on either error the body stays pruned and filled but is neither hashed nor dated |
| Checks.CheckObjectPasses | middleware/prepare_req.js:58-76 | a row is produced exactly when every required field other than the parent's id field is present after pruning and filling, and the uniqueness check reports no collision |
| Checks.CheckObjectSuccess | middleware/prepare_req.js:70-76 | when a row is produced, it is the schema's `fill` of the final body; the password, when present, is replaced by its hash; the date is kept when truthy and set to today otherwise; no other key changes |
| Checks.CheckObject | middleware/prepare_req.js:38-77 | the method leaves the body and returns the result that `CheckObjectSpec` gives for the old body and the parent's body. The parent view is "this body" at the root |
| Walks.ObjectElements | middleware/prepare_req.js:95 | the filtered array is no longer than the array, and a value is in it exactly when the array holds it and its `get_type` is "object" |
| Walks.ObjectElementsCount | middleware/prepare_req.js:95 | every object or null is kept as many times as the array holds it, and no other value is kept |
| Walks.ObjectElementsSingle | middleware/prepare_req.js:95 | a single element is kept exactly when it is an object or null |
| Walks.ObjectElementsConcat | middleware/prepare_req.js:95 | the filter of a concatenation is the concatenation of the filters, so elements are kept in their order |
| Walks.ObjectElementsLength | middleware/prepare_req.js:95-96 | arrays that agree position by position on what is an "object" filter to the same length, so they get the same number of array passes |
| Walks.Thread | middleware/prepare_req.js:86-114 | the loop shape of both loops: if no step returns an error value, neither does the loop; if every step's stack is empty, so is the loop's |
| Walks.ThreadNext | middleware/prepare_req.js:86-114 | one more key: after a step without a stack the loop has stopped and nothing changes; otherwise the next key is stepped against the body left so far and its stack appended |
| Walks.ThreadStops | middleware/prepare_req.js:86-114 | once a step yields no stack (a throw), no later key is visited and the body stays as that step left it |
| Walks.ThreadStack | middleware/prepare_req.js:86-114 | the loop yields a stack exactly when every step does |
| Walks.ThreadFault | middleware/prepare_req.js:86-114 | the loop throws exactly when some step it reaches with a stack so far throws |
| Walks.ThreadFaultAt | middleware/prepare_req.js:86-114 | a step that throws, reached with a stack, is what the loop yields from then on |
| Walks.ThreadKeeps | middleware/prepare_req.js:86-114 | a property every step carries from one key to the next holds after the loop while the loop yields a stack, and one every step keeps holds after the loop whatever it yields |
| Walks.Walk | middleware/prepare_req.js:79-119 | postception on values: no fuel gives `Exhausted`, and a stack is always empty |
| Walks.WalkOutcome | middleware/prepare_req.js:83-118 | a node yields a stack exactly when its own check_object call passes and the field loop yields a stack; its own check_object error exactly when that call fails and the loop still yields a stack, carrying that error; otherwise whatever the loop threw |
| Walks.WalkFault | middleware/prepare_req.js:79-119 | a node throws exactly when some pass of its field loop, reached while the loop still had a stack, throws |
| Walks.WalkField | middleware/prepare_req.js:87-113 | one pass of the field loop never returns an error value, and its stack is empty |
| Walks.ChildField | middleware/prepare_req.js:87-105 | the child-table part of a pass never returns an error value, and its stack is empty |
| Walks.KeepField | middleware/prepare_req.js:106-113 | the key survives exactly when it was present, is a schema field, and, if it is an id field, names a stored row; no other entry changes |
| Walks.WalkArray | middleware/prepare_req.js:94-101 | the array loop never returns an error value, and its stack is empty |
| Walks.WalkChild | middleware/prepare_req.js:88-98 | one recursive call on a child value: its stack is empty, the value stays an object exactly when it was one, and any other value is left as it was |
| Walks.WalkFieldOutcome | middleware/prepare_req.js:87-105 | a key that is no child-table field passes with a stack; a null in a child-table field throws; an object there is walked with the invocation's parent (the node itself at the root), passes exactly when that walk yields a stack, throws `SpreadNotIterable` when it returns an error, and passes its throw on; an array goes to the array loop; any other value is deleted and the pass yields a stack |
| Walks.WalkFieldKeepsChild | middleware/prepare_req.js:89-113 | an object child that is a schema field and comes back with a stack and a live id stays at its key, holding the walked child |
| Walks.WalkArrayPass | middleware/prepare_req.js:95-99 | pass m of the array loop walks element m of the original, unfiltered array with the current node as parent, and turns the child's error into a thrown `SpreadNotIterable` |
| Walks.WalkArrayShape | middleware/prepare_req.js:94-101 | the first j array passes keep the body's keys and every other key, keep the array's length, leave non-object elements untouched and objects objects, and, while they yield a stack, leave the positions from j on untouched |
| Walks.ElementAhead | middleware/prepare_req.js:96-98 | while the array loop yields a stack, the element pass j reads is the one the array held when the loop began |
| Walks.ShapeWritten | middleware/prepare_req.js:98 | writing back an object for an object, or the element itself otherwise, keeps the array's shape and leaves the later positions as they were |
| Walks.WalkArrayNull | middleware/prepare_req.js:95-98 | a null in the unfiltered array at a filtered index means the array loop yields no stack |
| Walks.WalkArrayPrimitive | middleware/prepare_req.js:95-99 | a number, boolean, string or array in the unfiltered array at a filtered index, under a child schema that requires a field other than the parent's id field, means the array loop yields no stack |
| Walks.WalkChildOutcome | middleware/prepare_req.js:79-98 | a null or undefined child throws; an object child's outcome is the walk of its body with the given parent; any other value returns its check's error exactly when that check fails, and otherwise an empty stack |
| Walks.PrimitiveCheckOutcome | middleware/prepare_req.js:38-77 | check_object on a value without own properties: C0002 exactly when some required field is not the parent's id field, naming exactly those fields; otherwise C0003 exactly when the uniqueness check reports a collision, with its lists; otherwise the row is the schema's projection of the value |
| Walks.SettledFrame | middleware/prepare_req.js:86-114 | whether a key is settled depends only on that key's own entry |
| Walks.SettledStep | middleware/prepare_req.js:86-114 | visiting the next key settles it, keeps every earlier key settled and every later key as check_object left it, since the visit touches only that key |
| Walks.FinishNode | middleware/prepare_req.js:114-116 | once every key check_object left is settled, stamping the date gives a compiled node whose keys other than "date" all come from the checked body, and keeps every key settled |
| Walks.WalkCompiled | middleware/prepare_req.js:79-119 | a walk keeps a well-formed body well formed; on a stack or the node's own error the node is `Compiled` (its date is today, every other key is a schema field, every id field names a stored row, every child-table field holds a compiled child), no key but "date" was added, and every key check_object left is `Settled` |
| Walks.FieldsFinished | middleware/prepare_req.js:86-116 | the field loop keeps the body well formed, and with a stack, stamping the date yields a compiled node with every checked key settled and no key added but "date" |
| Walks.FieldsSettled | middleware/prepare_req.js:86-114 | the field loop keeps the body well formed, and with a stack it has added no key and settled every key |
| Walks.FieldsNext | middleware/prepare_req.js:86-114 | visiting key i keeps the body well formed and, with a stack, carries the loop's invariant to key i + 1 |
| Walks.VisitedStep | middleware/prepare_req.js:86-114 | a visit of key i that settles it and touches no other key carries the field loop's invariant to key i + 1 |
| Walks.WalkFieldSettled | middleware/prepare_req.js:87-113 | a pass changes no other key and keeps the body well formed; with a stack the key is settled: deleted, or a schema field with a live id holding a compiled child, a plain schema field with a live id keeps its value, and a child-table schema field that is no id field and held an object or an array is kept, an object exactly when it was one |
| Walks.ChildFieldCompiled | middleware/prepare_req.js:87-105 | the child-table part changes no other key and keeps the body well formed; a key that is no child-table field is untouched; with a stack a child-table field left holds a compiled child, and an object or array there stays an object or array |
| Walks.ObjectFieldCompiled | middleware/prepare_req.js:89-93 | the object case writes the walked child back to its key and nothing else, keeps it well formed and an object exactly when it was one, and after a stack the child is compiled |
| Walks.WalkArrayCompiled | middleware/prepare_req.js:94-101 | the array loop changes no other key, keeps the body well formed and the field an array, and after a stack every object element at a filtered index is compiled |
| Walks.ElementsFinished | middleware/prepare_req.js:96-100 | the array loop keeps the body well formed, and with a stack the array keeps its length and its object elements at filtered indices are compiled |
| Walks.ElementsNext | middleware/prepare_req.js:96-100 | array pass i keeps the body well formed and, with a stack, carries the array loop's invariant to position i + 1 |
| Walks.ElementWritten | middleware/prepare_req.js:98 | writing a well-formed value back at position i keeps the body well formed, and writing a compiled node there carries the array loop's invariant on |
| Walks.WalkChildCompiled | middleware/prepare_req.js:88-98 | a child's walk keeps its value well formed, and after a stack or its own error an object child is a compiled node |
| Compiler.Postception | middleware/prepare_req.js:79-119 | the method leaves the body and returns what `Walk` gives for the old body and the parent's old body; so no fuel gives `Exhausted` with the body unchanged, a stack is empty, a returned error is the node's own `check_object` error, a failed own check never yields a stack, and on a stack or an error the node is `Compiled` with every checked key `Settled` and no key added but "date" |
| Compiler.VisitFields | middleware/prepare_req.js:86-114 | the field loop over the keys check_object left leaves the body and returns what `Thread` of `WalkField` gives |
| Compiler.VisitNext | middleware/prepare_req.js:86-114 | one turn of the field loop extends `Thread` by one key |
| Compiler.VisitField | middleware/prepare_req.js:87-113 | one pass of the field loop leaves the body and returns what `WalkField` gives for the old body and the invocation's parent |
| Compiler.VisitChildField | middleware/prepare_req.js:87-105 | the child-table part of a pass leaves the body and returns what `ChildField` gives |
| Compiler.VisitArray | middleware/prepare_req.js:94-101 | the array loop leaves the body and returns what `WalkArray` gives for the old body |
| Compiler.VisitElement | middleware/prepare_req.js:96-99 | one array pass extends `Thread` of the array step by one position |
| Compiler.Descend | middleware/prepare_req.js:88-98 | the recursive call on one child value returns the outcome and the value `WalkChild` gives, and the value stays well formed |

## Left out

- The request dispatcher (lines 121-165) is not part of this model. Nor are
  the GET/PUT/DELETE branches, the `constraints.js` checks or the
  error-to-HTTP mapping in `errors.js`.
- The schema store, the row lookup behind `check_id`, `check.unique`,
  `schema.fill`, bcrypt's `hashSync` and the clock are parameters of the
  model (`Env`). Their own failures, and their rejections while awaited, are
  not modelled. bcrypt throwing on a non-string password is among these.
- `get_date` reads the clock once per call. The model reads one clock value
  per walk, so a walk that runs across midnight is not modelled. Years are
  natural numbers, so negative years from `getFullYear` are not modelled.
- `async`/`await` is modelled as sequential execution. Each awaited oracle
  call simply returns.
- The implicit globals `id` and `el` of the two `for…in` loops are treated as
  locals. Sharing them across concurrent requests is not modelled.
- Inherited properties: a parsed body inherits `Object.prototype`, and the
  model has only own keys. An own key can shadow an inherited member. A body
  key "hasOwnProperty" makes `body.hasOwnProperty(…)` a call of a non-function,
  so `check_object` throws at line 44, 60 or 71 of prepare_req.js. The model
  calls the real own-key test instead, and this throw is not modelled.
- A root body that is not a plain object is not modelled. A JSON array or a
  scalar as the whole request body cannot be given to `Postception`, which
  takes a `Body`. Such values are modelled only as children, through the index
  mix-up.
- `for…in` lists integer-like keys first, in ascending order. The model
  enumerates keys in insertion order.
- A string or array reached through the index mix-up is treated as a body
  with no own properties that ignores writes. Its index properties and
  `length`, and the writes an array would actually accept, are not modelled.
- A child object is compiled as a copy of its value and written back.
  `fill_child` can copy a reference to a parent's object into a child. Two
  keys then share one object, and a change made through one of them is not
  seen through the other in the model.
- Compiler.Postception: the walk need not terminate in the source. A child
  schema that lists its own child-table field among its `fields` inherits
  the parent's array and descends into it again. The model carries fuel and
  returns `Exhausted` when it runs out, so behaviour beyond the fuel bound is
  not modelled.
- Walks.WalkCompiled: after a thrown fault or exhausted fuel, it says only
  that the body stays well formed, not what the walk left in it. `Walk` itself
  gives that body exactly, and in the source the exception abandons the
  request.
- Walks.WalkFieldSettled: on a fault or exhausted fuel, it says only that
  other keys are unchanged, not what the visited key holds. `WalkField` gives
  that key exactly.
- Naming.CheckIdColumn: for a string id its own contract gives only the
  column's length. The exact name is stated by
  `Naming.CheckIdColumnOfIdField` for every id field.
