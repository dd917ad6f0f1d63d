/** JavaScript values as they arrive in a parsed JSON request body, with the
    handful of language operations the request compiler relies on: truthiness,
    `typeof`, own-property lookup, assignment and `delete` on plain objects. */
module Json {

  /** A JSON-derived JavaScript value. Numbers carry only what the compiler
      asks of them: an integral number keeps its value, any other number
      (finite and non-integral, since JSON has no NaN or Infinity) is a tag. */
  datatype Value =
    | Null
    | Undefined
    | Bool(b: bool)
    | Int(i: int)
    | NonIntNumber
    | Str(s: string)
    | Arr(elems: seq<Value>)
    | Obj(d: Dict)

  /** A plain object: its own keys in enumeration order and their values. */
  datatype Dict = Dict(keys: seq<string>, vals: map<string, Value>) {

    /** The keys listed are exactly the keys mapped, each listed once. */
    ghost predicate Valid() {
      && (forall k :: k in vals <==> k in keys)
      && Distinct(keys)
    }

    /** `obj[k]`: the own value, or undefined when the key is absent. */
    function Get(k: string): Value {
      if k in vals then vals[k] else Undefined
    }

    /** Property assignment: an existing key keeps its place, a new one goes last. */
    function Set(k: string, v: Value): (r: Dict)
      ensures r.vals == vals[k := v]
      ensures k in vals ==> r.keys == keys
      ensures k !in vals ==> r.keys == keys + [k]
      ensures Valid() ==> r.Valid()
    {
      if k in vals then Dict(keys, vals[k := v]) else Dict(keys + [k], vals[k := v])
    }

    /** `delete obj[k]`: the other keys keep their order. */
    function Delete(k: string): (r: Dict)
      ensures r.vals == vals - {k}
      ensures forall j :: j in r.keys <==> j in keys && j != k
      ensures k !in keys ==> r.keys == keys
      ensures Distinct(keys) ==> forall i :: 0 <= i < |keys| && keys[i] == k ==> r.keys == keys[..i] + keys[i + 1..]
      ensures Valid() ==> r.Valid()
    {
      WithoutOrder(keys, k);
      Dict(Without(keys, k), vals - {k})
    }
  }

  predicate Distinct(ks: seq<string>) {
    forall i, j :: 0 <= i < j < |ks| ==> ks[i] != ks[j]
  }

  /** `ks` with every occurrence of `k` removed, order kept. */
  function Without(ks: seq<string>, k: string): (r: seq<string>)
    ensures forall j :: j in r <==> j in ks && j != k
    ensures Distinct(ks) ==> Distinct(r)
    ensures |r| <= |ks|
  {
    if ks == [] then []
    else if ks[0] == k then Without(ks[1..], k)
    else
      var rest := Without(ks[1..], k);
      assert Distinct(ks) ==> Distinct(ks[1..]) && ks[0] !in ks[1..];
      [ks[0]] + rest
  }

  /** Removing a key keeps the order of the others: an absent key changes
      nothing, and in a list without repeats the key at position i leaves
      the keys before it followed by the keys after it. */
  lemma WithoutOrder(ks: seq<string>, k: string)
    ensures k !in ks ==> Without(ks, k) == ks
    ensures Distinct(ks) ==> forall i :: 0 <= i < |ks| && ks[i] == k ==> Without(ks, k) == ks[..i] + ks[i + 1..]
  {
    if k !in ks {
      WithoutAbsent(ks, k);
    }
    if Distinct(ks) {
      forall i | 0 <= i < |ks| && ks[i] == k
        ensures Without(ks, k) == ks[..i] + ks[i + 1..]
      {
        WithoutAt(ks, k, i);
      }
    }
  }

  lemma {:induction false} WithoutAbsent(ks: seq<string>, k: string)
    requires k !in ks
    ensures Without(ks, k) == ks
    decreases |ks|
  {
    if ks != [] {
      WithoutAbsent(ks[1..], k);
      assert ks == [ks[0]] + ks[1..];
    }
  }

  lemma {:induction false} WithoutAt(ks: seq<string>, k: string, i: nat)
    requires Distinct(ks) && i < |ks| && ks[i] == k
    ensures Without(ks, k) == ks[..i] + ks[i + 1..]
    decreases i
  {
    if i == 0 {
      assert k !in ks[1..];
      WithoutAbsent(ks[1..], k);
    } else {
      assert ks[0] != k;
      assert Distinct(ks[1..]);
      WithoutAt(ks[1..], k, i - 1);
      assert ks[..i] == [ks[0]] + ks[1..][..i - 1];
      assert ks[i + 1..] == ks[1..][i..];
    }
  }

  /** A parsed JSON value: every object's key list matches its entries,
      at every depth. */
  ghost predicate WellFormed(v: Value) {
    match v
    case Arr(es) => forall i :: 0 <= i < |es| ==> WellFormed(es[i])
    case Obj(d) => d.Valid() && forall k :: k in d.vals ==> WellFormed(d.vals[k])
    case _ => true
  }

  /** Every value of a dictionary is well formed. */
  ghost predicate EntriesWellFormed(d: Dict) {
    forall k :: k in d.vals ==> WellFormed(d.vals[k])
  }

  /** JavaScript's truthiness. A non-integral JSON number is never zero. */
  predicate Truthy(v: Value) {
    match v
    case Null => false
    case Undefined => false
    case Bool(b) => b
    case Int(i) => i != 0
    case NonIntNumber => true
    case Str(s) => s != ""
    case Arr(_) => true
    case Obj(_) => true
  }

  /** JavaScript's `typeof`: arrays and null are both "object". */
  function TypeOf(v: Value): string {
    match v
    case Null => "object"
    case Undefined => "undefined"
    case Bool(_) => "boolean"
    case Int(_) => "number"
    case NonIntNumber => "number"
    case Str(_) => "string"
    case Arr(_) => "object"
    case Obj(_) => "object"
  }

  /** get_type: "array" for arrays before `typeof` is consulted, a number
      split into "integer" and "number", otherwise the `typeof` name. */
  function GetType(v: Value): (r: string)
    ensures r == "array" <==> v.Arr?
    ensures r == "integer" <==> v.Int?
    ensures r == "number" <==> v.NonIntNumber?
    ensures !v.Arr? && TypeOf(v) != "number" ==> r == TypeOf(v)
    ensures r == "object" <==> v.Obj? || v.Null?
  {
    var t := if v.Arr? then "array" else TypeOf(v);
    if t == "number" then (if v.Int? then "integer" else "number") else t
  }
}
