/** The request body being compiled: one JavaScript object, changed in place
    by assignments and `delete`. Objects nested in it are values of its
    entries. */
module Bodies {
  import opened Json

  class Body {
    var keys: seq<string>
    var vals: map<string, Value>

    /** Keys and entries agree, and every entry is a parsed JSON value. */
    ghost predicate Valid()
      reads this
    {
      Snapshot().Valid() && EntriesWellFormed(Snapshot())
    }

    /** The object's current contents as a value. */
    function Snapshot(): Dict
      reads this
    {
      Dict(keys, vals)
    }

    /** `body[k]` */
    function Get(k: string): Value
      reads this
    {
      Snapshot().Get(k)
    }

    /** Whether the body holds k as an own key. */
    function Has(k: string): bool
      reads this
    {
      k in vals
    }

    constructor (d: Dict)
      requires d.Valid() && EntriesWellFormed(d)
      ensures Valid() && Snapshot() == d
    {
      keys := d.keys;
      vals := d.vals;
    }

    /** Property assignment on the body. */
    method Set(k: string, v: Value)
      requires Valid() && WellFormed(v)
      modifies this
      ensures Valid() && Snapshot() == old(Snapshot()).Set(k, v)
    {
      if k !in vals {
        keys := keys + [k];
      }
      vals := vals[k := v];
    }

    /** `delete body[k]` */
    method Delete(k: string)
      requires Valid()
      modifies this
      ensures Valid() && Snapshot() == old(Snapshot()).Delete(k)
    {
      keys := Without(keys, k);
      vals := vals - {k};
    }
  }
}
