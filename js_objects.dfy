/** The two JavaScript value shapes the translator leans on: a value that may be
    `null`/`undefined`, and a plain object used as a string-keyed dictionary. */
module JsObjects {

  /** `None` stands for JavaScript's `null` or `undefined`. */
  datatype Option<T> = None | Some(value: T)

  /** A plain object used as a dictionary (`{[i: string]: V}`).  `keys` is the order
      `Object.keys` reports; assigning to a key that is already present keeps its
      position, a new key goes to the end. */
  datatype Dict<V> = Dict(keys: seq<string>, values: map<string, V>) {

    ghost predicate Valid() {
      (forall i, j :: 0 <= i < j < |keys| ==> keys[i] != keys[j]) &&
      (forall k :: k in values <==> k in keys)
    }

    /** `obj[k]`: undefined when the key is absent. */
    function Get(k: string): Option<V> {
      if k in values then Some(values[k]) else None
    }

    /** `obj[k] = v`. */
    function Put(k: string, v: V): (d: Dict<V>)
      requires Valid()
      ensures d.Valid()
      ensures d.values == values[k := v]
      ensures k in values ==> d.keys == keys
      ensures k !in values ==> d.keys == keys + [k]
    {
      if k in values then Dict(keys, values[k := v]) else Dict(keys + [k], values[k := v])
    }

    /** `Object.keys(obj).map((k) => obj[k])`. */
    function Elements(): (r: seq<V>)
      requires Valid()
      ensures |r| == |keys|
      ensures forall i :: 0 <= i < |keys| ==> r[i] == values[keys[i]]
    {
      seq(|keys|, i requires 0 <= i < |keys| => values[keys[i]])
    }

    /** A dictionary without entries has no keys. */
    lemma KeysOfEmpty()
      requires Valid()
      ensures (forall k :: k !in values) ==> keys == []
    {
      if keys != [] {
        assert keys[0] in values;
      }
    }

    /** After `obj[k] = v`, `obj[k]` is `v` and every other key reads as before. */
    lemma PutGet(k: string, v: V, k2: string)
      requires Valid()
      ensures Put(k, v).Get(k) == Some(v)
      ensures k2 != k ==> Put(k, v).Get(k2) == Get(k2)
    {
    }

    /** After `obj[k] = v`, the values in key order are the old ones with `v` appended
        when `k` is new, and the old ones with `v` in `k`'s place when it is not. */
    lemma PutElements(k: string, v: V)
      requires Valid()
      ensures k !in values ==> Put(k, v).Elements() == Elements() + [v]
      ensures k in values ==> exists i :: 0 <= i < |keys| && keys[i] == k && Put(k, v).Elements() == Elements()[i := v]
    {
      var d := Put(k, v);
      if k in values {
        var i :| 0 <= i < |keys| && keys[i] == k;
        forall j | 0 <= j < |keys|
          ensures d.Elements()[j] == Elements()[i := v][j]
        {
          if j != i {
            assert keys[j] != k;
          }
        }
        assert d.Elements() == Elements()[i := v];
      } else {
        forall j | 0 <= j < |keys|
          ensures d.Elements()[j] == (Elements() + [v])[j]
        {
          assert keys[j] in values;
        }
        assert d.Elements() == Elements() + [v];
      }
    }
  }

  /** `{}` */
  function EmptyDict<V>(): (d: Dict<V>)
    ensures d.Valid() && d.keys == [] && d.values == map[]
  {
    Dict([], map[])
  }
}
