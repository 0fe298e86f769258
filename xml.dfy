/** The parsed type dump: an XML element with its tag name, its attribute map and its
    element children in document order (what `xmldoc` hands the translator). */
module Xml {
  import opened JsObjects

  datatype Elem = Elem(name: string, attr: map<string, string>, children: seq<Elem>)

  /** `elem.attr[key]`: undefined when the attribute is absent. */
  function Attr(e: Elem, key: string): Option<string> {
    if key in e.attr then Some(e.attr[key]) else None
  }

  /** `elem.attr[key] === value` */
  predicate AttrIs(e: Elem, key: string, value: string) {
    key in e.attr && e.attr[key] == value
  }

  /** `elem.attr[key] === value` holds exactly when the lookup yields that value, so
      an absent attribute equals no string. */
  lemma AttrIsLookup(e: Elem, key: string, value: string)
    ensures AttrIs(e, key, value) <==> Attr(e, key) == Some(value)
    ensures Attr(e, key).None? ==> !AttrIs(e, key, value)
  {
  }

  /** `elem.childNamed(name)`: the first child with that tag, or undefined. */
  function ChildNamed(cs: seq<Elem>, name: string): (r: Option<Elem>)
    ensures r.None? <==> forall i :: 0 <= i < |cs| ==> cs[i].name != name
    ensures r.Some? ==> exists i :: 0 <= i < |cs| && cs[i] == r.value && cs[i].name == name &&
                                   forall j :: 0 <= j < i ==> cs[j].name != name
    decreases |cs|
  {
    if cs == [] then None
    else if cs[0].name == name then Some(cs[0])
    else
      var r := ChildNamed(cs[1..], name);
      assert r.Some? ==> exists i :: 0 <= i < |cs[1..]| && cs[1..][i] == r.value && cs[1..][i].name == name &&
                                     forall j :: 0 <= j < i ==> cs[1..][j].name != name;
      assert r.Some? ==> exists i :: 1 <= i < |cs| && cs[i] == r.value && cs[i].name == name &&
                                     forall j :: 0 <= j < i ==> cs[j].name != name;
      r
  }
}
