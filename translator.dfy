/** The whole translation, from the parsed type dump to the text of the declaration
    file: the registry is built from the document, the package tree from the
    registry, and the `nape`/`zpp_nape` packages of the tree are printed. */
module Translator {
  import opened JsObjects
  import opened Strings
  import opened Xml
  import opened HaxeTypes
  import Extractor
  import opened Packages
  import opened EmitterText
  import opened Emitter

  /** Prints a built tree from its root with a fresh emitter: the text of the tree's
      value, `None` where a print throws. */
  method PrintTree(root: Package, ghost byPath: map<seq<string>, Package>, ghost view: map<seq<string>, Node>,
                   ghost bound: nat)
    returns (output: Option<string>)
    requires Synced(byPath, view) && Shape(byPath, view, bound) && root == byPath[[]]
    ensures output == Output(Abs(byPath, view, bound, []))
  {
    var emitter := new Emitter();
    var ok := emitter.PrintRoot(root, byPath, view, bound);
    ghost var v := Abs(byPath, view, bound, []);
    assert ok == RootText(v, |v.packages|, 0).Some?;
    if ok {
      assert emitter.buffer == [] + RootText(v, |v.packages|, 0).value;
      assert emitter.buffer == RootText(v, |v.packages|, 0).value;
      output := Some(Concat(emitter.buffer));
    } else {
      output := None;
    }
  }

  /** The file text, `None` where printing throws.  The tree the text is printed from
      holds every registered class at its path and no other class, and every package
      in it lies on the way to the package of a registered path; so a document with no
      class gives the empty file. */
  method Translate(doc: Elem)
    returns (output: Option<string>, ghost byPath: map<seq<string>, Package>, ghost view: map<seq<string>, Node>,
             ghost bound: nat)
    requires Extractor.WellFormedDocument(doc.children)
    ensures Synced(byPath, view) && Shape(byPath, view, bound) && [] in view
    ensures output == Output(Abs(byPath, view, bound, []))
    ensures var types := Extractor.Registry(doc.children);
            (forall k :: k in types.values ==> Placed(byPath, k, types.values[k])) &&
            (forall d, t :: d in byPath && t in byPath[d].childTypes.values ==>
               exists k :: k in types.values && InitParts(k, '.') == d && LastPart(k, '.') == t) &&
            (forall d :: d in byPath ==> d == [] || exists k :: k in types.values && d <= InitParts(k, '.'))
    ensures Extractor.Registry(doc.children).keys == [] ==> output == Some("")
  {
    var types := Extractor.BuildRegistry(doc);
    var root;
    root, byPath, view, bound := BuildPackageTree(types);
    output := PrintTree(root, byPath, view, bound);
    if types.keys == [] {
      EmptyRegistryTree(types, byPath);
      RootAloneOutput(byPath, view, bound);
    }
  }
}
