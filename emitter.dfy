/** The declaration printer: a buffer of strings and an indentation level, updated in
    place as the package tree is walked.  Every printing method is proved to push
    exactly the pieces the matching function of `EmitterText` describes, and to fail
    exactly when that function does. */
module Emitter {
  import opened JsObjects
  import opened Strings
  import opened HaxeTypes
  import opened Packages
  import opened EmitterText

  /** The package at `d`, with everything below it, read off the snapshot `view` of
      the package tree. */
  ghost function Abs(byPath: map<seq<string>, Package>, view: map<seq<string>, Node>, bound: nat, d: seq<string>): (v: PackageValue)
    requires Shape(byPath, view, bound) && d in view
    ensures v.name == view[d].name && v.types == view[d].childTypes.Elements()
    ensures |v.packages| == |view[d].childPackages.keys|
    decreases bound - |d|, 1
  {
    PackageValue(view[d].name, AbsKids(byPath, view, bound, d, |view[d].childPackages.keys|), view[d].childTypes.Elements())
  }

  /** The first `n` child packages of the package at `d`, in key order. */
  ghost function AbsKids(byPath: map<seq<string>, Package>, view: map<seq<string>, Node>, bound: nat, d: seq<string>, n: nat): (r: seq<PackageValue>)
    requires Shape(byPath, view, bound) && d in view && n <= |view[d].childPackages.keys|
    ensures |r| == n
    decreases bound - |d|, 0, n
  {
    if n == 0 then []
    else
      var k := view[d].childPackages.keys[n - 1];
      assert k in view[d].childPackages.values;
      AbsKids(byPath, view, bound, d, n - 1) + [Abs(byPath, view, bound, d + [k])]
  }

  lemma {:induction false} AbsKidsAt(byPath: map<seq<string>, Package>, view: map<seq<string>, Node>, bound: nat,
                                     d: seq<string>, n: nat, i: nat)
    requires Shape(byPath, view, bound) && d in view && i < n <= |view[d].childPackages.keys|
    ensures var k := view[d].childPackages.keys[i];
            d + [k] in view && AbsKids(byPath, view, bound, d, n)[i] == Abs(byPath, view, bound, d + [k])
    decreases n
  {
    var k := view[d].childPackages.keys[i];
    assert k in view[d].childPackages.values;
    if i < n - 1 {
      AbsKidsAt(byPath, view, bound, d, n - 1, i);
    }
  }

  /** The `i`th child package of the package at `d` is the package at `d + [k]`, where
      `k` is the `i`th key of its `childPackages`; its parent is the package at `d`. */
  lemma AbsChild(byPath: map<seq<string>, Package>, view: map<seq<string>, Node>, bound: nat, d: seq<string>, i: nat)
    requires Shape(byPath, view, bound) && d in view && i < |view[d].childPackages.keys|
    ensures var k := view[d].childPackages.keys[i];
            d + [k] in view && view[d].childPackages.Elements()[i] == byPath[d + [k]] &&
            view[d + [k]].parent == byPath[d] &&
            Abs(byPath, view, bound, d).packages[i] == Abs(byPath, view, bound, d + [k])
  {
    var k := view[d].childPackages.keys[i];
    assert k in view[d].childPackages.values;
    AbsKidsAt(byPath, view, bound, d, |view[d].childPackages.keys|, i);
  }

  /** A tree that holds the root alone prints to the empty file. */
  lemma RootAloneOutput(byPath: map<seq<string>, Package>, view: map<seq<string>, Node>, bound: nat)
    requires Shape(byPath, view, bound) && forall d :: d in view ==> d == []
    ensures Output(Abs(byPath, view, bound, [])) == Some("")
  {
    assert forall k :: k in view[[]].childPackages.values ==> [] + [k] in view;
    view[[]].childPackages.KeysOfEmpty();
  }

  class Emitter {
    var buffer: seq<string>
    var indentationLevel: int

    constructor ()
      ensures buffer == [] && indentationLevel == 0
    {
      buffer := [];
      indentationLevel := 0;
    }

    method Indent()
      modifies this
      ensures indentationLevel == old(indentationLevel) + 1 && buffer == old(buffer)
    {
      indentationLevel := indentationLevel + 1;
    }

    method Outdent()
      modifies this
      ensures indentationLevel == old(indentationLevel) - 1 && buffer == old(buffer)
    {
      indentationLevel := indentationLevel - 1;
    }

    method Print(s: string)
      modifies this
      ensures buffer == old(buffer) + [s] && indentationLevel == old(indentationLevel)
    {
      buffer := buffer + [s];
    }

    method PrintIndent()
      modifies this
      ensures buffer == old(buffer) + Indentation(indentationLevel)
      ensures indentationLevel == old(indentationLevel)
    {
      var i := 0;
      while i < indentationLevel
        invariant 0 <= i <= if indentationLevel > 0 then indentationLevel else 0
        invariant buffer == old(buffer) + Indentation(i)
        invariant indentationLevel == old(indentationLevel)
      {
        Print(Tab);
        AppendAssoc(old(buffer), Indentation(i), [Tab]);
        i := i + 1;
      }
      assert Indentation(i) == Indentation(indentationLevel);
    }

    /** `printType2(type)`: `false` where the source throws. */
    method PrintType2(t: HaxeType) returns (ok: bool)
      modifies this
      ensures indentationLevel == old(indentationLevel)
      ensures ok == TypeText(t).Some?
      ensures ok ==> buffer == old(buffer) + TypeText(t).value
      decreases t, 2
    {
      match t
      case Function(_, ret) =>
        Print("(");
        ok := PrintArgs(t, false);
        if !ok {
          return;
        }
        ghost var a := ArgsText(t, |t.args|, false).value;
        AppendAssoc(old(buffer), ["("], a);
        Print(") => ");
        AppendAssoc(old(buffer), ["("] + a, [") => "]);
        ok := PrintType2(ret);
        if ok {
          AppendAssoc(old(buffer), ["("] + a + [") => "], TypeText(ret).value);
        }
      case Named(kind, path, _, isArray) =>
        if kind == DYNAMIC {
          Print("any");
        } else if kind == NORMAL {
          Print(NormalName(path));
        } else {
          return false;
        }
        ghost var head := if kind == DYNAMIC then "any" else NormalName(path);
        if isArray {
          Print("[]");
          AppendAssoc(old(buffer), [head], ["[]"]);
        }
        ok := true;
    }

    /** The body of `args.forEach((arg, i) => …)`, in a function type (`marks` unset)
        or in a method signature (`marks` set). */
    method PrintArg(t: HaxeType, i: nat, marks: bool) returns (ok: bool)
      requires t.Function? && i < |t.args|
      modifies this
      ensures indentationLevel == old(indentationLevel)
      ensures ok == ArgText(t, i, marks).Some?
      ensures ok ==> buffer == old(buffer) + ArgText(t, i, marks).value
      decreases t, 0
    {
      var head := ArgHead(t.args[i], i, marks);
      if i > 0 {
        Print(", ");
        Print(head);
        AppendAssoc(old(buffer), [", "], [head]);
      } else {
        Print(head);
      }
      ghost var pre := if i > 0 then [", "] + [head] else [head];
      ok := PrintType2(t.args[i].ty);
      if ok {
        AppendAssoc(old(buffer), pre, TypeText(t.args[i].ty).value);
      }
    }

    method PrintArgs(t: HaxeType, marks: bool) returns (ok: bool)
      requires t.Function?
      modifies this
      ensures indentationLevel == old(indentationLevel)
      ensures ok == ArgsText(t, |t.args|, marks).Some?
      ensures ok ==> buffer == old(buffer) + ArgsText(t, |t.args|, marks).value
      decreases t, 1
    {
      var i := 0;
      while i < |t.args|
        invariant 0 <= i <= |t.args| && indentationLevel == old(indentationLevel)
        invariant ArgsText(t, i, marks).Some?
        invariant buffer == old(buffer) + ArgsText(t, i, marks).value
      {
        ok := PrintArg(t, i, marks);
        if !ok {
          ArgsTextDefined(t, |t.args|, marks);
          return;
        }
        AppendAssoc(old(buffer), ArgsText(t, i, marks).value, ArgText(t, i, marks).value);
        i := i + 1;
      }
      ok := true;
    }

    /** The body of `fields.forEach((field) => …)`. */
    method PrintField(f: Field, prefix: string) returns (ok: bool)
      modifies this
      ensures indentationLevel == old(indentationLevel)
      ensures ok == FieldText(f, indentationLevel, prefix).Some?
      ensures ok ==> buffer == old(buffer) + FieldText(f, indentationLevel, prefix).value
    {
      if !f.isPublic {
        assert buffer == old(buffer) + [];
        return true;
      }
      ghost var ind := Indentation(indentationLevel);
      PrintIndent();
      Print(prefix + f.name + ": ");
      AppendAssoc(old(buffer), ind, [prefix + f.name + ": "]);
      ok := PrintType2(f.ty);
      if !ok {
        return;
      }
      ghost var ty := TypeText(f.ty).value;
      AppendAssoc(old(buffer), ind + [prefix + f.name + ": "], ty);
      Print(";\n");
      AppendAssoc(old(buffer), ind + [prefix + f.name + ": "] + ty, [";\n"]);
    }

    /** The `fields.forEach` (or `staticFields.forEach`) loop of `printType`. */
    method PrintFields(fs: seq<Field>, prefix: string) returns (ok: bool)
      modifies this
      ensures indentationLevel == old(indentationLevel)
      ensures ok == FieldsText(fs, indentationLevel, prefix).Some?
      ensures ok ==> buffer == old(buffer) + FieldsText(fs, indentationLevel, prefix).value
    {
      var i := 0;
      while i < |fs|
        invariant 0 <= i <= |fs| && indentationLevel == old(indentationLevel)
        invariant FieldsText(fs[..i], indentationLevel, prefix).Some?
        invariant buffer == old(buffer) + FieldsText(fs[..i], indentationLevel, prefix).value
      {
        assert fs[..i + 1][..i] == fs[..i];
        ok := PrintField(fs[i], prefix);
        if !ok {
          FieldsTextDefined(fs, indentationLevel, prefix);
          return;
        }
        AppendAssoc(old(buffer), FieldsText(fs[..i], indentationLevel, prefix).value,
                    FieldText(fs[i], indentationLevel, prefix).value);
        i := i + 1;
      }
      assert fs[..i] == fs;
      ok := true;
    }

    /** The body of `methods.forEach((method) => …)`: a constructor for `new`,
        otherwise a method with its return type. */
    method PrintMethod(m: Method) returns (ok: bool)
      modifies this
      ensures indentationLevel == old(indentationLevel)
      ensures ok == MethodText(m, indentationLevel).Some?
      ensures ok ==> buffer == old(buffer) + MethodText(m, indentationLevel).value
    {
      if !m.isPublic {
        assert buffer == old(buffer) + [];
        return true;
      }
      ghost var ind := Indentation(indentationLevel);
      PrintIndent();
      var isConstructor := m.name == "new";
      var head := if isConstructor then "constructor(" else "public " + m.name + "(";
      Print(head);
      AppendAssoc(old(buffer), ind, [head]);
      if !m.ty.Function? {
        return false;
      }
      ok := PrintArgs(m.ty, true);
      if !ok {
        return;
      }
      ghost var a := ArgsText(m.ty, |m.ty.args|, true).value;
      AppendAssoc(old(buffer), ind + [head], a);
      Print(")");
      AppendAssoc(old(buffer), ind + [head] + a, [")"]);
      ghost var signature := ind + [head] + a + [")"];
      if !isConstructor {
        Print(": ");
        AppendAssoc(old(buffer), signature, [": "]);
        ok := PrintType2(m.ty.returnType);
        if !ok {
          return;
        }
        ghost var rt := TypeText(m.ty.returnType).value;
        AppendAssoc(old(buffer), signature + [": "], rt);
        Print(";\n");
        AppendAssoc(old(buffer), signature + [": "] + rt, [";\n"]);
      } else {
        Print(";\n");
        AppendAssoc(old(buffer), signature, [";\n"]);
      }
    }

    method PrintMethods(ms: seq<Method>) returns (ok: bool)
      modifies this
      ensures indentationLevel == old(indentationLevel)
      ensures ok == MethodsText(ms, indentationLevel).Some?
      ensures ok ==> buffer == old(buffer) + MethodsText(ms, indentationLevel).value
    {
      var i := 0;
      while i < |ms|
        invariant 0 <= i <= |ms| && indentationLevel == old(indentationLevel)
        invariant MethodsText(ms[..i], indentationLevel).Some?
        invariant buffer == old(buffer) + MethodsText(ms[..i], indentationLevel).value
      {
        assert ms[..i + 1][..i] == ms[..i];
        ok := PrintMethod(ms[i]);
        if !ok {
          MethodsTextDefined(ms, indentationLevel);
          return;
        }
        AppendAssoc(old(buffer), MethodsText(ms[..i], indentationLevel).value,
                    MethodText(ms[i], indentationLevel).value);
        i := i + 1;
      }
      assert ms[..i] == ms;
      ok := true;
    }

    /** The opening line of `printType(type)`, up to and including `" {\n"`. */
    method PrintClassHead(c: HaxeClass)
      modifies this
      ensures indentationLevel == old(indentationLevel)
      ensures buffer == old(buffer) + ClassHead(c, indentationLevel)
    {
      ghost var ind := Indentation(indentationLevel);
      PrintIndent();
      Print("export ");
      AppendAssoc(old(buffer), ind, ["export "]);
      Print("class");
      AppendAssoc(old(buffer), ind + ["export "], ["class"]);
      Print(" " + c.name);
      AppendAssoc(old(buffer), ind + ["export "] + ["class"], [" " + c.name]);
      ghost var open := ind + ["export "] + ["class"] + [" " + c.name];
      if c.parent.Some? && c.parent.value != "" {
        Print(" extends " + c.parent.value);
        AppendAssoc(old(buffer), open, [" extends " + c.parent.value]);
        open := open + [" extends " + c.parent.value];
      }
      Print(" {\n");
      AppendAssoc(old(buffer), open, [" {\n"]);
    }

    /** `printType(type)` for a class. */
    method PrintType(c: HaxeClass) returns (ok: bool)
      modifies this
      ensures indentationLevel == old(indentationLevel)
      ensures ok == ClassText(c, indentationLevel).Some?
      ensures ok ==> buffer == old(buffer) + ClassText(c, indentationLevel).value
    {
      ghost var level := indentationLevel;
      PrintClassHead(c);
      ghost var acc := ClassHead(c, level);
      Indent();
      ok := PrintFields(c.fields, "public ");
      if ok {
        ghost var fs := FieldsText(c.fields, level + 1, "public ").value;
        AppendAssoc(old(buffer), acc, fs);
        acc := acc + fs;
        ok := PrintFields(c.staticFields, "public static ");
      }
      if ok {
        ghost var sfs := FieldsText(c.staticFields, level + 1, "public static ").value;
        AppendAssoc(old(buffer), acc, sfs);
        acc := acc + sfs;
        ok := PrintMethods(c.methods);
      }
      Outdent();
      if !ok {
        return;
      }
      ghost var ms := MethodsText(c.methods, level + 1).value;
      AppendAssoc(old(buffer), acc, ms);
      acc := acc + ms;
      PrintIndent();
      AppendAssoc(old(buffer), acc, Indentation(level));
      acc := acc + Indentation(level);
      Print("}\n");
      AppendAssoc(old(buffer), acc, ["}\n"]);
    }

    /** The `getChildTypes().forEach(printType)` loop. */
    method PrintTypes(cs: seq<HaxeClass>) returns (ok: bool)
      modifies this
      ensures indentationLevel == old(indentationLevel)
      ensures ok == TypesText(cs, indentationLevel).Some?
      ensures ok ==> buffer == old(buffer) + TypesText(cs, indentationLevel).value
    {
      var i := 0;
      while i < |cs|
        invariant 0 <= i <= |cs| && indentationLevel == old(indentationLevel)
        invariant TypesText(cs[..i], indentationLevel).Some?
        invariant buffer == old(buffer) + TypesText(cs[..i], indentationLevel).value
      {
        assert cs[..i + 1][..i] == cs[..i];
        ok := PrintType(cs[i]);
        if !ok {
          TypesTextDefined(cs, indentationLevel);
          return;
        }
        AppendAssoc(old(buffer), TypesText(cs[..i], indentationLevel).value,
                    ClassText(cs[i], indentationLevel).value);
        i := i + 1;
      }
      assert cs[..i] == cs;
      ok := true;
    }

    /** The opening line of `printPackage(pkg)` and its imports; the level is raised
        by one on the way. */
    method PrintPackageHead(name: Option<string>, parentName: Option<string>)
      modifies this
      ensures indentationLevel == old(indentationLevel) + 1
      ensures buffer == old(buffer) + PackageHead(name, old(indentationLevel), parentName)
    {
      ghost var ind := Indentation(indentationLevel);
      ghost var inner := Indentation(indentationLevel + 1);
      PrintIndent();
      var head := if parentName == None then "declare module \"" + NameText(name) + "\""
                  else "export module " + NameText(name);
      Print(head);
      AppendAssoc(old(buffer), ind, [head]);
      Print(" {\n");
      AppendAssoc(old(buffer), ind + [head], [" {\n"]);
      ghost var acc := ind + [head] + [" {\n"];
      Indent();
      if name == Some("nape") || name == Some("zpp_nape") {
        PrintIndent();
        AppendAssoc(old(buffer), acc, inner);
        Print(ImportLine("zpp_nape"));
        AppendAssoc(old(buffer), acc + inner, [ImportLine("zpp_nape")]);
        PrintIndent();
        AppendAssoc(old(buffer), acc + inner + [ImportLine("zpp_nape")], inner);
        Print(ImportLine("nape"));
        AppendAssoc(old(buffer), acc + inner + [ImportLine("zpp_nape")] + inner, [ImportLine("nape")]);
      }
      if name == Some("sandbox") {
        PrintIndent();
        AppendAssoc(old(buffer), acc, inner);
        Print(ImportLine("sandbox"));
        AppendAssoc(old(buffer), acc + inner, [ImportLine("sandbox")]);
      }
    }

    /** `printPackage(pkg)` for the package at `d` of a package tree. */
    method PrintPackage(p: Package, ghost byPath: map<seq<string>, Package>, ghost view: map<seq<string>, Node>,
                        ghost bound: nat, ghost d: seq<string>)
      returns (ok: bool)
      requires Synced(byPath, view) && Shape(byPath, view, bound) && d in view && p == byPath[d] && p.parent != null
      modifies this
      ensures indentationLevel == old(indentationLevel)
      ensures ok == PackageText(Abs(byPath, view, bound, d), indentationLevel, old(p.parent.name)).Some?
      ensures ok ==> buffer == old(buffer) + PackageText(Abs(byPath, view, bound, d), indentationLevel, old(p.parent.name)).value
      decreases bound - |d|, 4
    {
      ghost var level := indentationLevel;
      assert NodeOf(p) == view[d];
      var parentName := p.parent.name;
      PrintPackageHead(p.name, parentName);
      ok := PrintPackageBody(p, byPath, view, bound, d);
      if ok {
        AppendAssoc(old(buffer), PackageHead(p.name, level, parentName),
                    PackageBody(Abs(byPath, view, bound, d), level).value);
      }
    }

    /** The rest of `printPackage(pkg)` once the opening line is written and the
        indentation raised: child packages, classes, then the closing brace one level out. */
    method PrintPackageBody(p: Package, ghost byPath: map<seq<string>, Package>, ghost view: map<seq<string>, Node>,
                            ghost bound: nat, ghost d: seq<string>)
      returns (ok: bool)
      requires Synced(byPath, view) && Shape(byPath, view, bound) && d in view && p == byPath[d]
      modifies this
      ensures indentationLevel == old(indentationLevel) - 1
      ensures ok == PackageBody(Abs(byPath, view, bound, d), indentationLevel).Some?
      ensures ok ==> buffer == old(buffer) + PackageBody(Abs(byPath, view, bound, d), indentationLevel).value
      decreases bound - |d|, 3
    {
      ghost var v := Abs(byPath, view, bound, d);
      ok := PrintPackages(p, byPath, view, bound, d);
      if !ok {
        Outdent();
        return;
      }
      ghost var kidsText := PackagesText(v, |v.packages|, indentationLevel).value;
      assert NodeOf(p) == view[d];
      ok := PrintTypes(p.ChildTypes());
      Outdent();
      if !ok {
        return;
      }
      ghost var ts := TypesText(v.types, indentationLevel + 1).value;
      AppendAssoc(old(buffer), kidsText, ts);
      ghost var acc := kidsText + ts;
      PrintIndent();
      AppendAssoc(old(buffer), acc, Indentation(indentationLevel));
      acc := acc + Indentation(indentationLevel);
      Print("}\n");
      AppendAssoc(old(buffer), acc, ["}\n"]);
    }

    /** `printPackage` on the `i`th child of the package at `d`, whose texts are `texts`. */
    method PrintChildPackage(p: Package, ghost byPath: map<seq<string>, Package>, ghost view: map<seq<string>, Node>,
                             ghost bound: nat, ghost d: seq<string>, i: nat, ghost texts: seq<Option<seq<string>>>)
      returns (ok: bool)
      requires Synced(byPath, view) && Shape(byPath, view, bound) && d in view && p == byPath[d]
      requires ChildTexts(texts, Abs(byPath, view, bound, d), indentationLevel) && i < |texts|
      modifies this
      ensures indentationLevel == old(indentationLevel)
      ensures ok == texts[i].Some? && (ok ==> buffer == old(buffer) + texts[i].value)
      decreases bound - |d|, 0
    {
      AbsChild(byPath, view, bound, d, i);
      assert texts[i] == ChildText(Abs(byPath, view, bound, d), indentationLevel, i);
      ghost var k := view[d].childPackages.keys[i];
      assert NodeOf(p) == view[d];
      var kid := p.ChildPackages()[i];
      assert NodeOf(kid) == view[d + [k]];
      ok := PrintPackage(kid, byPath, view, bound, d + [k]);
    }

    /** The `getChildPackages().forEach(printPackage)` loop of the package at `d`,
        stated over the texts of the children. */
    method PrintChildPackages(p: Package, ghost byPath: map<seq<string>, Package>, ghost view: map<seq<string>, Node>,
                              ghost bound: nat, ghost d: seq<string>, ghost texts: seq<Option<seq<string>>>)
      returns (ok: bool)
      requires Synced(byPath, view) && Shape(byPath, view, bound) && d in view && p == byPath[d]
      requires ChildTexts(texts, Abs(byPath, view, bound, d), indentationLevel)
      modifies this
      ensures indentationLevel == old(indentationLevel)
      ensures ok == Joined(texts, |texts|).Some? && (ok ==> buffer == old(buffer) + Joined(texts, |texts|).value)
      decreases bound - |d|, 1
    {
      assert buffer + [] == buffer;
      assert NodeOf(p) == view[d];
      var n := |p.ChildPackages()|;
      var i := 0;
      while i < n
        invariant 0 <= i <= n == |texts| && indentationLevel == old(indentationLevel)
        invariant Synced(byPath, view) && Wrote(buffer, old(buffer), texts, i)
      {
        ghost var before := buffer;
        ok := PrintChildPackage(p, byPath, view, bound, d, i, texts);
        if !ok {
          JoinedDefined(texts, n);
          return;
        }
        WroteNext(before, old(buffer), texts, i);
        i := i + 1;
      }
      ok := true;
    }

    /** The children of the package at `d`, printed one after the other. */
    method PrintPackages(p: Package, ghost byPath: map<seq<string>, Package>, ghost view: map<seq<string>, Node>,
                         ghost bound: nat, ghost d: seq<string>)
      returns (ok: bool)
      requires Synced(byPath, view) && Shape(byPath, view, bound) && d in view && p == byPath[d]
      modifies this
      ensures indentationLevel == old(indentationLevel)
      ensures var v := Abs(byPath, view, bound, d);
              ok == PackagesText(v, |v.packages|, indentationLevel).Some? &&
              (ok ==> buffer == old(buffer) + PackagesText(v, |v.packages|, indentationLevel).value)
      decreases bound - |d|, 2
    {
      ghost var v := Abs(byPath, view, bound, d);
      ghost var texts := ChildTextList(v, indentationLevel);
      PackagesTextJoined(v, |v.packages|, indentationLevel, texts);
      ok := PrintChildPackages(p, byPath, view, bound, d, texts);
    }

    /** The callback of the root's `getChildPackages().forEach` on its `i`th child:
        a package other than `nape` and `zpp_nape` is skipped. */
    method PrintRootChild(root: Package, ghost byPath: map<seq<string>, Package>, ghost view: map<seq<string>, Node>,
                          ghost bound: nat, i: nat, ghost texts: seq<Option<seq<string>>>)
      returns (ok: bool)
      requires Synced(byPath, view) && Shape(byPath, view, bound) && root == byPath[[]]
      requires RootChildTexts(texts, Abs(byPath, view, bound, []), indentationLevel) && i < |texts|
      modifies this
      ensures indentationLevel == old(indentationLevel)
      ensures ok == texts[i].Some? && (ok ==> buffer == old(buffer) + texts[i].value)
    {
      AbsChild(byPath, view, bound, [], i);
      assert texts[i] == RootChildText(Abs(byPath, view, bound, []), indentationLevel, i);
      ghost var k := view[[]].childPackages.keys[i];
      assert [] + [k] == [k];
      assert NodeOf(root) == view[[]];
      var kid := root.ChildPackages()[i];
      assert NodeOf(kid) == view[[k]];
      if kid.name != Some("nape") && kid.name != Some("zpp_nape") {
        assert buffer + [] == buffer;
        return true;
      }
      ok := PrintPackage(kid, byPath, view, bound, [k]);
    }

    /** The loop over the root's children, stated over what each of them writes. */
    method PrintRootChildren(root: Package, ghost byPath: map<seq<string>, Package>, ghost view: map<seq<string>, Node>,
                             ghost bound: nat, ghost texts: seq<Option<seq<string>>>)
      returns (ok: bool)
      requires Synced(byPath, view) && Shape(byPath, view, bound) && root == byPath[[]]
      requires RootChildTexts(texts, Abs(byPath, view, bound, []), indentationLevel)
      modifies this
      ensures indentationLevel == old(indentationLevel)
      ensures ok == Joined(texts, |texts|).Some? && (ok ==> buffer == old(buffer) + Joined(texts, |texts|).value)
    {
      assert buffer + [] == buffer;
      assert NodeOf(root) == view[[]];
      var n := |root.ChildPackages()|;
      var i := 0;
      while i < n
        invariant 0 <= i <= n == |texts| && indentationLevel == old(indentationLevel)
        invariant Synced(byPath, view) && Wrote(buffer, old(buffer), texts, i)
      {
        ghost var before := buffer;
        ok := PrintRootChild(root, byPath, view, bound, i, texts);
        if !ok {
          JoinedDefined(texts, n);
          return;
        }
        WroteNext(before, old(buffer), texts, i);
        i := i + 1;
      }
      ok := true;
    }

    /** The printing of the whole tree from its root. */
    method PrintRoot(root: Package, ghost byPath: map<seq<string>, Package>, ghost view: map<seq<string>, Node>,
                     ghost bound: nat)
      returns (ok: bool)
      requires Synced(byPath, view) && Shape(byPath, view, bound) && root == byPath[[]]
      modifies this
      ensures indentationLevel == old(indentationLevel)
      ensures var v := Abs(byPath, view, bound, []);
              ok == RootText(v, |v.packages|, indentationLevel).Some? &&
              (ok ==> buffer == old(buffer) + RootText(v, |v.packages|, indentationLevel).value)
    {
      ghost var v := Abs(byPath, view, bound, []);
      ghost var texts := RootChildTextList(v, indentationLevel);
      RootTextJoined(v, |v.packages|, indentationLevel, texts);
      ok := PrintRootChildren(root, byPath, view, bound, texts);
    }
  }
}
