/** What the declaration printer writes, as pure functions: each function returns the
    list of strings the printer pushes onto its buffer, one entry per `print` call, or
    `None` when the printer would throw on the way (a type it cannot print). */
module EmitterText {
  import opened JsObjects
  import opened Strings
  import opened HaxeTypes

  /** A package as the printer sees it: its name, its child packages and its classes,
      each in key order. */
  datatype PackageValue = PackageValue(name: Option<string>, packages: seq<PackageValue>, types: seq<HaxeClass>)

  const Tab: string := "    "

  /** `printIndent()` at indentation `level`: one tab of four spaces per level, nothing
      for a level that is not positive. */
  function Indentation(level: int): (r: seq<string>)
    ensures |r| == if level > 0 then level else 0
    ensures forall i :: 0 <= i < |r| ==> r[i] == Tab
    decreases level
  {
    if level <= 0 then [] else Indentation(level - 1) + [Tab]
  }

  /** The `typeReplacements` table. */
  function TypeReplacement(path: string): Option<string> {
    if path == "Float" || path == "Int" then Some("number")
    else if path == "Bool" then Some("bool")
    else if path == "Void" then Some("void")
    else None
  }

  /** `typeReplacements[type.path] || type.path`; a null path is pushed as null, which
      `join('')` writes as nothing. */
  function NormalName(path: Option<string>): string {
    match path
    case None => ""
    case Some(p) => if TypeReplacement(p).Some? then TypeReplacement(p).value else p
  }

  /** `arg.name || '__' + i` */
  function ParamName(name: string, i: nat): string {
    if name != "" then name else "__" + NatToString(i)
  }

  /** The piece pushed for argument `i` before its type; `marks` says whether an
      optional argument gets a `?` (method signatures) or not (function types). */
  function ArgHead(a: Argument, i: nat, marks: bool): string {
    ParamName(a.name, i) + (if marks && a.optional then "?" else "") + ": "
  }

  /** `printType2(type)` */
  function TypeText(t: HaxeType): (r: Option<seq<string>>)
    decreases t, 2
  {
    match t
    case Function(args, ret) =>
      var a := ArgsText(t, |args|, false);
      var rt := TypeText(ret);
      if a.None? || rt.None? then None else Some(["("] + a.value + [") => "] + rt.value)
    case Named(kind, path, _, isArray) =>
      if kind != DYNAMIC && kind != NORMAL then None
      else
        var head := if kind == DYNAMIC then "any" else NormalName(path);
        Some(if isArray then [head] + ["[]"] else [head])
  }

  /** Argument `i` of the function type `t`: a `", "` before every argument but the
      first, its name and its type. */
  function ArgText(t: HaxeType, i: nat, marks: bool): Option<seq<string>>
    requires t.Function? && i < |t.args|
    decreases t, 0
  {
    var ty := TypeText(t.args[i].ty);
    if ty.None? then None
    else if i > 0 then Some([", "] + [ArgHead(t.args[i], i, marks)] + ty.value)
    else Some([ArgHead(t.args[i], i, marks)] + ty.value)
  }

  /** The first `n` arguments of the function type `t`. */
  function ArgsText(t: HaxeType, n: nat, marks: bool): (r: Option<seq<string>>)
    requires t.Function? && n <= |t.args|
    decreases t, 1, n
  {
    if n == 0 then Some([])
    else
      var prev := ArgsText(t, n - 1, marks);
      var last := ArgText(t, n - 1, marks);
      if prev.None? || last.None? then None else Some(prev.value + last.value)
  }

  /** One entry of a `fields.forEach` (with `prefix` 'public ' or 'public static '). */
  function FieldText(f: Field, level: int, prefix: string): Option<seq<string>> {
    if !f.isPublic then Some([])
    else
      var ty := TypeText(f.ty);
      if ty.None? then None
      else Some(Indentation(level) + [prefix + f.name + ": "] + ty.value + [";\n"])
  }

  function FieldsText(fs: seq<Field>, level: int, prefix: string): (r: Option<seq<string>>)
    decreases |fs|
  {
    if fs == [] then Some([])
    else
      var prev := FieldsText(fs[..|fs| - 1], level, prefix);
      var last := FieldText(fs[|fs| - 1], level, prefix);
      if prev.None? || last.None? then None else Some(prev.value + last.value)
  }

  /** One entry of `methods.forEach`: a method named `new` is written as a constructor
      without a return type; a method whose type is not a function type makes the
      printer crash on `method.type.args`. */
  function MethodText(m: Method, level: int): Option<seq<string>> {
    if !m.isPublic then Some([])
    else if !m.ty.Function? then None
    else
      var isConstructor := m.name == "new";
      var head := if isConstructor then "constructor(" else "public " + m.name + "(";
      var a := ArgsText(m.ty, |m.ty.args|, true);
      var rt := if isConstructor then Some([]) else TypeText(m.ty.returnType);
      if a.None? || rt.None? then None
      else
        var signature := Indentation(level) + [head] + a.value + [")"];
        Some(if isConstructor then signature + [";\n"] else signature + [": "] + rt.value + [";\n"])
  }

  function MethodsText(ms: seq<Method>, level: int): (r: Option<seq<string>>)
    decreases |ms|
  {
    if ms == [] then Some([])
    else
      var prev := MethodsText(ms[..|ms| - 1], level);
      var last := MethodText(ms[|ms| - 1], level);
      if prev.None? || last.None? then None else Some(prev.value + last.value)
  }

  /** `printType(type)` for a class at indentation `level`: `extends` only for a
      non-empty parent, then fields, static fields and methods, in that order; static
      methods are never written. */
  function ClassText(c: HaxeClass, level: int): Option<seq<string>> {
    var fs := FieldsText(c.fields, level + 1, "public ");
    var sfs := FieldsText(c.staticFields, level + 1, "public static ");
    var ms := MethodsText(c.methods, level + 1);
    if fs.None? || sfs.None? || ms.None? then None
    else Some(ClassHead(c, level) + fs.value + sfs.value + ms.value + Indentation(level) + ["}\n"])
  }

  /** The line that opens a class declaration. */
  function ClassHead(c: HaxeClass, level: int): seq<string> {
    var head := Indentation(level) + ["export "] + ["class"] + [" " + c.name];
    var open := if c.parent.Some? && c.parent.value != "" then head + [" extends " + c.parent.value] else head;
    open + [" {\n"]
  }

  function TypesText(cs: seq<HaxeClass>, level: int): (r: Option<seq<string>>)
    decreases |cs|
  {
    if cs == [] then Some([])
    else
      var prev := TypesText(cs[..|cs| - 1], level);
      var last := ClassText(cs[|cs| - 1], level);
      if prev.None? || last.None? then None else Some(prev.value + last.value)
  }

  /** A name concatenated into a string: null is written as `null`. */
  function NameText(name: Option<string>): string {
    if name.Some? then name.value else "null"
  }

  /** `printPackage(pkg)` at indentation `level`, where `parentName` is the name of the
      package's parent: a child of the root (whose name is null) is an ambient
      `declare module "…"`, any deeper package an `export module …`.  The `nape` and
      `zpp_nape` packages import each other, `sandbox` imports itself; child packages
      come before classes. */
  function PackageText(v: PackageValue, level: int, parentName: Option<string>): Option<seq<string>>
    decreases v, 2
  {
    var body := PackageBody(v, level);
    if body.None? then None else Some(PackageHead(v.name, level, parentName) + body.value)
  }

  /** What follows a module's opening line: its child packages, then its classes, one
      level in, and the closing brace. */
  function PackageBody(v: PackageValue, level: int): Option<seq<string>>
    decreases v, 1
  {
    var kids := PackagesText(v, |v.packages|, level + 1);
    var types := TypesText(v.types, level + 1);
    if kids.None? || types.None? then None
    else Some(kids.value + types.value + Indentation(level) + ["}\n"])
  }

  /** The line that opens a module, followed by its imports one level in. */
  function PackageHead(name: Option<string>, level: int, parentName: Option<string>): seq<string> {
    var head := if parentName.None? then "declare module \"" + NameText(name) + "\""
                else "export module " + NameText(name);
    var open := Indentation(level) + [head] + [" {\n"];
    if name == Some("nape") || name == Some("zpp_nape") then
      open + Indentation(level + 1) + [ImportLine("zpp_nape")] + Indentation(level + 1) + [ImportLine("nape")]
    else if name == Some("sandbox") then
      open + Indentation(level + 1) + [ImportLine("sandbox")]
    else open
  }

  /** The line that imports the module `name`, as in `import nape = module("nape");`. */
  function ImportLine(name: string): string {
    "import " + name + " = module(\"" + name + "\");\n"
  }

  /** The first `n` child packages of `v`, each printed with `v` as its parent. */
  function PackagesText(v: PackageValue, n: nat, level: int): (r: Option<seq<string>>)
    requires n <= |v.packages|
    decreases v, 0, n
  {
    if n == 0 then Some([])
    else
      var prev := PackagesText(v, n - 1, level);
      var last := PackageText(v.packages[n - 1], level, v.name);
      if prev.None? || last.None? then None else Some(prev.value + last.value)
  }

  /** Only the root's children named `nape` or `zpp_nape` are written. */
  predicate IsNapePackage(v: PackageValue) {
    v.name == Some("nape") || v.name == Some("zpp_nape")
  }

  /** The loop over the root's first `n` children. */
  function RootText(root: PackageValue, n: nat, level: int): (r: Option<seq<string>>)
    requires n <= |root.packages|
    decreases n
  {
    if n == 0 then Some([])
    else
      var prev := RootText(root, n - 1, level);
      var kid := root.packages[n - 1];
      if !IsNapePackage(kid) then prev
      else
        var last := PackageText(kid, level, root.name);
        if prev.None? || last.None? then None else Some(prev.value + last.value)
  }

  /** The first `n` texts joined, or nothing once one of them is missing. */
  function Joined(texts: seq<Option<seq<string>>>, n: nat): (r: Option<seq<string>>)
    requires n <= |texts|
  {
    if n == 0 then Some([])
    else
      var prev := Joined(texts, n - 1);
      if prev.None? || texts[n - 1].None? then None else Some(prev.value + texts[n - 1].value)
  }

  /** `buffer` holds `start` followed by the first `n` texts, none of them missing. */
  predicate Wrote(buffer: seq<string>, start: seq<string>, texts: seq<Option<seq<string>>>, n: nat) {
    n <= |texts| && Joined(texts, n).Some? && buffer == start + Joined(texts, n).value
  }

  /** Writing the next text after the first `n` gives the first `n + 1`. */
  lemma WroteNext(buffer: seq<string>, start: seq<string>, texts: seq<Option<seq<string>>>, n: nat)
    requires Wrote(buffer, start, texts, n) && n < |texts| && texts[n].Some?
    ensures Wrote(buffer + texts[n].value, start, texts, n + 1)
  {
    AppendAssoc(start, Joined(texts, n).value, texts[n].value);
  }

  /** The text of the `i`th child package of `v`. */
  function ChildText(v: PackageValue, level: int, i: nat): Option<seq<string>>
    requires i < |v.packages|
  {
    PackageText(v.packages[i], level, v.name)
  }

  /** The text the root's loop writes for its `i`th child: nothing for a skipped one. */
  function RootChildText(root: PackageValue, level: int, i: nat): Option<seq<string>>
    requires i < |root.packages|
  {
    if IsNapePackage(root.packages[i]) then ChildText(root, level, i) else Some([])
  }

  /** `texts` lists the text of every child package of `v`. */
  ghost predicate ChildTexts(texts: seq<Option<seq<string>>>, v: PackageValue, level: int) {
    |texts| == |v.packages| &&
    forall i {:trigger ChildText(v, level, i)} :: 0 <= i < |texts| ==> texts[i] == ChildText(v, level, i)
  }

  /** `texts` lists what the root's loop writes for each child. */
  ghost predicate RootChildTexts(texts: seq<Option<seq<string>>>, root: PackageValue, level: int) {
    |texts| == |root.packages| &&
    forall i {:trigger RootChildText(root, level, i)} :: 0 <= i < |texts| ==> texts[i] == RootChildText(root, level, i)
  }

  /** The texts of all child packages of `v`, listed. */
  function ChildTextList(v: PackageValue, level: int): (r: seq<Option<seq<string>>>)
    ensures ChildTexts(r, v, level)
  {
    seq(|v.packages|, i requires 0 <= i < |v.packages| => ChildText(v, level, i))
  }

  /** What the root's loop writes for each child, listed. */
  function RootChildTextList(root: PackageValue, level: int): (r: seq<Option<seq<string>>>)
    ensures RootChildTexts(r, root, level)
  {
    seq(|root.packages|, i requires 0 <= i < |root.packages| => RootChildText(root, level, i))
  }

  lemma {:induction false} PackagesTextJoined(v: PackageValue, n: nat, level: int, texts: seq<Option<seq<string>>>)
    requires n <= |v.packages| && ChildTexts(texts, v, level)
    ensures PackagesText(v, n, level) == Joined(texts, n)
  {
    if n > 0 {
      PackagesTextJoined(v, n - 1, level, texts);
      assert texts[n - 1] == ChildText(v, level, n - 1);
    }
  }

  lemma {:induction false} RootTextJoined(root: PackageValue, n: nat, level: int, texts: seq<Option<seq<string>>>)
    requires n <= |root.packages| && RootChildTexts(texts, root, level)
    ensures RootText(root, n, level) == Joined(texts, n)
  {
    if n > 0 {
      RootTextJoined(root, n - 1, level, texts);
      assert texts[n - 1] == RootChildText(root, level, n - 1);
      var prev := RootText(root, n - 1, level);
      if prev.Some? {
        assert prev.value + [] == prev.value;
      }
    }
  }

  lemma {:induction false} JoinedDefined(texts: seq<Option<seq<string>>>, n: nat)
    requires n <= |texts|
    ensures Joined(texts, n).Some? <==> forall i :: 0 <= i < n ==> texts[i].Some?
  {
    if n > 0 {
      JoinedDefined(texts, n - 1);
    }
  }

  /** The text of the declaration file: the buffer joined, or nothing when a print
      threw. */
  function Output(root: PackageValue): Option<string> {
    var r := RootText(root, |root.packages|, 0);
    if r.Some? then Some(Concat(r.value)) else None
  }

  /** Regrouping a buffer that grows piece by piece. */
  lemma AppendAssoc(a: seq<string>, b: seq<string>, c: seq<string>)
    ensures a + (b + c) == a + b + c
  {
  }

  // ----- Properties -----

  /** A list fails exactly when one of its entries does. */
  lemma {:induction false} ArgsTextDefined(t: HaxeType, n: nat, marks: bool)
    requires t.Function? && n <= |t.args|
    ensures ArgsText(t, n, marks).Some? <==> forall i :: 0 <= i < n ==> TypeText(t.args[i].ty).Some?
  {
    if n > 0 {
      ArgsTextDefined(t, n - 1, marks);
    }
  }

  lemma {:induction false} FieldsTextDefined(fs: seq<Field>, level: int, prefix: string)
    ensures FieldsText(fs, level, prefix).Some? <==> forall i :: 0 <= i < |fs| ==> FieldText(fs[i], level, prefix).Some?
    decreases |fs|
  {
    if fs != [] {
      FieldsTextDefined(fs[..|fs| - 1], level, prefix);
    }
  }

  lemma {:induction false} MethodsTextDefined(ms: seq<Method>, level: int)
    ensures MethodsText(ms, level).Some? <==> forall i :: 0 <= i < |ms| ==> MethodText(ms[i], level).Some?
    decreases |ms|
  {
    if ms != [] {
      MethodsTextDefined(ms[..|ms| - 1], level);
    }
  }

  lemma {:induction false} TypesTextDefined(cs: seq<HaxeClass>, level: int)
    ensures TypesText(cs, level).Some? <==> forall i :: 0 <= i < |cs| ==> ClassText(cs[i], level).Some?
    decreases |cs|
  {
    if cs != [] {
      TypesTextDefined(cs[..|cs| - 1], level);
    }
  }

  lemma {:induction false} PackagesTextDefined(v: PackageValue, n: nat, level: int)
    requires n <= |v.packages|
    ensures PackagesText(v, n, level).Some? <==>
            forall i :: 0 <= i < n ==> PackageText(v.packages[i], level, v.name).Some?
  {
    if n > 0 {
      PackagesTextDefined(v, n - 1, level);
      var prev := PackagesText(v, n - 1, level);
      var last := PackageText(v.packages[n - 1], level, v.name);
      assert PackagesText(v, n, level).Some? <==> prev.Some? && last.Some?;
    }
  }

  lemma {:induction false} RootTextDefined(root: PackageValue, n: nat, level: int)
    requires n <= |root.packages|
    ensures RootText(root, n, level).Some? <==>
            forall i :: 0 <= i < n && IsNapePackage(root.packages[i]) ==> PackageText(root.packages[i], level, root.name).Some?
  {
    if n > 0 {
      RootTextDefined(root, n - 1, level);
    }
  }

  /** Indentation is four spaces per level. */
  lemma {:induction false} IndentationIsSpaces(level: nat)
    ensures Concat(Indentation(level)) == seq(4 * level, _ => ' ')
  {
    if level > 0 {
      IndentationIsSpaces(level - 1);
      ConcatAppend(Indentation(level - 1), [Tab]);
      assert Concat([Tab]) == Tab by { assert [Tab][..0] == []; }
      var spaces := seq(4 * (level - 1), _ => ' ') + Tab;
      assert Concat(Indentation(level)) == spaces;
      assert |spaces| == 4 * level;
      assert forall k :: 0 <= k < |spaces| ==> spaces[k] == ' ';
    } else {
      assert Indentation(level) == [];
    }
  }

  /** The types `printType2` can write: every kind it reaches is a function type,
      `DYNAMIC` or `NORMAL`. */
  predicate Printable(t: HaxeType)
    decreases t
  {
    match t
    case Function(args, ret) => (forall i :: 0 <= i < |args| ==> Printable(args[i].ty)) && Printable(ret)
    case Named(kind, _, _, _) => kind == DYNAMIC || kind == NORMAL
  }

  /** `printType2` throws exactly on a type that contains an anonymous, class or
      non-function `FUNCTION` kind. */
  lemma {:induction false} TypeTextDefined(t: HaxeType)
    ensures TypeText(t).Some? <==> Printable(t)
    decreases t
  {
    match t
    case Function(args, ret) =>
      forall i | 0 <= i < |args| { TypeTextDefined(args[i].ty); }
      TypeTextDefined(ret);
      ArgsTextDefined(t, |args|, false);
    case Named(_, _, _, _) =>
  }

  /** A public method the printer can write: it has a function type, its argument types
      are printable, and so is its return type unless it is the constructor. */
  predicate MethodPrintable(m: Method) {
    !m.isPublic ||
    (m.ty.Function? &&
     (forall i :: 0 <= i < |m.ty.args| ==> Printable(m.ty.args[i].ty)) &&
     (m.name != "new" ==> Printable(m.ty.returnType)))
  }

  predicate ClassPrintable(c: HaxeClass) {
    (forall i :: 0 <= i < |c.fields| && c.fields[i].isPublic ==> Printable(c.fields[i].ty)) &&
    (forall i :: 0 <= i < |c.staticFields| && c.staticFields[i].isPublic ==> Printable(c.staticFields[i].ty)) &&
    (forall i :: 0 <= i < |c.methods| ==> MethodPrintable(c.methods[i]))
  }

  lemma MethodTextDefined(m: Method, level: int)
    ensures MethodText(m, level).Some? <==> MethodPrintable(m)
  {
    if m.ty.Function? {
      forall i | 0 <= i < |m.ty.args| { TypeTextDefined(m.ty.args[i].ty); }
      TypeTextDefined(m.ty.returnType);
      ArgsTextDefined(m.ty, |m.ty.args|, true);
    }
  }

  /** `printType` throws exactly on a class with an unprintable public member; its
      private members and static methods never matter. */
  lemma ClassTextDefined(c: HaxeClass, level: int)
    ensures ClassText(c, level).Some? <==> ClassPrintable(c)
  {
    forall i | 0 <= i < |c.fields| { TypeTextDefined(c.fields[i].ty); }
    forall i | 0 <= i < |c.staticFields| { TypeTextDefined(c.staticFields[i].ty); }
    forall i | 0 <= i < |c.methods| { MethodTextDefined(c.methods[i], level + 1); }
    FieldsTextDefined(c.fields, level + 1, "public ");
    FieldsTextDefined(c.staticFields, level + 1, "public static ");
    MethodsTextDefined(c.methods, level + 1);
  }

  predicate PackagePrintable(v: PackageValue)
    decreases v
  {
    (forall i :: 0 <= i < |v.packages| ==> PackagePrintable(v.packages[i])) &&
    (forall i :: 0 <= i < |v.types| ==> ClassPrintable(v.types[i]))
  }

  /** Printing a package throws exactly when some class below it is unprintable. */
  lemma {:induction false} PackageTextDefined(v: PackageValue, level: int, parentName: Option<string>)
    ensures PackageText(v, level, parentName).Some? <==> PackagePrintable(v)
    decreases v
  {
    forall i | 0 <= i < |v.packages| { PackageTextDefined(v.packages[i], level + 1, v.name); }
    forall i | 0 <= i < |v.types| { ClassTextDefined(v.types[i], level + 1); }
    PackagesTextDefined(v, |v.packages|, level + 1);
    TypesTextDefined(v.types, level + 1);
  }

  /** A module opens, after its indentation, with `declare module "<name>"` when its
      parent is the root (whose name is null) and with `export module <name>` below
      that, followed by ` {`. */
  lemma ModuleKeyword(v: PackageValue, level: int, parentName: Option<string>)
    requires PackageText(v, level, parentName).Some?
    ensures var r := PackageText(v, level, parentName).value;
            var n := |Indentation(level)|;
            n + 2 <= |r| && r[..n] == Indentation(level) && r[n + 1] == " {\n" &&
            r[n] == if parentName.None? then "declare module \"" + NameText(v.name) + "\""
                    else "export module " + NameText(v.name)
  {
    var n := |Indentation(level)|;
    var head := PackageHead(v.name, level, parentName);
    assert head[..n + 2] == Indentation(level) + [head[n]] + [" {\n"];
  }

  /** The file is written exactly when every `nape`/`zpp_nape` package is printable. */
  lemma OutputDefined(root: PackageValue)
    ensures Output(root).Some? <==>
      forall i :: 0 <= i < |root.packages| && IsNapePackage(root.packages[i]) ==> PackagePrintable(root.packages[i])
  {
    forall i | 0 <= i < |root.packages| { PackageTextDefined(root.packages[i], 0, root.name); }
    RootTextDefined(root, |root.packages|, 0);
  }

  /** Two argument lists that agree on names and types (and on flags when `marks`)
      print alike up to `n`. */
  lemma {:induction false} ArgsAgree(t: HaxeType, u: HaxeType, n: nat, marks: bool)
    requires t.Function? && u.Function? && n <= |t.args| && n <= |u.args|
    requires forall i :: 0 <= i < n ==> t.args[i].name == u.args[i].name && t.args[i].ty == u.args[i].ty
    requires marks ==> forall i :: 0 <= i < n ==> t.args[i].optional == u.args[i].optional
    ensures ArgsText(t, n, marks) == ArgsText(u, n, marks)
  {
    if n > 0 {
      ArgsAgree(t, u, n - 1, marks);
    }
  }

  /** Inside a function type an argument's optional flag is not written. */
  lemma FunctionTypeIgnoresOptional(args: seq<Argument>, ret: HaxeType, i: nat, flag: bool)
    requires i < |args|
    ensures TypeText(Function(args[i := args[i].(optional := flag)], ret)) == TypeText(Function(args, ret))
  {
    ArgsAgree(Function(args[i := args[i].(optional := flag)], ret), Function(args, ret), |args|, false);
  }

  /** In a method signature an optional argument is written `name?: ` before its
      type, after a `", "` unless it is the first. */
  lemma OptionalArgText(t: HaxeType, i: nat)
    requires t.Function? && i < |t.args| && t.args[i].optional && TypeText(t.args[i].ty).Some?
    ensures ArgText(t, i, true) ==
            Some((if i > 0 then [", "] else []) + [ParamName(t.args[i].name, i) + "?: "] + TypeText(t.args[i].ty).value)
  {
    var a := t.args[i];
    assert ArgHead(a, i, true) == ParamName(a.name, i) + "?: " by {
      assert ParamName(a.name, i) + "?" + ": " == ParamName(a.name, i) + "?: ";
    }
    if i == 0 {
      assert [] + [ArgHead(a, i, true)] == [ArgHead(a, i, true)];
    }
  }

  /** So the signature of a printable public method marks each optional argument. */
  lemma MethodMarksOptional(m: Method, level: int, i: nat)
    requires m.isPublic && m.ty.Function? && i < |m.ty.args| && m.ty.args[i].optional
    requires MethodPrintable(m)
    ensures MethodText(m, level).Some?
    ensures ArgsText(m.ty, i, true).Some? && ArgsText(m.ty, i + 1, true).Some? && TypeText(m.ty.args[i].ty).Some?
    ensures ArgsText(m.ty, i + 1, true).value ==
            ArgsText(m.ty, i, true).value + (if i > 0 then [", "] else []) +
            [ParamName(m.ty.args[i].name, i) + "?: "] + TypeText(m.ty.args[i].ty).value
  {
    MethodTextDefined(m, level);
    forall j | 0 <= j < |m.ty.args| ensures TypeText(m.ty.args[j].ty).Some? {
      TypeTextDefined(m.ty.args[j].ty);
    }
    ArgsTextDefined(m.ty, i + 1, true);
    ArgsTextDefined(m.ty, i, true);
    OptionalArgText(m.ty, i);
  }

  /** A constructor's return type is never written, nor looked at. */
  lemma ConstructorIgnoresReturnType(m: Method, level: int, ret: HaxeType)
    requires m.name == "new" && m.ty.Function?
    ensures MethodText(m.(ty := Function(m.ty.args, ret)), level) == MethodText(m, level)
  {
    ArgsAgree(Function(m.ty.args, ret), m.ty, |m.ty.args|, true);
  }

  /** The public entries of a member list, in order. */
  function PublicFields(fs: seq<Field>): (r: seq<Field>)
    ensures forall i :: 0 <= i < |r| ==> r[i].isPublic
    decreases |fs|
  {
    if fs == [] then []
    else PublicFields(fs[..|fs| - 1]) + (if fs[|fs| - 1].isPublic then [fs[|fs| - 1]] else [])
  }

  function PublicMethods(ms: seq<Method>): (r: seq<Method>)
    ensures forall i :: 0 <= i < |r| ==> r[i].isPublic
    decreases |ms|
  {
    if ms == [] then []
    else PublicMethods(ms[..|ms| - 1]) + (if ms[|ms| - 1].isPublic then [ms[|ms| - 1]] else [])
  }

  lemma {:induction false} FieldsTextPublic(fs: seq<Field>, level: int, prefix: string)
    ensures FieldsText(PublicFields(fs), level, prefix) == FieldsText(fs, level, prefix)
    decreases |fs|
  {
    if fs != [] {
      var init, last := fs[..|fs| - 1], fs[|fs| - 1];
      FieldsTextPublic(init, level, prefix);
      if last.isPublic {
        var p := PublicFields(init) + [last];
        assert p[..|p| - 1] == PublicFields(init);
        assert FieldsText(p, level, prefix).Some? ==>
                 FieldsText(p, level, prefix).value ==
                 FieldsText(PublicFields(init), level, prefix).value + FieldText(last, level, prefix).value;
      } else {
        assert PublicFields(fs) == PublicFields(init) + [] == PublicFields(init);
        assert FieldText(last, level, prefix) == Some([]);
        var prev := FieldsText(init, level, prefix);
        if prev.Some? {
          assert FieldsText(fs, level, prefix) == Some(prev.value + []);
          assert prev.value + [] == prev.value;
        }
      }
    }
  }

  lemma {:induction false} MethodsTextPublic(ms: seq<Method>, level: int)
    ensures MethodsText(PublicMethods(ms), level) == MethodsText(ms, level)
    decreases |ms|
  {
    if ms != [] {
      var init, last := ms[..|ms| - 1], ms[|ms| - 1];
      MethodsTextPublic(init, level);
      if last.isPublic {
        var p := PublicMethods(init) + [last];
        assert p[..|p| - 1] == PublicMethods(init);
        assert MethodsText(p, level).Some? ==>
                 MethodsText(p, level).value ==
                 MethodsText(PublicMethods(init), level).value + MethodText(last, level).value;
      } else {
        assert PublicMethods(ms) == PublicMethods(init) + [] == PublicMethods(init);
        assert MethodText(last, level) == Some([]);
        var prev := MethodsText(init, level);
        if prev.Some? {
          assert MethodsText(ms, level) == Some(prev.value + []);
          assert prev.value + [] == prev.value;
        }
      }
    }
  }

  /** Only public members reach the declaration file, and static methods never do. */
  lemma ClassTextPublicOnly(c: HaxeClass, level: int)
    ensures ClassText(c, level) ==
            ClassText(c.(fields := PublicFields(c.fields), staticFields := PublicFields(c.staticFields),
                         methods := PublicMethods(c.methods), staticMethods := []), level)
  {
    FieldsTextPublic(c.fields, level + 1, "public ");
    FieldsTextPublic(c.staticFields, level + 1, "public static ");
    MethodsTextPublic(c.methods, level + 1);
  }

  /** The root's `nape` and `zpp_nape` children, in order. */
  function NapeOnly(ps: seq<PackageValue>): (r: seq<PackageValue>)
    ensures forall i :: 0 <= i < |r| ==> IsNapePackage(r[i])
    decreases |ps|
  {
    if ps == [] then []
    else NapeOnly(ps[..|ps| - 1]) + (if IsNapePackage(ps[|ps| - 1]) then [ps[|ps| - 1]] else [])
  }

  /** The root loop only looks at the first `n` children and the root's name. */
  lemma {:induction false} RootTextPrefix(r1: PackageValue, r2: PackageValue, n: nat, level: int)
    requires n <= |r1.packages| && n <= |r2.packages| && r1.name == r2.name
    requires r1.packages[..n] == r2.packages[..n]
    ensures RootText(r1, n, level) == RootText(r2, n, level)
  {
    if n > 0 {
      assert r1.packages[..n - 1] == r2.packages[..n - 1];
      assert r1.packages[n - 1] == r1.packages[..n][n - 1];
      RootTextPrefix(r1, r2, n - 1, level);
    }
  }

  lemma {:induction false} RootTextNapeOnly(root: PackageValue, n: nat, level: int)
    requires n <= |root.packages|
    ensures RootText(root, n, level) ==
            RootText(root.(packages := NapeOnly(root.packages[..n])), |NapeOnly(root.packages[..n])|, level)
  {
    if n > 0 {
      var ps := root.packages[..n];
      assert ps[..n - 1] == root.packages[..n - 1];
      RootTextNapeOnly(root, n - 1, level);
      var before := root.(packages := NapeOnly(root.packages[..n - 1]));
      var after := root.(packages := NapeOnly(ps));
      if IsNapePackage(root.packages[n - 1]) {
        RootTextPrefix(before, after, |before.packages|, level);
      } else {
        assert after == before;
      }
    }
  }

  /** Packages other than `nape` and `zpp_nape` directly under the root are dropped. */
  lemma OutputNapeOnly(root: PackageValue)
    ensures Output(root) == Output(root.(packages := NapeOnly(root.packages)))
  {
    RootTextNapeOnly(root, |root.packages|, 0);
    assert root.packages[..|root.packages|] == root.packages;
  }

  /** A function type, as the pieces pushed onto the buffer: unnamed arguments are
      numbered, optional flags are dropped, basic Haxe types become their TypeScript
      names. */
  lemma FunctionTypeExample()
    ensures var t := Function([Argument("", Named(NORMAL, Some("Int"), Some("Int"), false), true),
                               Argument("cb", Named(DYNAMIC, None, None, true), false)],
                              Named(NORMAL, Some("Void"), Some("Void"), false));
            TypeText(t) == Some(["(", "__0: ", "number", ", ", "cb: ", "any", "[]", ") => ", "void"])
  {
    var t := Function([Argument("", Named(NORMAL, Some("Int"), Some("Int"), false), true),
                       Argument("cb", Named(DYNAMIC, None, None, true), false)],
                      Named(NORMAL, Some("Void"), Some("Void"), false));
    assert ArgHead(t.args[0], 0, false) == "__0: " by { assert ParamName("", 0) == "__0"; }
    var a0 := ArgsText(t, 0, false);
    assert ArgText(t, 0, false) == Some(["__0: "] + ["number"]);
    assert ArgsText(t, 1, false) == Some(a0.value + (["__0: "] + ["number"]));
    var a1 := ArgsText(t, 1, false);
    assert a1.value == ["__0: ", "number"];
    assert ArgHead(t.args[1], 1, false) == "cb: ";
    assert TypeText(t.args[1].ty) == Some(["any"] + ["[]"]);
    assert ArgText(t, 1, false) == Some([", "] + ["cb: "] + (["any"] + ["[]"]));
    assert ArgsText(t, 2, false) == Some(a1.value + ([", "] + ["cb: "] + (["any"] + ["[]"])));
    var a2 := ["__0: ", "number", ", ", "cb: ", "any", "[]"];
    assert a1.value + ([", "] + ["cb: "] + (["any"] + ["[]"])) == a2;
    assert TypeText(t.returnType) == Some(["void"]);
    assert TypeText(t) == Some(["("] + a2 + [") => "] + ["void"]);
    assert ["("] + a2 + [") => "] + ["void"] == ["(", "__0: ", "number", ", ", "cb: ", "any", "[]", ") => ", "void"];
  }

  /** The example class `nape.geom.Vec2`: a public and a private field, a constructor
      with an optional argument, a public method and a static method. */
  function Vec2Example(): HaxeClass {
    var float := Named(NORMAL, Some("Float"), Some("Float"), false);
    HaxeClass("nape.geom.Vec2", "Vec2", Some("nape.geom.Base"),
              [Method("new", true, Function([Argument("x", float, true)], Named(NORMAL, Some("Void"), Some("Void"), false))),
               Method("length", true, Function([], float))],
              [Field("x", float, true), Field("y", float, false)],
              [Method("zero", true, Function([], float))],
              [])
  }

  /** Its fields one level in: the private field `y` is not written. */
  lemma Vec2FieldsExample()
    ensures FieldsText(Vec2Example().fields, 2, "public ") == Some([Tab, Tab, "public x: ", "number", ";\n"])
  {
    var c := Vec2Example();
    assert Indentation(2) == [Tab, Tab] by { assert Indentation(0) == []; }
    assert TypeText(c.fields[0].ty) == Some(["number"]);
    var x := c.fields[0];
    assert "public " + x.name + ": " == "public x: ";
    assert FieldText(x, 2, "public ") == Some(Indentation(2) + ["public " + x.name + ": "] + ["number"] + [";\n"]);
    var xs := [Tab, Tab, "public x: ", "number", ";\n"];
    assert Indentation(2) + ["public " + x.name + ": "] + ["number"] + [";\n"] == xs;
    assert c.fields[..1][..0] == [];
    assert FieldsText(c.fields[..1], 2, "public ") == Some([] + xs);
    assert [] + xs == xs;
    assert c.fields[..2][..1] == c.fields[..1] && c.fields[..2] == c.fields;
    assert FieldText(c.fields[1], 2, "public ") == Some([]);
    assert FieldsText(c.fields, 2, "public ") == Some(xs + []);
    assert xs + [] == xs;
  }

  /** Its constructor one level in: the optional argument is marked, there is no
      return type. */
  lemma Vec2ConstructorExample()
    ensures MethodText(Vec2Example().methods[0], 2) ==
            Some([Tab, Tab, "constructor(", "x?: ", "number", ")", ";\n"])
  {
    var ctor := Vec2Example().methods[0];
    assert Indentation(2) == [Tab, Tab] by { assert Indentation(0) == []; }
    assert TypeText(ctor.ty.args[0].ty) == Some(["number"]);
    assert ArgHead(ctor.ty.args[0], 0, true) == "x?: ";
    assert ArgsText(ctor.ty, 0, true) == Some([]);
    assert ArgText(ctor.ty, 0, true) == Some(["x?: "] + ["number"]);
    assert ArgsText(ctor.ty, 1, true) == Some([] + (["x?: "] + ["number"]));
    assert [] + (["x?: "] + ["number"]) == ["x?: ", "number"];
    assert MethodText(ctor, 2) == Some(Indentation(2) + ["constructor("] + ["x?: ", "number"] + [")"] + [";\n"]);
    assert Indentation(2) + ["constructor("] + ["x?: ", "number"] + [")"] + [";\n"] ==
           [Tab, Tab, "constructor(", "x?: ", "number", ")", ";\n"];
  }

  /** Its method `length` one level in, with its return type. */
  lemma Vec2LengthExample()
    ensures MethodText(Vec2Example().methods[1], 2) ==
            Some([Tab, Tab, "public length(", ")", ": ", "number", ";\n"])
  {
    var len := Vec2Example().methods[1];
    assert Indentation(2) == [Tab, Tab] by { assert Indentation(0) == []; }
    assert TypeText(len.ty.returnType) == Some(["number"]);
    assert "public " + len.name + "(" == "public length(";
    assert ArgsText(len.ty, 0, true) == Some([]);
    assert MethodText(len, 2) == Some(Indentation(2) + ["public " + len.name + "("] + [] + [")"] + [": "] + ["number"] + [";\n"]);
    assert Indentation(2) + ["public " + len.name + "("] + [] + [")"] + [": "] + ["number"] + [";\n"] ==
           [Tab, Tab, "public length(", ")", ": ", "number", ";\n"];
  }

  /** Its methods one level in. */
  lemma Vec2MethodsExample()
    ensures MethodsText(Vec2Example().methods, 2) ==
            Some([Tab, Tab, "constructor(", "x?: ", "number", ")", ";\n"] +
                 [Tab, Tab, "public length(", ")", ": ", "number", ";\n"])
  {
    var ms := Vec2Example().methods;
    Vec2ConstructorExample();
    Vec2LengthExample();
    var cs := MethodText(ms[0], 2).value;
    var ls := MethodText(ms[1], 2).value;
    assert ms[..1][..0] == [];
    assert MethodsText(ms[..1], 2) == Some([] + cs);
    assert ms[..2][..1] == ms[..1] && ms[..2] == ms;
    assert MethodsText(ms, 2) == Some([] + cs + ls);
    assert [] + cs + ls == cs + ls;
    assert cs + ls == [Tab, Tab, "constructor(", "x?: ", "number", ")", ";\n"] +
                      [Tab, Tab, "public length(", ")", ": ", "number", ";\n"];
  }

  /** The whole class at indentation level 1; the static method `zero` is not written. */
  lemma Vec2ClassExample()
    ensures ClassText(Vec2Example(), 1) ==
              Some([Tab, "export ", "class", " Vec2", " extends nape.geom.Base", " {\n",
                    Tab, Tab, "public x: ", "number", ";\n",
                    Tab, Tab, "constructor(", "x?: ", "number", ")", ";\n",
                    Tab, Tab, "public length(", ")", ": ", "number", ";\n",
                    Tab, "}\n"])
  {
    var c := Vec2Example();
    Vec2FieldsExample();
    Vec2MethodsExample();
    var fs := FieldsText(c.fields, 2, "public ");
    var sfs := FieldsText(c.staticFields, 2, "public static ");
    var ms := MethodsText(c.methods, 2);
    assert sfs == Some([]);
    var open := Indentation(1) + ["export "] + ["class"] + [" " + c.name] + [" extends " + c.parent.value];
    assert ClassHead(c, 1) == open + [" {\n"];
    assert ClassText(c, 1) == Some(ClassHead(c, 1) + fs.value + sfs.value + ms.value + Indentation(1) + ["}\n"]);
    assert Indentation(1) == [Tab] by { assert Indentation(0) == []; }
    Vec2Pieces(open, fs.value, ms.value);
  }

  lemma Vec2Pieces(open: seq<string>, xs: seq<string>, ms: seq<string>)
    requires open == [Tab] + ["export "] + ["class"] + [" " + "Vec2"] + [" extends " + "nape.geom.Base"]
    requires xs == [Tab, Tab, "public x: ", "number", ";\n"]
    requires ms == [Tab, Tab, "constructor(", "x?: ", "number", ")", ";\n"] +
                   [Tab, Tab, "public length(", ")", ": ", "number", ";\n"]
    ensures open + [" {\n"] + xs + [] + ms + [Tab] + ["}\n"] ==
            [Tab, "export ", "class", " Vec2", " extends nape.geom.Base", " {\n",
             Tab, Tab, "public x: ", "number", ";\n",
             Tab, Tab, "constructor(", "x?: ", "number", ")", ";\n",
             Tab, Tab, "public length(", ")", ": ", "number", ";\n",
             Tab, "}\n"]
  {
    assert " " + "Vec2" == " Vec2";
    assert " extends " + "nape.geom.Base" == " extends nape.geom.Base";
  }
}
