/** The class extractor (the body of `document.eachChild`): every `class` child of
    the document becomes a `HaxeClass` whose members are routed, in document order, to
    one of four lists, and is stored in the `types` registry under its path. */
module Extractor {
  import opened JsObjects
  import opened Strings
  import opened Xml
  import opened HaxeTypes
  import opened Resolver

  /** `haxe_doc` and `meta` children carry nothing the translator uses. */
  predicate IsSkipped(m: Elem) {
    m.name == "haxe_doc" || m.name == "meta"
  }

  /** Any class child that is neither `extends` nor skipped is a member. */
  predicate IsMember(m: Elem) {
    m.name != "extends" && !IsSkipped(m)
  }

  predicate IsStatic(m: Elem) {
    AttrIs(m, "static", "1")
  }

  predicate IsPublic(m: Elem) {
    AttrIs(m, "public", "1")
  }

  /** `set="method"` marks a method; every other member is a field. */
  predicate IsMethodMember(m: Elem) {
    AttrIs(m, "set", "method")
  }

  /** A method has an `f` child, a field a first child, and that child is a type the
      resolver can read. */
  predicate WellFormedMember(m: Elem) {
    if IsMethodMember(m) then ChildNamed(m.children, "f").Some? && WellFormed(ChildNamed(m.children, "f").value)
    else |m.children| >= 1 && WellFormed(m.children[0])
  }

  predicate MembersWellFormed(cs: seq<Elem>) {
    forall m :: m in cs && IsMember(m) ==> WellFormedMember(m)
  }

  /** A class element has a `path` attribute and well-formed members. */
  predicate WellFormedClass(e: Elem) {
    "path" in e.attr && MembersWellFormed(e.children)
  }

  /** The method a `set="method"` member describes. */
  function MethodOf(m: Elem): Method
    requires IsMethodMember(m) && WellFormedMember(m)
  {
    Method(m.name, IsPublic(m), Resolve(ChildNamed(m.children, "f").value))
  }

  /** The field any other member describes. */
  function FieldOf(m: Elem): Field
    requires !IsMethodMember(m) && WellFormedMember(m)
  {
    Field(m.name, Resolve(m.children[0]), IsPublic(m))
  }

  /** A method's type is a function type exactly when its `f` child, once a wrapper is
      dropped, is tagged `f`; for an `f` child that is no array wrapper it is that
      child's function type, so printing the method does not crash on `type.args`. */
  lemma MethodType(m: Elem)
    requires IsMethodMember(m) && WellFormedMember(m)
    ensures var f := ChildNamed(m.children, "f").value;
            f.name == "f" &&
            (MethodOf(m).ty.Function? <==> Target(f).name == "f") &&
            (!IsArrayWrapper(f) ==> WellFormedFunction(f) && MethodOf(m).ty == FunctionType(f))
  {
    var f := ChildNamed(m.children, "f").value;
    ResolvedKinds(f);
    if !IsArrayWrapper(f) {
      assert Target(f) == f;
      ResolvesToFunction(f);
    }
  }

  /** The methods among `cs` whose static flag is `isStatic`, in document order. */
  function Methods(cs: seq<Elem>, isStatic: bool): seq<Method>
    requires MembersWellFormed(cs)
    decreases |cs|
  {
    if cs == [] then []
    else
      var m := cs[|cs| - 1];
      Methods(cs[..|cs| - 1], isStatic) +
      (if IsMember(m) && IsMethodMember(m) && IsStatic(m) == isStatic then [MethodOf(m)] else [])
  }

  /** The fields among `cs` whose static flag is `isStatic`, in document order. */
  function Fields(cs: seq<Elem>, isStatic: bool): seq<Field>
    requires MembersWellFormed(cs)
    decreases |cs|
  {
    if cs == [] then []
    else
      var m := cs[|cs| - 1];
      Fields(cs[..|cs| - 1], isStatic) +
      (if IsMember(m) && !IsMethodMember(m) && IsStatic(m) == isStatic then [FieldOf(m)] else [])
  }

  /** The `path` attribute of the last `extends` child (null when there is none). */
  function Parent(cs: seq<Elem>): Option<string>
    decreases |cs|
  {
    if cs == [] then None
    else if cs[|cs| - 1].name == "extends" then Attr(cs[|cs| - 1], "path")
    else Parent(cs[..|cs| - 1])
  }

  /** The class the extractor builds from a class element. */
  function ClassOf(e: Elem): HaxeClass
    requires WellFormedClass(e)
  {
    var path := e.attr["path"];
    HaxeClass(path, LastPart(path, '.'), Parent(e.children),
              Methods(e.children, false), Fields(e.children, false),
              Methods(e.children, true), Fields(e.children, true))
  }

  /** The class-building part of src/index.ts:133-190: one pass over the children,
      pushing each member onto its list. */
  method ExtractClass(e: Elem) returns (c: HaxeClass)
    requires WellFormedClass(e)
    ensures c == ClassOf(e)
  {
    var path := e.attr["path"];
    var methods, fields, staticMethods, staticFields := [], [], [], [];
    var parent: Option<string> := None;
    var i := 0;
    while i < |e.children|
      invariant 0 <= i <= |e.children|
      invariant MembersWellFormed(e.children[..i])
      invariant parent == Parent(e.children[..i])
      invariant methods == Methods(e.children[..i], false) && staticMethods == Methods(e.children[..i], true)
      invariant fields == Fields(e.children[..i], false) && staticFields == Fields(e.children[..i], true)
    {
      var m := e.children[i];
      ChildStep(e.children, i);
      assert m in e.children;
      if m.name == "extends" {
        parent := Attr(m, "path");
      } else if m.name == "haxe_doc" || m.name == "meta" {
        // skipped
      } else {
        var isStatic := AttrIs(m, "static", "1");
        var isPublic := AttrIs(m, "public", "1");
        if AttrIs(m, "set", "method") {
          var fElem := ChildNamed(m.children, "f").value;
          var ty := CreateTypeFromTypeElem(fElem);
          var newMethod := Method(m.name, isPublic, ty);
          if isStatic {
            staticMethods := staticMethods + [newMethod];
          } else {
            methods := methods + [newMethod];
          }
        } else {
          var ty := CreateTypeFromTypeElem(m.children[0]);
          var newField := Field(m.name, ty, isPublic);
          if isStatic {
            staticFields := staticFields + [newField];
          } else {
            fields := fields + [newField];
          }
        }
      }
      i := i + 1;
    }
    assert e.children[..i] == e.children;
    c := HaxeClass(path, LastPart(path, '.'), parent, methods, fields, staticMethods, staticFields);
  }

  /** One more child read: the parent and the four lists of `cs[..i + 1]` are those of
      `cs[..i]` updated by the child `cs[i]`. */
  lemma ChildStep(cs: seq<Elem>, i: nat)
    requires MembersWellFormed(cs) && i < |cs|
    ensures MembersWellFormed(cs[..i]) && MembersWellFormed(cs[..i + 1])
    ensures var m, a, a' := cs[i], cs[..i], cs[..i + 1];
            Parent(a') == (if m.name == "extends" then Attr(m, "path") else Parent(a)) &&
            Methods(a', false) == Methods(a, false) + (if IsMember(m) && IsMethodMember(m) && !IsStatic(m) then [MethodOf(m)] else []) &&
            Methods(a', true) == Methods(a, true) + (if IsMember(m) && IsMethodMember(m) && IsStatic(m) then [MethodOf(m)] else []) &&
            Fields(a', false) == Fields(a, false) + (if IsMember(m) && !IsMethodMember(m) && !IsStatic(m) then [FieldOf(m)] else []) &&
            Fields(a', true) == Fields(a, true) + (if IsMember(m) && !IsMethodMember(m) && IsStatic(m) then [FieldOf(m)] else [])
  {
    var a' := cs[..i + 1];
    assert a'[..i] == cs[..i];
    forall x | x in a' ensures x in cs {
    }
    assert cs[i] in cs;
  }

  /** The method lists of a concatenation are the concatenated lists. */
  lemma {:induction false} MethodsAppend(a: seq<Elem>, b: seq<Elem>, isStatic: bool)
    requires MembersWellFormed(a + b)
    ensures Methods(a + b, isStatic) == Methods(a, isStatic) + Methods(b, isStatic)
    decreases |b|
  {
    if b == [] {
      assert a + b == a;
    } else {
      var b' := b[..|b| - 1];
      assert (a + b)[..|a + b| - 1] == a + b';
      MethodsAppend(a, b', isStatic);
    }
  }

  /** The field lists of a concatenation are the concatenated lists. */
  lemma {:induction false} FieldsAppend(a: seq<Elem>, b: seq<Elem>, isStatic: bool)
    requires MembersWellFormed(a + b)
    ensures Fields(a + b, isStatic) == Fields(a, isStatic) + Fields(b, isStatic)
    decreases |b|
  {
    if b == [] {
      assert a + b == a;
    } else {
      var b' := b[..|b| - 1];
      assert (a + b)[..|a + b| - 1] == a + b';
      FieldsAppend(a, b', isStatic);
    }
  }

  /** Each member lands in exactly one of the four lists, at the place its document
      position gives it: a method (`set="method"`) in the static or instance method list
      as `static="1"` says, anything else in the matching field list. */
  lemma MemberRouted(cs: seq<Elem>, i: nat, isStatic: bool)
    requires MembersWellFormed(cs) && i < |cs| && IsMember(cs[i])
    ensures MembersWellFormed(cs[..i]) && MembersWellFormed(cs[i + 1..])
    ensures var m, a, b := cs[i], cs[..i], cs[i + 1..];
            Methods(cs, isStatic) == Methods(a, isStatic) +
              (if IsMethodMember(m) && IsStatic(m) == isStatic then [MethodOf(m)] else []) + Methods(b, isStatic) &&
            Fields(cs, isStatic) == Fields(a, isStatic) +
              (if !IsMethodMember(m) && IsStatic(m) == isStatic then [FieldOf(m)] else []) + Fields(b, isStatic)
  {
    var m, a, b := cs[i], cs[..i], cs[i + 1..];
    assert cs == (a + [m]) + b;
    assert (a + [m])[..|a|] == a;
    assert [m][..0] == [];
    MethodsAppend(a + [m], b, isStatic);
    MethodsAppend(a, [m], isStatic);
    FieldsAppend(a + [m], b, isStatic);
    FieldsAppend(a, [m], isStatic);
  }

  /** The parent of a concatenation is that of its right part if that has an
      `extends` child, and that of its left part otherwise. */
  lemma {:induction false} ParentAppend(a: seq<Elem>, b: seq<Elem>)
    ensures Parent(a + b) == if HasExtends(b) then Parent(b) else Parent(a)
    decreases |b|
  {
    if b == [] {
      assert a + b == a;
    } else {
      assert (a + b)[..|a + b| - 1] == a + b[..|b| - 1];
      ParentAppend(a, b[..|b| - 1]);
    }
  }

  predicate HasExtends(cs: seq<Elem>) {
    exists i :: 0 <= i < |cs| && cs[i].name == "extends"
  }

  /** `haxe_doc` and `meta` children add nothing: removing one leaves the class as it
      was. */
  lemma SkippedChildAddsNothing(e: Elem, i: nat)
    requires WellFormedClass(e) && i < |e.children| && IsSkipped(e.children[i])
    ensures var e' := e.(children := e.children[..i] + e.children[i + 1..]);
            WellFormedClass(e') && ClassOf(e') == ClassOf(e)
  {
    var cs, a, b := e.children, e.children[..i], e.children[i + 1..];
    assert cs == a + [cs[i]] + b;
    SkippedMethodsUnchanged(a, cs[i], b, false);
    SkippedMethodsUnchanged(a, cs[i], b, true);
    SkippedFieldsUnchanged(a, cs[i], b, false);
    SkippedFieldsUnchanged(a, cs[i], b, true);
    SkippedParentUnchanged(a, cs[i], b);
  }

  /** The parts of a well-formed run of children around one child are well formed. */
  lemma PartsWellFormed(a: seq<Elem>, x: Elem, b: seq<Elem>)
    requires MembersWellFormed(a + [x] + b)
    ensures MembersWellFormed(a + [x]) && MembersWellFormed(a + b)
  {
    var whole := a + [x] + b;
    forall m | m in a + b && IsMember(m) ensures WellFormedMember(m) {
      assert m in whole;
    }
    forall m | m in a + [x] && IsMember(m) ensures WellFormedMember(m) {
      assert m in whole;
    }
  }

  /** A skipped child adds no method. */
  lemma SkippedMethodsUnchanged(a: seq<Elem>, x: Elem, b: seq<Elem>, isStatic: bool)
    requires MembersWellFormed(a + [x] + b) && IsSkipped(x)
    ensures MembersWellFormed(a + b)
    ensures Methods(a + [x] + b, isStatic) == Methods(a + b, isStatic)
  {
    PartsWellFormed(a, x, b);
    assert [x][..0] == [];
    assert Methods([x], isStatic) == [];
    MethodsAppend(a + [x], b, isStatic);
    MethodsAppend(a, [x], isStatic);
    assert Methods(a + [x], isStatic) == Methods(a, isStatic);
    MethodsAppend(a, b, isStatic);
  }

  /** A skipped child adds no field. */
  lemma SkippedFieldsUnchanged(a: seq<Elem>, x: Elem, b: seq<Elem>, isStatic: bool)
    requires MembersWellFormed(a + [x] + b) && IsSkipped(x)
    ensures MembersWellFormed(a + b)
    ensures Fields(a + [x] + b, isStatic) == Fields(a + b, isStatic)
  {
    PartsWellFormed(a, x, b);
    assert [x][..0] == [];
    assert Fields([x], isStatic) == [];
    FieldsAppend(a + [x], b, isStatic);
    FieldsAppend(a, [x], isStatic);
    assert Fields(a + [x], isStatic) == Fields(a, isStatic);
    FieldsAppend(a, b, isStatic);
  }

  lemma SkippedParentUnchanged(a: seq<Elem>, x: Elem, b: seq<Elem>)
    requires IsSkipped(x)
    ensures Parent(a + [x] + b) == Parent(a + b)
  {
    assert [x][..0] == [];
    assert !HasExtends([x]);
    ParentAppend(a, [x]);
    ParentAppend(a + [x], b);
    ParentAppend(a, b);
  }

  /** Without an `extends` child the parent is null. */
  lemma {:induction false} ParentWithoutExtends(cs: seq<Elem>)
    requires !HasExtends(cs)
    ensures Parent(cs) == None
    decreases |cs|
  {
    if cs != [] {
      var cs' := cs[..|cs| - 1];
      assert cs[|cs| - 1].name != "extends";
      forall i | 0 <= i < |cs'| ensures cs'[i].name != "extends" {
        assert cs'[i] == cs[i];
      }
      ParentWithoutExtends(cs');
    }
  }

  /** The parent is the `path` of the last `extends` child. */
  lemma {:induction false} ParentIsLastExtends(cs: seq<Elem>, i: nat)
    requires i < |cs| && cs[i].name == "extends"
    requires forall j :: i < j < |cs| ==> cs[j].name != "extends"
    ensures Parent(cs) == Attr(cs[i], "path")
    decreases |cs|
  {
    var n := |cs| - 1;
    if i < n {
      var cs' := cs[..n];
      assert cs[n].name != "extends";
      assert cs'[i] == cs[i];
      forall j | i < j < |cs'| ensures cs'[j].name != "extends" {
        assert cs'[j] == cs[j];
      }
      ParentIsLastExtends(cs', i);
    }
  }

  /** Root children not tagged `class` are logged and skipped. */
  predicate IsClassElem(x: Elem) {
    x.name == "class"
  }

  predicate WellFormedDocument(cs: seq<Elem>) {
    forall x :: x in cs && IsClassElem(x) ==> WellFormedClass(x)
  }

  /** Every entry of the registry is a class stored under its own path, whose short
      name is the last segment of that path. */
  ghost predicate WellKeyed(types: Dict<HaxeClass>) {
    types.Valid() &&
    forall k :: k in types.values ==> types.values[k].path == k && types.values[k].name == LastPart(k, '.')
  }

  /** The `types` dictionary once the root children `cs` have been processed. */
  function Registry(cs: seq<Elem>): (types: Dict<HaxeClass>)
    requires WellFormedDocument(cs)
    ensures WellKeyed(types)
    decreases |cs|
  {
    if cs == [] then EmptyDict()
    else
      var x := cs[|cs| - 1];
      var types := Registry(cs[..|cs| - 1]);
      if IsClassElem(x) then types.Put(x.attr["path"], ClassOf(x)) else types
  }

  /** `document.eachChild(...)` with `types[newClass.path] = newClass`. */
  method BuildRegistry(doc: Elem) returns (types: Dict<HaxeClass>)
    requires WellFormedDocument(doc.children)
    ensures types == Registry(doc.children)
  {
    types := EmptyDict();
    var i := 0;
    while i < |doc.children|
      invariant 0 <= i <= |doc.children|
      invariant WellFormedDocument(doc.children[..i])
      invariant types == Registry(doc.children[..i])
    {
      var elem := doc.children[i];
      assert elem in doc.children;
      assert doc.children[..i + 1][..i] == doc.children[..i];
      if elem.name == "class" {
        var newClass := ExtractClass(elem);
        types := types.Put(newClass.path, newClass);
      }
      i := i + 1;
    }
    assert doc.children[..i] == doc.children;
  }

  /** The registry holds exactly the paths of the class children. */
  lemma {:induction false} RegistryKeys(cs: seq<Elem>, k: string)
    requires WellFormedDocument(cs)
    ensures k in Registry(cs).values <==>
            exists i :: 0 <= i < |cs| && IsClassElem(cs[i]) && AttrIs(cs[i], "path", k)
    decreases |cs|
  {
    if cs != [] {
      var cs' := cs[..|cs| - 1];
      assert forall x :: x in cs' ==> x in cs;
      RegistryKeys(cs', k);
      assert forall i :: 0 <= i < |cs'| ==> cs'[i] == cs[i];
    }
  }

  /** A path that several class children share holds the class of the last of them:
      the last write wins. */
  lemma {:induction false} LastClassWins(cs: seq<Elem>, i: nat)
    requires WellFormedDocument(cs) && i < |cs| && IsClassElem(cs[i])
    requires forall j :: i < j < |cs| && IsClassElem(cs[j]) ==> !AttrIs(cs[j], "path", cs[i].attr["path"])
    ensures cs[i].attr["path"] in Registry(cs).values
    ensures WellFormedClass(cs[i]) && Registry(cs).values[cs[i].attr["path"]] == ClassOf(cs[i])
    decreases |cs|
  {
    assert cs[i] in cs;
    var cs' := cs[..|cs| - 1];
    assert forall x :: x in cs' ==> x in cs;
    if i < |cs| - 1 {
      assert cs'[i] == cs[i];
      LastClassWins(cs', i);
    }
  }
}
