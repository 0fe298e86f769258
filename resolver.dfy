/** The type-expression resolver `createTypeFromTypeElem`: turns one type element of
    the dump into a `HaxeType`, dropping a `Null<T>` wrapper, turning `nape.TArray<T>`
    into an array flag, and reading function types with their argument names. */
module Resolver {
  import opened JsObjects
  import opened Strings
  import opened Xml
  import opened HaxeTypes

  /** The path of Haxe's nullable wrapper `Null<T>` (tag `t`). */
  const NullPath := "Null"
  /** The path of the array wrapper `nape.TArray<T>`. */
  const ArrayPath := "nape.TArray"

  predicate IsNullWrapper(e: Elem) {
    e.name == "t" && AttrIs(e, "path", NullPath)
  }

  predicate IsArrayWrapper(e: Elem) {
    AttrIs(e, "path", ArrayPath)
  }

  /** The element left once a `Null` wrapper is dropped. */
  function AfterNull(e: Elem): (r: Elem)
    requires IsNullWrapper(e) ==> |e.children| >= 1
    ensures r == e || (|e.children| >= 1 && r == e.children[0])
  {
    if IsNullWrapper(e) then e.children[0] else e
  }

  /** Whether the type carries the array flag: its element, once a `Null` wrapper is
      dropped, is an array wrapper. */
  predicate IsArrayType(e: Elem)
    requires IsNullWrapper(e) ==> |e.children| >= 1
  {
    IsArrayWrapper(AfterNull(e))
  }

  /** Both wrappers can be dropped: each one that is present has a child. */
  predicate Unwrappable(e: Elem) {
    (IsNullWrapper(e) ==> |e.children| >= 1) &&
    (IsArrayType(e) ==> |AfterNull(e).children| >= 1)
  }

  /** The element that is finally classified: at most one `Null` wrapper and then at
      most one array wrapper removed, in that order. */
  function Target(e: Elem): (r: Elem)
    requires Unwrappable(e)
    ensures r == e || (|e.children| >= 1 && (r == e.children[0] ||
              (|e.children[0].children| >= 1 && r == e.children[0].children[0])))
  {
    var e1 := AfterNull(e);
    if IsArrayWrapper(e1) then e1.children[0] else e1
  }

  /** The argument names of a function element: its `a` attribute split on `:`. */
  function ArgNames(u: Elem): seq<string>
    requires "a" in u.attr
  {
    Split(u.attr["a"], ':')
  }

  /** What the resolver needs so as not to crash: every wrapper it drops has a child,
      and a function element it reaches is well formed. */
  predicate WellFormed(e: Elem)
    decreases e, 1
  {
    Unwrappable(e) && (Target(e).name == "f" ==> WellFormedFunction(Target(e)))
  }

  /** A function element has an `a` attribute, at least one child (its return type),
      an argument name for every other child, and well-formed children. */
  predicate WellFormedFunction(u: Elem)
    decreases u, 0
  {
    "a" in u.attr && |u.children| >= 1 && |ArgNames(u)| >= |u.children| - 1 &&
    forall c :: c in u.children ==> WellFormed(c)
  }

  /** `argNames[i][0] === '?'` */
  predicate IsOptionalName(s: string) {
    |s| > 0 && s[0] == '?'
  }

  /** `argName.replace(/^\?/, '')`: removes one leading question mark. */
  function StripOptional(s: string): string {
    if IsOptionalName(s) then s[1..] else s
  }

  /** Putting back the mark a name had gives the name again: nothing but the one
      leading `?` is removed, and the mark can be read off the original name. */
  lemma MarkRoundTrip(s: string)
    ensures (if IsOptionalName(s) then "?" else "") + StripOptional(s) == s
    ensures |StripOptional(s)| == |s| - (if IsOptionalName(s) then 1 else 0)
  {
  }

  /** `lastNonOptionalArg` once the first `n` arguments are read: the last index below
      `n` whose name is not `?`-marked, or -1 when there is none. */
  function LastRequired(names: seq<string>, n: nat): (k: int)
    requires n <= |names|
    ensures -1 <= k < n
    ensures k >= 0 ==> !IsOptionalName(names[k])
    ensures forall j :: k < j < n ==> IsOptionalName(names[j])
    decreases n
  {
    if n == 0 then -1
    else if !IsOptionalName(names[n - 1]) then n - 1
    else LastRequired(names, n - 1)
  }

  /** Clears the optional flag of every argument at an index up to `k`. */
  function RepairOptional(args: seq<Argument>, k: int): seq<Argument> {
    seq(|args|, i requires 0 <= i < |args| => if i <= k then args[i].(optional := false) else args[i])
  }

  /** `HaxeTypeKind` of a non-function element, decided by its tag. */
  function TagKind(tag: string): Kind {
    if tag == "d" then DYNAMIC else if tag == "a" then ANONYMOUS else NORMAL
  }

  /** `path ? path.split('.').slice(-1)[0] : null` */
  function ShortName(path: Option<string>): Option<string> {
    if path.Some? && path.value != "" then Some(LastPart(path.value, '.')) else None
  }

  /** The type `createTypeFromTypeElem` returns for a well-formed element. */
  function Resolve(e: Elem): (t: HaxeType)
    requires WellFormed(e)
    ensures KindOf(t) != CLASS
    decreases e, 2
  {
    var u := Target(e);
    if u.name == "f" then FunctionType(u)
    else
      var path := if u.name == "a" || u.name == "d" || u.name == "f" then None else Attr(u, "path");
      Named(TagKind(u.name), path, ShortName(path), IsArrayType(e))
  }

  /** The type of a function element `f`: one argument per child but the last, the
      last child as return type, optional flags repaired. */
  function FunctionType(u: Elem): (t: HaxeType)
    requires WellFormedFunction(u)
    ensures t.Function?
    decreases u, 1
  {
    var n := |u.children| - 1;
    Function(RepairOptional(RawArguments(u), LastRequired(ArgNames(u), n)), Resolve(u.children[n]))
  }

  /** The `map` at src/index.ts:96-104, before the repair: argument `i` takes the
      `i`-th name and the type of the `i`-th child. */
  function RawArguments(u: Elem): (args: seq<Argument>)
    requires WellFormedFunction(u)
    ensures |args| == |u.children| - 1
    decreases u, 0
  {
    var names := ArgNames(u);
    seq(|u.children| - 1, i requires 0 <= i < |u.children| - 1 =>
          Argument(StripOptional(names[i]), Resolve(u.children[i]), IsOptionalName(names[i])))
  }

  /** `createTypeFromTypeElem` */
  method CreateTypeFromTypeElem(e: Elem) returns (t: HaxeType)
    requires WellFormed(e)
    ensures t == Resolve(e)
    decreases e, 2
  {
    var elem := e;
    if elem.name == "t" && AttrIs(elem, "path", NullPath) {
      elem := elem.children[0];
    }
    var isArray := false;
    if AttrIs(elem, "path", ArrayPath) {
      isArray := true;
      elem := elem.children[0];
    }
    assert elem == Target(e) && isArray == IsArrayType(e);
    var path := if elem.name == "a" || elem.name == "d" || elem.name == "f" then None else Attr(elem, "path");
    var name := if path.Some? && path.value != "" then Some(LastPart(path.value, '.')) else None;
    if elem.name == "f" {
      t := CreateFunctionType(elem);
      return;
    }
    var kind := if elem.name == "d" then DYNAMIC else if elem.name == "a" then ANONYMOUS else NORMAL;
    return Named(kind, path, name, isArray);
  }

  /** The `if(elem.name === 'f')` block of `createTypeFromTypeElem`. */
  method CreateFunctionType(elem: Elem) returns (t: HaxeType)
    requires WellFormedFunction(elem)
    ensures t == FunctionType(elem)
    decreases elem, 1
  {
    var argNames := Split(elem.attr["a"], ':');
    var n := |elem.children| - 1;
    var lastNonOptionalArg := -1;
    var args := new Argument[n];
    var i := 0;
    while i < n
      invariant 0 <= i <= n
      invariant lastNonOptionalArg == LastRequired(argNames, i)
      invariant forall k :: 0 <= k < i ==> args[k] == RawArguments(elem)[k]
    {
      var optional := IsOptionalName(argNames[i]);
      if !optional {
        lastNonOptionalArg := i;
      }
      var ty := CreateTypeFromTypeElem(elem.children[i]);
      args[i] := Argument(StripOptional(argNames[i]), ty, optional);
      i := i + 1;
    }
    RepairInPlace(args, lastNonOptionalArg);
    var returnType := CreateTypeFromTypeElem(elem.children[n]);
    return Function(args[..], returnType);
  }

  /** The loop at src/index.ts:106-108: optional arguments may not precede required
      ones, so every flag up to the last required argument is cleared. */
  method RepairInPlace(args: array<Argument>, lastNonOptionalArg: int)
    requires lastNonOptionalArg < args.Length
    modifies args
    ensures args[..] == RepairOptional(old(args[..]), lastNonOptionalArg)
  {
    var i := 0;
    while i <= lastNonOptionalArg
      invariant 0 <= i <= args.Length
      invariant if lastNonOptionalArg < 0 then i == 0 else i <= lastNonOptionalArg + 1
      invariant forall k :: 0 <= k < args.Length ==>
        args[k] == if k < i then old(args[k]).(optional := false) else old(args[k])
    {
      args[i] := args[i].(optional := false);
      i := i + 1;
    }
    assert forall k :: 0 <= k < args.Length ==> args[k] == RepairOptional(old(args[..]), lastNonOptionalArg)[k];
  }

  /** A `Null<T>` wrapper is transparent: `Null<T>` resolves as `T` does, provided `T`
      is not itself a `Null` wrapper. */
  lemma NullUnwrapped(e: Elem)
    requires WellFormed(e) && IsNullWrapper(e) && !IsNullWrapper(e.children[0])
    ensures WellFormed(e.children[0]) && Resolve(e) == Resolve(e.children[0])
  {
  }

  /** Only one level of `Null` is dropped: `Null<Null<T>>` resolves to the inner
      wrapper read as a plain type named `Null`. */
  lemma OnlyOneNullDropped(e: Elem)
    requires WellFormed(e) && IsNullWrapper(e) && IsNullWrapper(e.children[0])
    ensures Resolve(e) == Named(NORMAL, Some(NullPath), Some(NullPath), false)
  {
    SplitWithoutSeparator(NullPath, '.');
  }

  /** `nape.TArray<T>` resolves as `T` does with the array flag set, provided `T` is
      neither wrapper; on a function type the flag is dropped. */
  lemma ArrayUnwrapped(e: Elem)
    requires WellFormed(e) && !IsNullWrapper(e) && IsArrayWrapper(e)
    requires !IsNullWrapper(e.children[0]) && !IsArrayWrapper(e.children[0])
    ensures var c := e.children[0];
            WellFormed(c) &&
            (Resolve(c).Named? ==> !Resolve(c).isArray && Resolve(e) == Resolve(c).(isArray := true)) &&
            (Resolve(c).Function? ==> Resolve(e) == Resolve(c))
  {
  }

  /** `Null` is not looked for again after the array wrapper: `nape.TArray<Null<T>>`
      resolves to an array of a plain type named `Null`. */
  lemma NullNotCheckedAfterArray(e: Elem)
    requires WellFormed(e) && IsArrayType(e) && IsNullWrapper(Target(e))
    ensures Resolve(e) == Named(NORMAL, Some(NullPath), Some(NullPath), true)
  {
    SplitWithoutSeparator(NullPath, '.');
  }

  /** A non-function target is classified by its tag alone (`d` dynamic, `a` anonymous,
      anything else normal); its path is its `path` attribute except for `a`, `d` and `f`;
      its name is the text after the last `.` of a non-empty path; and its array flag is
      set exactly when an array wrapper was dropped. */
  lemma KindPathName(e: Elem)
    requires WellFormed(e) && Target(e).name != "f"
    ensures var u := Target(e);
            var t := Resolve(e);
            t.Named? &&
            (t.kind == DYNAMIC <==> u.name == "d") &&
            (t.kind == ANONYMOUS <==> u.name == "a") &&
            (t.kind == NORMAL <==> u.name != "d" && u.name != "a") &&
            t.path == (if u.name == "a" || u.name == "d" then None else Attr(u, "path")) &&
            (t.name.Some? <==> t.path.Some? && t.path.value != "") &&
            (t.name.Some? ==>
               var p, n := t.path.value, t.name.value;
               '.' !in n && |n| <= |p| && p[|p| - |n|..] == n && (|n| < |p| ==> p[|p| - |n| - 1] == '.')) &&
            t.isArray == IsArrayType(e)
  {
    var t := Resolve(e);
    if t.name.Some? {
      LastPartIsSuffix(t.path.value, '.');
    }
  }

  /** After the repair an argument is optional exactly when it and every argument after
      it carry a `?` in the source, so no optional argument precedes a required one. */
  lemma {:induction false} OptionalArgumentsRepaired(u: Elem)
    requires WellFormedFunction(u)
    ensures var t := FunctionType(u);
            var names := ArgNames(u);
            var n := |u.children| - 1;
            |t.args| == n &&
            (forall i :: 0 <= i < n ==>
               (t.args[i].optional <==> forall j :: i <= j < n ==> IsOptionalName(names[j]))) &&
            (forall i, j :: 0 <= i < j < n && t.args[i].optional ==> t.args[j].optional)
  {
    var t := FunctionType(u);
    var names := ArgNames(u);
    var n := |u.children| - 1;
    var k := LastRequired(names, n);
    forall i | 0 <= i < n
      ensures t.args[i].optional <==> forall j :: i <= j < n ==> IsOptionalName(names[j])
    {
      if i <= k {
        assert !t.args[i].optional;
        assert !IsOptionalName(names[k]);
      } else {
        assert t.args[i] == RawArguments(u)[i];
      }
    }
  }

  /** A type element whose target is tagged `f` resolves to that function element's
      type, whatever wrappers were dropped on the way. */
  lemma ResolvesToFunction(e: Elem)
    requires WellFormed(e) && Target(e).name == "f"
    ensures WellFormedFunction(Target(e)) && Resolve(e) == FunctionType(Target(e))
    ensures KindOf(Resolve(e)) == FUNCTION
  {
  }

  /** The kind of a resolved type agrees with its shape: it is `FUNCTION` exactly for
      a function type, which is what a target tagged `f` gives; a named type takes
      the kind its tag gives, and is never `CLASS`. */
  lemma ResolvedKinds(e: Elem)
    requires WellFormed(e)
    ensures Resolve(e).Function? <==> Target(e).name == "f"
    ensures KindOf(Resolve(e)) == FUNCTION <==> Resolve(e).Function?
    ensures Resolve(e).Named? ==> Resolve(e).kind == TagKind(Target(e).name) && Resolve(e).kind != CLASS
  {
  }

  /** A function element resolves to a `FUNCTION` with one argument per child but the
      last, in order, named by the `a` attribute with one leading `?` removed; the last
      child is the return type; the repair only ever clears optional flags. */
  lemma FunctionShape(u: Elem)
    requires WellFormedFunction(u)
    ensures var t := FunctionType(u);
            var names := ArgNames(u);
            var n := |u.children| - 1;
            |t.args| == n &&
            (forall i :: 0 <= i < n ==>
               t.args[i].name == StripOptional(names[i]) &&
               t.args[i].ty == Resolve(u.children[i]) &&
               (t.args[i].optional ==> IsOptionalName(names[i]))) &&
            t.returnType == Resolve(u.children[n])
  {
    var t := FunctionType(u);
    forall i | 0 <= i < |u.children| - 1
      ensures t.args[i].name == StripOptional(ArgNames(u)[i]) && t.args[i].ty == Resolve(u.children[i])
      ensures t.args[i].optional ==> IsOptionalName(ArgNames(u)[i])
    {
      assert u.children[i] in u.children;
      assert t.args[i].name == RawArguments(u)[i].name;
    }
  }

  /** `f a="a:?b:c:?d"` with four argument types: the flags come out
      `[false, false, false, true]`. */
  lemma OptionalRepairExample(ty: Elem)
    requires WellFormed(ty)
    ensures var f := Elem("f", map["a" := "a:?b:c:?d"], [ty, ty, ty, ty, ty]);
            WellFormed(f) &&
            var t := Resolve(f);
            t.Function? && |t.args| == 4 &&
            [t.args[0].optional, t.args[1].optional, t.args[2].optional, t.args[3].optional]
              == [false, false, false, true] &&
            [t.args[0].name, t.args[1].name, t.args[2].name, t.args[3].name] == ["a", "b", "c", "d"]
  {
    var f := Elem("f", map["a" := "a:?b:c:?d"], [ty, ty, ty, ty, ty]);
    assert !IsNullWrapper(f) && !IsArrayWrapper(f) && Target(f) == f;
    ExampleNames();
    assert WellFormedFunction(f);
    OptionalArgumentsRepaired(f);
    FunctionShape(f);
    ResolvesToFunction(f);
    ExampleFlags(FunctionType(f).args, ArgNames(f));
  }

  lemma ExampleNames()
    ensures Split("a:?b:c:?d", ':') == ["a", "?b", "c", "?d"]
  {
    var first, rest := "a", "?b:c:?d";
    assert "a:?b:c:?d" == first + [':'] + rest by {
      assert |first + [':'] + rest| == 9;
    }
    SplitAtSeparator(first, rest, ':');
    ExampleLaterNames();
  }

  /** The names after the first. */
  lemma ExampleLaterNames()
    ensures Split("?b:c:?d", ':') == ["?b", "c", "?d"]
  {
    assert "?b:c:?d" == "?b" + [':'] + "c:?d";
    SplitAtSeparator("?b", "c:?d", ':');
    ExampleTailNames();
  }

  /** The last two names of the example. */
  lemma ExampleTailNames()
    ensures Split("c:?d", ':') == ["c", "?d"]
  {
    assert "c:?d" == "c" + [':'] + "?d";
    SplitAtSeparator("c", "?d", ':');
    SplitWithoutSeparator("?d", ':');
  }

  lemma ExampleFlags(args: seq<Argument>, names: seq<string>)
    requires names == ["a", "?b", "c", "?d"] && |args| == 4
    requires forall i :: 0 <= i < 4 ==> args[i].name == StripOptional(names[i])
    requires forall i :: 0 <= i < 4 ==> (args[i].optional <==> forall j :: i <= j < 4 ==> IsOptionalName(names[j]))
    ensures [args[0].optional, args[1].optional, args[2].optional, args[3].optional] == [false, false, false, true]
    ensures [args[0].name, args[1].name, args[2].name, args[3].name] == ["a", "b", "c", "d"]
  {
    assert !IsOptionalName(names[2]) && IsOptionalName(names[3]);
    assert !args[0].optional && !args[1].optional && !args[2].optional && args[3].optional;
    assert "?b"[1..] == "b" && "?d"[1..] == "d";
  }
}
