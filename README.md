# haxetypes-to-typescript, modelled in Dafny

The translator reads the XML type dump the Haxe compiler writes for the `nape`
physics library. It turns that dump into a TypeScript declaration file in one pass,
through four stages, all in `src/index.ts`:

1. **Resolver.** `createTypeFromTypeElem` turns a type element into a `HaxeType`.
   - It drops one `Null<T>` wrapper and one `nape.TArray<T>` wrapper. The array wrapper sets `isArray`.
   - It classifies the element by its tag.
   - For a function element `f`, it builds the arguments and the return type. It then repairs the argument flags so that no optional argument comes before a required one.
2. **Extractor.** The `document.eachChild` body builds a `HaxeClass` from every `class` child of the document.
   - Each member goes to one of four lists: fields, static fields, methods or static methods.
   - The `extends` child gives the parent.
   - The class is stored in the global `types` dictionary under its path.
3. **Package tree.** After that, every registered class is placed in a tree of `Package` objects. The walk starts at the root and follows the leading parts of the dotted path, creating packages on the way. The class is stored in the package it reaches, under its short name.
4. **Emitter.** The emitter walks the tree. It pushes strings onto a global `buffer` and keeps an `indentationLevel` counter.
   - `printPackage` writes a module, `printType` a class, and `printType2` a type reference.
   - Only the root's `nape` and `zpp_nape` packages are written.
   - The file is `buffer.join('')`.

The model keeps the source's form:
- Pure computations are functions, for example `Resolver.Resolve` and the `EmitterText` functions, which return the exact list of pieces pushed onto the buffer.
- The code that changes objects or loops is imperative.
  - `Packages.Package` is a class with `childPackages` and `childTypes` fields.
  - The emitter is a class `Emitter.Emitter` with `buffer` and `indentationLevel` fields.
  - The extractor and the tree fold are methods with loops.
  - The optional-argument repair keeps its in-place loop over an array.
- Each method is proved against the function that describes its result. This means:
  - equal to it, or failing exactly when the function returns `None`;
  - and, for the package tree, preserving the tree invariant.
- Lemmas state the properties the program promises.

Modules and their files:
- `JsObjects` (`js_objects.dfy`): `Option` for `null`/`undefined`, and `Dict`, a JavaScript object used as a dictionary. `Dict` keeps the keys in insertion order, and an overwrite keeps the key's place.
- `Strings` (`strings.dfy`): `split`, `join` and `join('')`.
- `Xml` (`xml.dfy`): the parsed document.
- `HaxeTypes` (`haxe_types.dfy`): the type model.
- `Resolver`, `Extractor`, `Packages`, `EmitterText` and `Emitter`: the four stages.
- `Translator` (`translator.dfy`): the whole run.

The model follows the code at these points, which are easy to misread:
- Only one `Null` wrapper is dropped (src/index.ts:83). Resolution does not restart, so `Null<Null<T>>` resolves to a type named `Null`.
- `extends` prints the parent's full stored path, not its short name (src/index.ts:149, 301).
- An element that is not tagged `d`, `a` or `f` resolves to `NORMAL`, whatever it names (src/index.ts:122). The resolver never yields `CLASS`, so a class reference is printed by its path and does not fail.
- Child packages and classes are printed in the order their keys were inserted, not in lexical order (src/index.ts:227, 235). That order depends on the order of the registry.
- The root filter keeps `nape` and `zpp_nape` only (src/index.ts:388-392).

## Model

| member | source | states |
|---|---|---|
| JsObjects.Dict.Get | src/index.ts:221 | definition: `obj[k]`, undefined for an absent key |
| JsObjects.Dict.PutGet | src/index.ts:217-221 | after `obj[k] = v`, reading `k` gives `v`, and every other key reads as before |
| JsObjects.Dict.Put | src/index.ts:217 | the new dictionary maps `k` to `v` and keeps every other entry; a new key goes last, an existing key keeps its place |
| JsObjects.Dict.Elements | src/index.ts:226-228 | definition: `Object.keys(o).map(k => o[k])` |
| JsObjects.Dict.PutElements | src/index.ts:226-228 | after `obj[k] = v`, the values in key order are the old ones with `v` appended when `k` is new, and with `v` in the place of `k` when it is not |
| JsObjects.EmptyDict | src/index.ts:209-210 | `{}` has no keys and no entries |
| Strings.Split | src/index.ts:94 | `split` always yields at least one part, and no part contains the separator |
| Strings.JoinSplit | src/index.ts:243 | joining the parts of a split with the separator gives back the string |
| Strings.SplitWithoutSeparator | src/index.ts:243 | a string without the separator splits into itself alone |
| Strings.SplitAtSeparator | src/index.ts:94 | the text before the first separator is the first part, and the rest is split on |
| Strings.SplitInjective | src/index.ts:243 | two strings with the same parts are equal |
| Strings.LastPartIsSuffix | src/index.ts:92 | the last part (`slice(-1)[0]`) is the suffix after the last separator, and has no separator |
| Strings.InitLastInjective | src/index.ts:243-244 | a path is determined by its leading parts (after `pop`) and its popped last part |
| Strings.ConcatAppend | src/index.ts:394 | `join('')` of a buffer appended in two goes is the join of each part, concatenated |
| Strings.NatToString | src/index.ts:332 | `'' + i` is a non-empty string of decimal digits |
| Xml.Attr | src/index.ts:83 | definition: `elem.attr[key]`, undefined for an absent attribute |
| Xml.AttrIsLookup | src/index.ts:83 | `elem.attr[key] === value` holds exactly when the lookup gives that value; an absent attribute equals no string |
| Xml.ChildNamed | src/index.ts:163 | `childNamed(name)` is undefined exactly when no child has that tag; otherwise it is the first such child |
| HaxeTypes.KindOf | src/index.ts:27-40 | definition: the `kind` field of a type; `FUNCTION` for a function type |
| Resolver.AfterNull | src/index.ts:83 | dropping the `Null` wrapper gives the element itself or its first child |
| Resolver.Target | src/index.ts:83-89 | the classified element is the element, its first child, or its first child's first child |
| Resolver.StripOptional | src/index.ts:100 | definition: `replace(/^\?/, '')` |
| Resolver.MarkRoundTrip | src/index.ts:97-100 | a name is its `?` mark, when `[0] === '?'`, followed by the stripped name; stripping removes one character exactly when the name is marked |
| Resolver.LastRequired | src/index.ts:95-98 | `lastNonOptionalArg` is -1 or the index of a name without `?`, and every later name has `?` |
| Resolver.RepairOptional | src/index.ts:105-108 | definition: the flags at indices up to `k` cleared; what the repair achieves is stated by `Resolver.OptionalArgumentsRepaired` |
| Resolver.TagKind | src/index.ts:122 | definition: `d` gives `DYNAMIC`, `a` gives `ANONYMOUS`, any other tag `NORMAL` |
| Resolver.ShortName | src/index.ts:92 | definition: the last dotted part of a non-empty path, else null |
| Resolver.WellFormed | src/index.ts:81-125 | definition: what the resolver reads without crashing; each dropped wrapper has a child, and a reached `f` element has names for its arguments |
| Resolver.Resolve | src/index.ts:81-125 | the resolver never produces a `CLASS` type |
| Resolver.ResolvedKinds | src/index.ts:91-122 | a well-formed element resolves to a function type exactly when its target is tagged `f`, and only then has kind `FUNCTION`; otherwise its kind is the one its tag gives, never `CLASS` |
| Resolver.FunctionType | src/index.ts:93-117 | an `f` element resolves to a function type |
| Resolver.RawArguments | src/index.ts:96-104 | before the repair there is one argument per child but the last; `FunctionShape` states what each one holds |
| Resolver.CreateTypeFromTypeElem | src/index.ts:81-125 | the imperative resolver returns the type `Resolve` describes |
| Resolver.CreateFunctionType | src/index.ts:93-118 | the `f` branch, with its map and repair loop, returns the type `FunctionType` describes |
| Resolver.RepairInPlace | src/index.ts:106-108 | the loop over the argument array leaves the arguments the repair describes |
| Resolver.NullUnwrapped | src/index.ts:82-83 | `Null<T>` resolves as `T` does, when `T` is not itself a `Null` wrapper |
| Resolver.OnlyOneNullDropped | src/index.ts:83 | `Null<Null<T>>` resolves to the `NORMAL` type named `Null`: the wrapper is dropped only once |
| Resolver.ArrayUnwrapped | src/index.ts:84-89 | `nape.TArray<T>` resolves as `T` does with `isArray` set |
| Resolver.NullNotCheckedAfterArray | src/index.ts:83-89 | `nape.TArray<Null<T>>` resolves to an array of the type named `Null` |
| Resolver.KindPathName | src/index.ts:91-92 | tag `d` gives `DYNAMIC`, `a` gives `ANONYMOUS`, any other non-`f` tag `NORMAL`; the path is null for `a` and `d` and the `path` attribute otherwise; the name is the path's last dotted part |
| Resolver.OptionalArgumentsRepaired | src/index.ts:94-108 | after the repair an argument is optional exactly when its name and every later name start with `?` |
| Resolver.ResolvesToFunction | src/index.ts:93-117 | an element whose target is tagged `f` resolves to that element's function type, of kind `FUNCTION` |
| Resolver.FunctionShape | src/index.ts:94-117 | one argument per child but the last, in order, named by the `:`-split `a` attribute without its `?`, typed by its child, and flagged optional only when its name had `?`; the return type is the last child |
| Resolver.OptionalRepairExample | src/index.ts:94-108 | `a="a:?b:c:?d"` gives the flags `false,false,false,true` and the names `a,b,c,d` |
| Resolver.ExampleNames | src/index.ts:94 | `"a:?b:c:?d".split(':')` is `["a","?b","c","?d"]` |
| Resolver.ExampleFlags | src/index.ts:97-108 | for these names the repaired flags are `false,false,false,true` and the stripped names `a,b,c,d` |
| Extractor.MethodOf | src/index.ts:159-169 | definition: the member's tag, its `public="1"` flag, and its `f` child resolved |
| Extractor.FieldOf | src/index.ts:159-182 | definition: the member's tag, its first child resolved, and its `public="1"` flag |
| Extractor.MethodType | src/index.ts:163-169 | a method's type is a function type exactly when its `f` child, once a wrapper is dropped, is tagged `f`; without an array wrapper it is that child's function type |
| Extractor.Methods | src/index.ts:161-175 | definition: the methods among the children whose `static` flag matches, in document order |
| Extractor.Fields | src/index.ts:176-187 | definition: the fields among the children whose `static` flag matches, in document order |
| Extractor.Parent | src/index.ts:148-150 | definition: the `path` attribute of the last `extends` child, else null |
| Extractor.ClassOf | src/index.ts:133-190 | definition: the class built from a class element, with its path, short name, parent and four member lists |
| Extractor.ChildStep | src/index.ts:146-190 | reading one more child updates the parent for `extends`, and appends the child to the one list its `set` and `static` attributes choose, or to none |
| Extractor.ExtractClass | src/index.ts:133-190 | the loop over a class's children, pushing onto four lists, builds the class `ClassOf` describes |
| Extractor.MethodsAppend | src/index.ts:146-190 | the method lists of a run of children are the lists of its parts, concatenated: document order is kept |
| Extractor.FieldsAppend | src/index.ts:146-190 | the same for the field lists |
| Extractor.MemberRouted | src/index.ts:157-188 | a member lands in exactly one list: the methods (when `set="method"`) or the fields, static exactly when `static="1"`, at its document position |
| Extractor.ParentAppend | src/index.ts:148-150 | the parent of a run of children is that of its later part when that part has an `extends`, else that of its earlier part |
| Extractor.SkippedChildAddsNothing | src/index.ts:152-155 | removing a `haxe_doc` or `meta` child leaves the class unchanged |
| Extractor.PartsWellFormed | src/index.ts:146-190 | the children around one child of a well-formed class are well formed |
| Extractor.SkippedMethodsUnchanged | src/index.ts:152-155 | a skipped child adds no method |
| Extractor.SkippedFieldsUnchanged | src/index.ts:152-155 | a skipped child adds no field |
| Extractor.SkippedParentUnchanged | src/index.ts:152-155 | a skipped child does not change the parent |
| Extractor.ParentWithoutExtends | src/index.ts:141-150 | without an `extends` child the parent stays null |
| Extractor.ParentIsLastExtends | src/index.ts:148-150 | with an `extends` child, the parent is the `path` attribute of the last one |
| Extractor.Registry | src/index.ts:127-193 | every registry entry is a class stored under its own path, whose name is the path's last part |
| Extractor.BuildRegistry | src/index.ts:127-193 | the loop over the document's children builds the registry `Registry` describes |
| Extractor.RegistryKeys | src/index.ts:127-192 | a path is registered exactly when some `class` child has it; other root children are skipped |
| Extractor.LastClassWins | src/index.ts:192 | a path shared by several class children holds the class of the last of them |
| Packages.Package.constructor | src/index.ts:206-214 | a new package has the given name and parent and empty maps; a package with a parent registers itself there under its own name, and nothing else of the parent changes |
| Packages.Package.AddChildPackage | src/index.ts:216-218 | the child is stored under its name; the other fields are unchanged |
| Packages.Package.GetChildPackage | src/index.ts:220-224 | an existing child is returned and never replaced; a missing one is null without `create`, and with it a fresh empty package named `name`, whose parent is this package, stored under `name` |
| Packages.Package.ChildPackages | src/index.ts:226-228 | definition: the child packages in key order |
| Packages.Package.AddChildType | src/index.ts:230-232 | the class is stored under its short name; the other fields are unchanged |
| Packages.Package.ChildTypes | src/index.ts:234-236 | definition: the classes in key order |
| Packages.ChildPackagesAt | src/index.ts:226-228 | in a tree, the `i`-th of `getChildPackages()` of the package at `d` is the package at `d` plus the `i`-th key, named by that key with the package at `d` as parent; every package one step below `d` is listed |
| Packages.ChildTypesListed | src/index.ts:234-236 | in a tree, a class placed at its path is among `getChildTypes()` of its package |
| Packages.ShapeTreeInv | src/index.ts:195-250 | the invariant kept on snapshots gives the invariant on the packages: an unnamed root, every package at its own path, children linked under their names |
| Packages.PrefixInTree | src/index.ts:245-248 | every prefix of a path in the tree is in the tree |
| Packages.WalkFrom | src/index.ts:245-248 | walking `suf` from the package at `pre` reaches the package at `pre + suf` |
| Packages.WalkReaches | src/index.ts:245-248 | every package is reached from the root by walking its path through `childPackages` |
| Packages.Descend | src/index.ts:247 | `getChildPackage(v, true)` on the package at `d` yields the package at `d + [v]`; the tree invariant holds; existing packages and all classes stay; new packages are fresh and empty |
| Packages.WalkDown | src/index.ts:245-248 | the walk ends at the package whose path is the walked names; the tree invariant holds; nothing existing moves; new packages are fresh and empty |
| Packages.AddType | src/index.ts:249 | the package at `d` gains the class under its short name, and nothing else changes |
| Packages.Place | src/index.ts:242-249 | placing a class adds it, under its short name, to the package at its leading path parts; the classes of every other path are unchanged |
| Packages.EntriesAfterAdd | src/index.ts:245-249 | the classes after the walk and the addition are the old classes with the new one added at `d` |
| Packages.PlacedReachable | src/index.ts:241-250 | a placed class is found by walking from the root down its leading path parts and looking up its short name |
| Packages.BuildPackageTree | src/index.ts:239-250 | the fold builds a tree with an unnamed root; every registered class is placed at its path; every class in the tree comes from the registry, at its path; every package other than the root lies on the leading path parts of a registered class |
| Packages.RegisteredPaths | src/index.ts:241-248 | once every key is folded in, each package that lies on the leading parts of one of the keys lies on those of a registered class |
| Packages.EmptyRegistryTree | src/index.ts:239-250 | with no registered class the tree is the root alone |
| Packages.PlaceNext | src/index.ts:241-250 | one round of the fold keeps the tree invariant, and the classes of the first `i+1` keys are placed |
| Packages.EntriesPlaced | src/index.ts:241-250 | the fold's invariant on the snapshot gives the promise on the packages: each registered class is placed |
| Packages.FoldStep | src/index.ts:241-250 | one class of the fold keeps every earlier class placed (a later duplicate path overwrites), and places the new class |
| EmitterText.Indentation | src/index.ts:263-267 | `printIndent` pushes one four-space tab per positive level, and nothing for a level that is not positive |
| EmitterText.IndentationIsSpaces | src/index.ts:263-267 | the indentation at level `n` joins to exactly `4n` spaces |
| EmitterText.TypeReplacement | src/index.ts:381-386 | definition: the `typeReplacements` table, `Float` and `Int` to `number`, `Bool` to `bool`, `Void` to `void` |
| EmitterText.TypeText | src/index.ts:352-379 | definition: the pieces `printType2` pushes, or nothing where it throws |
| EmitterText.ParamName | src/index.ts:332 | definition: `arg.name \|\| '__' + i`, as also at line 359 |
| EmitterText.ArgText | src/index.ts:357-361 | definition: one argument, `, ` before all but the first, its name and type |
| EmitterText.FieldText | src/index.ts:305-320 | definition: a public field's line, nothing for a private one |
| EmitterText.MethodText | src/index.ts:321-342 | definition: a public method's signature line, nothing for a private one |
| EmitterText.ClassHead | src/index.ts:293-303 | definition: the class's opening line |
| EmitterText.ClassText | src/index.ts:292-349 | definition: the pieces `printType` pushes for a class |
| EmitterText.PackageHead | src/index.ts:270-284 | definition: the module's opening line and its imports |
| EmitterText.ImportLine | src/index.ts:277-283 | definition: the line `import <name> = module("<name>");` |
| EmitterText.PackageText | src/index.ts:269-290 | definition: the pieces `printPackage` pushes |
| EmitterText.RootText | src/index.ts:388-392 | definition: the pieces the root loop pushes for its first `n` children |
| EmitterText.Output | src/index.ts:394 | definition: `buffer.join('')` after the root loop, or nothing where it throws |
| EmitterText.PackagesTextJoined | src/index.ts:285 | the child-package loop writes its children's texts in order, and fails when one fails |
| EmitterText.RootTextJoined | src/index.ts:388-392 | the root loop writes its children's texts in order, and fails when one fails |
| EmitterText.JoinedDefined | src/index.ts:388-392 | a sequence of texts, as the root loop and the child-package loop (line 285) write them, joins exactly when none of them fails |
| EmitterText.ArgsTextDefined | src/index.ts:357-361 | an argument list prints exactly when every argument type prints, in a function type as in a method signature (lines 330-334) |
| EmitterText.FieldsTextDefined | src/index.ts:305-320 | a field list prints exactly when every field prints |
| EmitterText.MethodsTextDefined | src/index.ts:321-342 | a method list prints exactly when every method prints |
| EmitterText.TypesTextDefined | src/index.ts:286 | a class list prints exactly when every class prints |
| EmitterText.PackagesTextDefined | src/index.ts:285 | the child packages print exactly when each one does |
| EmitterText.RootTextDefined | src/index.ts:388-392 | the root loop completes exactly when each `nape`/`zpp_nape` child prints |
| EmitterText.TypeTextDefined | src/index.ts:352-379 | `printType2` throws exactly on a type that contains a kind other than `DYNAMIC`, `NORMAL` or a function type |
| EmitterText.MethodTextDefined | src/index.ts:321-342 | a public method prints exactly when it has a function type, every argument type prints, and so does its return type unless it is the constructor; a private method prints nothing |
| EmitterText.ClassTextDefined | src/index.ts:292-349 | `printType` throws exactly on a class with an unprintable public member |
| EmitterText.PackageTextDefined | src/index.ts:269-290 | `printPackage` throws exactly when some class below it is unprintable |
| EmitterText.ModuleKeyword | src/index.ts:270-272 | a module opens, after its indentation, with `declare module "<name>"` under the root (whose name is null) and `export module <name>` below, then ` {` |
| EmitterText.OutputDefined | src/index.ts:388-394 | the file is written exactly when every `nape`/`zpp_nape` package is printable |
| EmitterText.ArgsAgree | src/index.ts:330-361 | argument lists with the same names and types print alike; with `?` marks, when their flags agree too |
| EmitterText.FunctionTypeIgnoresOptional | src/index.ts:357-361 | inside a function type an argument's optional flag is not written |
| EmitterText.OptionalArgText | src/index.ts:331-332 | in a method signature an optional argument is written `name?: ` (or `__i?: `) before its type, after `, ` unless it is the first |
| EmitterText.MethodMarksOptional | src/index.ts:330-334 | in a method signature an optional argument is written `name?: ` before its type, after `, ` unless it is the first |
| EmitterText.ConstructorIgnoresReturnType | src/index.ts:324-340 | a method named `new` is written the same whatever its return type |
| EmitterText.PublicFields | src/index.ts:305-320 | the kept fields are all public |
| EmitterText.PublicMethods | src/index.ts:322 | the kept methods are all public; the method loop's `isPublic` test, as `PublicFields` is the field loops' |
| EmitterText.FieldsTextPublic | src/index.ts:305-320 | a field list prints as its public fields alone do |
| EmitterText.MethodsTextPublic | src/index.ts:321-342 | a method list prints as its public methods alone do |
| EmitterText.ClassTextPublicOnly | src/index.ts:292-349 | a class prints as its public fields, static fields and methods alone do; static methods are never written |
| EmitterText.NapeOnly | src/index.ts:388-392 | the kept root children are all `nape` or `zpp_nape` |
| EmitterText.RootTextPrefix | src/index.ts:388-392 | the root loop's first `n` rounds depend only on the first `n` children |
| EmitterText.RootTextNapeOnly | src/index.ts:388-392 | the root loop writes what it would write for its `nape`/`zpp_nape` children alone |
| EmitterText.OutputNapeOnly | src/index.ts:388-394 | root packages other than `nape` and `zpp_nape` leave the file as it would be without them |
| EmitterText.FunctionTypeExample | src/index.ts:352-386 | `(Int, ?Dynamic[]) -> Void` with an unnamed first argument prints as `(__0: number, cb: any[]) => void` |
| EmitterText.Vec2FieldsExample | src/index.ts:305-312 | a public `Float` field prints as `public x: number;` and a private one not at all |
| EmitterText.Vec2ConstructorExample | src/index.ts:321-341 | the constructor prints as `constructor(x?: number);` without its `Void` return type |
| EmitterText.Vec2LengthExample | src/index.ts:321-341 | a method prints as `public length(): number;` |
| EmitterText.Vec2MethodsExample | src/index.ts:321-342 | the method list prints the constructor, then the method |
| EmitterText.Vec2ClassExample | src/index.ts:292-349 | the whole class prints as `export class Vec2 extends nape.geom.Base {`, then its public field and methods, then `}` |
| Emitter.AbsKidsAt | src/index.ts:226-228 | the `i`th child value is the value of the package under the `i`th key |
| Emitter.AbsChild | src/index.ts:285 | the `i`th child of a package is the package at its path plus the `i`th key |
| Emitter.Emitter.constructor | src/index.ts:252-253 | the buffer starts empty, at level 0 |
| Emitter.Emitter.Indent | src/index.ts:254-256 | the level goes up by one; the buffer is unchanged |
| Emitter.Emitter.Outdent | src/index.ts:257-259 | the level goes down by one; the buffer is unchanged |
| Emitter.Emitter.Print | src/index.ts:260-262 | the string is appended to the buffer; the level is unchanged |
| Emitter.Emitter.PrintIndent | src/index.ts:263-267 | the loop appends the indentation of the current level; the level is unchanged |
| Emitter.Emitter.PrintType2 | src/index.ts:352-379 | the level is unchanged; it fails exactly where the source throws, and otherwise appends the type reference's text |
| Emitter.Emitter.PrintArg | src/index.ts:358-360 | one argument, in a function type or, with `?` marks, a method signature (lines 331-333): fails exactly where its type throws, else appends its text; the level is unchanged |
| Emitter.Emitter.PrintArgs | src/index.ts:357-361 | the argument loop of a function type or of a method signature (lines 330-334): fails exactly where an argument throws, else appends the list's text |
| Emitter.Emitter.PrintField | src/index.ts:306-311 | one field: nothing when private, else its line; fails exactly where its type throws |
| Emitter.Emitter.PrintFields | src/index.ts:305-320 | the field loop appends the fields' text, and fails exactly when a field throws |
| Emitter.Emitter.PrintMethod | src/index.ts:322-341 | one method: nothing when private, `constructor(...)` for `new`, else the signature with its return type; fails exactly where it throws |
| Emitter.Emitter.PrintMethods | src/index.ts:321-342 | the method loop appends the methods' text, and fails exactly when a method throws |
| Emitter.Emitter.PrintClassHead | src/index.ts:293-303 | appends the class's opening line: the name, and `extends` with the stored path when the parent is non-empty |
| Emitter.Emitter.PrintType | src/index.ts:292-349 | `printType` leaves the level as it found it, and appends the class's text or fails exactly when that throws |
| Emitter.Emitter.PrintTypes | src/index.ts:286 | the class loop appends the classes' text in order, and fails exactly when one throws |
| Emitter.Emitter.PrintPackageHead | src/index.ts:270-284 | appends the module's opening line and imports, and raises the level by one |
| Emitter.Emitter.PrintPackage | src/index.ts:269-290 | `printPackage` leaves the level as it found it, and appends the text of the package with everything below it, or fails exactly when some class below it throws |
| Emitter.Emitter.PrintPackageBody | src/index.ts:285-289 | appends the child packages, then the classes, then the closing brace, and lowers the level by one; fails exactly when some class below throws |
| Emitter.Emitter.PrintChildPackage | src/index.ts:285 | one child package: appends its text or fails exactly when it throws, as the abstract text of that child says |
| Emitter.Emitter.PrintChildPackages | src/index.ts:285 | the child-package loop appends the children's texts in order, and fails exactly when one throws |
| Emitter.Emitter.PrintPackages | src/index.ts:285 | the child packages of the package at `d`, as `PackagesText` describes |
| Emitter.Emitter.PrintRootChild | src/index.ts:388-392 | a root child outside `nape`/`zpp_nape` adds nothing; any other is printed as a top-level module |
| Emitter.Emitter.PrintRootChildren | src/index.ts:388-392 | the root loop appends each kept child's text in order, and fails exactly when one throws |
| Emitter.Emitter.PrintRoot | src/index.ts:388-392 | the whole tree is printed as `RootText` describes; the level is unchanged |
| Emitter.RootAloneOutput | src/index.ts:388-394 | a tree that holds the root alone prints to the empty file |
| Translator.PrintTree | src/index.ts:388-394 | printing the built tree with a fresh emitter gives the text `Output` describes, or nothing where a print throws |
| Translator.Translate | src/index.ts:127-394 | the file text is `Output` of the tree built from the document; the tree holds every registered class at its path and no other class, and every package in it lies on the way to a registered class's package; a document without classes gives the empty file |

## Left out

- Command-line parsing with `nomnom` (src/index.ts:4-23) is left out. It only supplies the input and output file names.
- Reading and parsing the input file (src/index.ts:25) is left out. The parsed document is the `Xml.Elem` value `Translator.Translate` takes.
- Writing the file (src/index.ts:394) is left out. The model describes the joined text, `Output`.
- The `console.log` for a root child that is not a class (src/index.ts:129) is left out. The child is simply skipped.
- Text and comment nodes of the XML document are not modelled. `xmldoc`'s `eachChild` and `children` only visit elements, and the model's children are elements.
- JavaScript's `Object.keys` puts integer-like keys first, and a plain-object lookup can reach inherited properties such as `constructor`. This affects `this.childPackages[name]` (src/index.ts:221), `typeReplacements[type.path] || type.path` (src/index.ts:372) and `types[newClass.path]` (src/index.ts:192). `Dict` models neither: it keeps plain insertion order, with no prototype.
- Crashes on malformed input are preconditions, not modelled failures: a missing `path` or `a` attribute, too few argument names, a missing child, or a method without an `f` child. See `Resolver.WellFormed`, `Resolver.WellFormedFunction` and `Extractor.WellFormedDocument`.
- The `export var … : TODOTODOTODO` branch of `printType` (src/index.ts:296, 347) is not modelled. The registry only ever holds classes (src/index.ts:192), so this branch cannot be reached.
- A `throw` in `printType2` (src/index.ts:377) is a `None` text or a `false` result. The source aborts the whole run, so no file is written. The buffer's contents after the throw are not described.
- A null package name concatenated into a string is written `null` (`EmitterText.NameText`). In the tree only the root is unnamed, and the root is never printed.
- Packages.BuildPackageTree: the contract does not state the key order of the created child packages. Keys are placed in insertion order; this is stated for each `Put` but not summarised across the fold.
- Translator.Translate: the contract relates the text to the tree the fold built, read off as a value. It does not restate the tree as a function of the document alone.
